/** uint64_to_string (kernel/kernel.c:7-26). */
module Decimal {

  function Digit(d: nat): char
    requires d < 10
  {
    ('0' as int + d) as char
  }

  /** The digits of n, none for 0. */
  function Digits(n: nat): string {
    if n == 0 then "" else Digits(n / 10) + [Digit(n % 10)]
  }

  function Numeral(n: nat): string { if n == 0 then "0" else Digits(n) }

  predicate AllDigits(s: string) {
    forall i :: 0 <= i < |s| ==> '0' <= s[i] <= '9'
  }

  /** What a decimal numeral denotes. */
  function Parse(s: string): nat
    requires AllDigits(s)
  {
    if s == "" then 0 else 10 * Parse(s[..|s| - 1]) + (s[|s| - 1] as int - '0' as int)
  }

  /** A numeral as people write it: at least one digit, no leading zero except in "0". */
  predicate IsNumeral(s: string) {
    s != "" && AllDigits(s) && (s[0] == '0' ==> s == "0")
  }

  lemma {:induction false} DigitsParse(n: nat)
    ensures AllDigits(Digits(n)) && Parse(Digits(n)) == n
    ensures n > 0 ==> Digits(n) != "" && Digits(n)[0] != '0'
  {
    if n > 0 {
      DigitsParse(n / 10);
      assert Digits(n)[..|Digits(n)| - 1] == Digits(n / 10);
    }
  }

  /** The text parses back to the value and has no superfluous zero. */
  lemma ParseOfNumeral(n: nat)
    ensures IsNumeral(Numeral(n)) && Parse(Numeral(n)) == n
  {
    DigitsParse(n);
    assert n == 0 ==> "0"[..0] == "";
  }

  lemma {:induction false} DigitsOfParse(s: string)
    requires AllDigits(s) && (s != "" ==> s[0] != '0')
    ensures Digits(Parse(s)) == s && (s != "" ==> Parse(s) > 0)
  {
    if s != "" {
      var t := s[..|s| - 1];
      DigitsOfParse(t);
      var d := s[|s| - 1] as int - '0' as int;
      assert s == t + [Digit(d)];
      assert t != "" ==> t[0] == s[0];
      DigitsStep(Parse(t), d);
    }
  }

  lemma DigitsStep(n: nat, d: nat)
    requires d < 10 && 10 * n + d > 0
    ensures Digits(10 * n + d) == Digits(n) + [Digit(d)]
  {
    assert (10 * n + d) / 10 == n && (10 * n + d) % 10 == d;
  }

  /** And it is the only such text: converting back a parsed numeral restores it. */
  lemma NumeralOfParse(s: string)
    requires IsNumeral(s)
    ensures Numeral(Parse(s)) == s
  {
    if s == "0" {
      assert s[..0] == "";
    } else {
      DigitsOfParse(s);
    }
  }

  function Pow10(k: nat): nat { if k == 0 then 1 else 10 * Pow10(k - 1) }

  lemma {:induction false} DigitsLength(n: nat, k: nat)
    requires n < Pow10(k)
    ensures |Digits(n)| <= k
  {
    if n > 0 {
      DigitsLength(n / 10, k - 1);
    }
  }

  /** 20 digits are enough for 64 bits. */
  lemma AtMostTwentyDigits(n: nat)
    requires n < 0x1_0000_0000_0000_0000
    ensures |Numeral(n)| <= 20
  {
    assert Pow10(10) == 10_000_000_000;
    assert Pow10(20) == 100_000_000_000_000_000_000;
    DigitsLength(n, 20);
  }

  /** The buffer must hold the digits and the final NUL; 21 characters always do. */
  method Uint64ToString(value: nat, buffer: array<char>)
    requires value < 0x1_0000_0000_0000_0000
    requires |Numeral(value)| < buffer.Length
    modifies buffer
    ensures buffer[..|Numeral(value)|] == Numeral(value)
    ensures buffer[|Numeral(value)|] == '\0'
    ensures forall k :: |Numeral(value)| < k < buffer.Length ==> buffer[k] == old(buffer[k])
  {
    if value == 0 {
      buffer[0] := '0';
      buffer[1] := '\0';
      return;
    }
    AtMostTwentyDigits(value);
    var temp := new char[32];
    var i := CollectDigits(value, temp);
    CopyBack(temp, i, buffer, Digits(value));
    buffer[i] := '\0';
  }

  /** The first loop: the digits, last one first. */
  method CollectDigits(value: nat, temp: array<char>) returns (i: nat)
    requires |Digits(value)| <= temp.Length
    modifies temp
    ensures i == |Digits(value)| && Backwards(temp[..], Digits(value), i)
  {
    ghost var all := Digits(value);
    var v := value;
    i := 0;
    while v > 0
      invariant |Digits(v)| + i == |all| && Digits(v) == all[..|all| - i]
      invariant Backwards(temp[..], all, i)
    {
      assert Digits(v)[|Digits(v)| - 1] == Digit(v % 10);
      temp[i] := Digit(v % 10);
      i := i + 1;
      v := v / 10;
    }
  }

  /** The last n characters of s, in reverse. */
  ghost predicate Backwards(t: string, s: string, n: nat) {
    n <= |s| && n <= |t| && forall k :: 0 <= k < n ==> t[k] == s[|s| - 1 - k]
  }

  /** The second loop: the digits in order. */
  method CopyBack(temp: array<char>, count: nat, buffer: array<char>, ghost all: string)
    requires temp != buffer && count == |all| <= buffer.Length && Backwards(temp[..], all, count)
    modifies buffer
    ensures buffer[..count] == all
    ensures forall k :: count <= k < buffer.Length ==> buffer[k] == old(buffer[k])
  {
    var i, j := count, 0;
    while i > 0
      invariant 0 <= i <= count && i + j == count
      invariant buffer[..j] == all[..j]
      invariant forall k :: count <= k < buffer.Length ==> buffer[k] == old(buffer[k])
    {
      i := i - 1;
      assert temp[..][i] == all[j];
      buffer[j] := temp[i];
      j := j + 1;
    }
  }
}
