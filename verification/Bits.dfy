/** Bitwise operators of C on unsigned values, as functions on natural numbers. */
module Bits {

  /** 1 << k */
  function Pow2(k: nat): (p: nat)
    ensures p > 0
  {
    if k == 0 then 1 else 2 * Pow2(k - 1)
  }

  lemma {:induction false} Pow2Monotone(j: nat, k: nat)
    requires j <= k
    ensures Pow2(j) <= Pow2(k) && (j < k ==> Pow2(j) < Pow2(k))
  {
    if j < k { Pow2Monotone(j, k - 1); }
  }

  lemma {:induction false} Pow2Add(a: nat, b: nat)
    ensures Pow2(a + b) == Pow2(a) * Pow2(b)
  {
    if a > 0 {
      Pow2Add(a - 1, b);
      assert Pow2(a) * Pow2(b) == 2 * (Pow2(a - 1) * Pow2(b));
    }
  }

  lemma SmallPowers()
    ensures Pow2(10) == 0x400 && Pow2(12) == 0x1000
  {
    assert Pow2(5) == 32;
    Pow2Add(5, 5);
    assert Pow2(12) == 2 * (2 * Pow2(10));
  }

  lemma Powers()
    ensures Pow2(12) == 0x1000 && Pow2(40) == 0x100_0000_0000
    ensures Pow2(52) == 0x10_0000_0000_0000 && Pow2(64) == 0x1_0000_0000_0000_0000
  {
    SmallPowers();
    Pow2Add(10, 10);
    assert Pow2(20) == 0x10_0000;
    Pow2Add(20, 20);
    assert Pow2(40) == 0x100_0000_0000;
    Pow2Add(40, 12);
    assert Pow2(52) == 0x10_0000_0000_0000;
    Pow2Add(52, 12);
  }

  /** (x >> k) & 1 */
  predicate Bit(x: nat, k: nat) {
    if k == 0 then x % 2 == 1 else Bit(x / 2, k - 1)
  }

  /** x & y */
  function And(x: nat, y: nat): (r: nat)
    ensures r <= x && r <= y
  {
    if x == 0 || y == 0 then 0
    else 2 * And(x / 2, y / 2) + if x % 2 == 1 && y % 2 == 1 then 1 else 0
  }

  /** x | y */
  function Or(x: nat, y: nat): (r: nat)
    ensures r >= x && r >= y
  {
    if x == 0 then y else if y == 0 then x
    else 2 * Or(x / 2, y / 2) + if x % 2 == 1 || y % 2 == 1 then 1 else 0
  }

  lemma {:induction false} BitOfZero(k: nat)
    ensures !Bit(0, k)
  {
    if k > 0 { BitOfZero(k - 1); }
  }

  lemma BitOfJoin(h: nat, p: nat, k: nat)
    requires p < 2
    ensures Bit(2 * h + p, k) <==> if k == 0 then p == 1 else Bit(h, k - 1)
  {
    assert (2 * h + p) / 2 == h && (2 * h + p) % 2 == p;
  }

  /** `Bit`, `And` and `Or` agree: the operators act bit by bit. */
  lemma {:induction false} AndBit(x: nat, y: nat, k: nat)
    ensures Bit(And(x, y), k) <==> Bit(x, k) && Bit(y, k)
  {
    AndHalves(x, y);
    BitOfJoin(And(x / 2, y / 2), if x % 2 == 1 && y % 2 == 1 then 1 else 0, k);
    if k > 0 {
      AndBit(x / 2, y / 2, k - 1);
    }
  }

  lemma {:induction false} OrBit(x: nat, y: nat, k: nat)
    ensures Bit(Or(x, y), k) <==> Bit(x, k) || Bit(y, k)
  {
    OrHalves(x, y);
    BitOfJoin(Or(x / 2, y / 2), if x % 2 == 1 || y % 2 == 1 then 1 else 0, k);
    if k > 0 {
      OrBit(x / 2, y / 2, k - 1);
    }
  }

  lemma {:induction false} Pow2Bit(j: nat, k: nat)
    ensures Bit(Pow2(j), k) <==> j == k
  {
    if j == 0 && k > 0 {
      BitOfZero(k - 1);
    } else if j > 0 && k > 0 {
      Pow2Bit(j - 1, k - 1);
      assert Pow2(j) / 2 == Pow2(j - 1);
    }
  }

  /** ~x on n-bit values is 2^n - 1 - x. */
  lemma {:induction false} NotBit(x: nat, n: nat, k: nat)
    requires x < Pow2(n) && k < n
    ensures Bit(Pow2(n) - 1 - x, k) <==> !Bit(x, k)
  {
    var h, p := Pow2(n - 1) - 1 - x / 2, 1 - x % 2;
    assert Pow2(n) - 1 - x == 2 * h + p;
    BitOfJoin(h, p, k);
    if k > 0 {
      NotBit(x / 2, n - 1, k - 1);
    }
  }

  lemma {:induction false} NonzeroHasBit(x: nat, k: nat)
    ensures And(x, Pow2(k)) != 0 <==> Bit(x, k)
  {
    if x == 0 {
      BitOfZero(k);
    } else if k > 0 {
      NonzeroHasBit(x / 2, k - 1);
      assert Pow2(k) / 2 == Pow2(k - 1);
    } else {
      assert And(x, 1) == 2 * And(x / 2, 0) + if x % 2 == 1 then 1 else 0;
    }
  }

  lemma {:induction false} OrBound(x: nat, y: nat, n: nat)
    requires x < Pow2(n) && y < Pow2(n)
    ensures Or(x, y) < Pow2(n)
  {
    if x != 0 && y != 0 && n > 0 {
      OrBound(x / 2, y / 2, n - 1);
    }
  }

  // ---------------------------------------------------------------- shifts and fields

  /** x >> j */
  function Shr(x: nat, j: nat): nat {
    if j == 0 then x else Shr(x / 2, j - 1)
  }

  /** x << j, without a width limit */
  function Shl(x: nat, j: nat): nat {
    if j == 0 then x else 2 * Shl(x, j - 1)
  }

  /** The low k bits of x. */
  function Low(x: nat, k: nat): nat {
    if k == 0 then 0 else 2 * Low(x / 2, k - 1) + x % 2
  }

  /** k one bits. */
  function Ones(k: nat): nat {
    if k == 0 then 0 else 2 * Ones(k - 1) + 1
  }

  lemma {:induction false} LowMask(x: nat, k: nat)
    ensures And(x, Ones(k)) == Low(x, k)
  {
    if k > 0 {
      LowMask(x / 2, k - 1);
      assert Ones(k) / 2 == Ones(k - 1);
      AndHalves(x, Ones(k));
    }
  }

  /** Masking with k ones above j zeros keeps that field of x in place and nothing else. */
  lemma {:induction false} FieldMask(x: nat, j: nat, k: nat)
    ensures And(x, Shl(Ones(k), j)) == Shl(Low(Shr(x, j), k), j)
  {
    if j == 0 {
      LowMask(x, k);
    } else {
      FieldMask(x / 2, j - 1, k);
      assert Shl(Ones(k), j) / 2 == Shl(Ones(k), j - 1);
      AndHalves(x, Shl(Ones(k), j));
    }
  }

  lemma AndHalves(x: nat, y: nat)
    ensures And(x, y) == 2 * And(x / 2, y / 2) + if x % 2 == 1 && y % 2 == 1 then 1 else 0
  {}

  lemma OrHalves(x: nat, y: nat)
    ensures Or(x, y) == 2 * Or(x / 2, y / 2) + if x % 2 == 1 || y % 2 == 1 then 1 else 0
  {}

  /** Shifting right distributes over |, and so does keeping the low bits. */
  lemma {:induction false} OrShr(x: nat, y: nat, j: nat)
    ensures Shr(Or(x, y), j) == Or(Shr(x, j), Shr(y, j))
  {
    if j > 0 {
      OrHalves(x, y);
      assert Or(x, y) / 2 == Or(x / 2, y / 2);
      OrShr(x / 2, y / 2, j - 1);
    }
  }

  lemma OrJoin(a: nat, b: nat, p: nat, q: nat)
    requires p < 2 && q < 2
    ensures Or(2 * a + p, 2 * b + q) == 2 * Or(a, b) + if p == 1 || q == 1 then 1 else 0
  {
    OrHalves(2 * a + p, 2 * b + q);
  }

  lemma LowOfJoin(h: nat, p: nat, k: nat)
    requires p < 2 && k > 0
    ensures Low(2 * h + p, k) == 2 * Low(h, k - 1) + p
  {
    assert (2 * h + p) / 2 == h && (2 * h + p) % 2 == p;
  }

  lemma {:induction false} OrLow(x: nat, y: nat, k: nat)
    ensures Low(Or(x, y), k) == Or(Low(x, k), Low(y, k))
  {
    if k > 0 {
      OrLow(x / 2, y / 2, k - 1);
      OrLowStep(x / 2, y / 2, x % 2, y % 2, k);
    }
  }

  lemma OrLowStep(a: nat, b: nat, p: nat, q: nat, k: nat)
    requires p < 2 && q < 2 && k > 0 && Low(Or(a, b), k - 1) == Or(Low(a, k - 1), Low(b, k - 1))
    ensures Low(Or(2 * a + p, 2 * b + q), k) == Or(Low(2 * a + p, k), Low(2 * b + q, k))
  {
    LowOfOr(a, b, p, q, k);
    OrOfLow(a, b, p, q, k);
  }

  lemma LowOfOr(a: nat, b: nat, p: nat, q: nat, k: nat)
    requires p < 2 && q < 2 && k > 0
    ensures Low(Or(2 * a + p, 2 * b + q), k) == 2 * Low(Or(a, b), k - 1) + if p == 1 || q == 1 then 1 else 0
  {
    OrJoin(a, b, p, q);
    LowOfJoin(Or(a, b), if p == 1 || q == 1 then 1 else 0, k);
  }

  lemma OrOfLow(a: nat, b: nat, p: nat, q: nat, k: nat)
    requires p < 2 && q < 2 && k > 0
    ensures Or(Low(2 * a + p, k), Low(2 * b + q, k)) ==
            2 * Or(Low(a, k - 1), Low(b, k - 1)) + if p == 1 || q == 1 then 1 else 0
  {
    LowOfJoin(a, p, k);
    LowOfJoin(b, q, k);
    OrJoin(Low(a, k - 1), Low(b, k - 1), p, q);
  }

  /** y adds nothing to x exactly when y's bits are among x's. */
  lemma {:induction false} OrAbsorbs(x: nat, y: nat)
    ensures Or(x, y) == x <==> And(x, y) == y
  {
    if x != 0 && y != 0 {
      OrAbsorbs(x / 2, y / 2);
    }
  }

  lemma {:induction false} BitOfShr(x: nat, j: nat, k: nat)
    ensures Bit(Shr(x, j), k) <==> Bit(x, j + k)
  {
    if j > 0 { BitOfShr(x / 2, j - 1, k); }
  }

  lemma {:induction false} ShrOfShl(x: nat, j: nat)
    ensures Shr(Shl(x, j), j) == x
  {
    if j > 0 {
      ShrOfShl(x, j - 1);
      assert Shl(x, j) / 2 == Shl(x, j - 1);
    }
  }

  lemma {:induction false} LowOfLow(x: nat, k: nat)
    ensures Low(Low(x, k), k) == Low(x, k)
  {
    if k > 0 { LowOfLow(x / 2, k - 1); }
  }

  // ---------------------------------------------------------------- as arithmetic

  lemma {:induction false} ShlIsMul(x: nat, j: nat)
    ensures Shl(x, j) == x * Pow2(j)
  {
    if j > 0 {
      ShlIsMul(x, j - 1);
      assert x * Pow2(j) == 2 * (x * Pow2(j - 1));
    }
  }

  lemma {:induction false} ShrLowSplit(x: nat, k: nat)
    ensures x == Shl(Shr(x, k), k) + Low(x, k)
    ensures Low(x, k) < Pow2(k)
  {
    if k > 0 { ShrLowSplit(x / 2, k - 1); }
  }

  lemma {:induction false} LowOfSmall(x: nat, k: nat)
    requires x < Pow2(k)
    ensures Low(x, k) == x && Shr(x, k) == 0
  {
    if k > 0 { LowOfSmall(x / 2, k - 1); }
  }

  lemma {:induction false} OnesIsPow2(k: nat)
    ensures Ones(k) == Pow2(k) - 1
  {
    if k > 0 { OnesIsPow2(k - 1); }
  }

  lemma {:induction false} ShrShr(x: nat, j: nat, k: nat)
    ensures Shr(Shr(x, j), k) == Shr(x, j + k)
  {
    if j > 0 { ShrShr(x / 2, j - 1, k); }
  }

  lemma {:induction false} BitBelowShl(x: nat, j: nat, k: nat)
    requires k < j
    ensures !Bit(Shl(x, j), k)
  {
    if k > 0 {
      assert Shl(x, j) / 2 == Shl(x, j - 1);
      BitBelowShl(x, j - 1, k - 1);
    }
  }

  lemma {:induction false} BitOfShl(x: nat, j: nat, k: nat)
    ensures Bit(Shl(x, j), k) <==> k >= j && Bit(x, k - j)
  {
    if k < j {
      BitBelowShl(x, j, k);
    } else if j > 0 {
      assert Shl(x, j) / 2 == Shl(x, j - 1);
      BitOfShl(x, j - 1, k - 1);
    }
  }

  lemma {:induction false} BitOfOnes(n: nat, k: nat)
    ensures Bit(Ones(n), k) <==> k < n
  {
    if n == 0 {
      BitOfZero(k);
    } else if k > 0 {
      assert Ones(n) / 2 == Ones(n - 1);
      BitOfOnes(n - 1, k - 1);
    }
  }

  /** Two values agree in their low a + b bits exactly when they agree in both parts. */
  lemma {:induction false} LowAgrees(x: nat, y: nat, a: nat, b: nat)
    ensures Low(x, a + b) == Low(y, a + b) <==>
            Low(x, a) == Low(y, a) && Low(Shr(x, a), b) == Low(Shr(y, a), b)
  {
    if a > 0 { LowAgrees(x / 2, y / 2, a - 1, b); }
  }

  /** Or-ing in bits that lie below x << j is adding them. */
  lemma {:induction false} OrAdds(x: nat, j: nat, y: nat)
    requires y < Pow2(j)
    ensures Or(Shl(x, j), y) == Shl(x, j) + y
  {
    if j > 0 {
      OrAdds(x, j - 1, y / 2);
      OrHalves(Shl(x, j), y);
      assert Shl(x, j) / 2 == Shl(x, j - 1);
    }
  }
}
