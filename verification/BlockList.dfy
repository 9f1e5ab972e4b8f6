/** The heap of kernel/memory/kmalloc.c seen as a list of blocks.

    A heap state is the sequence of headers met by following `next` from `heap_start`.
    This module defines what `kmalloc` and `kfree` do to that sequence and proves that every
    list they can reach is the unique canonical tiling for its set of live blocks.
    Module Heap proves that the in-place code implements these functions. */
module BlockList {
  import opened MachineWords

  const HEAP_START: nat := 0x180000
  const HEAP_SIZE: nat := 0x80000
  const HEAP_END: nat := HEAP_START + HEAP_SIZE
  const HEADER: nat := 24

  datatype Block = Block(addr: nat, size: nat, free: bool) {
    // One past the last payload byte
    function End(): nat { addr + HEADER + size }
    // What kmalloc returns for this block
    function Ptr(): nat { addr + HEADER }
  }

  /** (size + 15) & ~15 in 64-bit unsigned arithmetic. */
  function AlignSize(n: nat): nat {
    var s := (n + 15) % TWO64;
    s - s % 16
  }

  /** a is the least multiple of 16 at or above n, or 0 when that does not fit 64 bits. */
  predicate Aligned(n: nat, a: nat) {
    a % 16 == 0 && if n <= 0xFFFF_FFFF_FFFF_FFF0 then n <= a <= n + 15 else a == 0
  }

  /** That is `AlignSize`, and so it covers n exactly when n + 15 does not wrap. */
  lemma AlignSizeExact(n: nat)
    requires n < TWO64
    ensures Aligned(n, AlignSize(n))
    ensures forall a :: Aligned(n, a) ==> a == AlignSize(n)
    ensures AlignSize(n) % 16 == 0
    ensures AlignSize(n) >= n <==> n <= TWO64 - 16
    ensures n <= TWO64 - 16 ==> n <= AlignSize(n) <= n + 15
    ensures n > TWO64 - 16 ==> AlignSize(n) == 0
  {
    var s := (n + 15) % TWO64;
    assert s == if n <= TWO64 - 16 then n + 15 else n + 15 - TWO64;
    RoundDown(s);
    forall a | Aligned(n, a)
      ensures a == AlignSize(n)
    {
      CloseMultiples(a, AlignSize(n));
    }
  }

  lemma CloseMultiples(a: nat, b: nat)
    requires a % 16 == 0 && b % 16 == 0 && -16 < a - b < 16
    ensures a == b
  {}

  lemma AlignIsMultiple(n: nat)
    ensures AlignSize(n) % 8 == 0
  {
    RoundDown((n + 15) % TWO64);
  }

  lemma RoundDown(s: nat)
    ensures (s - s % 16) % 8 == 0 && (s - s % 16) % 16 == 0 && s - 16 < s - s % 16 <= s
  {
    var q := s / 16;
    assert s - s % 16 == 16 * q == 8 * (2 * q);
    TimesEight(2 * q);
    TimesSixteen(q);
  }

  lemma TimesSixteen(k: nat)
    ensures 16 * k % 16 == 0
  {}

  lemma TimesEight(k: nat)
    ensures 8 * k % 8 == 0
  {}

  // ---------------------------------------------------------------- shape

  /** bs covers [lo, hi) with no gap and no overlap, in address order. */
  ghost predicate Tiles(bs: seq<Block>, lo: nat, hi: nat) {
    if bs == [] then lo == hi
    else bs[0].addr == lo && bs[0].size % 8 == 0 && Tiles(bs[1..], bs[0].End(), hi)
  }

  /** Blocks i and i + 1 are not both free. */
  ghost predicate Separated(bs: seq<Block>, i: int) {
    0 <= i < |bs| - 1 ==> !(bs[i].free && bs[i + 1].free)
  }

  ghost predicate Coalesced(bs: seq<Block>) {
    forall i :: Separated(bs, i)
  }

  ghost predicate Canonical(bs: seq<Block>, lo: nat, hi: nat) {
    Tiles(bs, lo, hi) && Coalesced(bs)
  }

  ghost function Live(bs: seq<Block>): set<Block> {
    set b | b in bs && !b.free
  }

  /** The value `next` holds in header i of a chain whose last link is `last`; 0 is NULL. */
  ghost function Next(bs: seq<Block>, i: nat, last: nat := 0): nat
    requires i < |bs|
  {
    if i + 1 < |bs| then bs[i + 1].addr else last
  }

  lemma {:induction false} TilesSplit(bs: seq<Block>, lo: nat, hi: nat, k: nat)
    requires Tiles(bs, lo, hi) && k <= |bs|
    ensures var mid := if k < |bs| then bs[k].addr else hi;
            Tiles(bs[..k], lo, mid) && Tiles(bs[k..], mid, hi)
  {
    if k == 0 {
      assert bs[k..] == bs;
    } else {
      TilesSplit(bs[1..], bs[0].End(), hi, k - 1);
      assert bs[..k][1..] == bs[1..][..k - 1];
      assert bs[1..][k - 1..] == bs[k..];
    }
  }

  lemma {:induction false} TilesJoin(a: seq<Block>, b: seq<Block>, lo: nat, mid: nat, hi: nat)
    requires Tiles(a, lo, mid) && Tiles(b, mid, hi)
    ensures Tiles(a + b, lo, hi)
  {
    if a == [] {
      assert a + b == b;
    } else {
      TilesJoin(a[1..], b, a[0].End(), mid, hi);
      assert (a + b)[1..] == a[1..] + b;
    }
  }

  /** Block k starts inside the heap and ends where block k+1 starts, or at the end of the heap:
      the list is ordered by address, hence acyclic, and headers stay in bounds and 8-aligned. */
  lemma {:induction false} TilesAt(bs: seq<Block>, lo: nat, hi: nat, k: nat)
    requires Tiles(bs, lo, hi) && k < |bs|
    ensures lo <= bs[k].addr && bs[k].End() <= hi
    ensures bs[k].size % 8 == 0 && (bs[k].addr - lo) % 8 == 0
    ensures bs[k].End() == if k + 1 < |bs| then bs[k + 1].addr else hi
    ensures k == 0 ==> bs[k].addr == lo
    ensures k > 0 ==> bs[0].End() <= bs[k].addr
  {
    TilesOrder(bs, lo, hi);
    if k > 0 {
      TilesAt(bs[1..], bs[0].End(), hi, k - 1);
    } else if |bs| > 1 {
      assert bs[1] == bs[1..][0];
    }
  }

  lemma {:induction false} TilesOrder(bs: seq<Block>, lo: nat, hi: nat)
    requires Tiles(bs, lo, hi)
    ensures lo <= hi
    ensures bs != [] ==> bs[0].End() <= hi
  {
    if bs != [] {
      TilesOrder(bs[1..], bs[0].End(), hi);
    }
  }

  /** Whole blocks, header and payload, of two list positions never overlap. */
  lemma BlocksDisjoint(bs: seq<Block>, lo: nat, hi: nat, i: nat, j: nat)
    requires Tiles(bs, lo, hi) && i < j < |bs|
    ensures bs[i].End() <= bs[j].addr
  {
    TilesSplit(bs, lo, hi, i);
    assert bs[i..][j - i] == bs[j] && bs[i..][0] == bs[i];
    TilesAt(bs[i..], bs[i].addr, hi, j - i);
  }

  lemma InjectiveByAddr(bs: seq<Block>, lo: nat, hi: nat, i: nat, j: nat)
    requires Tiles(bs, lo, hi) && i < |bs| && j < |bs|
    requires bs[i].addr == bs[j].addr
    ensures i == j
  {
    if i < j { BlocksDisjoint(bs, lo, hi, i, j); }
    if j < i { BlocksDisjoint(bs, lo, hi, j, i); }
  }

  // ---------------------------------------------------------------- canonicity

  lemma LiveTail(bs: seq<Block>)
    requires bs != []
    ensures Live(bs) == Live(bs[1..]) + (if bs[0].free then {} else {bs[0]})
  {
    assert forall b :: b in bs <==> b == bs[0] || b in bs[1..] by {
      assert bs == [bs[0]] + bs[1..];
    }
  }

  lemma LiveBounds(bs: seq<Block>, lo: nat, hi: nat, b: Block)
    requires Tiles(bs, lo, hi) && b in Live(bs)
    ensures lo <= b.addr && b.End() <= hi
  {
    var k :| 0 <= k < |bs| && bs[k] == b;
    TilesAt(bs, lo, hi, k);
  }

  /** Two canonical lists over the same range with the same live blocks have the same first block. */
  lemma SameHead(x: seq<Block>, y: seq<Block>, lo: nat, hi: nat)
    requires Canonical(x, lo, hi) && Canonical(y, lo, hi)
    requires Live(x) <= Live(y)
    requires x != [] && y != []
    ensures !x[0].free ==> x[0] == y[0]
    ensures x[0].free && y[0].free ==> x[0].size >= y[0].size
  {
    LiveTail(y);
    TilesOrder(y[1..], y[0].End(), hi);
    if !x[0].free {
      assert x[0] in Live(x);
      if x[0] != y[0] {
        LiveBounds(y[1..], y[0].End(), hi, x[0]);
      }
    } else if y[0].free {
      TilesAt(x, lo, hi, 0);
      if |x| > 1 {
        assert Separated(x, 0);
        assert x[1] in Live(x);
        LiveBounds(y[1..], y[0].End(), hi, x[1]);
      }
    }
  }

  /** The heap is canonical: the whole block list is a function of the set of live blocks. */
  lemma {:induction false} CanonicalIsUnique(x: seq<Block>, y: seq<Block>, lo: nat, hi: nat)
    requires Canonical(x, lo, hi) && Canonical(y, lo, hi)
    requires Live(x) == Live(y)
    ensures x == y
  {
    if x == [] || y == [] {
      TilesOrder(x, lo, hi);
      TilesOrder(y, lo, hi);
    } else {
      SameHead(x, y, lo, hi);
      SameHead(y, x, lo, hi);
      LiveTail(x);
      LiveTail(y);
      assert x[0] == y[0];
      if !x[0].free {
        NotInTail(x, lo, hi);
        NotInTail(y, lo, hi);
      }
      CoalescedTail(x);
      CoalescedTail(y);
      CanonicalIsUnique(x[1..], y[1..], x[0].End(), hi);
      assert x == [x[0]] + x[1..] && y == [y[0]] + y[1..];
    }
  }

  lemma CoalescedTail(bs: seq<Block>)
    requires bs != [] && Coalesced(bs)
    ensures Coalesced(bs[1..])
  {
    forall i
      ensures Separated(bs[1..], i)
    {
      assert Separated(bs, i + 1);
    }
  }

  lemma NotInTail(bs: seq<Block>, lo: nat, hi: nat)
    requires bs != [] && Tiles(bs, lo, hi)
    ensures bs[0] !in Live(bs[1..])
  {
    if bs[0] in Live(bs[1..]) {
      LiveBounds(bs[1..], bs[0].End(), hi, bs[0]);
    }
  }

  // ---------------------------------------------------------------- allocation

  ghost predicate Fits(b: Block, a: nat) { b.free && b.size >= a }

  /** Position of the lowest block that can hold a bytes, or |bs|. */
  ghost function FirstFit(bs: seq<Block>, a: nat): (i: nat)
    ensures i <= |bs|
    ensures forall j :: 0 <= j < i ==> !Fits(bs[j], a)
    ensures i < |bs| ==> Fits(bs[i], a)
  {
    if bs == [] then 0
    else if Fits(bs[0], a) then 0
    else 1 + FirstFit(bs[1..], a)
  }

  lemma FirstFitUnique(bs: seq<Block>, a: nat, i: nat)
    requires i <= |bs|
    requires forall j :: 0 <= j < i ==> !Fits(bs[j], a)
    requires i < |bs| ==> Fits(bs[i], a)
    ensures i == FirstFit(bs, a)
  {}

  /** A free block taken for a bytes: split when a header and 16 more bytes are left over. */
  ghost function Carve(b: Block, a: nat): seq<Block>
    requires b.size >= a
  {
    if b.size >= a + HEADER + 16 then
      [Block(b.addr, a, false), Block(b.addr + HEADER + a, b.size - a - HEADER, true)]
    else
      [b.(free := false)]
  }

  ghost function Splice(bs: seq<Block>, lo: nat, hi: nat, mid: seq<Block>): seq<Block>
    requires lo <= hi <= |bs|
  {
    bs[..lo] + mid + bs[hi..]
  }

  /** The list after allocating a (aligned) bytes; unchanged when nothing fits. */
  ghost function Alloc(bs: seq<Block>, a: nat): seq<Block> {
    var i := FirstFit(bs, a);
    if i == |bs| then bs else Splice(bs, i, i + 1, Carve(bs[i], a))
  }

  /** The block handed out. */
  ghost function Granted(bs: seq<Block>, a: nat): Block
    requires FirstFit(bs, a) < |bs|
  {
    Carve(bs[FirstFit(bs, a)], a)[0]
  }

  lemma SpliceTiles(bs: seq<Block>, lo: nat, hi: nat, i: nat, j: nat, mid: seq<Block>)
    requires Tiles(bs, lo, hi) && i < j <= |bs|
    requires Tiles(mid, bs[i].addr, bs[j - 1].End())
    ensures Tiles(Splice(bs, i, j, mid), lo, hi)
  {
    TilesSplit(bs, lo, hi, i);
    TilesSplit(bs, lo, hi, j);
    TilesAt(bs, lo, hi, j - 1);
    TilesJoin(bs[..i], mid, lo, bs[i].addr, bs[j - 1].End());
    TilesJoin(bs[..i] + mid, bs[j..], lo, bs[j - 1].End(), hi);
  }

  lemma SpliceMember(bs: seq<Block>, i: nat, j: nat, mid: seq<Block>, b: Block)
    requires i <= j <= |bs|
    ensures b in Splice(bs, i, j, mid) <==> b in bs[..i] || b in mid || b in bs[j..]
    ensures b in Splice(bs, i, j, mid) ==> b in bs || b in mid
  {}

  lemma SpliceLive(bs: seq<Block>, i: nat, j: nat, mid: seq<Block>)
    requires i <= j <= |bs|
    ensures Live(Splice(bs, i, j, mid)) == Live(bs[..i]) + Live(mid) + Live(bs[j..])
  {
    forall b
      ensures b in Live(Splice(bs, i, j, mid)) <==> b in Live(bs[..i]) + Live(mid) + Live(bs[j..])
    {
      SpliceMember(bs, i, j, mid, b);
    }
  }

  lemma SpliceSame(bs: seq<Block>, i: nat, j: nat)
    requires i <= j <= |bs|
    ensures Splice(bs, i, j, bs[i..j]) == bs
  {}

  /** A second splice that takes in what the first one put there. */
  lemma SpliceTwice(bs: seq<Block>, i: nat, j: nat, x: Block, y: Block)
    requires 0 < i < j <= |bs|
    ensures Splice(Splice(bs, i, j, [x]), i - 1, i + 1, [y]) == Splice(bs, i - 1, j, [y])
  {
    var r := Splice(bs, i, j, [x]);
    assert r[..i - 1] == bs[..i - 1];
    assert r[i + 1..] == bs[j..];
  }

  lemma CarveTiles(b: Block, a: nat)
    requires b.size >= a && a % 8 == 0 && b.size % 8 == 0
    ensures Tiles(Carve(b, a), b.addr, b.End())
  {
    var c := Carve(b, a);
    if |c| == 2 {
      assert c[1..] == [c[1]];
      assert c[1..][1..] == [];
    } else {
      assert c[1..] == [];
    }
  }

  lemma CarveCoalesced(bs: seq<Block>, i: nat, a: nat)
    requires Coalesced(bs) && i < |bs| && Fits(bs[i], a)
    ensures Coalesced(Splice(bs, i, i + 1, Carve(bs[i], a)))
  {
    var c := Carve(bs[i], a);
    var r := Splice(bs, i, i + 1, c);
    forall k
      ensures Separated(r, k)
    {
      if 0 <= k < |r| - 1 {
        if k + 1 < i {
          assert Separated(bs, k);
        } else if k + 1 == i {
          assert r[k + 1] == c[0];
        } else if k == i {
          assert r[k] == c[0];
        } else if k == i + |c| - 1 {
          assert r[k + 1] == bs[i + 1] && Separated(bs, i);
        } else {
          assert r[k] == bs[k - |c| + 1] && r[k + 1] == bs[k + 1 - |c| + 1];
          assert Separated(bs, k - |c| + 1);
        }
      }
    }
  }

  lemma CarveLive(bs: seq<Block>, i: nat, a: nat)
    requires i < |bs| && Fits(bs[i], a)
    ensures Live(Splice(bs, i, i + 1, Carve(bs[i], a))) == Live(bs) + {Carve(bs[i], a)[0]}
  {
    var c := Carve(bs[i], a);
    SpliceLive(bs, i, i + 1, c);
    SpliceLive(bs, i, i + 1, [bs[i]]);
    assert Splice(bs, i, i + 1, [bs[i]]) == bs;
    assert Live([bs[i]]) == {};
    assert Live(c) == {c[0]};
  }

  /** kmalloc keeps the list canonical and adds exactly one live block, at an address where no
      live block was. */
  lemma AllocKeepsCanonical(bs: seq<Block>, a: nat, lo: nat, hi: nat)
    requires Canonical(bs, lo, hi) && a % 8 == 0
    ensures Canonical(Alloc(bs, a), lo, hi)
    ensures FirstFit(bs, a) < |bs| ==>
              Live(Alloc(bs, a)) == Live(bs) + {Granted(bs, a)}
              && (forall b :: b in Live(bs) ==> b.addr != Granted(bs, a).addr)
  {
    var i := FirstFit(bs, a);
    if i < |bs| {
      TilesAt(bs, lo, hi, i);
      CarveTiles(bs[i], a);
      SpliceTiles(bs, lo, hi, i, i + 1, Carve(bs[i], a));
      CarveCoalesced(bs, i, a);
      CarveLive(bs, i, a);
      forall b | b in Live(bs)
        ensures b.addr != bs[i].addr
      {
        var k :| 0 <= k < |bs| && bs[k] == b;
        if b.addr == bs[i].addr { InjectiveByAddr(bs, lo, hi, i, k); }
      }
    }
  }

  // ---------------------------------------------------------------- release

  /** Which positions merge into one when block i is released. */
  ghost function MergeLo(bs: seq<Block>, i: nat): (k: nat)
    requires i < |bs|
    ensures k <= i
  {
    if i > 0 && bs[i - 1].free then i - 1 else i
  }

  ghost function MergeHi(bs: seq<Block>, i: nat): (k: nat)
    requires i < |bs|
    ensures i < k <= |bs|
  {
    if i + 1 < |bs| && bs[i + 1].free then i + 2 else i + 1
  }

  /** Block i freed and merged with its right neighbour if that is free. */
  ghost function MergedRight(bs: seq<Block>, i: nat): Block
    requires i < |bs|
  {
    Block(bs[i].addr, bs[i].size + if MergeHi(bs, i) == i + 2 then HEADER + bs[i + 1].size else 0, true)
  }

  ghost function Merged(bs: seq<Block>, i: nat): Block
    requires i < |bs|
  {
    var lo := MergeLo(bs, i);
    if lo == i then MergedRight(bs, i)
    else Block(bs[lo].addr, bs[lo].size + HEADER + MergedRight(bs, i).size, true)
  }

  ghost function FreeAt(bs: seq<Block>, i: nat): seq<Block>
    requires i < |bs|
  {
    Splice(bs, MergeLo(bs, i), MergeHi(bs, i), [Merged(bs, i)])
  }

  /** The list between kfree's two merges. */
  ghost function JoinRight(bs: seq<Block>, i: nat): seq<Block>
    requires i < |bs|
  {
    Splice(bs, i, MergeHi(bs, i), [MergedRight(bs, i)])
  }

  lemma FreeInTwoSteps(bs: seq<Block>, i: nat)
    requires i < |bs|
    ensures JoinRight(bs, i)[..i] == bs[..i] && JoinRight(bs, i)[i] == MergedRight(bs, i)
    ensures FreeAt(bs, i) ==
            if MergeLo(bs, i) == i then JoinRight(bs, i)
            else Splice(JoinRight(bs, i), i - 1, i + 1, [Merged(bs, i)])
  {
    if MergeLo(bs, i) < i {
      SpliceTwice(bs, i, MergeHi(bs, i), MergedRight(bs, i), Merged(bs, i));
    }
  }

  lemma SumOfEights(x: nat, y: nat)
    requires x % 8 == 0 && y % 8 == 0
    ensures (x + HEADER + y) % 8 == 0
  {
    TimesEight(x / 8 + 3 + y / 8);
  }

  lemma JoinRightTiles(bs: seq<Block>, lo: nat, hi: nat, i: nat)
    requires Tiles(bs, lo, hi) && i < |bs|
    ensures MergedRight(bs, i).End() == bs[MergeHi(bs, i) - 1].End() && MergedRight(bs, i).size % 8 == 0
    ensures Tiles(JoinRight(bs, i), lo, hi)
  {
    var m := MergedRight(bs, i);
    assert m.size % 8 == 0 && m.End() == bs[MergeHi(bs, i) - 1].End() by {
      TilesAt(bs, lo, hi, i);
      if i + 1 < |bs| {
        TilesAt(bs, lo, hi, i + 1);
        SumOfEights(bs[i].size, bs[i + 1].size);
      }
    }
    assert [m][1..] == [];
    assert Tiles([m], bs[i].addr, m.End());
    SpliceTiles(bs, lo, hi, i, MergeHi(bs, i), [m]);
  }

  /** Position of the header at address `addr`, or |bs|. */
  ghost function IndexOf(bs: seq<Block>, addr: nat): (i: nat)
    ensures i <= |bs|
    ensures i < |bs| ==> bs[i].addr == addr
    ensures i == |bs| ==> forall b :: b in bs ==> b.addr != addr
  {
    if bs == [] then 0
    else if bs[0].addr == addr then 0
    else 1 + IndexOf(bs[1..], addr)
  }

  /** What a caller of kfree may pass: NULL, or the pointer of a block of the list. */
  ghost predicate Releasable(bs: seq<Block>, ptr: nat) {
    ptr == 0 || exists b :: b in bs && b.Ptr() == ptr
  }

  /** The list after kfree(ptr). NULL and a block that is already free leave it unchanged. So does a
      pointer that is not in the list; the one such call the code survives is a repeated free whose
      header was merged away, which still reads free (Heap.FreeableSurvivesKfree). */
  ghost function Free(bs: seq<Block>, ptr: nat): seq<Block> {
    if ptr < HEADER then bs
    else
      var i := IndexOf(bs, ptr - HEADER);
      if i == |bs| || bs[i].free then bs else FreeAt(bs, i)
  }

  /** The live blocks handed out at ptr: none or one. */
  ghost function At(bs: seq<Block>, ptr: nat): set<Block> {
    set b | b in bs && !b.free && b.Ptr() == ptr
  }

  lemma MergedTiles(bs: seq<Block>, lo: nat, hi: nat, i: nat)
    requires Tiles(bs, lo, hi) && i < |bs|
    ensures Tiles([Merged(bs, i)], bs[MergeLo(bs, i)].addr, bs[MergeHi(bs, i) - 1].End())
    ensures Merged(bs, i).End() == bs[MergeHi(bs, i) - 1].End()
  {
    var m := Merged(bs, i);
    JoinRightTiles(bs, lo, hi, i);
    if i > 0 { TilesAt(bs, lo, hi, i - 1); }
    assert [m][1..] == [];
  }

  lemma MergedCoalesced(bs: seq<Block>, i: nat)
    requires Coalesced(bs) && i < |bs| && !bs[i].free
    ensures Coalesced(FreeAt(bs, i))
  {
    var p, q := MergeLo(bs, i), MergeHi(bs, i);
    var r := FreeAt(bs, i);
    assert p > 0 ==> Separated(bs, p - 1);
    assert Separated(bs, q - 1);
    forall k
      ensures Separated(r, k)
    {
      if 0 <= k < |r| - 1 {
        if k + 1 < p {
          assert r[k] == bs[k] && r[k + 1] == bs[k + 1] && Separated(bs, k);
        } else if k + 1 == p {
          assert r[k] == bs[p - 1];
        } else if k == p {
          assert r[k + 1] == bs[q];
        } else {
          assert r[k] == bs[k - p - 1 + q] && r[k + 1] == bs[k - p + q];
          assert Separated(bs, k - p - 1 + q);
        }
      }
    }
  }

  lemma LiveOfMerge(bs: seq<Block>, i: nat)
    requires i < |bs| && !bs[i].free
    ensures Live(bs[MergeLo(bs, i)..MergeHi(bs, i)]) == {bs[i]}
  {
    var p, q := MergeLo(bs, i), MergeHi(bs, i);
    var mid := bs[p..q];
    assert mid[i - p] == bs[i];
    assert p < i ==> mid[0] == bs[i - 1];
    assert q == i + 2 ==> mid[i + 1 - p] == bs[i + 1];
    assert forall b :: b in mid && b != bs[i] ==> b.free;
  }

  lemma NotElsewhere(bs: seq<Block>, lo: nat, hi: nat, p: nat, i: nat, q: nat)
    requires Tiles(bs, lo, hi) && p <= i < q <= |bs|
    ensures bs[i] !in bs[..p] && bs[i] !in bs[q..]
  {
    if bs[i] in bs[..p] {
      var k :| 0 <= k < p && bs[..p][k] == bs[i];
      InjectiveByAddr(bs, lo, hi, i, k);
    }
    if bs[i] in bs[q..] {
      var k :| 0 <= k < |bs| - q && bs[q..][k] == bs[i];
      InjectiveByAddr(bs, lo, hi, i, q + k);
    }
  }

  lemma MergedLive(bs: seq<Block>, i: nat, lo: nat, hi: nat)
    requires Tiles(bs, lo, hi) && i < |bs| && !bs[i].free
    ensures Live(FreeAt(bs, i)) == Live(bs) - {bs[i]}
  {
    var p, q := MergeLo(bs, i), MergeHi(bs, i);
    LiveOfMerge(bs, i);
    NotElsewhere(bs, lo, hi, p, i, q);
    SpliceDropsLive(bs, p, q, Merged(bs, i), bs[i]);
  }

  lemma SpliceDropsLive(bs: seq<Block>, p: nat, q: nat, x: Block, b: Block)
    requires p <= q <= |bs| && x.free && Live(bs[p..q]) == {b}
    requires b !in bs[..p] && b !in bs[q..]
    ensures Live(Splice(bs, p, q, [x])) == Live(bs) - {b}
  {
    SpliceLive(bs, p, q, [x]);
    assert Live([x]) == {};
    SpliceLive(bs, p, q, bs[p..q]);
    SpliceSame(bs, p, q);
  }

  lemma FreeAtKeepsCanonical(bs: seq<Block>, i: nat, lo: nat, hi: nat)
    requires Canonical(bs, lo, hi) && i < |bs| && !bs[i].free
    ensures Canonical(FreeAt(bs, i), lo, hi)
    ensures Live(FreeAt(bs, i)) == Live(bs) - {bs[i]}
  {
    MergedTiles(bs, lo, hi, i);
    SpliceTiles(bs, lo, hi, MergeLo(bs, i), MergeHi(bs, i), [Merged(bs, i)]);
    MergedCoalesced(bs, i);
    MergedLive(bs, i, lo, hi);
  }

  /** kfree of NULL or of a block of the list keeps the list canonical and removes exactly the live
      block at ptr, if it is live. */
  lemma FreeKeepsCanonical(bs: seq<Block>, ptr: nat, lo: nat, hi: nat)
    requires Canonical(bs, lo, hi) && Releasable(bs, ptr)
    ensures Canonical(Free(bs, ptr), lo, hi)
    ensures Live(Free(bs, ptr)) == Live(bs) - At(bs, ptr)
    ensures At(bs, ptr) == {} ==> Free(bs, ptr) == bs
  {
    FreeCanonical(bs, ptr, lo, hi);
    if ptr >= HEADER {
      var i := IndexOf(bs, ptr - HEADER);
      if i < |bs| && !bs[i].free {
        assert bs[i] in At(bs, ptr);
      }
    }
  }

  lemma FreeCanonical(bs: seq<Block>, ptr: nat, lo: nat, hi: nat)
    requires Canonical(bs, lo, hi)
    ensures Canonical(Free(bs, ptr), lo, hi)
    ensures Live(Free(bs, ptr)) == Live(bs) - At(bs, ptr)
  {
    if ptr >= HEADER {
      var i := IndexOf(bs, ptr - HEADER);
      forall b | b in At(bs, ptr)
        ensures i < |bs| && b == bs[i]
      {
        var k :| 0 <= k < |bs| && bs[k] == b;
        InjectiveByAddr(bs, lo, hi, i, k);
      }
      if i < |bs| && !bs[i].free {
        FreeAtKeepsCanonical(bs, i, lo, hi);
        assert bs[i] in At(bs, ptr);
        assert At(bs, ptr) == {bs[i]};
      }
    }
  }
}
