/** Laws of the kernel heap over every run of kmalloc and kfree (kernel/memory/kmalloc.c). */
module HeapLaws {
  import opened BlockList
  import opened MachineWords

  // ---------------------------------------------------------------- accounting

  /** Payload bytes in blocks that are not free. */
  ghost function Used(bs: seq<Block>): nat {
    if bs == [] then 0 else (if bs[0].free then 0 else bs[0].size) + Used(bs[1..])
  }

  ghost function FreeBytes(bs: seq<Block>): nat {
    if bs == [] then 0 else (if bs[0].free then bs[0].size else 0) + FreeBytes(bs[1..])
  }

  ghost function LiveCount(bs: seq<Block>): nat {
    if bs == [] then 0 else (if bs[0].free then 0 else 1) + LiveCount(bs[1..])
  }

  /** Every byte of the range is a header, used payload or free payload. */
  lemma {:induction false} Conservation(bs: seq<Block>, lo: nat, hi: nat)
    requires Tiles(bs, lo, hi)
    ensures Used(bs) + FreeBytes(bs) + HEADER * |bs| == hi - lo
  {
    TilesOrder(bs, lo, hi);
    if bs != [] {
      Conservation(bs[1..], bs[0].End(), hi);
    }
  }

  lemma {:induction false} UsedConcat(a: seq<Block>, b: seq<Block>)
    ensures Used(a + b) == Used(a) + Used(b)
  {
    if a == [] {
      assert a + b == b;
    } else {
      UsedConcat(a[1..], b);
      assert (a + b)[1..] == a[1..] + b;
    }
  }

  lemma UsedSplice(bs: seq<Block>, i: nat, j: nat, mid: seq<Block>)
    requires i <= j <= |bs|
    ensures Used(Splice(bs, i, j, mid)) == Used(bs) - Used(bs[i..j]) + Used(mid)
  {
    UsedConcat(bs[..i] + mid, bs[j..]);
    UsedConcat(bs[..i], mid);
    assert bs == bs[..i] + bs[i..j] + bs[j..];
    UsedConcat(bs[..i] + bs[i..j], bs[j..]);
    UsedConcat(bs[..i], bs[i..j]);
  }

  lemma FreeBytesFrom(bs: seq<Block>, i: nat)
    requires i < |bs|
    ensures FreeBytes(bs[i..]) == (if bs[i].free then bs[i].size else 0) + FreeBytes(bs[i + 1..])
  {
    assert bs[i..][0] == bs[i] && bs[i..][1..] == bs[i + 1..];
  }

  lemma AllocUsed(bs: seq<Block>, a: nat)
    requires FirstFit(bs, a) < |bs|
    ensures Used(Alloc(bs, a)) == Used(bs) + Granted(bs, a).size
  {
    var i := FirstFit(bs, a);
    var c := Carve(bs[i], a);
    UsedSplice(bs, i, i + 1, c);
    assert bs[i..i + 1] == [bs[i]];
    assert [bs[i]][1..] == [];
    assert |c| == 2 ==> c[1..] == [c[1]] && c[1..][1..] == [];
    assert |c| == 1 ==> c[1..] == [];
  }

  lemma UsedOfMerge(bs: seq<Block>, i: nat)
    requires i < |bs| && !bs[i].free
    ensures Used(bs[MergeLo(bs, i)..MergeHi(bs, i)]) == bs[i].size
  {
    var p, q := MergeLo(bs, i), MergeHi(bs, i);
    var before := if p < i then [bs[i - 1]] else [];
    var after := if q == i + 2 then [bs[i + 1]] else [];
    assert bs[p..q] == before + ([bs[i]] + after);
    UsedConcat(before, [bs[i]] + after);
    UsedConcat([bs[i]], after);
  }

  lemma FreeAtUsed(bs: seq<Block>, i: nat)
    requires i < |bs| && !bs[i].free
    ensures Used(FreeAt(bs, i)) == Used(bs) - bs[i].size
  {
    UsedSplice(bs, MergeLo(bs, i), MergeHi(bs, i), [Merged(bs, i)]);
    UsedOfMerge(bs, i);
  }

  // ---------------------------------------------------------------- placement

  lemma GrantedShape(bs: seq<Block>, a: nat)
    requires Canonical(bs, HEAP_START, HEAP_END) && FirstFit(bs, a) < |bs|
    ensures var i, g := FirstFit(bs, a), Granted(bs, a);
            && g.addr == bs[i].addr && !g.free
            && HEAP_START <= g.addr && g.End() <= bs[i].End() <= HEAP_END
            && a <= g.size < a + HEADER + 16
            && (forall j :: 0 <= j < |bs| && Fits(bs[j], a) ==> g.addr <= bs[j].addr)
    ensures a % 8 == 0 ==> Granted(bs, a).size % 8 == 0
  {
    var i := FirstFit(bs, a);
    TilesAt(bs, HEAP_START, HEAP_END, i);
    forall j | 0 <= j < |bs| && Fits(bs[j], a)
      ensures bs[i].addr <= bs[j].addr
    {
      if i < j { BlocksDisjoint(bs, HEAP_START, HEAP_END, i, j); }
    }
  }

  lemma GrantedSize(bs: seq<Block>, n: nat, a: nat)
    requires Canonical(bs, HEAP_START, HEAP_END) && FirstFit(bs, a) < |bs| && Aligned(n, a)
    ensures Granted(bs, a).size >= n <==> n <= TWO64 - 16
    ensures Granted(bs, a).size <= if n <= TWO64 - 16 then n + 47 else 39
  {
    GrantedShape(bs, a);
  }

  /** A successful kmalloc(n) takes the lowest block that fits, hands out its start, and the
      capacity is at most 47 bytes more than asked. It covers the request exactly when
      n + 15 does not wrap: beyond that a success gives fewer than 40 bytes. */
  lemma Placement(bs: seq<Block>, n: nat, a: nat)
    requires Canonical(bs, HEAP_START, HEAP_END) && 0 < n < TWO64 && Aligned(n, a)
    requires FirstFit(bs, a) < |bs|
    ensures Granted(bs, a).addr == bs[FirstFit(bs, a)].addr
    ensures forall j :: 0 <= j < |bs| && Fits(bs[j], a) ==> Granted(bs, a).addr <= bs[j].addr
    ensures HEAP_START <= Granted(bs, a).addr && Granted(bs, a).End() <= HEAP_END
    ensures Granted(bs, a).size >= n <==> n <= TWO64 - 16
    ensures Granted(bs, a).size <= if n <= TWO64 - 16 then n + 47 else 39
  {
    GrantedShape(bs, a);
    GrantedSize(bs, n, a);
  }

  /** The block found is split exactly when at least 40 bytes are left over, and then it keeps a bytes and
      the rest, less the new header, follows it as a free block; otherwise it is handed out whole. No other
      block changes. */
  lemma SplitIff(bs: seq<Block>, a: nat)
    requires FirstFit(bs, a) < |bs|
    ensures var i, r, g := FirstFit(bs, a), Alloc(bs, a), Granted(bs, a);
            && g.addr == bs[i].addr && !g.free
            && (|r| == |bs| + 1 <==> bs[i].size >= a + 40)
            && (if bs[i].size >= a + 40
                then g.size == a
                     && r == bs[..i] + [g, Block(bs[i].addr + 24 + a, bs[i].size - a - 24, true)] + bs[i + 1..]
                else g.size == bs[i].size && r == bs[..i] + [g] + bs[i + 1..])
  {}

  /** In a coalesced list free blocks are separated by live ones. */
  lemma {:induction false} FewFreeBlocks(bs: seq<Block>, cap: nat)
    requires Coalesced(bs)
    requires forall b :: b in bs && b.free ==> b.size <= cap
    ensures FreeBytes(bs) <= (LiveCount(bs) + if bs != [] && bs[0].free then 1 else 0) * cap
  {
    if bs != [] {
      CoalescedTail(bs);
      FewFreeBlocks(bs[1..], cap);
      if bs[0].free {
        assert Separated(bs, 0);
        assert (LiveCount(bs) + 1) * cap == LiveCount(bs) * cap + cap;
      } else {
        var k := LiveCount(bs[1..]) + if bs[1..] != [] && bs[1..][0].free then 1 else 0;
        MulMonotone(k, LiveCount(bs), cap);
      }
    }
  }

  lemma FailureMeansFull(bs: seq<Block>, a: nat)
    requires Canonical(bs, HEAP_START, HEAP_END) && a % 8 == 0
    requires a > 0
    ensures FirstFit(bs, a) == |bs| ==> FreeBytes(bs) <= (LiveCount(bs) + 1) * (a - 8)
  {
    if FirstFit(bs, a) == |bs| {
      forall b | b in bs && b.free
        ensures b.size <= a - 8
      {
        var k :| 0 <= k < |bs| && bs[k] == b;
        assert !Fits(bs[k], a);
        TilesAt(bs, HEAP_START, HEAP_END, k);
      }
      FewFreeBlocks(bs, a - 8);
      var k := LiveCount(bs) + if bs != [] && bs[0].free then 1 else 0;
      MulMonotone(k, LiveCount(bs) + 1, a - 8);
    }
  }

  lemma MulMonotone(x: nat, y: nat, z: nat)
    requires x <= y
    ensures x * z <= y * z
  {}

  lemma NothingFits(bs: seq<Block>, a: nat)
    ensures FirstFit(bs, a) == |bs| <==> forall b :: b in bs && b.free ==> b.size < a
  {
    if FirstFit(bs, a) == |bs| {
      forall b | b in bs && b.free
        ensures b.size < a
      {
        var k :| 0 <= k < |bs| && bs[k] == b;
        assert !Fits(bs[k], a);
      }
    } else {
      assert bs[FirstFit(bs, a)] in bs;
    }
  }

  /** No block of at least a bytes is free exactly when every free block is smaller, and then at most
      (live + 1) * (a - 8) bytes are free in total; a is any size kmalloc can ask for after aligning. */
  lemma FragmentationBound(bs: seq<Block>, a: nat)
    requires Canonical(bs, HEAP_START, HEAP_END) && a % 8 == 0 && a > 0
    ensures FirstFit(bs, a) == |bs| <==> forall b :: b in bs && b.free ==> b.size < a
    ensures FirstFit(bs, a) == |bs| ==> FreeBytes(bs) <= (LiveCount(bs) + 1) * (a - 8)
  {
    NothingFits(bs, a);
    FailureMeansFull(bs, a);
  }

  /** Free blocks of a - 8 bytes alternating with k live ones, the first of them extra bytes larger than
      the least kmalloc makes. */
  ghost function Comb(addr: nat, k: nat, a: nat, extra: nat): seq<Block>
    requires a >= 8
    decreases k
  {
    var gap := Block(addr, a - 8, true);
    if k == 0 then [gap]
    else [gap, Block(gap.End(), 16 + extra, false)] + Comb(gap.End() + HEADER + 16 + extra, k - 1, a, 0)
  }

  function CombSize(k: nat, a: nat): nat { (k + 1) * (a + 16) + k * (HEADER + 16) }

  lemma CombSizeStep(k: nat, a: nat)
    requires k > 0
    ensures CombSize(k, a) == a + 16 + HEADER + 16 + CombSize(k - 1, a)
  {}

  lemma CombUnfold(addr: nat, k: nat, a: nat, extra: nat)
    requires a >= 8 && k > 0
    ensures var bs, next := Comb(addr, k, a, extra), addr + a + 16 + HEADER + 16 + extra;
            && bs == [Block(addr, a - 8, true), Block(addr + a + 16, 16 + extra, false)] + Comb(next, k - 1, a, 0)
            && bs[1..] == [bs[1]] + Comb(next, k - 1, a, 0) && bs[1..][1..] == Comb(next, k - 1, a, 0)
  {}

  lemma {:induction false} CombTiles(addr: nat, k: nat, a: nat, extra: nat)
    requires a >= 8 && a % 8 == 0 && extra % 8 == 0 && (k > 0 || extra == 0)
    ensures Tiles(Comb(addr, k, a, extra), addr, addr + CombSize(k, a) + extra)
    decreases k
  {
    if k == 0 {
      assert Comb(addr, k, a, extra)[1..] == [];
    } else {
      CombUnfold(addr, k, a, extra);
      CombSizeStep(k, a);
      CombTiles(addr + a + 16 + HEADER + 16 + extra, k - 1, a, 0);
    }
  }

  lemma {:induction false} CombCoalesced(addr: nat, k: nat, a: nat, extra: nat)
    requires a >= 8
    ensures Coalesced(Comb(addr, k, a, extra))
    ensures forall b :: b in Comb(addr, k, a, extra) && b.free ==> b.size < a
    decreases k
  {
    if k > 0 {
      CombUnfold(addr, k, a, extra);
      var bs, rest := Comb(addr, k, a, extra), Comb(addr + a + 16 + HEADER + 16 + extra, k - 1, a, 0);
      CombCoalesced(addr + a + 16 + HEADER + 16 + extra, k - 1, a, 0);
      forall i
        ensures Separated(bs, i)
      {
        if i >= 2 { assert Separated(rest, i - 2); }
      }
    }
  }

  lemma {:induction false} CombCounts(addr: nat, k: nat, a: nat, extra: nat)
    requires a >= 8
    ensures LiveCount(Comb(addr, k, a, extra)) == k && FreeBytes(Comb(addr, k, a, extra)) == (k + 1) * (a - 8)
    decreases k
  {
    if k == 0 {
      assert Comb(addr, k, a, extra)[1..] == [];
    } else {
      CombUnfold(addr, k, a, extra);
      CombCounts(addr + a + 16 + HEADER + 16 + extra, k - 1, a, 0);
      assert (k + 1) * (a - 8) == (a - 8) + k * (a - 8);
    }
  }

  /** The bound is attained for any size a and any number k of live blocks that fit together: by a heap
      with k live blocks where nothing of a bytes fits and (k + 1) * (a - 8) bytes are free. */
  lemma FragmentationBoundIsTight(k: nat, a: nat) returns (bs: seq<Block>)
    requires a > 0 && a % 8 == 0 && CombSize(k, a) <= HEAP_SIZE && (k > 0 || CombSize(k, a) == HEAP_SIZE)
    ensures Canonical(bs, HEAP_START, HEAP_END) && LiveCount(bs) == k
    ensures FirstFit(bs, a) == |bs| && FreeBytes(bs) == (LiveCount(bs) + 1) * (a - 8)
  {
    var extra := HEAP_SIZE - CombSize(k, a);
    CombSizeAligned(k, a);
    bs := Comb(HEAP_START, k, a, extra);
    CombTiles(HEAP_START, k, a, extra);
    CombCoalesced(HEAP_START, k, a, extra);
    CombCounts(HEAP_START, k, a, extra);
    NothingFits(bs, a);
  }

  lemma CombSizeAligned(k: nat, a: nat)
    requires a % 8 == 0
    ensures CombSize(k, a) % 8 == 0
  {
    var c := a / 8;
    assert CombSize(k, a) == 8 * ((k + 1) * (c + 2) + k * 5);
    TimesEight((k + 1) * (c + 2) + k * 5);
  }

  /** kmalloc(n) returns NULL and changes nothing exactly when n is 0 or every free block is smaller than the aligned
      size, which is one FragmentationBound speaks of unless the request wraps. */
  lemma MallocFailsIff(s: HeapState, n: nat)
    ensures MallocResult(s, n) == 0 <==> n == 0 || forall b :: b in s.blocks && b.free ==> b.size < AlignSize(n)
    ensures MallocResult(s, n) == 0 ==> MallocStep(s, n) == s
  {
    AllocFailsIff(s, AlignSize(n));
  }

  lemma AllocFailsIff(s: HeapState, a: nat)
    ensures AllocResult(s, a) == 0 <==> forall b :: b in s.blocks && b.free ==> b.size < a
  {
    NothingFits(s.blocks, a);
  }

  // ---------------------------------------------------------------- commuting frees

  lemma FreeUndoesAlloc(bs: seq<Block>, a: nat)
    requires Canonical(bs, HEAP_START, HEAP_END) && a % 8 == 0
    requires FirstFit(bs, a) < |bs|
    ensures Free(Alloc(bs, a), Granted(bs, a).Ptr()) == bs
  {
    var g, mid := Granted(bs, a), Alloc(bs, a);
    AllocKeepsCanonical(bs, a, HEAP_START, HEAP_END);
    FreeCanonical(mid, g.Ptr(), HEAP_START, HEAP_END);
    assert forall b :: b in At(mid, g.Ptr()) <==> b in Live(mid) && b.addr == g.addr;
    assert At(mid, g.Ptr()) == {g};
    CanonicalIsUnique(Free(mid, g.Ptr()), bs, HEAP_START, HEAP_END);
  }

  /** kfree(kmalloc(n)) restores the whole state: every address, size, flag and link, and the
      counter. A failed kmalloc returns NULL, so this holds for every request. */
  lemma FreeUndoesMalloc(s: HeapState, n: nat)
    requires HeapInv(s) && n < TWO64
    ensures ReleaseStep(MallocStep(s, n), MallocResult(s, n)) == s
  {
    if MallocResult(s, n) != 0 {
      var t := MallocStep(s, n);
      AlignIsMultiple(n);
      AllocKeepsInv(s, AlignSize(n));
      FreeUndoesAlloc(s.blocks, AlignSize(n));
      ReleaseKeepsInv(t, MallocResult(s, n));
    }
  }

  ghost function FreeMany(bs: seq<Block>, ptrs: seq<nat>): seq<Block>
    decreases |ptrs|
  {
    if ptrs == [] then bs else FreeMany(Free(bs, ptrs[0]), ptrs[1..])
  }

  lemma {:induction false} FreeSeriesLive(bs: seq<Block>, ptrs: seq<nat>)
    requires Canonical(bs, HEAP_START, HEAP_END)
    ensures Canonical(FreeMany(bs, ptrs), HEAP_START, HEAP_END)
    ensures Live(FreeMany(bs, ptrs)) == set b | b in Live(bs) && b.Ptr() !in ptrs
    decreases |ptrs|
  {
    if ptrs != [] {
      FreeCanonical(bs, ptrs[0], HEAP_START, HEAP_END);
      FreeSeriesLive(Free(bs, ptrs[0]), ptrs[1..]);
      assert ptrs == [ptrs[0]] + ptrs[1..];
    }
  }

  /** A row of frees of NULL and of blocks of the list, repeats included. */
  ghost predicate ReleasableSeries(bs: seq<Block>, ptrs: seq<nat>) {
    forall p :: p in ptrs ==> Releasable(bs, p)
  }

  /** What is left live depends only on which pointers were freed. */
  lemma FreeManyLive(bs: seq<Block>, ptrs: seq<nat>)
    requires Canonical(bs, HEAP_START, HEAP_END) && ReleasableSeries(bs, ptrs)
    ensures Canonical(FreeMany(bs, ptrs), HEAP_START, HEAP_END)
    ensures Live(FreeMany(bs, ptrs)) == set b | b in Live(bs) && b.Ptr() !in ptrs
  {
    FreeSeriesLive(bs, ptrs);
  }

  /** Frees commute: any two orders of the same pointers give the same list, links and sizes
      included. A pointer freed twice in the row changes nothing. */
  lemma FreesCommute(bs: seq<Block>, p: seq<nat>, q: seq<nat>)
    requires Canonical(bs, HEAP_START, HEAP_END) && ReleasableSeries(bs, p)
    requires forall x :: x in p <==> x in q
    ensures FreeMany(bs, p) == FreeMany(bs, q)
  {
    FreeManyLive(bs, p);
    FreeManyLive(bs, q);
    CanonicalIsUnique(FreeMany(bs, p), FreeMany(bs, q), HEAP_START, HEAP_END);
  }

  /** Freeing every live pointer, in any order, restores the single free block of the fresh heap. */
  lemma FreeAllRestoresFresh(bs: seq<Block>, p: seq<nat>)
    requires Canonical(bs, HEAP_START, HEAP_END) && ReleasableSeries(bs, p)
    requires forall b :: b in Live(bs) ==> b.Ptr() in p
    ensures FreeMany(bs, p) == [Block(HEAP_START, HEAP_SIZE - HEADER, true)]
  {
    FreeManyLive(bs, p);
    FreshIsCanonical();
    assert Live(FreeMany(bs, p)) == {};
    CanonicalIsUnique(FreeMany(bs, p), Fresh().blocks, HEAP_START, HEAP_END);
  }

  // ---------------------------------------------------------------- runs

  datatype HeapState = HeapState(blocks: seq<Block>, total: nat)

  datatype HeapOp = Malloc(n: nat) | Release(ptr: nat)

  ghost function Fresh(): HeapState {
    HeapState([Block(HEAP_START, HEAP_SIZE - HEADER, true)], 0)
  }

  /** kmalloc after rounding the request up to a bytes. */
  ghost function AllocStep(s: HeapState, a: nat): HeapState {
    if FirstFit(s.blocks, a) == |s.blocks| then s
    else HeapState(Alloc(s.blocks, a), (s.total + Granted(s.blocks, a).size) % TWO64)
  }

  ghost function AllocResult(s: HeapState, a: nat): nat {
    if FirstFit(s.blocks, a) == |s.blocks| then 0 else Granted(s.blocks, a).Ptr()
  }

  ghost function MallocStep(s: HeapState, n: nat): HeapState {
    if n == 0 then s else AllocStep(s, AlignSize(n))
  }

  /** What kmalloc returns: 0 is NULL. */
  ghost function MallocResult(s: HeapState, n: nat): nat {
    if n == 0 then 0 else AllocResult(s, AlignSize(n))
  }

  ghost function ReleaseStep(s: HeapState, ptr: nat): HeapState {
    if ptr < HEADER then s
    else
      var i := IndexOf(s.blocks, ptr - HEADER);
      if i == |s.blocks| || s.blocks[i].free then s else FreeStep(s, i)
  }

  /** kfree of block i, which is not free. */
  ghost function FreeStep(s: HeapState, i: nat): HeapState
    requires i < |s.blocks|
  {
    HeapState(FreeAt(s.blocks, i), (s.total - s.blocks[i].size) % TWO64)
  }

  ghost function Step(s: HeapState, op: HeapOp): HeapState {
    match op
    case Malloc(n) => MallocStep(s, n)
    case Release(ptr) => ReleaseStep(s, ptr)
  }

  /** Requests fit size_t, and kfree is given NULL or the pointer of a block of the list. */
  ghost predicate Legal(s: HeapState, op: HeapOp) {
    match op
    case Malloc(n) => n < TWO64
    case Release(ptr) => Releasable(s.blocks, ptr)
  }

  ghost predicate LegalRun(s: HeapState, ops: seq<HeapOp>)
    decreases |ops|
  {
    ops == [] || (Legal(s, ops[0]) && LegalRun(Step(s, ops[0]), ops[1..]))
  }

  ghost function Run(s: HeapState, ops: seq<HeapOp>): HeapState
    decreases |ops|
  {
    if ops == [] then s else Run(Step(s, ops[0]), ops[1..])
  }

  /** total_allocated is the sum of the live sizes, and the list is the canonical tiling. */
  ghost predicate HeapInv(s: HeapState) {
    Canonical(s.blocks, HEAP_START, HEAP_END) && s.total == Used(s.blocks)
  }

  /** What initialisation leaves: one block from 0x180000 to 0x200000, 524264 bytes of it free. */
  lemma FreshHeap()
    ensures Fresh() == HeapState([Block(0x180000, 524264, true)], 0)
    ensures FreeBytes(Fresh().blocks) == 524264 && Used(Fresh().blocks) == 0 && HEAP_END == 0x200000
  {
    assert Fresh().blocks[1..] == [];
  }

  /** The kernel's first request, kmalloc(64), and one of 300000 bytes. */
  lemma FirstRequests()
    ensures var s := MallocStep(Fresh(), 64);
            && MallocResult(Fresh(), 64) == 0x180018 && s.total == 64
            && s.blocks == [Block(0x180000, 64, false), Block(0x180058, 524176, true)]
    ensures MallocResult(Fresh(), 300000) == 0x180018
  {
    assert AlignSize(64) == 64 && AlignSize(300000) == 300000;
    FirstFitUnique(Fresh().blocks, 64, 0);
    FirstFitUnique(Fresh().blocks, 300000, 0);
    SplitIff(Fresh().blocks, 64);
  }

  lemma FreshIsCanonical()
    ensures HeapInv(Fresh()) && Live(Fresh().blocks) == {}
  {
    var bs := Fresh().blocks;
    assert bs[1..] == [];
    assert Tiles(bs[1..], HEAP_END, HEAP_END);
    assert Tiles(bs, HEAP_START, HEAP_END);
    assert Used(bs) == 0;
  }

  lemma AllocKeepsInv(s: HeapState, a: nat)
    requires HeapInv(s) && a % 8 == 0
    ensures HeapInv(AllocStep(s, a))
  {
    if FirstFit(s.blocks, a) < |s.blocks| {
      AllocKeepsCanonical(s.blocks, a, HEAP_START, HEAP_END);
      AllocUsed(s.blocks, a);
      Conservation(Alloc(s.blocks, a), HEAP_START, HEAP_END);
    }
  }

  lemma FreeAtKeepsInv(s: HeapState, i: nat)
    requires HeapInv(s) && i < |s.blocks| && !s.blocks[i].free
    ensures HeapInv(FreeStep(s, i))
  {
    FreeAtKeepsCanonical(s.blocks, i, HEAP_START, HEAP_END);
    FreeAtUsed(s.blocks, i);
    Conservation(s.blocks, HEAP_START, HEAP_END);
  }

  lemma ReleaseKeepsInv(s: HeapState, ptr: nat)
    requires HeapInv(s)
    ensures HeapInv(ReleaseStep(s, ptr))
    ensures ReleaseStep(s, ptr).blocks == Free(s.blocks, ptr)
  {
    if ptr >= HEADER && IndexOf(s.blocks, ptr - HEADER) < |s.blocks| {
      var i := IndexOf(s.blocks, ptr - HEADER);
      if !s.blocks[i].free {
        FreeAtKeepsInv(s, i);
      }
    }
  }

  lemma StepKeepsInv(s: HeapState, op: HeapOp)
    requires HeapInv(s) && Legal(s, op)
    ensures HeapInv(Step(s, op))
  {
    match op {
      case Malloc(n) =>
        AlignIsMultiple(n);
        AllocKeepsInv(s, AlignSize(n));
      case Release(ptr) => ReleaseKeepsInv(s, ptr);
    }
  }

  /** Every reachable heap is a coalesced, gap-free tiling of [0x180000, 0x200000) with exact
      accounting: used + free + 24 * blocks is the heap size. */
  lemma {:induction false} EveryRunIsCanonical(s: HeapState, ops: seq<HeapOp>)
    requires HeapInv(s) && LegalRun(s, ops)
    ensures HeapInv(Run(s, ops))
    ensures var e := Run(s, ops);
            e.total + FreeBytes(e.blocks) + HEADER * |e.blocks| == HEAP_SIZE
    decreases |ops|
  {
    if ops == [] {
      Conservation(s.blocks, HEAP_START, HEAP_END);
    } else {
      StepKeepsInv(s, ops[0]);
      EveryRunIsCanonical(Step(s, ops[0]), ops[1..]);
    }
  }

  /** The heap has no memory of its history: two runs that leave the same blocks live leave the
      same list and the same counter. */
  lemma HistoryIndependence(x: seq<HeapOp>, y: seq<HeapOp>)
    requires LegalRun(Fresh(), x) && LegalRun(Fresh(), y)
    requires Live(Run(Fresh(), x).blocks) == Live(Run(Fresh(), y).blocks)
    ensures Run(Fresh(), x) == Run(Fresh(), y)
  {
    FreshIsCanonical();
    EveryRunIsCanonical(Fresh(), x);
    EveryRunIsCanonical(Fresh(), y);
    CanonicalIsUnique(Run(Fresh(), x).blocks, Run(Fresh(), y).blocks, HEAP_START, HEAP_END);
  }

  ghost predicate AtLeast16(bs: seq<Block>) {
    forall b :: b in bs ==> b.size >= 16
  }

  ghost predicate NoWrap(ops: seq<HeapOp>) {
    forall op :: op in ops && op.Malloc? ==> op.n <= TWO64 - 16
  }

  lemma AllocKeepsMinimum(bs: seq<Block>, a: nat)
    requires AtLeast16(bs) && a >= 16
    ensures AtLeast16(Alloc(bs, a))
  {
    var i := FirstFit(bs, a);
    if i < |bs| {
      assert forall b :: b in Carve(bs[i], a) ==> b.size >= 16;
    }
  }

  lemma FreeAtKeepsMinimum(bs: seq<Block>, i: nat)
    requires AtLeast16(bs) && i < |bs|
    ensures AtLeast16(FreeAt(bs, i))
  {
    assert bs[i] in bs;
    assert Merged(bs, i).size >= bs[i].size;
  }

  lemma StepKeepsMinimum(s: HeapState, op: HeapOp)
    requires AtLeast16(s.blocks) && NoWrap([op])
    ensures AtLeast16(Step(s, op).blocks)
  {
    match op {
      case Malloc(n) =>
        if n > 0 {
          assert op in [op];
          assert AlignSize(n) >= 16 by { AlignSizeExact(n); }
          AllocKeepsMinimum(s.blocks, AlignSize(n));
        }
      case Release(ptr) =>
        if ptr >= HEADER && IndexOf(s.blocks, ptr - HEADER) < |s.blocks| {
          FreeAtKeepsMinimum(s.blocks, IndexOf(s.blocks, ptr - HEADER));
        }
    }
  }

  /** When kmalloc(n) may run on bs without making a block smaller than 16 bytes: the request does
      not wrap, or it fails, or the block it takes is too small to be split. */
  ghost predicate KeepsMinimum(bs: seq<Block>, n: nat) {
    || n <= TWO64 - 16
    || FirstFit(bs, 0) == |bs|
    || bs[FirstFit(bs, 0)].size < HEADER + 16
  }

  lemma EmptyGrantIff(bs: seq<Block>)
    requires AtLeast16(bs)
    ensures AtLeast16(Alloc(bs, 0)) <==> FirstFit(bs, 0) == |bs| || bs[FirstFit(bs, 0)].size < HEADER + 16
  {
    var i := FirstFit(bs, 0);
    if i < |bs| {
      var c := Carve(bs[i], 0);
      assert bs[i] in bs;
      assert forall b :: b in c ==> b in Alloc(bs, 0);
      if |c| == 2 {
        assert c[0] in c && c[0].size == 0;
      } else {
        forall b | b in Alloc(bs, 0)
          ensures b.size >= 16
        {
          SpliceMember(bs, i, i + 1, c, b);
        }
      }
    }
  }

  /** kmalloc(n) keeps the minimum of 16 bytes exactly under that condition. */
  lemma MallocKeepsMinimumIff(s: HeapState, n: nat)
    requires AtLeast16(s.blocks) && n < TWO64
    ensures AtLeast16(MallocStep(s, n).blocks) <==> KeepsMinimum(s.blocks, n)
  {
    if n > TWO64 - 16 {
      assert AlignSize(n) == 0 by { AlignSizeExact(n); }
      EmptyGrantIff(s.blocks);
    } else {
      assert NoWrap([Malloc(n)]);
      StepKeepsMinimum(s, Malloc(n));
    }
  }

  /** Every state of the run has blocks of at least 16 bytes only. */
  ghost predicate AlwaysAtLeast16(s: HeapState, ops: seq<HeapOp>)
    decreases |ops|
  {
    AtLeast16(s.blocks) && (ops == [] || AlwaysAtLeast16(Step(s, ops[0]), ops[1..]))
  }

  ghost predicate AlwaysKeepsMinimum(s: HeapState, ops: seq<HeapOp>)
    decreases |ops|
  {
    ops == [] ||
    ((ops[0].Malloc? ==> KeepsMinimum(s.blocks, ops[0].n)) && AlwaysKeepsMinimum(Step(s, ops[0]), ops[1..]))
  }

  /** Over a legal run every block of every state has at least 16 payload bytes exactly when each
      request meets the condition in the state it is made in. */
  lemma {:induction false} EveryBlockAtLeast16Iff(s: HeapState, ops: seq<HeapOp>)
    requires AtLeast16(s.blocks) && LegalRun(s, ops)
    ensures AlwaysAtLeast16(s, ops) <==> AlwaysKeepsMinimum(s, ops)
    decreases |ops|
  {
    if ops != [] {
      var t := Step(s, ops[0]);
      if ops[0].Malloc? {
        MallocKeepsMinimumIff(s, ops[0].n);
      } else {
        assert NoWrap([ops[0]]);
        StepKeepsMinimum(s, ops[0]);
      }
      if AtLeast16(t.blocks) {
        EveryBlockAtLeast16Iff(t, ops[1..]);
      }
    }
  }

  /** In particular when no request wraps. */
  lemma {:induction false} EveryBlockAtLeast16(s: HeapState, ops: seq<HeapOp>)
    requires AtLeast16(s.blocks) && LegalRun(s, ops) && NoWrap(ops)
    ensures AtLeast16(Run(s, ops).blocks)
    decreases |ops|
  {
    if ops != [] {
      assert NoWrap([ops[0]]);
      StepKeepsMinimum(s, ops[0]);
      EveryBlockAtLeast16(Step(s, ops[0]), ops[1..]);
    }
  }

  /** One wrapping request breaks that minimum: kmalloc(2^64 - 1) succeeds on the fresh heap with a
      block of capacity 0. */
  lemma WrappingRequestGivesEmptyBlock()
    ensures MallocResult(Fresh(), TWO64 - 1) != 0
    ensures Block(HEAP_START, 0, false) in MallocStep(Fresh(), TWO64 - 1).blocks
  {
    AlignSizeExact(TWO64 - 1);
    var bs := Fresh().blocks;
    FirstFitUnique(bs, 0, 0);
    assert Alloc(bs, 0) == Carve(bs[0], 0);
  }
}
