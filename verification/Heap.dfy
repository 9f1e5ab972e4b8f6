/** The in-place allocator of kernel/memory/kmalloc.c, over the words of its region.

    Word k of `mem` is the 8 bytes at address HEAP_START + 8 * k, so a header at address a takes
    the words W(a) (size), W(a) + 1 (is_free in its low byte, the rest padding) and W(a) + 2 (next). */
module Heap {
  import opened BlockList
  import opened HeapLaws
  import opened MachineWords

  const WORDS: nat := HEAP_SIZE / 8

  function W(a: nat): int {
    (a - HEAP_START) / 8
  }

  // ---------------------------------------------------------------- lists in memory

  ghost predicate HeaderIs(m: seq<Word>, b: Block, next: nat) {
    var w := W(b.addr);
    && 0 <= w && w + 2 < |m|
    && m[w] == b.size
    && m[w + 1] % 256 == (if b.free then 1 else 0)
    && m[w + 2] == next
  }

  ghost predicate LinkAt(m: seq<Word>, bs: seq<Block>, i: int, last: nat) {
    0 <= i < |bs| ==> HeaderIs(m, bs[i], Next(bs, i, last))
  }

  /** The headers of bs are in m, linked in order, the last one to `last`. */
  ghost predicate Chain(m: seq<Word>, bs: seq<Block>, last: nat) {
    forall i :: LinkAt(m, bs, i, last)
  }

  /** The NULL-terminated chain of headers in m is the list bs. */
  ghost predicate Represents(m: seq<Word>, bs: seq<Block>) {
    |m| == WORDS && Chain(m, bs, 0)
  }

  /** Two words that differ in the low byte at most: is_free has one byte, and the rest is padding. */
  ghost predicate SamePadding(x: Word, y: Word) { x / 256 == y / 256 }

  /** Word k is a size or a link in a header of bs, or a flag whose padding stayed. */
  ghost predicate HeaderChange(m: seq<Word>, n: seq<Word>, bs: seq<Block>, k: int)
    requires 0 <= k < |m| == |n|
  {
    exists b :: b in bs &&
      (k == W(b.addr) || k == W(b.addr) + 2 || (k == W(b.addr) + 1 && SamePadding(m[k], n[k])))
  }

  /** Nothing but sizes, links and flags in the headers of bs differs. */
  ghost predicate OnlyHeadersDiffer(m: seq<Word>, n: seq<Word>, bs: seq<Block>) {
    && |m| == |n|
    && forall k :: 0 <= k < |m| && m[k] != n[k] ==> HeaderChange(m, n, bs, k)
  }

  /** The words of b that its owner may use. */
  ghost predicate InPayload(b: Block, k: int) {
    W(b.Ptr()) <= k < W(b.End())
  }

  lemma HeaderMissesPayload(bs: seq<Block>, b: Block, c: Block, k: int)
    requires Tiles(bs, HEAP_START, HEAP_END) && b in bs && c in bs
    requires InPayload(b, k)
    ensures !(W(c.addr) <= k < W(c.addr) + 3)
  {
    var i :| 0 <= i < |bs| && bs[i] == b;
    var j :| 0 <= j < |bs| && bs[j] == c;
    TilesAt(bs, HEAP_START, HEAP_END, i);
    TilesAt(bs, HEAP_START, HEAP_END, j);
    if i < j { BlocksDisjoint(bs, HEAP_START, HEAP_END, i, j); }
    if j < i { BlocksDisjoint(bs, HEAP_START, HEAP_END, j, i); }
  }

  /** Payloads of two blocks share no word and lie inside the heap. */
  lemma PayloadsDisjoint(bs: seq<Block>, i: nat, j: nat, k: int)
    requires Tiles(bs, HEAP_START, HEAP_END) && i < |bs| && j < |bs|
    requires InPayload(bs[i], k)
    ensures 0 <= k < WORDS
    ensures InPayload(bs[j], k) ==> i == j
  {
    TilesAt(bs, HEAP_START, HEAP_END, i);
    TilesAt(bs, HEAP_START, HEAP_END, j);
    if i < j { BlocksDisjoint(bs, HEAP_START, HEAP_END, i, j); }
    if j < i { BlocksDisjoint(bs, HEAP_START, HEAP_END, j, i); }
  }

  /** An operation that writes only headers of a tiling leaves every payload in it as it was. */
  lemma PayloadUntouched(m: seq<Word>, n: seq<Word>, bs: seq<Block>, b: Block)
    requires Tiles(bs, HEAP_START, HEAP_END) && b in bs
    requires OnlyHeadersDiffer(m, n, bs)
    ensures forall k :: 0 <= k < |m| && InPayload(b, k) ==> m[k] == n[k]
  {
    forall k | 0 <= k < |m| && InPayload(b, k)
      ensures m[k] == n[k]
    {
      if m[k] != n[k] {
        var c :| c in bs && W(c.addr) <= k < W(c.addr) + 3;
        HeaderMissesPayload(bs, b, c, k);
      }
    }
  }

  /** kmalloc moves, shrinks and overwrites no live block. */
  lemma KmallocFrame(s: HeapState, n: nat, before: seq<Word>, after: seq<Word>, b: Block)
    requires HeapInv(s) && n < TWO64 && b in Live(s.blocks)
    requires OnlyHeadersDiffer(before, after, MallocStep(s, n).blocks)
    ensures b in Live(MallocStep(s, n).blocks)
    ensures forall k :: 0 <= k < |before| && InPayload(b, k) ==> before[k] == after[k]
  {
    StepKeepsInv(s, Malloc(n));
    AlignIsMultiple(n);
    AllocKeepsCanonical(s.blocks, AlignSize(n), HEAP_START, HEAP_END);
    PayloadUntouched(before, after, MallocStep(s, n).blocks, b);
  }

  /** kfree overwrites no payload, not even the one it frees, and every other live block stays. */
  lemma KfreeFrame(s: HeapState, ptr: nat, before: seq<Word>, after: seq<Word>, b: Block)
    requires HeapInv(s) && Releasable(s.blocks, ptr) && b in Live(s.blocks)
    requires OnlyHeadersDiffer(before, after, s.blocks)
    ensures b.Ptr() != ptr ==> b in Live(ReleaseStep(s, ptr).blocks)
    ensures forall k :: 0 <= k < |before| && InPayload(b, k) ==> before[k] == after[k]
  {
    ReleaseKeepsInv(s, ptr);
    FreeKeepsCanonical(s.blocks, ptr, HEAP_START, HEAP_END);
    PayloadUntouched(before, after, s.blocks, b);
  }

  /** Conversely, a client that writes only into payloads never damages the list. */
  lemma ClientWritesAreHarmless(m: seq<Word>, n: seq<Word>, bs: seq<Block>)
    requires Tiles(bs, HEAP_START, HEAP_END) && Represents(m, bs) && |n| == |m|
    requires forall k :: 0 <= k < |m| && m[k] != n[k] ==> exists b :: b in bs && InPayload(b, k)
    ensures Represents(n, bs)
  {
    forall i
      ensures LinkAt(n, bs, i, 0)
    {
      assert LinkAt(m, bs, i, 0);
      if 0 <= i < |bs| {
        HeaderKept(m, n, bs, i);
      }
    }
  }

  lemma HeaderKept(m: seq<Word>, n: seq<Word>, bs: seq<Block>, i: nat)
    requires Tiles(bs, HEAP_START, HEAP_END) && |n| == |m| && i < |bs|
    requires forall k :: 0 <= k < |m| && m[k] != n[k] ==> exists b :: b in bs && InPayload(b, k)
    ensures forall k :: 0 <= k < |m| && W(bs[i].addr) <= k < W(bs[i].addr) + 3 ==> m[k] == n[k]
  {
    forall k | 0 <= k < |m| && W(bs[i].addr) <= k < W(bs[i].addr) + 3
      ensures m[k] == n[k]
    {
      if m[k] != n[k] {
        var b :| b in bs && InPayload(b, k);
        HeaderMissesPayload(bs, b, bs[i], k);
      }
    }
  }

  /** Block i lies wholly outside the blocks p..q. */
  lemma OutsideSpan(bs: seq<Block>, i: nat, p: nat, q: nat)
    requires Tiles(bs, HEAP_START, HEAP_END) && i < |bs| && p < q <= |bs| && !(p <= i < q)
    ensures W(bs[i].addr) + 3 <= W(bs[p].addr) || W(bs[q - 1].End()) <= W(bs[i].addr)
  {
    TilesAt(bs, HEAP_START, HEAP_END, i);
    if i < p {
      TilesAt(bs, HEAP_START, HEAP_END, p);
      BlocksDisjoint(bs, HEAP_START, HEAP_END, i, p);
    } else {
      TilesAt(bs, HEAP_START, HEAP_END, q - 1);
      BlocksDisjoint(bs, HEAP_START, HEAP_END, q - 1, i);
    }
  }

  ghost predicate SameOutside(m: seq<Word>, n: seq<Word>, lo: int, hi: int) {
    |m| == |n| && forall k :: 0 <= k < |m| && !(lo <= k < hi) ==> m[k] == n[k]
  }

  /** Replacing blocks p..q by mid in the list: it is enough that the headers of mid are in place
      and that nothing outside the replaced blocks was written. */
  lemma SpliceRepresents(m: seq<Word>, n: seq<Word>, bs: seq<Block>, p: nat, q: nat, mid: seq<Block>)
    requires Tiles(bs, HEAP_START, HEAP_END) && Represents(m, bs)
    requires p < q <= |bs| && mid != [] && mid[0].addr == bs[p].addr
    requires SameOutside(m, n, W(bs[p].addr), W(bs[q - 1].End()))
    requires Chain(n, mid, Next(bs, q - 1))
    ensures Represents(n, Splice(bs, p, q, mid))
  {
    var r := Splice(bs, p, q, mid);
    forall i
      ensures LinkAt(n, r, i, 0)
    {
      if p <= i < p + |mid| {
        assert LinkAt(n, mid, i - p, Next(bs, q - 1));
        assert r[i] == mid[i - p];
        assert i + 1 < p + |mid| ==> r[i + 1] == mid[i + 1 - p];
        assert p + |mid| == i + 1 < |r| ==> r[i + 1] == bs[q];
      } else if 0 <= i < |r| {
        var k := if i < p then i else i - p - |mid| + q;
        assert LinkAt(m, bs, k, 0);
        assert r[i] == bs[k] && Next(r, i) == Next(bs, k);
        OutsideSpan(bs, k, p, q);
      }
    }
  }

  // ---------------------------------------------------------------- repeated frees

  ghost predicate FlagSet(m: seq<Word>, a: nat) {
    0 <= W(a) && W(a) + 1 < |m| && m[W(a) + 1] % 256 != 0
  }

  /** A header that was merged away: it lies in the payload of a free block and still reads free. */
  ghost predicate StaleHeader(m: seq<Word>, bs: seq<Block>, a: nat) {
    && HEAP_START <= a && FlagSet(m, a)
    && exists b :: b in bs && b.free && InPayload(b, W(a) + 1)
  }

  /** kfree(ptr) releases a block. */
  ghost predicate Frees(bs: seq<Block>, ptr: nat) {
    ptr >= HEADER && var i := IndexOf(bs, ptr - HEADER); i < |bs| && !bs[i].free
  }

  /** What kfree survives: NULL, a block of the list, or a block freed before and merged away. */
  ghost predicate Freeable(m: seq<Word>, bs: seq<Block>, ptr: nat) {
    Releasable(bs, ptr) || (ptr >= HEADER && StaleHeader(m, bs, ptr - HEADER))
  }

  /** Word k is the flag of block i, or the size or link of a block that takes in the one after it when
      block i is freed. */
  ghost predicate KfreeWord(bs: seq<Block>, i: nat, k: int)
    requires i < |bs|
  {
    || k == W(bs[i].addr) + 1
    || (MergeHi(bs, i) == i + 2 && (k == W(bs[i].addr) || k == W(bs[i].addr) + 2))
    || (MergeLo(bs, i) < i && (k == W(bs[i - 1].addr) || k == W(bs[i - 1].addr) + 2))
  }

  /** What kfree of block i leaves in memory besides the new list: exactly those words differ, at most;
      block i has a header of what it was joined with, also if it was merged away itself; and the flags of
      all free blocks still read free, merged away or not. */
  ghost predicate KfreeWrites(m: seq<Word>, n: seq<Word>, bs: seq<Block>, i: nat) {
    && i < |bs| && OnlyHeadersDiffer(m, n, bs)
    && (forall k :: 0 <= k < |m| && m[k] != n[k] ==> KfreeWord(bs, i, k))
    && HeaderIs(n, MergedRight(bs, i), Next(bs, MergeHi(bs, i) - 1))
    && FlagsRead(n, bs, i)
  }

  ghost predicate FlagsRead(n: seq<Word>, bs: seq<Block>, i: nat) {
    forall j :: 0 <= j < |bs| && (bs[j].free || j == i) ==> FlagSet(n, bs[j].addr)
  }

  /** The writes of its first merge. */
  ghost predicate RightWrites(m: seq<Word>, n: seq<Word>, bs: seq<Block>, i: nat)
    requires i < |bs|
  {
    var w := W(bs[i].addr);
    && |m| == |n| && 0 <= w && w + 2 < |m|
    && SamePadding(m[w + 1], n[w + 1])
    && HeaderIs(n, MergedRight(bs, i), Next(bs, MergeHi(bs, i) - 1))
    && forall k :: 0 <= k < |m| && m[k] != n[k] ==>
                     k == w + 1 || (MergeHi(bs, i) == i + 2 && (k == w || k == w + 2))
  }

  /** The writes of its second merge, if there is one. */
  ghost predicate LeftWrites(m: seq<Word>, n: seq<Word>, bs: seq<Block>, i: nat)
    requires i < |bs|
  {
    |m| == |n| &&
    forall k :: 0 <= k < |m| && m[k] != n[k] ==>
                  MergeLo(bs, i) < i && (k == W(bs[i - 1].addr) || k == W(bs[i - 1].addr) + 2)
  }

  lemma TwoStepWrites(m: seq<Word>, mid: seq<Word>, n: seq<Word>, bs: seq<Block>, i: nat)
    requires Tiles(bs, HEAP_START, HEAP_END) && Represents(m, bs) && i < |bs|
    requires RightWrites(m, mid, bs, i) && LeftWrites(mid, n, bs, i)
    ensures KfreeWrites(m, n, bs, i)
  {
    TwoStepHeaders(m, mid, n, bs, i);
    if i > 0 { HeadersApart(bs, i - 1, i); }
    forall j | 0 <= j < |bs| && (bs[j].free || j == i)
      ensures FlagSet(n, bs[j].addr)
    {
      ListAt(m, bs, j);
      HeadersApart(bs, i, j);
      if i > 0 { HeadersApart(bs, i - 1, j); }
    }
  }

  lemma TwoStepHeaders(m: seq<Word>, mid: seq<Word>, n: seq<Word>, bs: seq<Block>, i: nat)
    requires Tiles(bs, HEAP_START, HEAP_END) && i < |bs|
    requires RightWrites(m, mid, bs, i) && LeftWrites(mid, n, bs, i)
    ensures OnlyHeadersDiffer(m, n, bs)
  {
    assert bs[i] in bs && (i > 0 ==> bs[i - 1] in bs);
    if i > 0 { HeadersApart(bs, i - 1, i); }
  }

  lemma HeadersApart(bs: seq<Block>, i: nat, j: nat)
    requires Tiles(bs, HEAP_START, HEAP_END) && i < |bs| && j < |bs|
    ensures i == j || W(bs[i].addr) + 3 <= W(bs[j].addr) || W(bs[j].addr) + 3 <= W(bs[i].addr)
  {
    TilesAt(bs, HEAP_START, HEAP_END, i);
    TilesAt(bs, HEAP_START, HEAP_END, j);
    if i < j { BlocksDisjoint(bs, HEAP_START, HEAP_END, i, j); }
    if j < i { BlocksDisjoint(bs, HEAP_START, HEAP_END, j, i); }
  }

  lemma MergedCovers(bs: seq<Block>, i: nat, j: nat)
    requires Tiles(bs, HEAP_START, HEAP_END) && i < |bs| && MergeLo(bs, i) <= j < MergeHi(bs, i)
    ensures Merged(bs, i).addr <= bs[j].addr && bs[j].End() <= Merged(bs, i).End()
    ensures j > MergeLo(bs, i) ==> Merged(bs, i).Ptr() <= bs[j].addr
    ensures Merged(bs, i) in FreeAt(bs, i)
  {
    var lo, hi := MergeLo(bs, i), MergeHi(bs, i);
    MergedTiles(bs, HEAP_START, HEAP_END, i);
    SpanCovers(bs, lo, hi, j, Merged(bs, i));
    assert FreeAt(bs, i)[lo] == Merged(bs, i);
  }

  lemma SpanCovers(bs: seq<Block>, lo: nat, hi: nat, j: nat, b: Block)
    requires Tiles(bs, HEAP_START, HEAP_END) && lo <= j < hi <= |bs|
    requires b.addr == bs[lo].addr && b.End() == bs[hi - 1].End()
    ensures b.addr <= bs[j].addr && bs[j].End() <= b.End()
    ensures j > lo ==> b.Ptr() <= bs[j].addr
  {
    InOrder(bs, lo, j);
    InOrder(bs, j, hi - 1);
  }

  lemma InOrder(bs: seq<Block>, j: nat, k: nat)
    requires Tiles(bs, HEAP_START, HEAP_END) && j <= k < |bs|
    ensures bs[j].addr <= bs[k].addr && bs[j].End() <= bs[k].End()
    ensures j < k ==> bs[j].Ptr() <= bs[j].End() <= bs[k].addr
  {
    if j < k { BlocksDisjoint(bs, HEAP_START, HEAP_END, j, k); }
  }

  lemma OutsideMergeStays(bs: seq<Block>, i: nat, j: nat)
    requires i < |bs| && j < |bs| && !(MergeLo(bs, i) <= j < MergeHi(bs, i))
    ensures bs[j] in FreeAt(bs, i)
  {
    var lo, hi := MergeLo(bs, i), MergeHi(bs, i);
    assert FreeAt(bs, i)[if j < lo then j else j - hi + lo + 1] == bs[j];
  }

  lemma MergedAwayIsStale(n: seq<Word>, bs: seq<Block>, i: nat, j: nat)
    requires Tiles(bs, HEAP_START, HEAP_END) && i < |bs| && FlagsRead(n, bs, i)
    requires MergeLo(bs, i) < j < MergeHi(bs, i)
    ensures StaleHeader(n, FreeAt(bs, i), bs[j].addr)
  {
    MergedCovers(bs, i, j);
    TilesAt(bs, HEAP_START, HEAP_END, j);
    assert bs[j].free || j == i;
    FlagInPayload(Merged(bs, i), bs[j].addr);
  }

  lemma FlagInPayload(b: Block, a: nat)
    requires HEAP_START <= b.addr && b.Ptr() <= a && a + HEADER <= b.End()
    ensures InPayload(b, W(a) + 1)
  {}

  lemma ReleasableStays(n: seq<Word>, bs: seq<Block>, i: nat, ptr: nat)
    requires Tiles(bs, HEAP_START, HEAP_END) && i < |bs| && FlagsRead(n, bs, i)
    requires Releasable(bs, ptr)
    ensures Freeable(n, FreeAt(bs, i), ptr)
  {
    if ptr != 0 {
      var b :| b in bs && b.Ptr() == ptr;
      var j :| 0 <= j < |bs| && bs[j] == b;
      BlockStaysFreeable(n, bs, i, j);
    }
  }

  /** A block of the list stays freeable when block i is freed. */
  lemma BlockStaysFreeable(n: seq<Word>, bs: seq<Block>, i: nat, j: nat)
    requires Tiles(bs, HEAP_START, HEAP_END) && i < |bs| && j < |bs| && FlagsRead(n, bs, i)
    ensures Freeable(n, FreeAt(bs, i), bs[j].Ptr())
  {
    if MergeLo(bs, i) <= j < MergeHi(bs, i) {
      MergedCovers(bs, i, j);
      if j > MergeLo(bs, i) {
        MergedAwayIsStale(n, bs, i, j);
      }
    } else {
      OutsideMergeStays(bs, i, j);
    }
  }

  lemma StaleStaysFreeable(m: seq<Word>, n: seq<Word>, bs: seq<Block>, i: nat, a: nat)
    requires Tiles(bs, HEAP_START, HEAP_END) && i < |bs| && OnlyHeadersDiffer(m, n, bs)
    requires StaleHeader(m, bs, a)
    ensures StaleHeader(n, FreeAt(bs, i), a)
  {
    var b :| b in bs && b.free && InPayload(b, W(a) + 1);
    var j :| 0 <= j < |bs| && bs[j] == b;
    PayloadUntouched(m, n, bs, b);
    if MergeLo(bs, i) <= j < MergeHi(bs, i) {
      MergedCovers(bs, i, j);
      assert InPayload(Merged(bs, i), W(a) + 1);
    } else {
      OutsideMergeStays(bs, i, j);
    }
  }

  /** Whatever kfree survived before a free it survives after it, so in a row of frees a pointer may
      come up again. */
  lemma FreeableSurvivesKfree(m: seq<Word>, n: seq<Word>, bs: seq<Block>, i: nat, ptr: nat)
    requires Tiles(bs, HEAP_START, HEAP_END) && i < |bs| && KfreeWrites(m, n, bs, i)
    requires Freeable(m, bs, ptr)
    ensures Freeable(n, FreeAt(bs, i), ptr)
  {
    if Releasable(bs, ptr) {
      ReleasableStays(n, bs, i, ptr);
    } else {
      StaleStaysFreeable(m, n, bs, i, ptr - HEADER);
    }
  }

  /** What the second merge has to do, in the list the first one left. */
  lemma SecondMerge(bs: seq<Block>, i: nat)
    requires i < |bs|
    ensures var r := JoinRight(bs, i);
            && i < |r| && r[i].addr == bs[i].addr && (i > 0 ==> r[i - 1] == bs[i - 1])
            && FreeAt(bs, i) ==
               if i > 0 && bs[i - 1].free
               then Splice(r, i - 1, i + 1, [Block(bs[i - 1].addr, r[i - 1].size + HEADER + r[i].size, true)])
               else r
  {
    var r := JoinRight(bs, i);
    FreeInTwoSteps(bs, i);
    assert i > 0 ==> r[i - 1] == r[..i][i - 1] && bs[i - 1] == bs[..i][i - 1];
  }

  /** Setting the flag of block i makes its header read free and leaves the next one as it was. */
  lemma FlagRaised(m: seq<Word>, n: seq<Word>, bs: seq<Block>, i: nat)
    requires Tiles(bs, HEAP_START, HEAP_END) && Represents(m, bs) && i < |bs| && |n| == |m|
    requires forall k :: 0 <= k < |m| && k != W(bs[i].addr) + 1 ==> n[k] == m[k]
    requires 0 <= W(bs[i].addr) && W(bs[i].addr) + 1 < |n| && n[W(bs[i].addr) + 1] % 256 == 1
    ensures HeaderIs(n, Block(bs[i].addr, bs[i].size, true), Next(bs, i))
    ensures i + 1 < |bs| ==> HeaderIs(n, bs[i + 1], Next(bs, i + 1)) && bs[i + 1].addr == bs[i].End()
  {
    ListAt(m, bs, i);
    if i + 1 < |bs| {
      ListAt(m, bs, i + 1);
      BlocksDisjoint(bs, HEAP_START, HEAP_END, i, i + 1);
      TilesAt(bs, HEAP_START, HEAP_END, i);
    }
  }

  lemma LowByteChanged(x: Word, f: nat)
    requires f < 256
    ensures var y := x - x % 256 + f; 0 <= y < TWO64 && y % 256 == f && y / 256 == x / 256
  {
    var q := x / 256;
    assert x - x % 256 == 256 * q;
    assert (256 * q + f) / 256 == q && (256 * q + f) % 256 == f;
  }

  lemma CarvedChain(n: seq<Word>, b: Block, a: nat, next: nat)
    requires b.size >= a && 0 <= W(b.addr) && W(b.addr) + 2 < |n|
    requires HeaderIs(n, Carve(b, a)[0], if |Carve(b, a)| == 2 then Carve(b, a)[1].addr else next)
    requires |Carve(b, a)| == 2 ==> HeaderIs(n, Carve(b, a)[1], next)
    ensures Chain(n, Carve(b, a), next)
  {}

  // ---------------------------------------------------------------- the allocator

  class Allocator {
    const mem: array<Word>
    var heapStart: nat
    var totalAllocated: nat
    ghost var blocks: seq<Block>

    ghost function State(): HeapState
      reads this
    {
      HeapState(blocks, totalAllocated)
    }

    ghost predicate Valid()
      reads this, mem
    {
      && heapStart == HEAP_START
      && HeapInv(State())
      && Represents(mem[..], blocks)
    }

    /** The state of the statics before kmalloc_init. */
    constructor (region: array<Word>)
      ensures mem == region && heapStart == 0 && totalAllocated == 0
    {
      mem := region;
      heapStart, totalAllocated := 0, 0;
      blocks := [];
    }

    /** kmalloc_init: one free block of 524264 bytes. It does not reset total_allocated, so only a first
        call gives a valid heap. */
    method KmallocInit()
      requires mem.Length == 0x10000
      modifies this, mem
      ensures heapStart == 0x180000 && blocks == [Block(0x180000, 524264, true)]
      ensures mem[0] == 524264 && mem[1] % 256 == 1 && mem[2] == 0
      ensures SamePadding(old(mem[1]), mem[1]) && forall k :: 3 <= k < mem.Length ==> mem[k] == old(mem[k])
      ensures totalAllocated == old(totalAllocated)
      ensures Valid() <==> old(totalAllocated) == 0
    {
      heapStart := HEAP_START;
      mem[0] := HEAP_SIZE - HEADER;
      SetFree(heapStart, true);
      mem[2] := 0;
      blocks := Fresh().blocks;
      FreshIsCanonical();
      assert Used(blocks) == 0;
    }

    /** Store to the one-byte field is_free; the padding bytes of its word stay. */
    method SetFree(a: nat, free: bool)
      requires 0 <= W(a) && W(a) + 1 < mem.Length
      modifies mem
      ensures mem[W(a) + 1] % 256 == (if free then 1 else 0) && SamePadding(old(mem[W(a) + 1]), mem[W(a) + 1])
      ensures forall k :: 0 <= k < mem.Length && k != W(a) + 1 ==> mem[k] == old(mem[k])
    {
      var w := mem[W(a) + 1];
      LowByteChanged(w, if free then 1 else 0);
      mem[W(a) + 1] := w - w % 256 + (if free then 1 else 0);
    }

    lemma HeaderAt(i: nat)
      requires Valid() && i < |blocks|
      ensures HEAP_START <= blocks[i].addr && blocks[i].End() <= HEAP_END && blocks[i].addr % 8 == 0
      ensures 0 <= W(blocks[i].addr) && W(blocks[i].addr) + 2 < mem.Length
      ensures mem[W(blocks[i].addr)] == blocks[i].size
      ensures (mem[W(blocks[i].addr) + 1] % 256 != 0) == blocks[i].free
      ensures mem[W(blocks[i].addr) + 2] == Next(blocks, i)
    {
      ListAt(mem[..], blocks, i);
    }

    method Kmalloc(n: nat) returns (ptr: nat)
      requires Valid() && n < TWO64
      modifies this, mem
      ensures Valid()
      ensures State() == MallocStep(old(State()), n)
      ensures ptr == MallocResult(old(State()), n)
      ensures OnlyHeadersDiffer(old(mem[..]), mem[..], blocks)
      ensures ptr == 0 ==> mem[..] == old(mem[..])
    {
      if n == 0 {
        return 0;
      }
      AlignIsMultiple(n);
      ptr := KmallocAligned(AlignSize(n));
    }

    /** kmalloc from its loop on, with the size already aligned. */
    method KmallocAligned(size: nat) returns (ptr: nat)
      requires Valid() && size % 8 == 0
      modifies this, mem
      ensures Valid()
      ensures State() == AllocStep(old(State()), size)
      ensures ptr == AllocResult(old(State()), size)
      ensures OnlyHeadersDiffer(old(mem[..]), mem[..], blocks)
      ensures ptr == 0 ==> mem[..] == old(mem[..])
    {
      var current := FindFit(size);
      if current == 0 {
        return 0;
      }
      ptr := TakeBlock(current, size, FirstFit(blocks, size));
    }

    /** The walk to the first block that fits, or to NULL. */
    method FindFit(size: nat) returns (current: nat)
      requires Valid()
      ensures var i := FirstFit(blocks, size);
              && current == (if i < |blocks| then blocks[i].addr else 0)
              && (i < |blocks| ==> current > 0)
    {
      current := heapStart;
      ghost var i := 0;
      TilesAt(blocks, HEAP_START, HEAP_END, 0);
      while current != 0
        invariant i <= |blocks|
        invariant current == if i < |blocks| then blocks[i].addr else 0
        invariant forall j :: 0 <= j < i ==> !Fits(blocks[j], size)
        decreases |blocks| - i
      {
        HeaderAt(i);
        if mem[W(current) + 1] % 256 != 0 && mem[W(current)] >= size {
          break;
        }
        current := mem[W(current) + 2];
        i := i + 1;
        if i < |blocks| { HeaderAt(i); }
      }
      if i < |blocks| { HeaderAt(i); }
      FirstFitUnique(blocks, size, i);
    }

    /** Writes the headers for a block split in two: `size` bytes at current, the rest after it. */
    method SplitBlock(current: nat, size: nat)
      requires HEAP_START <= current && current % 8 == 0 && size % 8 == 0
      requires current + HEADER + size + HEADER <= HEAP_END && mem.Length == WORDS
      requires mem[W(current)] >= size + HEADER
      modifies mem
      ensures var rest := Block(current + HEADER + size, old(mem[W(current)]) - size - HEADER, true);
              HeaderIs(mem[..], rest, old(mem[W(current) + 2]))
      ensures mem[W(current)] == size && mem[W(current) + 2] == current + HEADER + size
      ensures forall k :: 0 <= k < mem.Length && mem[k] != old(mem[k]) ==>
                k == W(current) || k == W(current) + 2 || 0 <= k - W(current + HEADER + size) < 3
      ensures 0 <= W(current + HEADER + size) && W(current + HEADER + size) + 1 < mem.Length
      ensures SamePadding(old(mem[W(current + HEADER + size) + 1]), mem[W(current + HEADER + size) + 1])
    {
      var newBlock := current + HEADER + size;
      mem[W(newBlock)] := mem[W(current)] - size - HEADER;
      SetFree(newBlock, true);
      mem[W(newBlock) + 2] := mem[W(current) + 2];
      mem[W(current)] := size;
      mem[W(current) + 2] := newBlock;
    }

    /** The body of kmalloc's loop once a block fits. */
    method TakeBlock(current: nat, size: nat, ghost i: nat) returns (ptr: nat)
      requires Valid() && size % 8 == 0
      requires i == FirstFit(blocks, size) < |blocks| && current == blocks[i].addr
      modifies this, mem
      ensures Valid()
      ensures State() == AllocStep(old(State()), size)
      ensures ptr == AllocResult(old(State()), size)
      ensures OnlyHeadersDiffer(old(mem[..]), mem[..], blocks)
    {
      HeaderAt(i);
      assert LinkAt(mem[..], blocks, i, 0);
      AllocKeepsInv(State(), size);
      CarveInMemory(current, size, blocks[i], Next(blocks, i));
      CarveRepresents(old(mem[..]), mem[..], blocks, i, size);
      blocks := Alloc(blocks, size);
      totalAllocated := (totalAllocated + mem[W(current)]) % TWO64;
      ptr := current + HEADER;
    }

    /** The header writes of TakeBlock. */
    method CarveInMemory(current: nat, size: nat, ghost b: Block, ghost next: nat)
      requires HEAP_START <= current == b.addr && current % 8 == 0
      requires b.size >= size && size % 8 == 0
      requires b.End() <= HEAP_END && mem.Length == WORDS && HeaderIs(mem[..], b, next)
      modifies mem
      ensures Chain(mem[..], Carve(b, size), next)
      ensures OnlyHeadersDiffer(old(mem[..]), mem[..], Carve(b, size))
      ensures 0 <= W(current) < mem.Length && mem[W(current)] == Carve(b, size)[0].size
    {
      if mem[W(current)] >= size + HEADER + 16 {
        SplitBlock(current, size);
      }
      SetFree(current, false);
      CarvedChain(mem[..], b, size, next);
      assert Carve(b, size)[0] in Carve(b, size);
    }

    /** kfree, for everything it survives; a pointer it survived before it survives afterwards. */
    method Kfree(ptr: nat)
      requires Valid() && Freeable(mem[..], blocks, ptr)
      modifies this, mem
      ensures Valid()
      ensures State() == ReleaseStep(old(State()), ptr)
      ensures OnlyHeadersDiffer(old(mem[..]), mem[..], old(blocks))
      ensures if Frees(old(blocks), ptr)
                then KfreeWrites(old(mem[..]), mem[..], old(blocks), IndexOf(old(blocks), ptr - HEADER))
                else mem[..] == old(mem[..])
      ensures forall p :: Freeable(old(mem[..]), old(blocks), p) ==> Freeable(mem[..], blocks, p)
    {
      if ptr == 0 {
        return;
      }
      var block := ptr - HEADER;
      ghost var i := IndexOf(blocks, block);
      FlagReadable(ptr);
      if mem[W(block) + 1] % 256 != 0 {
        return;
      }
      ReleaseBlock(block, i);
    }

    /** The header kfree reads is in memory, and it reads not free only at a live block. */
    lemma FlagReadable(ptr: nat)
      requires Valid() && Freeable(mem[..], blocks, ptr) && ptr != 0
      ensures ptr >= HEADER && 0 <= W(ptr - HEADER) && W(ptr - HEADER) + 1 < mem.Length
      ensures var i := IndexOf(blocks, ptr - HEADER);
              && (i < |blocks| ==> (mem[W(ptr - HEADER) + 1] % 256 != 0) == blocks[i].free)
              && (i == |blocks| ==> mem[W(ptr - HEADER) + 1] % 256 != 0)
    {
      if IndexOf(blocks, ptr - HEADER) < |blocks| {
        HeaderAt(IndexOf(blocks, ptr - HEADER));
      }
    }

    /** kfree of a block that is not free, at position i. */
    method ReleaseBlock(block: nat, ghost i: nat)
      requires Valid() && i < |blocks| && blocks[i].addr == block && !blocks[i].free
      modifies this, mem
      ensures Valid()
      ensures State() == FreeStep(old(State()), i)
      ensures KfreeWrites(old(mem[..]), mem[..], old(blocks), i)
      ensures forall p :: Freeable(old(mem[..]), old(blocks), p) ==> Freeable(mem[..], blocks, p)
    {
      ghost var bs, m := blocks, mem[..];
      FreeAtKeepsInv(State(), i);
      HeaderAt(i);
      totalAllocated := (totalAllocated - mem[W(block)]) % TWO64;
      Unlink(block, bs, i);
      blocks := FreeAt(bs, i);
      forall p | Freeable(m, bs, p)
        ensures Freeable(mem[..], blocks, p)
      {
        FreeableSurvivesKfree(m, mem[..], bs, i, p);
      }
    }

    /** Its header writes. */
    method Unlink(block: nat, ghost bs: seq<Block>, ghost i: nat)
      requires heapStart == HEAP_START && Tiles(bs, HEAP_START, HEAP_END) && Represents(mem[..], bs)
      requires i < |bs| && bs[i].addr == block
      modifies mem
      ensures Represents(mem[..], FreeAt(bs, i))
      ensures KfreeWrites(old(mem[..]), mem[..], bs, i)
    {
      ghost var m := mem[..];
      FreeInTwoSteps(bs, i);
      JoinRightTiles(bs, HEAP_START, HEAP_END, i);
      AbsorbNext(block, bs, i);
      ghost var mid := mem[..];
      var prev := FindPrevious(block, JoinRight(bs, i), i);
      AbsorbPrevious(prev, block, bs, i);
      TwoStepWrites(m, mid, mem[..], bs, i);
    }

    /** kfree's search for the block that links to `block`. */
    method FindPrevious(block: nat, ghost bs: seq<Block>, ghost i: nat) returns (current: nat)
      requires heapStart == HEAP_START && Tiles(bs, HEAP_START, HEAP_END) && Represents(mem[..], bs)
      requires i < |bs| && bs[i].addr == block
      ensures current == if i > 0 then bs[i - 1].addr else 0
    {
      current := heapStart;
      ghost var k := 0;
      ListAt(mem[..], bs, 0);
      while current != 0 && mem[W(current) + 2] != block
        invariant k <= |bs| && (i > 0 ==> k < i)
        invariant current == if k < |bs| then bs[k].addr else 0
        invariant current != 0 ==> 0 <= W(current) && W(current) + 2 < mem.Length
        decreases |bs| - k
      {
        ListAt(mem[..], bs, k);
        if k + 1 < |bs| {
          ListAt(mem[..], bs, k + 1);
        }
        current := mem[W(current) + 2];
        k := k + 1;
      }
      if k < |bs| {
        ListAt(mem[..], bs, k);
        assert k + 1 < |bs|;
        InjectiveByAddr(bs, HEAP_START, HEAP_END, k + 1, i);
      }
    }

    /** Block a takes in the block b after it: its size and its link are rewritten. */
    method JoinHeaders(a: nat, b: nat, ghost left: Block, ghost right: Block)
      requires a == left.addr && b == right.addr && left.End() == b && right.End() <= HEAP_END
      requires HEAP_START <= a && a % 8 == 0 && left.size % 8 == 0 && mem.Length == WORDS
      requires mem[W(a)] == left.size && mem[W(b)] == right.size
      modifies mem
      ensures mem[W(a)] == left.size + HEADER + right.size && mem[W(a) + 2] == old(mem[W(b) + 2])
      ensures forall k :: 0 <= k < mem.Length && k != W(a) && k != W(a) + 2 ==> mem[k] == old(mem[k])
    {
      mem[W(a)] := mem[W(a)] + HEADER + mem[W(b)];
      mem[W(a) + 2] := mem[W(b) + 2];
    }

    method AbsorbPrevious(current: nat, block: nat, ghost bs: seq<Block>, ghost i: nat)
      requires Tiles(bs, HEAP_START, HEAP_END) && i < |bs|
      requires Represents(mem[..], JoinRight(bs, i)) && block == bs[i].addr
      requires current == if i > 0 then bs[i - 1].addr else 0
      modifies mem
      ensures Represents(mem[..], FreeAt(bs, i))
      ensures LeftWrites(old(mem[..]), mem[..], bs, i)
    {
      ghost var m, r := mem[..], JoinRight(bs, i);
      JoinRightTiles(bs, HEAP_START, HEAP_END, i);
      SecondMerge(bs, i);
      if i > 0 {
        ListAt(m, r, i - 1);
      }
      if current != 0 && mem[W(current) + 1] % 256 != 0 {
        JoinPair(current, block, r, i - 1);
      }
    }

    /** Two free neighbours of the list become one. */
    method JoinPair(a: nat, b: nat, ghost r: seq<Block>, ghost p: nat)
      requires Tiles(r, HEAP_START, HEAP_END) && Represents(mem[..], r)
      requires p + 1 < |r| && r[p].addr == a && r[p + 1].addr == b && r[p].free
      modifies mem
      ensures Represents(mem[..], Splice(r, p, p + 2, [Block(a, r[p].size + HEADER + r[p + 1].size, true)]))
      ensures forall k :: 0 <= k < mem.Length && mem[k] != old(mem[k]) ==> k == W(a) || k == W(a) + 2
    {
      ghost var m := mem[..];
      ListAt(m, r, p);
      ListAt(m, r, p + 1);
      TilesAt(r, HEAP_START, HEAP_END, p);
      JoinHeaders(a, b, r[p], r[p + 1]);
      OneHeaderRewritten(m, mem[..], r, p, p + 2, Block(a, r[p].size + HEADER + r[p + 1].size, true));
    }

    method AbsorbNext(block: nat, ghost bs: seq<Block>, ghost i: nat)
      requires Tiles(bs, HEAP_START, HEAP_END) && Represents(mem[..], bs)
      requires i < |bs| && bs[i].addr == block
      modifies mem
      ensures Represents(mem[..], JoinRight(bs, i))
      ensures RightWrites(old(mem[..]), mem[..], bs, i)
    {
      ghost var m := mem[..];
      ListAt(m, bs, i);
      JoinRightTiles(bs, HEAP_START, HEAP_END, i);
      SetFree(block, true);
      FlagRaised(m, mem[..], bs, i);
      JoinNext(block, bs, i);
      OneHeaderRewritten(m, mem[..], bs, i, MergeHi(bs, i), MergedRight(bs, i));
    }

    /** The test of the next block's flag, and the merge with it. */
    method JoinNext(block: nat, ghost bs: seq<Block>, ghost i: nat)
      requires Tiles(bs, HEAP_START, HEAP_END) && i < |bs| && bs[i].addr == block && mem.Length == WORDS
      requires HeaderIs(mem[..], Block(block, bs[i].size, true), Next(bs, i))
      requires i + 1 < |bs| ==> HeaderIs(mem[..], bs[i + 1], Next(bs, i + 1)) && bs[i + 1].addr == bs[i].End()
      modifies mem
      ensures HeaderIs(mem[..], MergedRight(bs, i), Next(bs, MergeHi(bs, i) - 1))
      ensures forall k :: 0 <= k < mem.Length && mem[k] != old(mem[k]) ==>
                            MergeHi(bs, i) == i + 2 && (k == W(block) || k == W(block) + 2)
    {
      TilesAt(bs, HEAP_START, HEAP_END, i);
      if i + 1 < |bs| { TilesAt(bs, HEAP_START, HEAP_END, i + 1); }
      var next := mem[W(block) + 2];
      if next != 0 && mem[W(next) + 1] % 256 != 0 {
        JoinHeaders(block, next, bs[i], bs[i + 1]);
      }
    }

    method KmallocGetUsed() returns (used: nat)
      requires Valid()
      ensures used == Used(blocks)
    {
      used := totalAllocated;
    }

    method KmallocGetFree() returns (free: nat)
      requires Valid()
      ensures free == FreeBytes(blocks)
      ensures totalAllocated + free + HEADER * |blocks| == HEAP_SIZE
    {
      Conservation(blocks, HEAP_START, HEAP_END);
      free := 0;
      var current := heapStart;
      ghost var i := 0;
      ListAt(mem[..], blocks, 0);
      while current != 0
        invariant i <= |blocks|
        invariant current == if i < |blocks| then blocks[i].addr else 0
        invariant free + FreeBytes(blocks[i..]) == FreeBytes(blocks)
        decreases |blocks| - i
      {
        ListAt(mem[..], blocks, i);
        FreeBytesFrom(blocks, i);
        if mem[W(current) + 1] % 256 != 0 {
          free := (free + mem[W(current)]) % TWO64;
        }
        current := mem[W(current) + 2];
        i := i + 1;
        if i < |blocks| { ListAt(mem[..], blocks, i); }
      }
      if i < |blocks| { ListAt(mem[..], blocks, i); }
    }
  }

  /** From the rewritten headers of one block to the whole list. */
  lemma CarveRepresents(m: seq<Word>, n: seq<Word>, bs: seq<Block>, i: nat, a: nat)
    requires Tiles(bs, HEAP_START, HEAP_END) && Represents(m, bs)
    requires i == FirstFit(bs, a) < |bs| && a % 8 == 0
    requires Chain(n, Carve(bs[i], a), Next(bs, i)) && OnlyHeadersDiffer(m, n, Carve(bs[i], a))
    ensures Represents(n, Alloc(bs, a)) && OnlyHeadersDiffer(m, n, Alloc(bs, a))
  {
    var c := Carve(bs[i], a);
    TilesAt(bs, HEAP_START, HEAP_END, i);
    assert SameOutside(m, n, W(bs[i].addr), W(bs[i].End()));
    SpliceRepresents(m, n, bs, i, i + 1, c);
    assert forall b :: b in c ==> b in Alloc(bs, a);
  }

  /** Header i of the list in m, field by field. */
  lemma ListAt(m: seq<Word>, bs: seq<Block>, i: nat)
    requires Tiles(bs, HEAP_START, HEAP_END) && Represents(m, bs) && i < |bs|
    ensures HEAP_START <= bs[i].addr && bs[i].End() <= HEAP_END && bs[i].addr % 8 == 0
    ensures 0 <= W(bs[i].addr) && W(bs[i].addr) + 2 < |m|
    ensures m[W(bs[i].addr)] == bs[i].size
    ensures m[W(bs[i].addr) + 1] % 256 == (if bs[i].free then 1 else 0)
    ensures m[W(bs[i].addr) + 2] == Next(bs, i)
  {
    TilesAt(bs, HEAP_START, HEAP_END, i);
    assert LinkAt(m, bs, i, 0);
  }

  /** Blocks p..q replaced by one block whose header is the only thing written. */
  lemma OneHeaderRewritten(m: seq<Word>, n: seq<Word>, bs: seq<Block>, p: nat, q: nat, b: Block)
    requires Tiles(bs, HEAP_START, HEAP_END) && Represents(m, bs) && |n| == |m|
    requires p < q <= |bs| && b.addr == bs[p].addr
    requires HeaderIs(n, b, Next(bs, q - 1))
    requires forall k :: 0 <= k < |m| && m[k] != n[k] ==> W(b.addr) <= k < W(b.addr) + 3
    ensures Represents(n, Splice(bs, p, q, [b]))
  {
    TilesAt(bs, HEAP_START, HEAP_END, p);
    TilesAt(bs, HEAP_START, HEAP_END, q - 1);
    if p < q - 1 { BlocksDisjoint(bs, HEAP_START, HEAP_END, p, q - 1); }
    assert SameOutside(m, n, W(bs[p].addr), W(bs[q - 1].End()));
    assert Chain(n, [b], Next(bs, q - 1));
    SpliceRepresents(m, n, bs, p, q, [b]);
  }
}
