/** What kernel/memory/vmm.c stores, word by word. Module PageTables says what the words mean; here is
    which words change, and to what. */
module PageWords {
  import opened Bits
  import opened Entries
  import opened MachineWords
  import opened PageSet
  import opened PageTables

  /** Physical memory, entry by entry. */
  ghost function View(m: seq<Word>): Mem {
    seq(|m|, k requires 0 <= k < |m| => Decode(m[k]))
  }

  /** Word i of frame f; memory that does not exist reads as 0. */
  ghost function WordOf(m: seq<Word>, f: nat, i: nat): Word {
    if 512 * f + i < |m| then m[512 * f + i] else 0
  }

  ghost function StoreWord(m: seq<Word>, f: nat, i: nat, e: Word): (n: seq<Word>)
    ensures |n| == |m|
  {
    if 512 * f + i < |m| then m[512 * f + i := e] else m
  }

  /** Memory with the words of frame f cleared. */
  ghost function ZeroWords(m: seq<Word>, f: nat): (n: seq<Word>)
    ensures |n| == |m|
  {
    seq(|m|, k requires 0 <= k < |m| => if 512 * f <= k < 512 * f + 512 then 0 else m[k])
  }

  lemma StoreWordDecodes(m: seq<Word>, f: nat, i: nat, e: Word)
    ensures View(StoreWord(m, f, i, e)) == Write(View(m), f, i, Decode(e))
  {}

  lemma ZeroWordsDecode(m: seq<Word>, f: nat)
    ensures View(ZeroWords(m, f)) == ZeroFrame(View(m), f)
  {
    DecodeBits(0);
  }

  // ---------------------------------------------------------------- the code's stores

  /** The allocator's pages have addresses below 2^52. */
  ghost predicate SmallPages(pmm: PmmState) { pmm.total <= 0x100_0000_0000 }

  /** Memory after get_or_create_table on word i of frame f. */
  ghost function WordTable(m: seq<Word>, pmm: PmmState, f: nat, i: nat): (n: seq<Word>)
    requires SmallPages(pmm)
    ensures |n| == |m|
  {
    var addr := AllocPage(pmm).1;
    if Entry(View(m), f, i).Present? || addr == 0 then m
    else
      AllocAligned(pmm);
      TableEntryFits(addr / PAGE_SIZE);
      StoreWord(ZeroWords(m, addr / PAGE_SIZE), f, i, TableEntry(addr / PAGE_SIZE))
  }

  lemma WordTableDecodes(m: seq<Word>, pmm: PmmState, f: nat, i: nat)
    requires SmallPages(pmm)
    ensures View(WordTable(m, pmm, f, i)) == RawTable(Raw(View(m), pmm), f, i).0.m
    ensures SmallPages(RawTable(Raw(View(m), pmm), f, i).0.pmm)
  {
    var t := AllocPage(pmm).1 / PAGE_SIZE;
    if Entry(View(m), f, i).Absent? && AllocPage(pmm).1 != 0 {
      AllocAligned(pmm);
      TableEntryDecodes(t);
      ZeroWordsDecode(m, t);
      StoreWordDecodes(ZeroWords(m, t), f, i, TableEntry(t));
    }
  }

  /** Memory after vmm_map_page from the table in frame f at depth d on. */
  ghost function WordMap(m: seq<Word>, pmm: PmmState, f: nat, vp: Path, d: nat, leaf: Word): (n: seq<Word>)
    requires IsPage(vp) && d < 4 && SmallPages(pmm)
    ensures |n| == |m|
    decreases 4 - d
  {
    if d == 3 then StoreWord(m, f, vp[3], leaf)
    else
      WordTableDecodes(m, pmm, f, vp[d]);
      var (t, next) := RawTable(Raw(View(m), pmm), f, vp[d]);
      var n := WordTable(m, pmm, f, vp[d]);
      if next == 0 then n else WordMap(n, t.pmm, next, vp, d + 1, leaf)
  }

  /** It means what PageTables says. */
  lemma {:induction false} WordMapDecodes(m: seq<Word>, pmm: PmmState, f: nat, vp: Path, d: nat, leaf: Word)
    requires IsPage(vp) && d < 4 && SmallPages(pmm)
    ensures View(WordMap(m, pmm, f, vp, d, leaf)) == RawMap(Raw(View(m), pmm), f, vp, d, Decode(leaf)).0.m
    decreases 4 - d
  {
    if d == 3 {
      StoreWordDecodes(m, f, vp[3], leaf);
    } else {
      WordTableDecodes(m, pmm, f, vp[d]);
      var (t, next) := RawTable(Raw(View(m), pmm), f, vp[d]);
      var n := WordTable(m, pmm, f, vp[d]);
      assert t == Raw(View(n), t.pmm);
      if next != 0 {
        WordMapDecodes(n, t.pmm, next, vp, d + 1, leaf);
      }
    }
  }

  /** Memory after vmm_unmap_page. */
  ghost function WordUnmap(m: seq<Word>, f: nat, vp: Path, d: nat): (n: seq<Word>)
    requires IsPage(vp) && d < 4
    ensures |n| == |m|
    decreases 4 - d
  {
    if d == 3 then StoreWord(m, f, vp[3], 0)
    else
      var e := Entry(View(m), f, vp[d]);
      if e.Absent? then m else WordUnmap(m, e.frame, vp, d + 1)
  }

  lemma {:induction false} WordUnmapDecodes(m: seq<Word>, f: nat, vp: Path, d: nat)
    requires IsPage(vp) && d < 4
    ensures View(WordUnmap(m, f, vp, d)) == RawUnmap(View(m), f, vp, d)
    decreases 4 - d
  {
    if d == 3 {
      DecodeBits(0);
      StoreWordDecodes(m, f, vp[3], 0);
    } else {
      var e := Entry(View(m), f, vp[d]);
      if e.Present? {
        WordUnmapDecodes(m, e.frame, vp, d + 1);
      }
    }
  }

  // ---------------------------------------------------------------- every word after a map

  /** Word j of table q after a map of vp that led from s to t: the page's own entry if it succeeded; the
      entry of a table that was linked, present and writable; otherwise what was there, or 0 in a table
      that is new. */
  ghost predicate SlotIs(s: Sys, t: Sys, m: seq<Word>, n: seq<Word>, vp: Path, ok: bool, leaf: Word, q: Path, j: nat) {
    q in t.at && j < 512 ==>
      WordOf(n, t.at[q], j) ==
      if ok && q + [j] == vp then leaf
      else if q + [j] in t.at && q + [j] !in s.at then 4096 * t.at[q + [j]] + 3
      else if q in s.at then WordOf(m, s.at[q], j)
      else 0
  }

  /** Every word of memory: those of the tables, and all others stay. */
  ghost predicate MapWritten(s: Sys, t: Sys, m: seq<Word>, n: seq<Word>, vp: Path, ok: bool, leaf: Word) {
    && |n| == |m|
    && (forall q: Path, j: nat :: SlotIs(s, t, m, n, vp, ok, leaf, q, j))
    && (forall f: nat, j: nat :: j < 512 && f !in Frames(t.at) ==> WordOf(n, f, j) == WordOf(m, f, j))
  }

  /** The tables of s keep their frames. */
  ghost predicate Extends(s: Sys, t: Sys) {
    forall q :: q in s.at ==> q in t.at && t.at[q] == s.at[q]
  }

  lemma LinkWritten(s: Sys, m: seq<Word>, p: Path, i: nat, vp: Path, leaf: Word)
    requires Inv(s) && s.m == View(m) && p in s.at && |p| < 3 && i < 512
    requires !IsHuge(Entry(s.m, s.at[p], i), |p|)
    ensures SmallPages(s.pmm)
    ensures var t, n := GetOrCreate(s, p, i).0, WordTable(m, s.pmm, s.at[p], i);
            Extends(s, t) && MapWritten(s, t, m, n, vp, false, leaf)
  {
    if Entry(s.m, s.at[p], i).Absent? && AllocPage(s.pmm).1 != 0 {
      var f := AllocPage(s.pmm).1 / PAGE_SIZE;
      AllocAligned(s.pmm);
      AllocIsLeast(s.pmm, 0);
      LinkKeepsTree(s, p, i, f);
      TableEntryFits(f);
      TableEntryValue(f);
      var t, n := GetOrCreate(s, p, i).0, WordTable(m, s.pmm, s.at[p], i);
      assert n == StoreWord(ZeroWords(m, f), s.at[p], i, TableEntry(f));
      FramesAdd(s.at, p + [i], f);
      forall q: Path, j: nat
        ensures SlotIs(s, t, m, n, vp, false, leaf, q, j)
      {
        LinkedSlot(s, m, p, i, f, vp, leaf, q, j);
      }
      assert s.at[p] in Frames(s.at);
      forall g: nat, j: nat | j < 512 && g !in Frames(t.at)
        ensures WordOf(n, g, j) == WordOf(m, g, j)
      {
        StoredWord(m, s.at[p], i, f, TableEntry(f), g, j);
      }
    }
  }

  /** Clearing one frame and storing into another, seen at word j of frame g. */
  lemma StoredWord(m: seq<Word>, p: nat, i: nat, f: nat, e: Word, g: nat, j: nat)
    requires i < 512 && j < 512
    ensures WordOf(StoreWord(ZeroWords(m, f), p, i, e), g, j) ==
            if 512 * g + j >= |m| then 0
            else if g == p && j == i then e else if g == f then 0 else WordOf(m, g, j)
  {}

  lemma LinkedSlot(s: Sys, m: seq<Word>, p: Path, i: nat, f: nat, vp: Path, leaf: Word, q: Path, j: nat)
    requires Inv(s) && s.m == View(m) && p in s.at && |p| < 3 && i < 512
    requires f < s.pmm.total && f !in s.pmm.taken && p + [i] !in s.at
    requires TableEntry(f) < TWO64 && TableEntry(f) == 4096 * f + 3
    ensures var t := Sys(Linked(s, p, i, f), s.at[p + [i] := f], AllocPage(s.pmm).0);
            SlotIs(s, t, m, StoreWord(ZeroWords(m, f), s.at[p], i, TableEntry(f)), vp, false, leaf, q, j)
  {
    var at := s.at[p + [i] := f];
    if q in at && j < 512 {
      StoredWord(m, s.at[p], i, f, TableEntry(f), at[q], j);
      assert TableOk(s.m, s.at, p) && TakenOk(s.at, s.pmm, p);
      assert q in s.at ==> TableOk(s.m, s.at, q) && TakenOk(s.at, s.pmm, q) && Apart(s.at, q, p);
      if q + [j] == p + [i] {
        assert q == (q + [j])[..|q|] && p == (p + [i])[..|p|] && |q| == |p|;
      }
      if q + [j] in s.at {
        AboveIsTable(s, q, j);
      }
    }
  }

  /** A table below q has q above it. */
  lemma AboveIsTable(s: Sys, q: Path, j: nat)
    requires Inv(s) && q + [j] in s.at
    ensures q in s.at
  {
    PrefixClosed(s, q + [j], |q|);
    assert (q + [j])[..|q|] == q;
  }

  lemma SlotComposes(s: Sys, u: Sys, t: Sys, m: seq<Word>, x: seq<Word>, n: seq<Word>, vp: Path, ok: bool,
                     leaf: Word, q: Path, j: nat)
    requires Inv(u) && Extends(s, u) && Extends(u, t)
    requires SlotIs(s, u, m, x, vp, false, leaf, q, j) && SlotIs(u, t, x, n, vp, ok, leaf, q, j)
    ensures SlotIs(s, t, m, n, vp, ok, leaf, q, j)
  {
    if q + [j] in u.at {
      AboveIsTable(u, q, j);
    }
  }

  lemma WrittenComposes(s: Sys, u: Sys, t: Sys, m: seq<Word>, x: seq<Word>, n: seq<Word>, vp: Path, ok: bool, leaf: Word)
    requires Inv(u) && Extends(s, u) && Extends(u, t)
    requires MapWritten(s, u, m, x, vp, false, leaf) && MapWritten(u, t, x, n, vp, ok, leaf)
    ensures Extends(s, t) && MapWritten(s, t, m, n, vp, ok, leaf)
  {
    forall q: Path, j: nat
      ensures SlotIs(s, t, m, n, vp, ok, leaf, q, j)
    {
      SlotComposes(s, u, t, m, x, n, vp, ok, leaf, q, j);
    }
    FramesGrow(u, t);
  }

  lemma FramesGrow(s: Sys, t: Sys)
    requires Extends(s, t)
    ensures Frames(s.at) <= Frames(t.at)
  {
    forall f | f in Frames(s.at)
      ensures f in Frames(t.at)
    {
      var q :| q in s.at && s.at[q] == f;
      assert t.at[q] == f;
    }
  }

  lemma LeafWritten(s: Sys, m: seq<Word>, vp: Path, leaf: Word)
    requires Inv(s) && s.m == View(m) && IsPage(vp) && vp[..3] in s.at
    ensures var t, n := s.(m := Write(s.m, s.at[vp[..3]], vp[3], Decode(leaf))), StoreWord(m, s.at[vp[..3]], vp[3], leaf);
            MapWritten(s, t, m, n, vp, true, leaf)
  {
    var p := vp[..3];
    var t, n := s.(m := Write(s.m, s.at[p], vp[3], Decode(leaf))), StoreWord(m, s.at[p], vp[3], leaf);
    assert TableOk(s.m, s.at, p) && s.at[p] in Frames(s.at);
    assert p + [vp[3]] == vp;
    forall q: Path, j: nat
      ensures SlotIs(s, t, m, n, vp, true, leaf, q, j)
    {
      if q in s.at && j < 512 {
        assert Apart(s.at, q, p);
        assert q + [j] == vp ==> q == vp[..|q|] && |q| == 3 && j == vp[3];
      }
    }
  }

  /** vmm_map_page in a tree, outside large pages: every word of memory afterwards. */
  lemma {:induction false} MapWords(s: Sys, m: seq<Word>, vp: Path, d: nat, leaf: Word)
    requires Inv(s) && s.m == View(m) && IsPage(vp) && d < 4 && vp[..d] in s.at
    requires !MeetsHuge(s.m, Root(s), vp, 0)
    ensures SmallPages(s.pmm)
    ensures var (t, ok) := MapFrom(s, vp, d, Decode(leaf));
            var n := WordMap(m, s.pmm, s.at[vp[..d]], vp, d, leaf);
            t.m == View(n) && Extends(s, t) && MapWritten(s, t, m, n, vp, ok, leaf)
    decreases 4 - d
  {
    RawMapIsMap(s, vp, d, Decode(leaf));
    WordMapDecodes(m, s.pmm, s.at[vp[..d]], vp, d, leaf);
    if d == 3 {
      LeafWritten(s, m, vp, leaf);
    } else {
      MapUnfold(s, vp, d, Decode(leaf));
      MapStep(s, m, vp, d, leaf);
      var (u, r) := GetOrCreate(s, vp[..d], vp[d]);
      var x := WordTable(m, s.pmm, s.at[vp[..d]], vp[d]);
      if r.Some? {
        MapWords(u, x, vp, d + 1, leaf);
        var (t, ok) := MapFrom(u, vp, d + 1, Decode(leaf));
        var n := WordMap(x, u.pmm, u.at[vp[..d + 1]], vp, d + 1, leaf);
        WrittenComposes(s, u, t, m, x, n, vp, ok, leaf);
      }
    }
  }

  /** One level of it. */
  lemma MapStep(s: Sys, m: seq<Word>, vp: Path, d: nat, leaf: Word)
    requires Inv(s) && s.m == View(m) && IsPage(vp) && d < 3 && vp[..d] in s.at
    requires !MeetsHuge(s.m, Root(s), vp, 0)
    ensures SmallPages(s.pmm)
    ensures var (u, r) := GetOrCreate(s, vp[..d], vp[d]);
            var x := WordTable(m, s.pmm, s.at[vp[..d]], vp[d]);
            && u.m == View(x) && SmallPages(u.pmm)
            && Extends(s, u) && MapWritten(s, u, m, x, vp, false, leaf)
            && (r.Some? ==> r.value > 0)
            && WordMap(m, s.pmm, s.at[vp[..d]], vp, d, leaf) ==
               if r.None? then x else WordMap(x, u.pmm, r.value, vp, d + 1, leaf)
  {
    MapUnfold(s, vp, d, Decode(leaf));
    WordTableDecodes(m, s.pmm, s.at[vp[..d]], vp[d]);
    LinkWritten(s, m, vp[..d], vp[d], vp, leaf);
  }

  /** vmm_unmap_page there: one word is cleared if the page's last-level table exists, none otherwise. */
  lemma {:induction false} UnmapWords(s: Sys, m: seq<Word>, vp: Path, d: nat)
    requires Inv(s) && s.m == View(m) && IsPage(vp) && d < 4 && vp[..d] in s.at
    requires !MeetsHuge(s.m, Root(s), vp, 0)
    ensures WordUnmap(m, s.at[vp[..d]], vp, d) ==
            if vp[..3] in s.at then StoreWord(m, s.at[vp[..3]], vp[3], 0) else m
    decreases 4 - d
  {
    if d < 3 {
      UnmapUnfold(s, vp, d);
      if vp[..3] in s.at { OnTheWay(s, vp, d); }
      if Entry(s.m, s.at[vp[..d]], vp[d]).Present? {
        UnmapWords(s, m, vp, d + 1);
      }
    }
  }

  lemma OnTheWay(s: Sys, vp: Path, d: nat)
    requires Inv(s) && IsPage(vp) && d < 3 && vp[..3] in s.at
    ensures vp[..d] in s.at && Entry(s.m, s.at[vp[..d]], vp[d]).Present?
  {
    PrefixClosed(s, vp[..3], d);
    PrefixClosed(s, vp[..3], d + 1);
    assert vp[..3][..d] == vp[..d] && vp[..3][..d + 1] == vp[..d + 1] && vp[..d + 1][..d] == vp[..d];
    assert ParentOk(s.m, s.at, vp[..d + 1]);
  }

  // ---------------------------------------------------------------- through a large page

  /** vmm_map_page inside a 2 MB page: at most word vp[3] of the large page's first frame changes. */
  lemma {:induction false} MapWordsThroughLargePage(s: Sys, m: seq<Word>, vp: Path, d: nat, leaf: Word)
    requires Inv(s) && s.m == View(m) && InLargePage(s, vp) && d <= 2
    ensures vp[..d] in s.at && SmallPages(s.pmm)
    ensures var f := LargeFrame(s, vp);
            WordMap(m, s.pmm, s.at[vp[..d]], vp, d, leaf) == if f == 0 then m else StoreWord(m, f, vp[3], leaf)
    decreases 2 - d
  {
    if d < 2 {
      AboveLargePage(s, vp, d);
      MapWordsThroughLargePage(s, m, vp, d + 1, leaf);
    }
  }

  lemma {:induction false} UnmapWordsThroughLargePage(s: Sys, m: seq<Word>, vp: Path, d: nat)
    requires Inv(s) && s.m == View(m) && InLargePage(s, vp) && d <= 2
    ensures vp[..d] in s.at
    ensures WordUnmap(m, s.at[vp[..d]], vp, d) == StoreWord(m, LargeFrame(s, vp), vp[3], 0)
    decreases 2 - d
  {
    if d < 2 {
      AboveLargePage(s, vp, d);
      UnmapWordsThroughLargePage(s, m, vp, d + 1);
    }
  }
}
