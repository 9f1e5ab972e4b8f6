/** Four-level page tables (Intel SDM volume 3A, section 4.5) and what kernel/memory/vmm.c does to
    them, on memory decoded entry by entry. Module Vmm proves that the code on raw words follows
    these functions.

    A virtual page is its four table indices [PML4, PDPT, PD, PT]. A table of the tree is named by
    the indices that lead to it: [] is the PML4, [i4] a PDPT, [i4, i3] a PD, [i4, i3, i2] a PT. */
module PageTables {
  import opened PageSet

  datatype Option<+T> = None | Some(value: T)

  /** frame is bits 51..12 of the entry, huge is bit 7. */
  datatype Pte = Absent | Present(huge: bool, frame: nat)

  type Mem = seq<Pte>
  type Path = seq<nat>
  type Tables = map<Path, nat>

  ghost predicate IsPage(vp: Path) {
    |vp| == 4 && forall i :: 0 <= i < 4 ==> vp[i] < 512
  }

  /** Entry i of the table in frame f; memory that does not exist reads as not present. */
  ghost function Entry(m: Mem, f: nat, i: nat): Pte {
    if 512 * f + i < |m| then m[512 * f + i] else Absent
  }

  ghost function Write(m: Mem, f: nat, i: nat, e: Pte): Mem {
    if 512 * f + i < |m| then m[512 * f + i := e] else m
  }

  ghost function ZeroFrame(m: Mem, f: nat): Mem {
    seq(|m|, k requires 0 <= k < |m| => if 512 * f <= k < 512 * f + 512 then Absent else m[k])
  }

  // ---------------------------------------------------------------- translation

  /** An entry at depth d (0 is the PML4) that ends the walk early: a 1 GB or 2 MB page. */
  ghost predicate IsHuge(e: Pte, d: nat) {
    e.Present? && e.huge && 0 < d < 3
  }

  /** The 4 KB frame of virtual page vp inside the large page mapped by e. */
  ghost function HugeFrame(e: Pte, vp: Path, d: nat): nat
    requires e.Present? && IsPage(vp)
  {
    if d == 2 then e.frame / 512 * 512 + vp[3]
    else e.frame / 0x40000 * 0x40000 + vp[2] * 512 + vp[3]
  }

  /** The processor's translation of vp from the table in frame f at depth d. */
  ghost function Walk(m: Mem, f: nat, vp: Path, d: nat): Option<nat>
    requires IsPage(vp) && d < 4
    decreases 4 - d
  {
    var e := Entry(m, f, vp[d]);
    if e.Absent? then None
    else if d == 3 then Some(e.frame)
    else if IsHuge(e, d) then Some(HugeFrame(e, vp, d))
    else Walk(m, e.frame, vp, d + 1)
  }

  /** The walk of vmm_get_physical, which never tests the page-size bit. */
  ghost function SoftWalk(m: Mem, f: nat, vp: Path, d: nat): Option<nat>
    requires IsPage(vp) && d < 4
    decreases 4 - d
  {
    var e := Entry(m, f, vp[d]);
    if e.Absent? then None
    else if d == 3 then Some(e.frame)
    else SoftWalk(m, e.frame, vp, d + 1)
  }

  ghost predicate MeetsHuge(m: Mem, f: nat, vp: Path, d: nat)
    requires IsPage(vp) && d < 4
    decreases 4 - d
  {
    var e := Entry(m, f, vp[d]);
    d < 3 && e.Present? && (IsHuge(e, d) || MeetsHuge(m, e.frame, vp, d + 1))
  }

  /** The kernel's walk and the processor's agree on every page whose walk meets no large page. */
  lemma {:induction false} SoftWalkIsWalk(m: Mem, f: nat, vp: Path, d: nat)
    requires IsPage(vp) && d < 4 && !MeetsHuge(m, f, vp, d)
    ensures SoftWalk(m, f, vp, d) == Walk(m, f, vp, d)
    decreases 4 - d
  {
    var e := Entry(m, f, vp[d]);
    if e.Present? && d < 3 {
      SoftWalkIsWalk(m, e.frame, vp, d + 1);
    }
  }

  // ---------------------------------------------------------------- the tree

  /** Every followed entry of table p leads to the table named p + [i]. */
  ghost predicate ChildOk(m: Mem, at: Tables, p: Path, i: nat) {
    p in at && |p| < 3 && i < 512 ==>
      var e := Entry(m, at[p], i);
      e.Present? && !IsHuge(e, |p|) ==> p + [i] in at && at[p + [i]] == e.frame
  }

  /** Table q is referenced from the slot its name says. */
  ghost predicate ParentOk(m: Mem, at: Tables, q: Path) {
    q in at && q != [] ==>
      var p, i := q[..|q| - 1], q[|q| - 1];
      && i < 512 && p in at
      && var e := Entry(m, at[p], i);
         e.Present? && !IsHuge(e, |p|) && e.frame == at[q]
  }

  /** Table q has a name of at most three indices and a frame, not frame 0, inside memory. */
  ghost predicate TableOk(m: Mem, at: Tables, q: Path) {
    q in at ==> |q| <= 3 && at[q] > 0 && 512 * at[q] + 512 <= |m|
  }

  ghost predicate Apart(at: Tables, p: Path, q: Path) {
    p in at && q in at && p != q ==> at[p] != at[q]
  }

  ghost predicate TakenOk(at: Tables, pmm: PmmState, q: Path) {
    q in at ==> at[q] in pmm.taken
  }

  ghost predicate AllTaken(at: Tables, pmm: PmmState) {
    forall q: Path :: TakenOk(at, pmm, q)
  }

  /** Separation: each table has one frame, one level and one parent slot, and no two share a frame. */
  ghost predicate Tree(m: Mem, at: Tables) {
    && [] in at
    && (forall q: Path :: TableOk(m, at, q))
    && (forall p: Path, i: nat :: ChildOk(m, at, p, i))
    && (forall q: Path :: ParentOk(m, at, q))
    && (forall p: Path, q: Path :: Apart(at, p, q))
  }

  datatype Sys = Sys(m: Mem, at: Tables, pmm: PmmState)

  ghost function Root(s: Sys): nat
    requires [] in s.at
  {
    s.at[[]]
  }

  /** A tree whose frames are all taken in the page allocator, inside existing memory. Frame
      numbers fit an entry's 40 address bits. */
  ghost predicate Inv(s: Sys) {
    && Tree(s.m, s.at)
    && AllTaken(s.at, s.pmm)
    && s.pmm.taken <= Below(s.pmm.total) && 0 in s.pmm.taken
    && 512 * s.pmm.total <= |s.m| && s.pmm.total <= 0x100_0000_0000
  }

  // ---------------------------------------------------------------- two views of the same walk

  /** m and n agree on every table entry, except perhaps entry i of table p. */
  ghost predicate SameBut(m: Mem, n: Mem, at: Tables, p: Path, i: nat) {
    forall q, j :: q in at && j < 512 && (q != p || j != i) ==> Entry(n, at[q], j) == Entry(m, at[q], j)
  }

  /** A change to entry i of table p is seen only by pages below it. */
  lemma {:induction false} WalkElsewhere(m: Mem, n: Mem, at: Tables, p: Path, i: nat, vp: Path, d: nat)
    requires Tree(m, at) && SameBut(m, n, at, p, i)
    requires IsPage(vp) && d < 4 && vp[..d] in at && !(p + [i] <= vp)
    ensures Walk(n, at[vp[..d]], vp, d) == Walk(m, at[vp[..d]], vp, d)
    ensures MeetsHuge(n, at[vp[..d]], vp, d) == MeetsHuge(m, at[vp[..d]], vp, d)
    decreases 4 - d
  {
    var q := vp[..d];
    var e := Entry(m, at[q], vp[d]);
    assert q + [vp[d]] == vp[..d + 1];
    assert Entry(n, at[q], vp[d]) == e;
    if d < 3 && e.Present? && !IsHuge(e, d) {
      assert ChildOk(m, at, q, vp[d]);
      WalkElsewhere(m, n, at, p, i, vp, d + 1);
    }
  }

  /** Linking an all-absent table under a slot that was not present changes no translation. */
  lemma {:induction false} WalkLinked(m: Mem, n: Mem, at: Tables, p: Path, i: nat, f: nat, vp: Path, d: nat)
    requires Tree(m, at) && SameBut(m, n, at, p, i)
    requires p in at && |p| < 3 && i < 512 && Entry(m, at[p], i) == Absent
    requires Entry(n, at[p], i) == Present(false, f) && forall j :: j < 512 ==> Entry(n, f, j) == Absent
    requires IsPage(vp) && d < 4 && vp[..d] in at
    ensures Walk(n, at[vp[..d]], vp, d) == Walk(m, at[vp[..d]], vp, d)
    ensures MeetsHuge(n, at[vp[..d]], vp, d) == MeetsHuge(m, at[vp[..d]], vp, d)
    decreases 4 - d
  {
    var q := vp[..d];
    var e := Entry(m, at[q], vp[d]);
    assert q + [vp[d]] == vp[..d + 1];
    if q == p && vp[d] == i {
      assert Walk(n, f, vp, d + 1) == None;
    } else {
      assert Entry(n, at[q], vp[d]) == e;
      if d < 3 && e.Present? && !IsHuge(e, d) {
        assert ChildOk(m, at, q, vp[d]);
        WalkLinked(m, n, at, p, i, f, vp, d + 1);
      }
    }
  }

  /** The walk of any page whose indices start with a table's name passes through that table. */
  lemma {:induction false} WalkReaches(m: Mem, at: Tables, vp: Path, d: nat)
    requires Tree(m, at) && IsPage(vp) && d < 4 && vp[..d] in at
    ensures Walk(m, at[[]], vp, 0) == Walk(m, at[vp[..d]], vp, d)
    ensures MeetsHuge(m, at[[]], vp, 0) == MeetsHuge(m, at[vp[..d]], vp, d)
  {
    assert vp[..0] == [];
    if d > 0 {
      var q := vp[..d];
      assert ParentOk(m, at, q);
      assert q[..|q| - 1] == vp[..d - 1];
      WalkReaches(m, at, vp, d - 1);
    }
  }

  // ---------------------------------------------------------------- growing the tree

  /** ZeroFrame then link: the memory after alloc_page_table and the store into the parent. */
  ghost function Linked(s: Sys, p: Path, i: nat, f: nat): Mem
    requires p in s.at
  {
    Write(ZeroFrame(s.m, f), s.at[p], i, Present(false, f))
  }

  lemma LinkedEntries(s: Sys, p: Path, i: nat, f: nat)
    requires Inv(s) && p in s.at && i < 512
    requires f < s.pmm.total && f !in s.pmm.taken
    ensures |Linked(s, p, i, f)| == |s.m|
    ensures SameBut(s.m, Linked(s, p, i, f), s.at, p, i)
    ensures Entry(Linked(s, p, i, f), s.at[p], i) == Present(false, f)
    ensures forall j :: j < 512 ==> Entry(Linked(s, p, i, f), f, j) == Absent
  {
    var n := Linked(s, p, i, f);
    assert TakenOk(s.at, s.pmm, p) && TableOk(s.m, s.at, p);
    forall q, j | q in s.at && j < 512 && (q != p || j != i)
      ensures Entry(n, s.at[q], j) == Entry(s.m, s.at[q], j)
    {
      assert TakenOk(s.at, s.pmm, q) && Apart(s.at, q, p);
    }
  }

  lemma LinkKeepsTree(s: Sys, p: Path, i: nat, f: nat)
    requires Inv(s) && p in s.at && |p| < 3 && i < 512
    requires f < s.pmm.total && f !in s.pmm.taken && f > 0
    requires Entry(s.m, s.at[p], i) == Absent
    ensures p + [i] !in s.at
    ensures Tree(Linked(s, p, i, f), s.at[p + [i] := f])
    ensures AllTaken(s.at[p + [i] := f], s.pmm.(taken := s.pmm.taken + {f}))
  {
    var n, c := Linked(s, p, i, f), p + [i];
    var at := s.at[c := f];
    LinkedEntries(s, p, i, f);
    assert c[..|c| - 1] == p;
    assert c !in s.at by {
      assert ParentOk(s.m, s.at, c);
    }
    forall q: Path
      ensures TableOk(n, at, q) && TakenOk(at, s.pmm.(taken := s.pmm.taken + {f}), q)
    {
      assert TableOk(s.m, s.at, q) && TakenOk(s.at, s.pmm, q);
    }
    forall q: Path, r: Path
      ensures Apart(at, q, r)
    {
      assert Apart(s.at, q, r) && TakenOk(s.at, s.pmm, q) && TakenOk(s.at, s.pmm, r);
    }
    forall q: Path, j: nat
      ensures ChildOk(n, at, q, j)
    {
      assert ChildOk(s.m, s.at, q, j);
      if q in s.at && q + [j] == c {
        assert (q + [j])[..|q|] == q;
      }
    }
    forall q: Path
      ensures ParentOk(n, at, q)
    {
      assert ParentOk(s.m, s.at, q);
      if q in s.at && q != [] {
        assert q == q[..|q| - 1] + [q[|q| - 1]];
      }
    }
  }

  /** get_or_create_table on entry i of table p. */
  ghost function GetOrCreate(s: Sys, p: Path, i: nat): (Sys, Option<nat>)
    requires p in s.at
  {
    var e := Entry(s.m, s.at[p], i);
    var (pmm, addr) := AllocPage(s.pmm);
    var f := addr / PAGE_SIZE;
    if e.Present? then (s, Some(e.frame))
    else if addr == 0 then (Sys(s.m, s.at, pmm), None)
    else (Sys(Linked(s, p, i, f), s.at[p + [i] := f], pmm), Some(f))
  }

  /** It keeps the tree separate, and returns the table the slot names. */
  lemma GetOrCreateKeepsInv(s: Sys, p: Path, i: nat)
    requires Inv(s) && p in s.at && |p| < 3 && i < 512 && !IsHuge(Entry(s.m, s.at[p], i), |p|)
    ensures var (t, r) := GetOrCreate(s, p, i);
            && Inv(t) && Root(t) == Root(s) && |t.m| == |s.m|
            && (r.Some? ==> p + [i] in t.at && t.at[p + [i]] == r.value)
  {
    AllocReturnsZeroIff(s.pmm);
    assert ChildOk(s.m, s.at, p, i);
    if Entry(s.m, s.at[p], i).Absent? && AllocPage(s.pmm).1 != 0 {
      AllocIsLeast(s.pmm, 0);
      var f := AllocPage(s.pmm).1 / PAGE_SIZE;
      LinkKeepsTree(s, p, i, f);
      var t := GetOrCreate(s, p, i).0;
      forall q: Path
        ensures TakenOk(t.at, t.pmm, q)
      {
        assert TakenOk(t.at, s.pmm.(taken := s.pmm.taken + {f}), q);
      }
    }
  }

  /** get_or_create_table never changes what any page translates to. */
  lemma GetOrCreateKeepsWalks(s: Sys, p: Path, i: nat, vp: Path)
    requires Inv(s) && p in s.at && |p| < 3 && i < 512 && !IsHuge(Entry(s.m, s.at[p], i), |p|)
    requires IsPage(vp)
    ensures var t := GetOrCreate(s, p, i).0;
            && Inv(t)
            && Walk(t.m, Root(t), vp, 0) == Walk(s.m, Root(s), vp, 0)
            && MeetsHuge(t.m, Root(t), vp, 0) == MeetsHuge(s.m, Root(s), vp, 0)
  {
    GetOrCreateKeepsInv(s, p, i);
    if Entry(s.m, s.at[p], i).Absent? && AllocPage(s.pmm).1 != 0 {
      var f := AllocPage(s.pmm).1 / PAGE_SIZE;
      AllocIsLeast(s.pmm, 0);
      LinkedEntries(s, p, i, f);
      assert vp[..0] == [];
      WalkLinked(s.m, Linked(s, p, i, f), s.at, p, i, f, vp, 0);
    }
  }

  /** vmm_map_page from the table at depth d on; leaf is the entry it stores. */
  ghost function MapFrom(s: Sys, vp: Path, d: nat, leaf: Pte): (r: (Sys, bool))
    requires Inv(s) && IsPage(vp) && d < 4 && vp[..d] in s.at
    requires !MeetsHuge(s.m, Root(s), vp, 0)
    decreases 4 - d
  {
    if d == 3 then
      (s.(m := Write(s.m, s.at[vp[..3]], vp[3], leaf)), true)
    else
      WalkReaches(s.m, s.at, vp, d);
      GetOrCreateKeepsInv(s, vp[..d], vp[d]);
      var (t, r) := GetOrCreate(s, vp[..d], vp[d]);
      GetOrCreateKeepsWalks(s, vp[..d], vp[d], vp);
      assert vp[..d] + [vp[d]] == vp[..d + 1];
      if r.None? then (t, false) else MapFrom(t, vp, d + 1, leaf)
  }

  ghost function MapPage(s: Sys, vp: Path, leaf: Pte): (Sys, bool)
    requires Inv(s) && IsPage(vp) && !MeetsHuge(s.m, Root(s), vp, 0)
  {
    assert vp[..0] == [];
    MapFrom(s, vp, 0, leaf)
  }

  /** One level of vmm_map_page. */
  lemma MapUnfold(s: Sys, vp: Path, d: nat, leaf: Pte)
    requires Inv(s) && IsPage(vp) && d < 3 && vp[..d] in s.at
    requires !MeetsHuge(s.m, Root(s), vp, 0)
    ensures 512 * s.at[vp[..d]] + 512 <= |s.m| && 512 * s.pmm.total <= |s.m|
    ensures !IsHuge(Entry(s.m, s.at[vp[..d]], vp[d]), d)
    ensures var (t, r) := GetOrCreate(s, vp[..d], vp[d]);
            && Inv(t) && Root(t) == Root(s) && !MeetsHuge(t.m, Root(t), vp, 0)
            && (r.Some? ==> vp[..d + 1] in t.at && t.at[vp[..d + 1]] == r.value && r.value > 0)
            && MapFrom(s, vp, d, leaf) == if r.None? then (t, false) else MapFrom(t, vp, d + 1, leaf)
  {
    WalkReaches(s.m, s.at, vp, d);
    GetOrCreateKeepsInv(s, vp[..d], vp[d]);
    GetOrCreateKeepsWalks(s, vp[..d], vp[d], vp);
    assert vp[..d] + [vp[d]] == vp[..d + 1];
    assert TableOk(s.m, s.at, vp[..d]);
    var t := GetOrCreate(s, vp[..d], vp[d]).0;
    assert TableOk(t.m, t.at, vp[..d + 1]);
  }

  /** Storing any entry into a last-level table changes one page only. */
  lemma LeafWrite(s: Sys, vp: Path, leaf: Pte)
    requires Inv(s) && IsPage(vp) && vp[..3] in s.at
    ensures var t := s.(m := Write(s.m, s.at[vp[..3]], vp[3], leaf));
            && Inv(t)
            && (forall w :: IsPage(w) ==>
                  Walk(t.m, Root(t), w, 0) ==
                  if w == vp then (if leaf.Present? then Some(leaf.frame) else None) else Walk(s.m, Root(s), w, 0))
            && (forall w :: IsPage(w) ==> MeetsHuge(t.m, Root(t), w, 0) == MeetsHuge(s.m, Root(s), w, 0))
  {
    var p := vp[..3];
    var t := s.(m := Write(s.m, s.at[p], vp[3], leaf));
    LeafKeepsTree(s, p, vp[3], leaf);
    forall w | IsPage(w)
      ensures Walk(t.m, Root(t), w, 0) ==
              if w == vp then (if leaf.Present? then Some(leaf.frame) else None) else Walk(s.m, Root(s), w, 0)
      ensures MeetsHuge(t.m, Root(t), w, 0) == MeetsHuge(s.m, Root(s), w, 0)
    {
      if w == vp {
        WalkReaches(s.m, s.at, vp, 3);
        WalkReaches(t.m, t.at, vp, 3);
      } else {
        assert p + [vp[3]] == vp;
        assert w[..0] == [];
        WalkElsewhere(s.m, t.m, s.at, p, vp[3], w, 0);
      }
    }
  }

  lemma LeafKeepsTree(s: Sys, p: Path, i: nat, leaf: Pte)
    requires Inv(s) && p in s.at && |p| == 3 && i < 512
    ensures var n := Write(s.m, s.at[p], i, leaf);
            && SameBut(s.m, n, s.at, p, i) && Entry(n, s.at[p], i) == leaf
            && Inv(s.(m := n))
  {
    var n := Write(s.m, s.at[p], i, leaf);
    assert TableOk(s.m, s.at, p);
    forall q, j | q in s.at && j < 512 && (q != p || j != i)
      ensures Entry(n, s.at[q], j) == Entry(s.m, s.at[q], j)
    {
      assert Apart(s.at, q, p);
    }
    forall q: Path
      ensures TableOk(n, s.at, q)
    {
      assert TableOk(s.m, s.at, q);
    }
    forall q: Path, j: nat
      ensures ChildOk(n, s.at, q, j)
    {
      assert ChildOk(s.m, s.at, q, j);
    }
    forall q: Path
      ensures ParentOk(n, s.at, q)
    {
      assert ParentOk(s.m, s.at, q);
      if q in s.at && q != [] {
        assert TableOk(s.m, s.at, q);
      }
    }
  }

  /** vmm_map_page: on success vp translates to the frame it was given and every other page keeps
      its translation; on failure every page does, although tables may have been linked. */
  lemma {:induction false} MapTranslation(s: Sys, vp: Path, d: nat, leaf: Pte)
    requires Inv(s) && IsPage(vp) && d < 4 && vp[..d] in s.at && leaf.Present?
    requires !MeetsHuge(s.m, Root(s), vp, 0)
    ensures var (t, ok) := MapFrom(s, vp, d, leaf);
            && Inv(t) && Root(t) == Root(s) && |t.m| == |s.m|
            && (forall w :: IsPage(w) ==>
                  Walk(t.m, Root(t), w, 0) ==
                  if ok && w == vp then Some(leaf.frame) else Walk(s.m, Root(s), w, 0))
            && (forall w :: IsPage(w) ==> MeetsHuge(t.m, Root(t), w, 0) == MeetsHuge(s.m, Root(s), w, 0))
    decreases 4 - d
  {
    if d == 3 {
      LeafWrite(s, vp, leaf);
    } else {
      WalkReaches(s.m, s.at, vp, d);
      GetOrCreateKeepsInv(s, vp[..d], vp[d]);
      var (t, r) := GetOrCreate(s, vp[..d], vp[d]);
      forall w | IsPage(w)
        ensures Walk(t.m, Root(t), w, 0) == Walk(s.m, Root(s), w, 0)
        ensures MeetsHuge(t.m, Root(t), w, 0) == MeetsHuge(s.m, Root(s), w, 0)
      {
        GetOrCreateKeepsWalks(s, vp[..d], vp[d], w);
      }
      assert vp[..d] + [vp[d]] == vp[..d + 1];
      if r.Some? {
        MapTranslation(t, vp, d + 1, leaf);
      }
    }
  }

  // ---------------------------------------------------------------- pages consumed

  ghost function Frames(at: Tables): set<nat> { at.Values }

  /** How many tables on the path of vp, below depth d, do not exist. */
  ghost function Missing(at: Tables, vp: Path, d: nat): nat
    requires |vp| == 4 && d < 4
    decreases 4 - d
  {
    if d == 3 then 0 else (if vp[..d + 1] in at then 0 else 1) + Missing(at, vp, d + 1)
  }

  ghost function FreeCount(s: Sys): nat { |Below(s.pmm.total) - s.pmm.taken| }

  lemma {:induction false} MissingOther(a: Tables, b: Tables, vp: Path, d: nat)
    requires |vp| == 4 && d < 4
    requires forall k :: d < k < 4 ==> (vp[..k] in a <==> vp[..k] in b)
    ensures Missing(a, vp, d) == Missing(b, vp, d)
    decreases 4 - d
  {
    if d < 3 { MissingOther(a, b, vp, d + 1); }
  }

  /** The table below slot vp[d] exists exactly when the slot is present. */
  lemma SlotPresent(s: Sys, vp: Path, d: nat)
    requires Inv(s) && IsPage(vp) && d < 3 && vp[..d] in s.at
    requires !IsHuge(Entry(s.m, s.at[vp[..d]], vp[d]), d)
    ensures Entry(s.m, s.at[vp[..d]], vp[d]).Present? <==> vp[..d + 1] in s.at
  {
    var p, c := vp[..d], vp[..d + 1];
    assert c == p + [vp[d]] && c[..|c| - 1] == p;
    assert ChildOk(s.m, s.at, p, vp[d]);
    assert ParentOk(s.m, s.at, c);
  }

  lemma GetOrCreateConsumes(s: Sys, vp: Path, d: nat)
    requires Inv(s) && IsPage(vp) && d < 3 && vp[..d] in s.at
    requires !IsHuge(Entry(s.m, s.at[vp[..d]], vp[d]), d)
    ensures var (t, r) := GetOrCreate(s, vp[..d], vp[d]);
            var c := vp[..d + 1];
            if c in s.at then t == s && r.Some?
            else if FreeCount(s) == 0 then t == s && r.None?
            else && r.Some? && r.value !in s.pmm.taken && t.at == s.at[c := r.value]
                 && t.pmm.taken == s.pmm.taken + {r.value} && t.pmm.total == s.pmm.total
                 && FreeCount(t) == FreeCount(s) - 1
  {
    SlotPresent(s, vp, d);
    assert vp[..d] + [vp[d]] == vp[..d + 1];
    if vp[..d + 1] !in s.at {
      var free := Below(s.pmm.total) - s.pmm.taken;
      AllocReturnsZeroIff(s.pmm);
      if AllocPage(s.pmm).1 == 0 {
        assert free == {};
      } else {
        AllocIsLeast(s.pmm, 0);
        var f := AllocPage(s.pmm).1 / PAGE_SIZE;
        assert f in free;
        assert Below(s.pmm.total) - (s.pmm.taken + {f}) == free - {f};
      }
    }
  }

  /** t is s with new tables, all on the path of vp below depth d, in frames that were free; and
      those frames are the only pages taken meanwhile. */
  ghost predicate Grew(s: Sys, t: Sys, vp: Path, d: nat) {
    && t.pmm.total == s.pmm.total
    && (forall q :: q in s.at ==> q in t.at && t.at[q] == s.at[q])
    && (forall q :: q in t.at && q !in s.at ==> d < |q| < 4 && q <= vp && t.at[q] !in s.pmm.taken)
    && t.pmm.taken == s.pmm.taken + Frames(t.at)
  }

  lemma FramesAdd(at: Tables, c: Path, f: nat)
    requires c !in at
    ensures Frames(at[c := f]) == Frames(at) + {f}
  {
    var n := at[c := f];
    assert n[c] == f;
    forall g | g in Frames(at)
      ensures g in Frames(n)
    {
      var q :| q in at && at[q] == g;
      assert n[q] == g;
    }
  }

  lemma GrewAdd(s: Sys, t: Sys, vp: Path, d: nat, f: nat)
    requires |vp| == 4 && d < 3 && vp[..d + 1] !in s.at && f !in s.pmm.taken
    requires Frames(s.at) <= s.pmm.taken
    requires t.at == s.at[vp[..d + 1] := f]
    requires t.pmm.taken == s.pmm.taken + {f} && t.pmm.total == s.pmm.total
    ensures Grew(s, t, vp, d)
  {
    FramesAdd(s.at, vp[..d + 1], f);
    assert forall q :: q in t.at && q !in s.at ==> q == vp[..d + 1];
  }

  lemma FramesTaken(s: Sys)
    requires Inv(s)
    ensures Frames(s.at) <= s.pmm.taken
  {
    forall f | f in Frames(s.at)
      ensures f in s.pmm.taken
    {
      var q :| q in s.at && s.at[q] == f;
      assert TakenOk(s.at, s.pmm, q);
    }
  }

  lemma GrewOnce(s: Sys, vp: Path, d: nat)
    requires Inv(s) && IsPage(vp) && d < 3 && vp[..d] in s.at
    requires !IsHuge(Entry(s.m, s.at[vp[..d]], vp[d]), d)
    ensures Grew(s, GetOrCreate(s, vp[..d], vp[d]).0, vp, d)
  {
    var (t, r) := GetOrCreate(s, vp[..d], vp[d]);
    FramesTaken(s);
    GetOrCreateConsumes(s, vp, d);
    if vp[..d + 1] in s.at || FreeCount(s) == 0 {
      assert t == s;
    } else {
      GrewAdd(s, t, vp, d, r.value);
    }
  }

  lemma GrewTwice(s: Sys, t: Sys, u: Sys, vp: Path, d: nat)
    requires Grew(s, t, vp, d) && Grew(t, u, vp, d + 1)
    ensures Grew(s, u, vp, d)
  {
    assert Frames(t.at) <= Frames(u.at) by {
      forall f | f in Frames(t.at)
        ensures f in Frames(u.at)
      {
        var q :| q in t.at && t.at[q] == f;
        assert u.at[q] == f;
      }
    }
  }

  /** Every page vmm_map_page takes from the allocator becomes a table on the path of vp, so it
      takes at most three and none is lost, whether it succeeds or fails. */
  lemma {:induction false} MapLosesNoPage(s: Sys, vp: Path, d: nat, leaf: Pte)
    requires Inv(s) && IsPage(vp) && d < 4 && vp[..d] in s.at
    requires !MeetsHuge(s.m, Root(s), vp, 0)
    ensures Grew(s, MapFrom(s, vp, d, leaf).0, vp, d)
    decreases 4 - d
  {
    if d == 3 {
      FramesTaken(s);
    } else {
      WalkReaches(s.m, s.at, vp, d);
      assert vp[..d] + [vp[d]] == vp[..d + 1];
      GetOrCreateKeepsInv(s, vp[..d], vp[d]);
      GetOrCreateKeepsWalks(s, vp[..d], vp[d], vp);
      GrewOnce(s, vp, d);
      var (t, r) := GetOrCreate(s, vp[..d], vp[d]);
      if r.Some? {
        MapLosesNoPage(t, vp, d + 1, leaf);
        GrewTwice(s, t, MapFrom(t, vp, d + 1, leaf).0, vp, d);
      }
    }
  }

  lemma AtMostThree(s: Sys, t: Sys, vp: Path)
    requires Grew(s, t, vp, 0) && |vp| == 4 && Frames(s.at) <= s.pmm.taken
    ensures |t.pmm.taken - s.pmm.taken| <= 3
  {
    var a := set k: nat | 0 < k < 4 && vp[..k] in t.at :: t.at[vp[..k]];
    forall f | f in t.pmm.taken - s.pmm.taken
      ensures f in a
    {
      var q :| q in t.at && t.at[q] == f;
      assert q == vp[..|q|];
    }
    ThreeAtMost(a, vp, t.at);
    SubsetSize(t.pmm.taken - s.pmm.taken, a);
  }

  lemma ThreeAtMost(a: set<nat>, vp: Path, at: Tables)
    requires |vp| == 4
    requires a == set k: nat | 0 < k < 4 && vp[..k] in at :: at[vp[..k]]
    ensures |a| <= 3
  {
    var x := if vp[..1] in at then {at[vp[..1]]} else {};
    var y := if vp[..2] in at then {at[vp[..2]]} else {};
    var z := if vp[..3] in at then {at[vp[..3]]} else {};
    assert a <= x + y + z;
    SubsetSize(a, x + y + z);
  }

  /** It fails exactly when fewer pages are free than tables are missing; on success the last-level
      table of vp is in the tree. */
  lemma {:induction false} MapSucceedsIff(s: Sys, vp: Path, d: nat, leaf: Pte)
    requires Inv(s) && IsPage(vp) && d < 4 && vp[..d] in s.at
    requires !MeetsHuge(s.m, Root(s), vp, 0)
    ensures MapFrom(s, vp, d, leaf).1 <==> FreeCount(s) >= Missing(s.at, vp, d)
    ensures MapFrom(s, vp, d, leaf).1 ==> vp[..3] in MapFrom(s, vp, d, leaf).0.at
    decreases 4 - d
  {
    if d < 3 {
      WalkReaches(s.m, s.at, vp, d);
      assert vp[..d] + [vp[d]] == vp[..d + 1];
      GetOrCreateKeepsInv(s, vp[..d], vp[d]);
      GetOrCreateKeepsWalks(s, vp[..d], vp[d], vp);
      GetOrCreateConsumes(s, vp, d);
      var (t, r) := GetOrCreate(s, vp[..d], vp[d]);
      MissingOther(s.at, t.at, vp, d + 1);
      if r.Some? {
        MapSucceedsIff(t, vp, d + 1, leaf);
      }
    }
  }

  /** Once the last-level table exists, mapping any page under it takes no page and cannot fail. */
  lemma {:induction false} MapAgainIsFree(s: Sys, vp: Path, d: nat, leaf: Pte)
    requires Inv(s) && IsPage(vp) && d < 4 && vp[..d] in s.at && vp[..3] in s.at
    requires !MeetsHuge(s.m, Root(s), vp, 0)
    ensures MapFrom(s, vp, d, leaf) == (s.(m := Write(s.m, s.at[vp[..3]], vp[3], leaf)), true)
    decreases 4 - d
  {
    if d < 3 {
      WalkReaches(s.m, s.at, vp, d);
      PrefixClosed(s, vp[..3], d + 1);
      assert vp[..3][..d + 1] == vp[..d + 1];
      GetOrCreateConsumes(s, vp, d);
      MapAgainIsFree(s, vp, d + 1, leaf);
    }
  }

  lemma {:induction false} PrefixClosed(s: Sys, q: Path, k: nat)
    requires Inv(s) && q in s.at && k <= |q|
    ensures q[..k] in s.at
    decreases |q|
  {
    if k == |q| {
      assert q[..k] == q;
    } else {
      assert ParentOk(s.m, s.at, q);
      PrefixClosed(s, q[..|q| - 1], k);
      assert q[..|q| - 1][..k] == q[..k];
    }
  }

  // ---------------------------------------------------------------- unmapping

  /** vmm_unmap_page from the table at depth d on. */
  ghost function UnmapFrom(s: Sys, vp: Path, d: nat): Sys
    requires Inv(s) && IsPage(vp) && d < 4 && vp[..d] in s.at
    requires !MeetsHuge(s.m, Root(s), vp, 0)
    decreases 4 - d
  {
    if d == 3 then s.(m := Write(s.m, s.at[vp[..3]], vp[3], Absent))
    else
      WalkReaches(s.m, s.at, vp, d);
      SlotPresent(s, vp, d);
      if Entry(s.m, s.at[vp[..d]], vp[d]).Absent? then s else UnmapFrom(s, vp, d + 1)
  }

  /** One level of vmm_unmap_page. */
  lemma UnmapUnfold(s: Sys, vp: Path, d: nat)
    requires Inv(s) && IsPage(vp) && d < 3 && vp[..d] in s.at
    requires !MeetsHuge(s.m, Root(s), vp, 0)
    ensures var e := Entry(s.m, s.at[vp[..d]], vp[d]);
            && (e.Present? ==> vp[..d + 1] in s.at && s.at[vp[..d + 1]] == e.frame)
            && UnmapFrom(s, vp, d) == if e.Absent? then s else UnmapFrom(s, vp, d + 1)
  {
    WalkReaches(s.m, s.at, vp, d);
    SlotPresent(s, vp, d);
    assert vp[..d] + [vp[d]] == vp[..d + 1];
    assert ChildOk(s.m, s.at, vp[..d], vp[d]);
  }

  /** vmm_unmap_page: vp translates to nothing, every other page keeps its translation, and no
      table and no page of the allocator changes hands. */
  lemma {:induction false} UnmapTranslation(s: Sys, vp: Path, d: nat)
    requires Inv(s) && IsPage(vp) && d < 4 && vp[..d] in s.at
    requires !MeetsHuge(s.m, Root(s), vp, 0)
    ensures var t := UnmapFrom(s, vp, d);
            && Inv(t) && t.at == s.at && t.pmm == s.pmm && |t.m| == |s.m|
            && (forall w :: IsPage(w) ==>
                  Walk(t.m, Root(t), w, 0) == if w == vp then None else Walk(s.m, Root(s), w, 0))
            && (forall w :: IsPage(w) ==> MeetsHuge(t.m, Root(t), w, 0) == MeetsHuge(s.m, Root(s), w, 0))
    decreases 4 - d
  {
    if d == 3 {
      LeafWrite(s, vp, Absent);
    } else {
      WalkReaches(s.m, s.at, vp, d);
      SlotPresent(s, vp, d);
      if Entry(s.m, s.at[vp[..d]], vp[d]).Present? {
        UnmapTranslation(s, vp, d + 1);
      }
    }
  }

  // ---------------------------------------------------------------- the code on any memory

  /** What the code works on. It knows no names of tables, only frames; frame 0 is NULL. */
  datatype Raw = Raw(m: Mem, pmm: PmmState)

  /** get_or_create_table on entry i of the table in frame f, whatever that frame holds. */
  ghost function RawTable(r: Raw, f: nat, i: nat): (Raw, nat) {
    var e := Entry(r.m, f, i);
    var (pmm, addr) := AllocPage(r.pmm);
    var t := addr / PAGE_SIZE;
    if e.Present? then (r, e.frame)
    else if addr == 0 then (Raw(r.m, pmm), 0)
    else (Raw(Write(ZeroFrame(r.m, t), f, i, Present(false, t)), pmm), t)
  }

  /** vmm_map_page from the table in frame f at depth d on, with its three NULL tests. */
  ghost function RawMap(r: Raw, f: nat, vp: Path, d: nat, leaf: Pte): (Raw, bool)
    requires IsPage(vp) && d < 4
    decreases 4 - d
  {
    if d == 3 then (r.(m := Write(r.m, f, vp[3], leaf)), true)
    else
      var (t, next) := RawTable(r, f, vp[d]);
      if next == 0 then (t, false) else RawMap(t, next, vp, d + 1, leaf)
  }

  /** vmm_unmap_page, which has no NULL tests. */
  ghost function RawUnmap(m: Mem, f: nat, vp: Path, d: nat): Mem
    requires IsPage(vp) && d < 4
    decreases 4 - d
  {
    if d == 3 then Write(m, f, vp[3], Absent)
    else
      var e := Entry(m, f, vp[d]);
      if e.Absent? then m else RawUnmap(m, e.frame, vp, d + 1)
  }

  /** In a separate tree, away from large pages, the code does what MapFrom says. */
  lemma {:induction false} RawMapIsMap(s: Sys, vp: Path, d: nat, leaf: Pte)
    requires Inv(s) && IsPage(vp) && d < 4 && vp[..d] in s.at
    requires !MeetsHuge(s.m, Root(s), vp, 0)
    ensures var (t, ok) := MapFrom(s, vp, d, leaf);
            RawMap(Raw(s.m, s.pmm), s.at[vp[..d]], vp, d, leaf) == (Raw(t.m, t.pmm), ok)
    decreases 4 - d
  {
    if d < 3 {
      MapUnfold(s, vp, d, leaf);
      var (t, r) := GetOrCreate(s, vp[..d], vp[d]);
      if r.Some? {
        RawMapIsMap(t, vp, d + 1, leaf);
      }
    }
  }

  lemma {:induction false} RawUnmapIsUnmap(s: Sys, vp: Path, d: nat)
    requires Inv(s) && IsPage(vp) && d < 4 && vp[..d] in s.at
    requires !MeetsHuge(s.m, Root(s), vp, 0)
    ensures RawUnmap(s.m, s.at[vp[..d]], vp, d) == UnmapFrom(s, vp, d).m
    decreases 4 - d
  {
    if d < 3 {
      UnmapUnfold(s, vp, d);
      if Entry(s.m, s.at[vp[..d]], vp[d]).Present? {
        RawUnmapIsUnmap(s, vp, d + 1);
      }
    }
  }

  /** vp lies in a 2 MB page of the tree. */
  ghost predicate InLargePage(s: Sys, vp: Path) {
    IsPage(vp) && vp[..2] in s.at && IsHuge(Entry(s.m, s.at[vp[..2]], vp[2]), 2)
  }

  /** That page's first frame. */
  ghost function LargeFrame(s: Sys, vp: Path): nat
    requires InLargePage(s, vp)
  {
    Entry(s.m, s.at[vp[..2]], vp[2]).frame
  }

  lemma LargePageIsMet(s: Sys, vp: Path)
    requires Inv(s) && InLargePage(s, vp)
    ensures MeetsHuge(s.m, Root(s), vp, 0)
  {
    WalkReaches(s.m, s.at, vp, 2);
  }

  /** The tables above a large page, as the code passes them. */
  lemma AboveLargePage(s: Sys, vp: Path, d: nat)
    requires Inv(s) && InLargePage(s, vp) && d < 2
    ensures vp[..d] in s.at && vp[..d + 1] in s.at && s.at[vp[..d + 1]] > 0
    ensures Entry(s.m, s.at[vp[..d]], vp[d]).Present?
    ensures Entry(s.m, s.at[vp[..d]], vp[d]).frame == s.at[vp[..d + 1]]
  {
    var q := vp[..d + 1];
    PrefixClosed(s, vp[..2], d);
    PrefixClosed(s, vp[..2], d + 1);
    assert vp[..2][..d] == vp[..d] && vp[..2][..d + 1] == q;
    assert q[..|q| - 1] == vp[..d];
    assert ParentOk(s.m, s.at, q) && TableOk(s.m, s.at, q);
  }

  /** On a page that lies in a 2 MB page the code takes the large page's frame for a table: with
      frame 0 it takes it for NULL and fails without a store, otherwise it stores the entry into the
      large page and reports success. It never takes a page from the allocator. */
  lemma {:induction false} RawMapThroughLargePage(s: Sys, vp: Path, d: nat, leaf: Pte)
    requires Inv(s) && InLargePage(s, vp) && d <= 2
    ensures vp[..d] in s.at
    ensures var r, f := Raw(s.m, s.pmm), LargeFrame(s, vp);
            RawMap(r, s.at[vp[..d]], vp, d, leaf) ==
            if f == 0 then (r, false) else (Raw(Write(s.m, f, vp[3], leaf), s.pmm), true)
    decreases 2 - d
  {
    if d < 2 {
      AboveLargePage(s, vp, d);
      RawMapThroughLargePage(s, vp, d + 1, leaf);
    }
  }

  /** vmm_unmap_page does the same with an empty entry, and has no test for frame 0. */
  lemma {:induction false} RawUnmapThroughLargePage(s: Sys, vp: Path, d: nat)
    requires Inv(s) && InLargePage(s, vp) && d <= 2
    ensures vp[..d] in s.at
    ensures RawUnmap(s.m, s.at[vp[..d]], vp, d) == Write(s.m, LargeFrame(s, vp), vp[3], Absent)
    decreases 2 - d
  {
    if d < 2 {
      AboveLargePage(s, vp, d);
      RawUnmapThroughLargePage(s, vp, d + 1);
    }
  }

  // ---------------------------------------------------------------- words written

  /** Every word that differs lies in a table. */
  ghost predicate OnlyTablesWritten(s: Sys, t: Sys) {
    && Frames(s.at) <= Frames(t.at)
    && forall f: nat, i: nat :: i < 512 && f !in Frames(t.at) ==> Entry(t.m, f, i) == Entry(s.m, f, i)
  }

  lemma LinkedWrites(s: Sys, p: Path, i: nat, f: nat, g: nat, j: nat)
    requires p in s.at && i < 512 && j < 512 && g != f && g != s.at[p]
    ensures Entry(Linked(s, p, i, f), g, j) == Entry(s.m, g, j)
  {}

  lemma GetOrCreateWrites(s: Sys, p: Path, i: nat)
    requires Inv(s) && p in s.at && |p| < 3 && i < 512 && !IsHuge(Entry(s.m, s.at[p], i), |p|)
    ensures OnlyTablesWritten(s, GetOrCreate(s, p, i).0)
  {
    assert s.at[p] in Frames(s.at);
    if Entry(s.m, s.at[p], i).Absent? && AllocPage(s.pmm).1 != 0 {
      var t, f := GetOrCreate(s, p, i).0, AllocPage(s.pmm).1 / PAGE_SIZE;
      assert ParentOk(s.m, s.at, p + [i]);
      assert (p + [i])[..|p|] == p;
      FramesAdd(s.at, p + [i], f);
      forall g: nat, j: nat | j < 512 && g !in Frames(t.at)
        ensures Entry(t.m, g, j) == Entry(s.m, g, j)
      {
        LinkedWrites(s, p, i, f, g, j);
      }
    }
  }

  lemma WritesCompose(s: Sys, t: Sys, u: Sys)
    requires OnlyTablesWritten(s, t) && OnlyTablesWritten(t, u)
    ensures OnlyTablesWritten(s, u)
  {}

  lemma LeafWrites(s: Sys, p: Path, i: nat, leaf: Pte)
    requires p in s.at && i < 512
    ensures OnlyTablesWritten(s, s.(m := Write(s.m, s.at[p], i, leaf)))
  {
    assert s.at[p] in Frames(s.at);
  }

  /** vmm_map_page and vmm_unmap_page write no word outside the tables. */
  lemma {:induction false} MapWritesTables(s: Sys, vp: Path, d: nat, leaf: Pte)
    requires Inv(s) && IsPage(vp) && d < 4 && vp[..d] in s.at
    requires !MeetsHuge(s.m, Root(s), vp, 0)
    ensures OnlyTablesWritten(s, MapFrom(s, vp, d, leaf).0)
    decreases 4 - d
  {
    if d == 3 {
      LeafWrites(s, vp[..3], vp[3], leaf);
    } else {
      MapUnfold(s, vp, d, leaf);
      GetOrCreateWrites(s, vp[..d], vp[d]);
      var (t, r) := GetOrCreate(s, vp[..d], vp[d]);
      if r.Some? {
        MapWritesTables(t, vp, d + 1, leaf);
        WritesCompose(s, t, MapFrom(t, vp, d + 1, leaf).0);
      }
    }
  }

  lemma {:induction false} UnmapWritesTables(s: Sys, vp: Path, d: nat)
    requires Inv(s) && IsPage(vp) && d < 4 && vp[..d] in s.at
    requires !MeetsHuge(s.m, Root(s), vp, 0)
    ensures OnlyTablesWritten(s, UnmapFrom(s, vp, d))
    decreases 4 - d
  {
    if d == 3 {
      LeafWrites(s, vp[..3], vp[3], Absent);
    } else {
      UnmapUnfold(s, vp, d);
      if Entry(s.m, s.at[vp[..d]], vp[d]).Present? {
        UnmapWritesTables(s, vp, d + 1);
      }
    }
  }
}
