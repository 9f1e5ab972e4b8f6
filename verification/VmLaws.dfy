/** Laws of the virtual memory manager together with the page allocator, over every run of
    vmm_map_page, vmm_unmap_page, pmm_alloc_page and pmm_free_page (kernel/memory/vmm.c and
    kernel/memory/pmm.c). */
module VmLaws {
  import opened PageSet
  import opened PageTables

  /** Table entries that are present stay as they are. */
  ghost predicate KeepsEntries(s: Sys, t: Sys) {
    forall q, j :: q in s.at && |q| < 3 && j < 512 && Entry(s.m, s.at[q], j).Present? ==>
                     q in t.at && Entry(t.m, t.at[q], j) == Entry(s.m, s.at[q], j)
  }

  lemma GetOrCreateKeepsEntries(s: Sys, p: Path, i: nat)
    requires Inv(s) && p in s.at && |p| < 3 && i < 512 && !IsHuge(Entry(s.m, s.at[p], i), |p|)
    ensures KeepsEntries(s, GetOrCreate(s, p, i).0)
  {
    if Entry(s.m, s.at[p], i).Absent? && AllocPage(s.pmm).1 != 0 {
      AllocIsLeast(s.pmm, 0);
      var f := AllocPage(s.pmm).1 / PAGE_SIZE;
      LinkedEntries(s, p, i, f);
      LinkKeepsTree(s, p, i, f);
    }
  }

  lemma LeafKeepsEntries(s: Sys, p: Path, i: nat, leaf: Pte)
    requires Inv(s) && p in s.at && |p| == 3 && i < 512
    ensures KeepsEntries(s, s.(m := Write(s.m, s.at[p], i, leaf)))
  {
    LeafKeepsTree(s, p, i, leaf);
  }

  lemma {:induction false} MapKeepsEntries(s: Sys, vp: Path, d: nat, leaf: Pte)
    requires Inv(s) && IsPage(vp) && d < 4 && vp[..d] in s.at
    requires !MeetsHuge(s.m, Root(s), vp, 0)
    ensures KeepsEntries(s, MapFrom(s, vp, d, leaf).0)
    decreases 4 - d
  {
    if d == 3 {
      LeafKeepsEntries(s, vp[..3], vp[3], leaf);
    } else {
      WalkReaches(s.m, s.at, vp, d);
      assert vp[..d] + [vp[d]] == vp[..d + 1];
      GetOrCreateKeepsInv(s, vp[..d], vp[d]);
      GetOrCreateKeepsWalks(s, vp[..d], vp[d], vp);
      GetOrCreateKeepsEntries(s, vp[..d], vp[d]);
      var (t, r) := GetOrCreate(s, vp[..d], vp[d]);
      if r.Some? {
        MapKeepsEntries(t, vp, d + 1, leaf);
      }
    }
  }

  lemma {:induction false} UnmapKeepsEntries(s: Sys, vp: Path, d: nat)
    requires Inv(s) && IsPage(vp) && d < 4 && vp[..d] in s.at
    requires !MeetsHuge(s.m, Root(s), vp, 0)
    ensures KeepsEntries(s, UnmapFrom(s, vp, d))
    decreases 4 - d
  {
    if d == 3 {
      LeafKeepsEntries(s, vp[..3], vp[3], Absent);
    } else {
      WalkReaches(s.m, s.at, vp, d);
      SlotPresent(s, vp, d);
      if Entry(s.m, s.at[vp[..d]], vp[d]).Present? {
        UnmapKeepsEntries(s, vp, d + 1);
      }
    }
  }

  // ---------------------------------------------------------------- operations of a run

  /** Store is a write by anything else. */
  datatype VmOp =
    | Map(vp: Path, leaf: Pte)
    | Unmap(vp: Path)
    | Take
    | Give(addr: nat)
    | Store(frame: nat, index: nat, word: Pte)

  /** The system and the pages its clients hold. */
  datatype VmState = VmState(sys: Sys, held: set<nat>)

  /** A frame a client may write: one it holds, or one the allocator does not count as taken, such as
      a device's. No table and no page set at boot is of either kind. */
  ghost predicate ClientFrame(v: VmState, f: nat) {
    f !in Frames(v.sys.at) && (f in v.held || f !in v.sys.pmm.taken)
  }

  /** A page on which vmm_map_page and vmm_unmap_page do no harm: outside the large pages, or in a 2 MB
      page whose first frame, which they take for a table, is frame 0 or a client's. */
  ghost predicate Harmless(v: VmState, vp: Path)
    requires Inv(v.sys) && IsPage(vp)
  {
    || !MeetsHuge(v.sys.m, Root(v.sys), vp, 0)
    || (InLargePage(v.sys, vp) && (LargeFrame(v.sys, vp) == 0 || ClientFrame(v, LargeFrame(v.sys, vp))))
  }

  /** Callers map and unmap harmless pages, free only pages they hold, and store only where a client
      may. */
  ghost predicate Legal(v: VmState, op: VmOp)
    requires Inv(v.sys)
  {
    match op
    case Map(vp, leaf) => IsPage(vp) && leaf.Present? && Harmless(v, vp)
    case Unmap(vp) => IsPage(vp) && Harmless(v, vp)
    case Take => true
    case Give(addr) => addr / PAGE_SIZE in v.held
    case Store(frame, index, word) => ClientFrame(v, frame) && index < 512
  }

  /** The new state, and whether the operation changed what it is meant to change. A map or an unmap in
      a large page does not, whatever vmm_map_page reports. */
  ghost function Step(v: VmState, op: VmOp): (VmState, bool)
    requires Inv(v.sys) && Legal(v, op)
  {
    match op
    case Map(vp, leaf) =>
      if MeetsHuge(v.sys.m, Root(v.sys), vp, 0) then
        var r := RawMap(Raw(v.sys.m, v.sys.pmm), Root(v.sys), vp, 0, leaf).0;
        (v.(sys := Sys(r.m, v.sys.at, r.pmm)), false)
      else
        var (t, ok) := MapPage(v.sys, vp, leaf);
        (v.(sys := t), ok)
    case Unmap(vp) =>
      assert vp[..0] == [];
      if MeetsHuge(v.sys.m, Root(v.sys), vp, 0) then
        (v.(sys := v.sys.(m := RawUnmap(v.sys.m, Root(v.sys), vp, 0))), false)
      else
        (v.(sys := UnmapFrom(v.sys, vp, 0)), true)
    case Take =>
      var (pmm, addr) := AllocPage(v.sys.pmm);
      (VmState(v.sys.(pmm := pmm), if addr == 0 then v.held else v.held + {addr / PAGE_SIZE}), addr != 0)
    case Give(addr) =>
      (VmState(v.sys.(pmm := FreePage(v.sys.pmm, addr)), v.held - {addr / PAGE_SIZE}), true)
    case Store(frame, index, word) =>
      (v.(sys := v.sys.(m := Write(v.sys.m, frame, index, word))), true)
  }

  /** A map or unmap in a large page is a store into that page, or nothing. */
  lemma LargeStep(v: VmState, op: VmOp)
    requires Inv(v.sys) && (op.Map? || op.Unmap?) && Legal(v, op) && MeetsHuge(v.sys.m, Root(v.sys), op.vp, 0)
    ensures var f := LargeFrame(v.sys, op.vp);
            var e := if op.Map? then op.leaf else Absent;
            && f !in Frames(v.sys.at)
            && Step(v, op).0 ==
               if f == 0 && op.Map? then v else v.(sys := v.sys.(m := Write(v.sys.m, f, op.vp[3], e)))
  {
    var s, vp := v.sys, op.vp;
    assert vp[..0] == [];
    if op.Map? {
      RawMapThroughLargePage(s, vp, 0, op.leaf);
    } else {
      RawUnmapThroughLargePage(s, vp, 0);
    }
    NoTableAtZero(s);
  }

  lemma NoTableAtZero(s: Sys)
    requires Inv(s)
    ensures 0 !in Frames(s.at)
  {
    forall q | q in s.at
      ensures s.at[q] != 0
    {
      assert TableOk(s.m, s.at, q);
    }
  }

  /** Every taken page is exactly one of: reserved (a set fixed at boot), a table, held by a client. */
  ghost predicate Conserved(v: VmState, reserved: set<nat>) {
    && Inv(v.sys) && 0 in reserved
    && v.sys.pmm.taken == reserved + Frames(v.sys.at) + v.held
    && reserved !! Frames(v.sys.at) !! v.held
  }

  /** The plain finite map the tables stand for. */
  type Meaning = map<Path, nat>

  ghost predicate Refines(s: Sys, meaning: Meaning)
    requires [] in s.at
  {
    forall vp :: IsPage(vp) ==>
      Walk(s.m, Root(s), vp, 0) == if vp in meaning then Some(meaning[vp]) else None
  }

  ghost function Apply(meaning: Meaning, op: VmOp, changed: bool): Meaning {
    match op
    case Map(vp, leaf) => if changed && leaf.Present? then meaning[vp := leaf.frame] else meaning
    case Unmap(vp) => if changed then meaning - {vp} else meaning
    case _ => meaning
  }

  // ---------------------------------------------------------------- what each step keeps

  /** The same pages lie in large pages. */
  ghost predicate KeepsLarge(s: Sys, t: Sys)
    requires [] in s.at && [] in t.at
  {
    forall vp :: IsPage(vp) ==> MeetsHuge(t.m, Root(t), vp, 0) == MeetsHuge(s.m, Root(s), vp, 0)
  }

  /** A write outside the tables is invisible to every translation. */
  lemma StoreKeepsTree(s: Sys, f: nat, i: nat, e: Pte)
    requires Inv(s) && f !in Frames(s.at) && i < 512
    ensures var t := s.(m := Write(s.m, f, i, e));
            && Inv(t) && KeepsEntries(s, t)
            && (forall vp :: IsPage(vp) ==> Walk(t.m, Root(t), vp, 0) == Walk(s.m, Root(s), vp, 0))
            && KeepsLarge(s, t)
  {
    var n := Write(s.m, f, i, e);
    forall q, j | q in s.at && j < 512
      ensures Entry(n, s.at[q], j) == Entry(s.m, s.at[q], j)
    {
      assert s.at[q] in Frames(s.at);
    }
    forall q: Path
      ensures TableOk(n, s.at, q)
    {
      assert TableOk(s.m, s.at, q);
    }
    forall q: Path, j: nat
      ensures ChildOk(n, s.at, q, j)
    {
      assert ChildOk(s.m, s.at, q, j);
    }
    forall q: Path
      ensures ParentOk(n, s.at, q)
    {
      assert ParentOk(s.m, s.at, q);
    }
    forall vp | IsPage(vp)
      ensures Walk(n, Root(s), vp, 0) == Walk(s.m, Root(s), vp, 0)
      ensures MeetsHuge(n, Root(s), vp, 0) == MeetsHuge(s.m, Root(s), vp, 0)
    {
      // No page lies below index 512 of the PML4, so nothing below the change is excluded
      assert vp[..0] == [];
      assert !([] + [512] <= vp) by { assert vp[0] < 512; }
      WalkElsewhere(s.m, n, s.at, [], 512, vp, 0);
    }
  }

  lemma MapStep(v: VmState, op: VmOp, reserved: set<nat>)
    requires Conserved(v, reserved) && op.Map? && Legal(v, op) && !MeetsHuge(v.sys.m, Root(v.sys), op.vp, 0)
    ensures Conserved(Step(v, op).0, reserved) && KeepsEntries(v.sys, Step(v, op).0.sys)
  {
    assert op.vp[..0] == [];
    MapTranslation(v.sys, op.vp, 0, op.leaf);
    MapLosesNoPage(v.sys, op.vp, 0, op.leaf);
    MapKeepsEntries(v.sys, op.vp, 0, op.leaf);
    var t := MapFrom(v.sys, op.vp, 0, op.leaf).0;
    assert Grew(v.sys, t, op.vp, 0);
    GrewConserves(v.sys, t, op.vp, reserved, v.held);
  }

  lemma GrewConserves(s: Sys, t: Sys, vp: Path, reserved: set<nat>, held: set<nat>)
    requires Conserved(VmState(s, held), reserved) && Grew(s, t, vp, 0) && Inv(t)
    ensures Conserved(VmState(t, held), reserved)
  {
    forall f | f in Frames(s.at)
      ensures f in Frames(t.at)
    {
      var q :| q in s.at && s.at[q] == f;
      assert t.at[q] == f;
    }
    forall f | f in Frames(t.at)
      ensures f !in held && f !in reserved
    {
      var q :| q in t.at && t.at[q] == f;
      assert q in s.at ==> s.at[q] in Frames(s.at);
    }
  }

  lemma PageStep(v: VmState, op: VmOp, reserved: set<nat>)
    requires Conserved(v, reserved) && (op.Take? || op.Give?) && Legal(v, op)
    ensures Conserved(Step(v, op).0, reserved)
  {
    AllocReturnsZeroIff(v.sys.pmm);
    if op.Take? && AllocPage(v.sys.pmm).1 != 0 {
      AllocIsLeast(v.sys.pmm, 0);
    }
  }

  /** Each operation keeps the whole invariant and no page is lost. */
  lemma StepConserves(v: VmState, op: VmOp, reserved: set<nat>)
    requires Conserved(v, reserved) && Legal(v, op)
    ensures Conserved(Step(v, op).0, reserved) && KeepsEntries(v.sys, Step(v, op).0.sys)
    ensures Root(Step(v, op).0.sys) == Root(v.sys)
  {
    match op {
      case Map(vp, leaf) =>
        if MeetsHuge(v.sys.m, Root(v.sys), vp, 0) {
          LargeStep(v, op);
          StoreKeepsTree(v.sys, LargeFrame(v.sys, vp), vp[3], leaf);
        } else {
          MapStep(v, op, reserved);
          assert vp[..0] == [];
          MapTranslation(v.sys, vp, 0, leaf);
        }
      case Unmap(vp) =>
        if MeetsHuge(v.sys.m, Root(v.sys), vp, 0) {
          LargeStep(v, op);
          StoreKeepsTree(v.sys, LargeFrame(v.sys, vp), vp[3], Absent);
        } else {
          assert vp[..0] == [];
          UnmapTranslation(v.sys, vp, 0);
          UnmapKeepsEntries(v.sys, vp, 0);
        }
      case Store(frame, index, word) => StoreKeepsTree(v.sys, frame, index, word);
      case _ => PageStep(v, op, reserved);
    }
  }

  /** Each operation acts on translations as `Apply` acts on the finite map. */
  lemma StepRefines(v: VmState, op: VmOp, meaning: Meaning)
    requires Inv(v.sys) && Legal(v, op) && Refines(v.sys, meaning)
    ensures var (u, ok) := Step(v, op);
            [] in u.sys.at && Refines(u.sys, Apply(meaning, op, ok)) && KeepsLarge(v.sys, u.sys)
  {
    match op {
      case Map(vp, leaf) =>
        assert vp[..0] == [];
        if MeetsHuge(v.sys.m, Root(v.sys), vp, 0) {
          LargeStep(v, op);
          StoreKeepsTree(v.sys, LargeFrame(v.sys, vp), vp[3], leaf);
        } else {
          MapTranslation(v.sys, vp, 0, leaf);
        }
      case Unmap(vp) =>
        assert vp[..0] == [];
        if MeetsHuge(v.sys.m, Root(v.sys), vp, 0) {
          LargeStep(v, op);
          StoreKeepsTree(v.sys, LargeFrame(v.sys, vp), vp[3], Absent);
        } else {
          UnmapTranslation(v.sys, vp, 0);
        }
      case Store(frame, index, word) => StoreKeepsTree(v.sys, frame, index, word);
      case _ =>
    }
  }

  // ---------------------------------------------------------------- every run

  /** Each operation is legal in the state it is made in. That those states have the invariant is not
      part of it: `StepConserves` shows it on the way. */
  ghost predicate LegalRun(v: VmState, ops: seq<VmOp>, reserved: set<nat>)
    requires Conserved(v, reserved)
    decreases |ops|
  {
    ops == [] ||
    (Legal(v, ops[0]) &&
     (StepConserves(v, ops[0], reserved);
      LegalRun(Step(v, ops[0]).0, ops[1..], reserved)))
  }

  ghost function Run(v: VmState, ops: seq<VmOp>, reserved: set<nat>): (u: VmState)
    requires Conserved(v, reserved) && LegalRun(v, ops, reserved)
    ensures Conserved(u, reserved) && Root(u.sys) == Root(v.sys)
    decreases |ops|
  {
    if ops == [] then v
    else
      StepConserves(v, ops[0], reserved);
      Run(Step(v, ops[0]).0, ops[1..], reserved)
  }

  /** The same run on the finite map, told only which operations changed what they are meant to. */
  ghost function Denote(v: VmState, meaning: Meaning, ops: seq<VmOp>, reserved: set<nat>): Meaning
    requires Conserved(v, reserved) && LegalRun(v, ops, reserved)
    decreases |ops|
  {
    if ops == [] then meaning
    else
      StepConserves(v, ops[0], reserved);
      Denote(Step(v, ops[0]).0, Apply(meaning, ops[0], Step(v, ops[0]).1), ops[1..], reserved)
  }

  lemma RunUnfold(v: VmState, ops: seq<VmOp>, reserved: set<nat>)
    requires Conserved(v, reserved) && ops != [] && Legal(v, ops[0])
    ensures var u := Step(v, ops[0]).0;
            && Conserved(u, reserved)
            && (LegalRun(v, ops, reserved) <==> LegalRun(u, ops[1..], reserved))
            && (LegalRun(v, ops, reserved) ==> Run(v, ops, reserved) == Run(u, ops[1..], reserved))
  {
    StepConserves(v, ops[0], reserved);
  }

  /** A legal run after a legal run is a legal run. */
  lemma {:induction false} RunAppend(v: VmState, a: seq<VmOp>, b: seq<VmOp>, reserved: set<nat>)
    requires Conserved(v, reserved) && LegalRun(v, a, reserved) && LegalRun(Run(v, a, reserved), b, reserved)
    ensures LegalRun(v, a + b, reserved) && Run(v, a + b, reserved) == Run(Run(v, a, reserved), b, reserved)
    decreases |a|
  {
    if a == [] {
      assert a + b == b;
    } else {
      assert (a + b)[0] == a[0] && (a + b)[1..] == a[1..] + b;
      RunUnfold(v, a, reserved);
      RunUnfold(v, a + b, reserved);
      RunAppend(Step(v, a[0]).0, a[1..], b, reserved);
    }
  }

  /** Over every legal run the four-level tree refines the finite map. (That tables stay separate and
      taken, and that reserved + tables + held is exactly what is taken, is the contract of `Run`.) */
  lemma {:induction false} EveryRunRefines(v: VmState, meaning: Meaning, ops: seq<VmOp>, reserved: set<nat>)
    requires Conserved(v, reserved) && LegalRun(v, ops, reserved) && Refines(v.sys, meaning)
    ensures Refines(Run(v, ops, reserved).sys, Denote(v, meaning, ops, reserved))
    ensures KeepsEntries(v.sys, Run(v, ops, reserved).sys)
    ensures KeepsLarge(v.sys, Run(v, ops, reserved).sys)
    decreases |ops|
  {
    if ops != [] {
      StepConserves(v, ops[0], reserved);
      StepRefines(v, ops[0], meaning);
      var (u, ok) := Step(v, ops[0]);
      EveryRunRefines(u, Apply(meaning, ops[0], ok), ops[1..], reserved);
      KeepsEntriesTransitive(v.sys, u.sys, Run(u, ops[1..], reserved).sys);
    }
  }

  lemma KeepsEntriesTransitive(s: Sys, t: Sys, u: Sys)
    requires KeepsEntries(s, t) && KeepsEntries(t, u)
    ensures KeepsEntries(s, u)
  {}

  /** The kernel's own walk, too: on every page that met no large page at the start it finds after any
      legal run what the finite map says. */
  lemma EveryRunSoftWalk(v: VmState, meaning: Meaning, ops: seq<VmOp>, reserved: set<nat>, vp: Path)
    requires Conserved(v, reserved) && LegalRun(v, ops, reserved) && Refines(v.sys, meaning)
    requires IsPage(vp) && !MeetsHuge(v.sys.m, Root(v.sys), vp, 0)
    ensures var e, d := Run(v, ops, reserved).sys, Denote(v, meaning, ops, reserved);
            SoftWalk(e.m, Root(e), vp, 0) == if vp in d then Some(d[vp]) else None
  {
    EveryRunRefines(v, meaning, ops, reserved);
    var e := Run(v, ops, reserved).sys;
    SoftWalkIsWalk(e.m, Root(e), vp, 0);
  }

  /** A legal run never maps, unmaps or moves a page that lies in a large page. */
  lemma LargePagesSurvive(v: VmState, meaning: Meaning, ops: seq<VmOp>, reserved: set<nat>, vp: Path)
    requires Conserved(v, reserved) && LegalRun(v, ops, reserved) && Refines(v.sys, meaning)
    requires IsPage(vp) && vp[..2] in v.sys.at && IsHuge(Entry(v.sys.m, v.sys.at[vp[..2]], vp[2]), 2)
    ensures var e := Run(v, ops, reserved).sys;
            Walk(e.m, Root(e), vp, 0) == Walk(v.sys.m, Root(v.sys), vp, 0)
  {
    EveryRunRefines(v, meaning, ops, reserved);
    var e := Run(v, ops, reserved).sys;
    assert Entry(e.m, e.at[vp[..2]], vp[2]) == Entry(v.sys.m, v.sys.at[vp[..2]], vp[2]);
    WalkReaches(v.sys.m, v.sys.at, vp, 2);
    WalkReaches(e.m, e.at, vp, 2);
  }

  // ---------------------------------------------------------------- the allocator's counter

  lemma {:induction false} MapKeepsCount(s: Sys, vp: Path, d: nat, leaf: Pte, k: nat)
    requires Inv(s) && IsPage(vp) && d < 4 && vp[..d] in s.at
    requires !MeetsHuge(s.m, Root(s), vp, 0) && CountInv(s.pmm, k)
    ensures CountInv(MapFrom(s, vp, d, leaf).0.pmm, k)
    decreases 4 - d
  {
    if d < 3 {
      MapUnfold(s, vp, d, leaf);
      AllocKeepsCount(s.pmm, k);
      var (t, r) := GetOrCreate(s, vp[..d], vp[d]);
      if r.Some? {
        MapKeepsCount(t, vp, d + 1, leaf, k);
      }
    }
  }

  /** Each page taken for a table or a client is counted once, and uncounted once when it is freed. */
  lemma StepKeepsCount(v: VmState, op: VmOp, k: nat)
    requires Inv(v.sys) && Legal(v, op) && CountInv(v.sys.pmm, k)
    ensures CountInv(Step(v, op).0.sys.pmm, k)
  {
    match op {
      case Map(vp, leaf) =>
        if MeetsHuge(v.sys.m, Root(v.sys), vp, 0) {
          LargeStep(v, op);
        } else {
          assert vp[..0] == [];
          MapKeepsCount(v.sys, vp, 0, leaf, k);
        }
      case Unmap(vp) =>
        if MeetsHuge(v.sys.m, Root(v.sys), vp, 0) {
          LargeStep(v, op);
        } else {
          UnmapKeepsPmm(v.sys, vp);
        }
      case Take => AllocKeepsCount(v.sys.pmm, k);
      case Give(addr) => FreeKeepsCount(v.sys.pmm, k, addr);
      case Store(frame, index, word) =>
    }
  }

  /** So over every legal run used_pages exceeds the taken pages by as much as at the start. */
  lemma {:induction false} EveryRunKeepsExcess(v: VmState, ops: seq<VmOp>, reserved: set<nat>, k: nat)
    requires Conserved(v, reserved) && LegalRun(v, ops, reserved) && CountInv(v.sys.pmm, k)
    ensures CountInv(Run(v, ops, reserved).sys.pmm, k)
    decreases |ops|
  {
    if ops != [] {
      StepConserves(v, ops[0], reserved);
      StepKeepsCount(v, ops[0], k);
      EveryRunKeepsExcess(Step(v, ops[0]).0, ops[1..], reserved, k);
    }
  }

  // ---------------------------------------------------------------- the allocator's bitmap

  /** No table write and no client's store lands in a page that stores the bitmap: the words that
      memory has there stay, whatever pmm_alloc_page and pmm_free_page do to the bits, which Pmm keeps
      in an array of their own. */
  lemma StepKeepsBitmap(v: VmState, op: VmOp, reserved: set<nat>, f: nat, i: nat)
    requires Conserved(v, reserved) && Legal(v, op)
    requires f in reserved && InBitmap(v.sys.pmm.total, f) && i < 512
    ensures var t := Step(v, op).0.sys;
            Entry(t.m, f, i) == Entry(v.sys.m, f, i) && t.pmm.total == v.sys.pmm.total
  {
    match op {
      case Map(vp, leaf) =>
        if MeetsHuge(v.sys.m, Root(v.sys), vp, 0) {
          LargeStep(v, op);
        } else {
          SmallStepWrites(v, op, reserved, f, i);
        }
      case Unmap(vp) =>
        if MeetsHuge(v.sys.m, Root(v.sys), vp, 0) {
          LargeStep(v, op);
        } else {
          SmallStepWrites(v, op, reserved, f, i);
        }
      case _ =>
    }
  }

  /** Away from large pages, maps and unmaps write tables only. */
  lemma SmallStepWrites(v: VmState, op: VmOp, reserved: set<nat>, f: nat, i: nat)
    requires Conserved(v, reserved) && (op.Map? || op.Unmap?) && Legal(v, op)
    requires !MeetsHuge(v.sys.m, Root(v.sys), op.vp, 0) && f in reserved && i < 512
    ensures var t := Step(v, op).0.sys;
            Entry(t.m, f, i) == Entry(v.sys.m, f, i) && t.pmm.total == v.sys.pmm.total
  {
    StepConserves(v, op, reserved);
    assert op.vp[..0] == [];
    if op.Map? {
      MapWritesTables(v.sys, op.vp, 0, op.leaf);
      MapKeepsTotal(v.sys, op.vp, op.leaf);
    } else {
      UnmapWritesTables(v.sys, op.vp, 0);
      UnmapKeepsPmm(v.sys, op.vp);
    }
  }

  lemma MapKeepsTotal(s: Sys, vp: Path, leaf: Pte)
    requires Inv(s) && IsPage(vp) && !MeetsHuge(s.m, Root(s), vp, 0)
    ensures MapPage(s, vp, leaf).0.pmm.total == s.pmm.total
  {
    assert vp[..0] == [];
    MapLosesNoPage(s, vp, 0, leaf);
  }

  lemma UnmapKeepsPmm(s: Sys, vp: Path)
    requires Inv(s) && IsPage(vp) && !MeetsHuge(s.m, Root(s), vp, 0)
    ensures vp[..0] in s.at && UnmapFrom(s, vp, 0).pmm == s.pmm
  {
    assert vp[..0] == [];
    UnmapTranslation(s, vp, 0);
  }

  lemma {:induction false} EveryRunKeepsBitmap(v: VmState, ops: seq<VmOp>, reserved: set<nat>, f: nat, i: nat)
    requires Conserved(v, reserved) && LegalRun(v, ops, reserved)
    requires f in reserved && InBitmap(v.sys.pmm.total, f) && i < 512
    ensures Entry(Run(v, ops, reserved).sys.m, f, i) == Entry(v.sys.m, f, i)
    decreases |ops|
  {
    if ops != [] {
      StepConserves(v, ops[0], reserved);
      StepKeepsBitmap(v, ops[0], reserved, f, i);
      EveryRunKeepsBitmap(Step(v, ops[0]).0, ops[1..], reserved, f, i);
    }
  }
}
