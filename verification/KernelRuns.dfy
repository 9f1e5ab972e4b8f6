/** The state of the kernel's memory managers that starts from the boot loader's tables, and every run
    from there (kernel/kernel.c:44-65, kernel/memory/vmm.c). */
module KernelRuns {
  import opened BootTables
  import opened Entries
  import opened LargePages
  import opened PageSet
  import opened PageTables
  import opened VmLaws

  // ---------------------------------------------------------------- the kernel's initial state

  const BOOT_TABLES: Tables := map[[] := 1, [0] := 2, [0, 0] := 3]

  ghost function BootPages(): set<Path> {
    set i, j | 0 <= i < 512 && 0 <= j < 512 :: [0, 0, i, j]
  }

  /** The identity map of the first gigabyte. */
  ghost function BootMeaning(): Meaning {
    map vp | vp in BootPages() :: 512 * vp[2] + vp[3]
  }

  lemma BootPagesAre(vp: Path)
    requires IsPage(vp)
    ensures vp in BootPages() <==> vp[0] == 0 && vp[1] == 0
  {
    if vp[0] == 0 && vp[1] == 0 {
      assert vp == [0, 0, vp[2], vp[3]];
    }
  }

  lemma BootTree(m: Mem)
    requires BootEntries(m)
    ensures Tree(m, BOOT_TABLES)
  {
    var at := BOOT_TABLES;
    forall p: Path, i: nat
      ensures ChildOk(m, at, p, i)
    {
      if p in at && i < 512 {
        assert p == [] ==> p + [0] == [0];
        assert p == [0] ==> p + [0] == [0, 0];
      }
    }
    forall q: Path
      ensures ParentOk(m, at, q)
    {
      assert q == [0] ==> q[..0] == [];
      assert q == [0, 0] ==> q[..1] == [0];
    }
  }

  lemma BootRefines(m: Mem)
    requires BootEntries(m)
    ensures forall vp :: IsPage(vp) ==>
              Walk(m, 1, vp, 0) == if vp in BootMeaning() then Some(BootMeaning()[vp]) else None
  {
    forall vp | IsPage(vp)
      ensures Walk(m, 1, vp, 0) == if vp in BootMeaning() then Some(BootMeaning()[vp]) else None
    {
      BootWalk(m, vp);
      BootPagesAre(vp);
    }
  }

  /** Boot tables in memory, and the sizes pmm_init is given: at least the tables, at most 2^52 bytes,
      all of it there. */
  ghost predicate Booted(m: Mem, totalMemory: nat) {
    && BootEntries(m) && 0x4000 <= totalMemory <= 0x10_0000_0000_0000
    && 512 * (totalMemory / PAGE_SIZE) <= |m|
  }

  /** kMain after pmm_init and vmm_init. */
  ghost function KernelStart(m: Mem, totalMemory: nat): VmState {
    VmState(Sys(m, BOOT_TABLES, InitState(totalMemory, 0)), {})
  }

  /** Pages taken at that moment other than the three tables. */
  ghost function ReservedPages(totalMemory: nat): set<nat> {
    Reserved(totalMemory / PAGE_SIZE) - {1, 2, 3}
  }

  /** It satisfies the invariant: the boot tables lie in the reserved low megabyte. */
  lemma KernelStartIsConserved(m: Mem, totalMemory: nat)
    requires Booted(m, totalMemory)
    ensures Conserved(KernelStart(m, totalMemory), ReservedPages(totalMemory))
    ensures Refines(KernelStart(m, totalMemory).sys, BootMeaning())
  {
    var s := KernelStart(m, totalMemory).sys;
    BootTree(m);
    BootRefines(m);
    forall q: Path
      ensures TakenOk(s.at, s.pmm, q)
    {
      assert q in s.at ==> s.at[q] in Below(s.pmm.total);
    }
    FramesTaken(s);
    assert Frames(s.at) == {1, 2, 3} by {
      assert s.at[[]] == 1 && s.at[[0]] == 2 && s.at[[0, 0]] == 3;
    }
  }

  // ---------------------------------------------------------------- every run of the kernel

  ghost predicate KernelRun(m: Mem, totalMemory: nat, ops: seq<VmOp>)
    requires Booted(m, totalMemory)
  {
    KernelStartIsConserved(m, totalMemory);
    LegalRun(KernelStart(m, totalMemory), ops, ReservedPages(totalMemory))
  }

  ghost function KernelEnd(m: Mem, totalMemory: nat, ops: seq<VmOp>): VmState
    requires Booted(m, totalMemory) && KernelRun(m, totalMemory, ops)
  {
    KernelStartIsConserved(m, totalMemory);
    Run(KernelStart(m, totalMemory), ops, ReservedPages(totalMemory))
  }

  /** The boot tables' frames and the large pages, in a state that may have more tables. */
  ghost predicate BootKept(e: Sys) {
    && Inv(e) && Root(e) == 1 && [0] in e.at && e.at[[0]] == 2 && [0, 0] in e.at && e.at[[0, 0]] == 3
    && forall j :: 0 <= j < 512 ==> Entry(e.m, 3, j) == Present(true, 512 * j)
  }

  lemma EveryRunKeepsBoot(m: Mem, totalMemory: nat, ops: seq<VmOp>)
    requires Booted(m, totalMemory) && KernelRun(m, totalMemory, ops)
    ensures BootKept(KernelEnd(m, totalMemory, ops).sys)
  {
    var s, e := KernelStart(m, totalMemory).sys, KernelEnd(m, totalMemory, ops).sys;
    KernelStartIsConserved(m, totalMemory);
    EveryRunRefines(KernelStart(m, totalMemory), BootMeaning(), ops, ReservedPages(totalMemory));
    KeptEntriesKeepBoot(m, s, e);
  }

  lemma KeptEntriesKeepBoot(m: Mem, s: Sys, e: Sys)
    requires BootEntries(m) && s.m == m && s.at == BOOT_TABLES
    requires KeepsEntries(s, e) && Inv(e) && Root(e) == 1
    ensures BootKept(e)
  {
    assert s.at[[]] == 1 && s.at[[0]] == 2 && s.at[[0, 0]] == 3;
    assert Entry(s.m, s.at[[]], 0).Present?;
    assert [] + [0] == [0] && ChildOk(e.m, e.at, [], 0);
    assert Entry(s.m, s.at[[0]], 0).Present?;
    assert [0] + [0] == [0, 0] && ChildOk(e.m, e.at, [0], 0);
    forall j | 0 <= j < 512
      ensures Entry(e.m, 3, j) == Present(true, 512 * j)
    {
      assert Entry(s.m, s.at[[0, 0]], j).Present?;
    }
  }

  /** A page of the first gigabyte lies in the large page its PD index says. */
  lemma BootPageIsLarge(e: Sys, w: Path)
    requires BootKept(e) && IsPage(w) && w[0] == 0 && w[1] == 0
    ensures InLargePage(e, w) && LargeFrame(e, w) == 512 * w[2]
    ensures Walk(e.m, Root(e), w, 0) == Some(512 * w[2] + w[3])
  {
    assert w[..2] == [0, 0];
    WalkReaches(e.m, e.at, w, 2);
  }

  lemma NoTableBelowLarge(e: Sys, q: Path)
    requires BootKept(e) && q in e.at && |q| == 3
    ensures q[..2] != [0, 0]
  {
    assert ParentOk(e.m, e.at, q);
  }

  /** No table but frames 1, 2 and 3 is on the way to such a page. */
  lemma BootPath(e: Sys, q: Path, w: Path)
    requires BootKept(e) && q in e.at && IsPage(w) && w[0] == 0 && w[1] == 0 && q <= w
    ensures e.at[q] == 1 || e.at[q] == 2 || e.at[q] == 3
  {
    assert TableOk(e.m, e.at, q);
    assert |q| == 3 ==> q[..2] == [0, 0];
    if |q| == 3 { NoTableBelowLarge(e, q); }
    assert |q| == 1 ==> q == [0];
    assert |q| == 2 ==> q == [0, 0];
  }

  /** So a store into a large page never changes how the first gigabyte translates. */
  lemma StoreKeepsBootPages(e: Sys, f: nat, i: nat, x: Pte, w: Path)
    requires BootKept(e) && (f == 0 || f > 3) && i < 512
    requires IsPage(w) && w[0] == 0 && w[1] == 0
    ensures Walk(Write(e.m, f, i, x), 1, w, 0) == Some(512 * w[2] + w[3])
  {
    BootPageIsLarge(e, w);
    EveryStoreIsSeen(e, f, i, x);
    if f in Frames(e.at) {
      var q :| q in e.at && e.at[q] == f;
      assert TableOk(e.m, e.at, q);
      if q + [i] <= w {
        assert q <= w;
        BootPath(e, q, w);
      }
    }
  }

  lemma StoreThenRead(e: Sys, f: nat, x: Pte, w: Path)
    requires BootKept(e) && (f == 0 || f > 3)
    requires IsPage(w) && w[0] == 0 && w[1] == 0 && f == 512 * w[2]
    ensures var n := Write(e.m, f, w[3], x);
            SoftWalk(n, 1, w, 0) == if 512 * f + w[3] < |n| && x.Present? then Some(x.frame) else None
  {
    var n := Write(e.m, f, w[3], x);
    assert ParentOk(e.m, e.at, [0]) && [0][..0] == [];
    assert ParentOk(e.m, e.at, [0, 0]) && [0, 0][..1] == [0];
    assert Entry(n, 3, w[2]) == Entry(e.m, 3, w[2]) == Present(true, f);
    assert SoftWalk(n, 1, w, 0) == SoftWalk(n, 2, w, 1) == SoftWalk(n, 3, w, 2) == SoftWalk(n, f, w, 3);
  }

  /** The first gigabyte translates to itself. */
  ghost predicate IdentityKept(m: Mem) {
    forall w :: IsPage(w) && w[0] == 0 && w[1] == 0 ==> Walk(m, 1, w, 0) == Some(512 * w[2] + w[3])
  }

  lemma StoreKeepsIdentity(e: Sys, f: nat, i: nat, x: Pte)
    requires BootKept(e) && (f == 0 || f > 3) && i < 512
    ensures IdentityKept(Write(e.m, f, i, x))
  {
    forall w | IsPage(w) && w[0] == 0 && w[1] == 0
      ensures Walk(Write(e.m, f, i, x), 1, w, 0) == Some(512 * w[2] + w[3])
    {
      StoreKeepsBootPages(e, f, i, x, w);
    }
  }

  lemma BootKeepsIdentity(e: Sys)
    requires BootKept(e)
    ensures IdentityKept(e.m)
  {
    forall w | IsPage(w) && w[0] == 0 && w[1] == 0
      ensures Walk(e.m, 1, w, 0) == Some(512 * w[2] + w[3])
    {
      BootPageIsLarge(e, w);
    }
  }

  /** vmm_map_page on a page of the first gigabyte: false and no store in the first 2 MB, else one store
      into the large page. */
  lemma MapOnBootPage(e: Sys, vp: Path, leaf: Pte)
    requires BootKept(e) && IsPage(vp) && vp[0] == 0 && vp[1] == 0
    ensures var f := 512 * vp[2];
            var (t, ok) := RawMap(Raw(e.m, e.pmm), 1, vp, 0, leaf);
            && (ok <==> vp[2] != 0)
            && t == Raw(if ok then Write(e.m, f, vp[3], leaf) else e.m, e.pmm)
            && IdentityKept(t.m) && StoreSeen(e, f, vp[3], leaf)
            && (ok && leaf.Present? && 512 * f + vp[3] < |e.m| ==> SoftWalk(t.m, 1, vp, 0) == Some(leaf.frame))
  {
    BootPageIsLarge(e, vp);
    MapThroughLargePage(e, vp, leaf);
    if vp[2] != 0 {
      StoreKeepsIdentity(e, 512 * vp[2], vp[3], leaf);
      StoreThenRead(e, 512 * vp[2], leaf, vp);
    } else {
      BootKeepsIdentity(e);
    }
  }

  /** vmm_unmap_page there: one word of the large page is cleared, of frame 0 in the first 2 MB. */
  lemma UnmapOnBootPage(e: Sys, vp: Path)
    requires BootKept(e) && IsPage(vp) && vp[0] == 0 && vp[1] == 0
    ensures var n := RawUnmap(e.m, 1, vp, 0);
            && n == Write(e.m, 512 * vp[2], vp[3], Absent)
            && IdentityKept(n) && StoreSeen(e, 512 * vp[2], vp[3], Absent)
            && SoftWalk(n, 1, vp, 0) == None
  {
    BootPageIsLarge(e, vp);
    UnmapThroughLargePage(e, vp);
    StoreKeepsIdentity(e, 512 * vp[2], vp[3], Absent);
    StoreThenRead(e, 512 * vp[2], Absent, vp);
  }

  /** By address, in every state a legal run reaches: vmm_map_page below 2^30 reports success from 2 MB on
      and fails below, where the large page's frame 0 reads as NULL. A success has stored the entry into
      the large page, where vmm_get_physical finds it. The processor goes on translating the first gigabyte
      to itself; elsewhere only pages below the slot change, if the large page's first frame is a table. */
  lemma BootMapSucceedsIff(m: Mem, totalMemory: nat, ops: seq<VmOp>, virt: nat, leaf: Pte)
    requires Booted(m, totalMemory) && KernelRun(m, totalMemory, ops) && virt < 0x4000_0000
    ensures var e, i, f := KernelEnd(m, totalMemory, ops).sys, PtIndex(virt), 512 * (virt / 0x20_0000);
            var (t, ok) := RawMap(Raw(e.m, e.pmm), 1, PageOf(virt), 0, leaf);
            && [] in e.at && Root(e) == 1
            && (ok <==> virt >= 0x20_0000)
            && t == Raw(if ok then Write(e.m, f, i, leaf) else e.m, e.pmm)
            && IdentityKept(t.m) && (ok ==> StoreSeen(e, f, i, leaf))
            && (ok && leaf.Present? && 512 * f + i < |e.m| ==> SoftWalk(t.m, 1, PageOf(virt), 0) == Some(leaf.frame))
  {
    EveryRunKeepsBoot(m, totalMemory, ops);
    FirstGigabyte(virt);
    MapOnBootPage(KernelEnd(m, totalMemory, ops).sys, PageOf(virt), leaf);
  }

  /** vmm_unmap_page there has no NULL test: it clears one word of the large page, in the first 2 MB one
      of frame 0. The processor goes on translating the first gigabyte; if the large page's first frame
      is a table, the pages below the slot are lost. */
  lemma BootUnmapClears(m: Mem, totalMemory: nat, ops: seq<VmOp>, virt: nat)
    requires Booted(m, totalMemory) && KernelRun(m, totalMemory, ops) && virt < 0x4000_0000
    ensures var e, i, f := KernelEnd(m, totalMemory, ops).sys, PtIndex(virt), 512 * (virt / 0x20_0000);
            var n := RawUnmap(e.m, 1, PageOf(virt), 0);
            && [] in e.at && Root(e) == 1
            && n == Write(e.m, f, i, Absent)
            && IdentityKept(n) && StoreSeen(e, f, i, Absent)
            && SoftWalk(n, 1, PageOf(virt), 0) == None
  {
    EveryRunKeepsBoot(m, totalMemory, ops);
    FirstGigabyte(virt);
    UnmapOnBootPage(KernelEnd(m, totalMemory, ops).sys, PageOf(virt));
  }

  /** Whatever the kernel legally maps, unmaps, allocates, frees and stores, the identity map of the
      first gigabyte that it runs from stays in force for the processor. */
  lemma IdentitySurvivesEveryRun(m: Mem, totalMemory: nat, ops: seq<VmOp>, virt: nat)
    requires Booted(m, totalMemory) && KernelRun(m, totalMemory, ops)
    requires virt < 0x4000_0000
    ensures var e := KernelEnd(m, totalMemory, ops).sys;
            [] in e.at && Walk(e.m, Root(e), PageOf(virt), 0) == Some(virt / 4096)
  {
    EveryRunKeepsBoot(m, totalMemory, ops);
    FirstGigabyte(virt);
    BootPageIsLarge(KernelEnd(m, totalMemory, ops).sys, PageOf(virt));
  }

  /** No table write and no client's store reaches a page that stores a byte of the allocator's bitmap:
      after any legal run memory has the words it had there (the bits that pmm_alloc_page and pmm_free_page
      change are kept apart, in Pmm), and the page is taken, no table, and held by no client. */
  lemma BitmapStaysUntouched(m: Mem, totalMemory: nat, ops: seq<VmOp>, k: nat, i: nat)
    requires Booted(m, totalMemory) && KernelRun(m, totalMemory, ops)
    requires k < BitmapSize(totalMemory / PAGE_SIZE) && BitmapBytePage(k) < totalMemory / PAGE_SIZE && i < 512
    ensures var e, p := KernelEnd(m, totalMemory, ops), BitmapBytePage(k);
            && Entry(e.sys.m, p, i) == Entry(m, p, i)
            && p in e.sys.pmm.taken && p !in Frames(e.sys.at) && p !in e.held
  {
    var v, reserved := KernelStart(m, totalMemory), ReservedPages(totalMemory);
    KernelStartIsConserved(m, totalMemory);
    BitmapByteReserved(totalMemory / PAGE_SIZE, k);
    assert BitmapBytePage(k) in reserved;
    EveryRunKeepsBitmap(v, ops, reserved, BitmapBytePage(k), i);
  }

  // ---------------------------------------------------------------- a run after which it does harm

  /** n calls of pmm_alloc_page. */
  ghost function Takes(n: nat): seq<VmOp> { if n == 0 then [] else [Take] + Takes(n - 1) }

  /** From a state where exactly the pages below p are taken, they take the next n. */
  lemma {:induction false} TakesRun(v: VmState, reserved: set<nat>, p: nat, n: nat)
    requires Conserved(v, reserved) && v.sys.pmm.taken == Below(p) && 0 < p && p + n <= v.sys.pmm.total
    ensures LegalRun(v, Takes(n), reserved)
    ensures var u := Run(v, Takes(n), reserved).sys;
            && u.m == v.sys.m && u.at == v.sys.at
            && u.pmm.taken == Below(p + n) && u.pmm.total == v.sys.pmm.total
    decreases n
  {
    if n > 0 {
      NextFreeIs(v.sys.pmm.taken, p, v.sys.pmm.total);
      StepConserves(v, Take, reserved);
      assert Below(p) + {p} == Below(p + 1);
      assert Takes(n)[0] == Take && Takes(n)[1..] == Takes(n - 1);
      TakesRun(Step(v, Take).0, reserved, p + 1, n - 1);
    }
  }

  /** A page of the second gigabyte. */
  ghost predicate IsHigh(w: Path) { IsPage(w) && w[0] == 0 && w[1] == 1 }

  /** The page of the first gigabyte in the k-th large page whose last index is the slot of w in its PD. */
  ghost function LowPage(k: nat, w: Path): Path
    requires IsPage(w)
  {
    [0, 0, k, w[2]]
  }

  /** n allocations, then w is mapped to frame 7. From page 384 on, n of them reach frame 512 * k when
      n + 384 is that; for k = 1 that is 128. */
  ghost function HarmfulRun(n: nat, w: Path): seq<VmOp> { Takes(n) + [Map(w, Present(false, 7))] }

  /** Mapping a page of the second gigabyte links the next free page as its PD. */
  lemma MapLinksNextFree(s: Sys, f: nat, w: Path, leaf: Pte)
    requires Inv(s) && BootEntries(s.m) && s.at == BOOT_TABLES && IsHigh(w)
    requires s.pmm.taken == Below(f) && 0 < f < s.pmm.total
    requires !MeetsHuge(s.m, Root(s), w, 0)
    ensures var t := MapPage(s, w, leaf).0; [0, 1] in t.at && t.at[[0, 1]] == f
  {
    assert w[..0] == [] && w[..1] == [0] && w[..2] == [0, 1];
    MapUnfold(s, w, 0, leaf);
    MapUnfold(s, w, 1, leaf);
    NextFreeIs(s.pmm.taken, f, s.pmm.total);
    var t := GetOrCreate(s, [0], 1).0;
    assert t.at[[0, 1]] == f;
    MapLosesNoPage(t, w, 2, leaf);
  }

  lemma MapHighPage(s: Sys, f: nat, w: Path, leaf: Pte)
    requires Inv(s) && BootEntries(s.m) && s.at == BOOT_TABLES && IsHigh(w) && leaf.Present?
    requires s.pmm.taken == Below(f) && 0 < f && f + 3 <= s.pmm.total
    ensures Root(s) == 1 && !MeetsHuge(s.m, 1, w, 0)
    ensures var (t, ok) := MapPage(s, w, leaf);
            && [0, 1] in t.at && t.at[[0, 1]] == f
            && [] in t.at && Root(t) == 1 && Walk(t.m, 1, w, 0) == Some(leaf.frame)
  {
    BootWalk(s.m, w);
    assert w[..0] == [];
    MapTranslation(s, w, 0, leaf);
    EnoughFree(s, f, w);
    MapSucceedsIff(s, w, 0, leaf);
    MapLinksNextFree(s, f, w, leaf);
  }

  lemma EnoughFree(s: Sys, f: nat, vp: Path)
    requires s.pmm.taken == Below(f) && f + 3 <= s.pmm.total && |vp| == 4
    ensures FreeCount(s) >= 3 >= Missing(s.at, vp, 0)
  {
    SubsetSize({f, f + 1, f + 2}, Below(s.pmm.total) - s.pmm.taken);
    assert Missing(s.at, vp, 3) == 0;
    assert Missing(s.at, vp, 2) <= 1;
    assert Missing(s.at, vp, 1) <= 2;
  }

  /** From the 4 GB the kernel assumes up to 8 GB. */
  predicate MidSize(totalMemory: nat) { 0x1_0000_0000 <= totalMemory <= 0x2_0000_0000 }

  lemma FirstFreeIs384(totalMemory: nat)
    requires MidSize(totalMemory)
    ensures 0x10_0000 <= totalMemory / PAGE_SIZE && Reserved(totalMemory / PAGE_SIZE) == Below(384)
  {
    ReservedIsPrefix(totalMemory / PAGE_SIZE);
  }

  lemma KernelTakes(m: Mem, totalMemory: nat, n: nat)
    requires Booted(m, totalMemory) && MidSize(totalMemory) && 384 + n <= totalMemory / PAGE_SIZE
    ensures KernelRun(m, totalMemory, Takes(n))
    ensures var u := KernelEnd(m, totalMemory, Takes(n)).sys;
            u.m == m && u.at == BOOT_TABLES && u.pmm.taken == Below(384 + n) && u.pmm.total == totalMemory / PAGE_SIZE
  {
    var v := KernelStart(m, totalMemory);
    KernelStartIsConserved(m, totalMemory);
    FirstFreeIs384(totalMemory);
    assert v.sys.pmm.taken == Below(384);
    TakesRun(v, ReservedPages(totalMemory), 384, n);
  }

  /** A run of the kernel, continued by one operation. */
  lemma KernelRunThen(m: Mem, totalMemory: nat, ops: seq<VmOp>, op: VmOp)
    requires Booted(m, totalMemory) && KernelRun(m, totalMemory, ops)
    requires Inv(KernelEnd(m, totalMemory, ops).sys) && Legal(KernelEnd(m, totalMemory, ops), op)
    ensures KernelRun(m, totalMemory, ops + [op])
    ensures KernelEnd(m, totalMemory, ops + [op]) == Step(KernelEnd(m, totalMemory, ops), op).0
  {
    var reserved, u := ReservedPages(totalMemory), KernelEnd(m, totalMemory, ops);
    KernelStartIsConserved(m, totalMemory);
    RunUnfold(u, [op], reserved);
    RunAppend(KernelStart(m, totalMemory), ops, [op], reserved);
  }

  /** That run is legal, and leaves the k-th large page's first frame the PD of w. */
  lemma HarmfulRunIsLegal(m: Mem, totalMemory: nat, n: nat, k: nat, w: Path)
    requires Booted(m, totalMemory) && MidSize(totalMemory) && n + 384 == 512 * k && k < 512 && IsHigh(w)
    ensures KernelRun(m, totalMemory, HarmfulRun(n, w))
    ensures var e := KernelEnd(m, totalMemory, HarmfulRun(n, w)).sys;
            && [0, 1] in e.at && e.at[[0, 1]] == 512 * k
            && Walk(e.m, 1, w, 0) == Some(7)
  {
    FirstFreeIs384(totalMemory);
    KernelTakes(m, totalMemory, n);
    KernelMapsHigh(m, totalMemory, Takes(n), 512 * k, w, Present(false, 7));
  }

  lemma KernelMapsHigh(m: Mem, totalMemory: nat, ops: seq<VmOp>, f: nat, w: Path, leaf: Pte)
    requires Booted(m, totalMemory) && KernelRun(m, totalMemory, ops) && IsHigh(w) && leaf.Present?
    requires var u := KernelEnd(m, totalMemory, ops).sys;
             u.m == m && u.at == BOOT_TABLES && u.pmm.taken == Below(f) && 0 < f && f + 3 <= u.pmm.total
    ensures KernelRun(m, totalMemory, ops + [Map(w, leaf)])
    ensures var e := KernelEnd(m, totalMemory, ops + [Map(w, leaf)]).sys;
            [0, 1] in e.at && e.at[[0, 1]] == f && Walk(e.m, 1, w, 0) == Some(leaf.frame)
  {
    KernelRunKeepsInv(m, totalMemory, ops);
    MapHighPage(KernelEnd(m, totalMemory, ops).sys, f, w, leaf);
    KernelRunThen(m, totalMemory, ops, Map(w, leaf));
  }

  lemma KernelRunKeepsInv(m: Mem, totalMemory: nat, ops: seq<VmOp>)
    requires Booted(m, totalMemory) && KernelRun(m, totalMemory, ops)
    ensures Inv(KernelEnd(m, totalMemory, ops).sys)
  {}

  /** In that state vmm_unmap_page in the k-th 2 MB takes w away, and vmm_map_page there to 0x3000 makes it
      translate to another frame. */
  lemma LargePageCallsHarmAnother(m: Mem, totalMemory: nat, n: nat, k: nat, w: Path)
    requires Booted(m, totalMemory) && MidSize(totalMemory) && n + 384 == 512 * k && k < 512 && IsHigh(w)
    ensures KernelRun(m, totalMemory, HarmfulRun(n, w))
    ensures var e := KernelEnd(m, totalMemory, HarmfulRun(n, w)).sys;
            var (t, ok) := RawMap(Raw(e.m, e.pmm), 1, LowPage(k, w), 0, Present(false, 3));
            && Walk(e.m, 1, w, 0) == Some(7)
            && Walk(RawUnmap(e.m, 1, LowPage(k, w), 0), 1, w, 0) == None
            && ok && Walk(t.m, 1, w, 0) == Some(512 * w[3])
  {
    HarmfulRunIsLegal(m, totalMemory, n, k, w);
    EveryRunKeepsBoot(m, totalMemory, HarmfulRun(n, w));
    HarmAt(KernelEnd(m, totalMemory, HarmfulRun(n, w)).sys, k, w);
  }

  lemma HarmAt(e: Sys, k: nat, w: Path)
    requires BootKept(e) && 0 < k < 512 && IsHigh(w) && [0, 1] in e.at && e.at[[0, 1]] == 512 * k
    ensures Walk(RawUnmap(e.m, 1, LowPage(k, w), 0), 1, w, 0) == None
    ensures var (t, ok) := RawMap(Raw(e.m, e.pmm), 1, LowPage(k, w), 0, Present(false, 3));
            ok && Walk(t.m, 1, w, 0) == Some(512 * w[3])
  {
    var vp, x := LowPage(k, w), Present(false, 3);
    BootPageIsLarge(e, vp);
    UnmapThroughLargePage(e, vp);
    MapThroughLargePage(e, vp, x);
    assert [0, 1] + [w[2]] <= w;
    ThroughBootTable(e, 512 * k, w);
  }

  lemma ThroughBootTable(e: Sys, f: nat, w: Path)
    requires BootKept(e) && f > 3 && IsPage(w)
    ensures Through(Write(e.m, f, w[2], Present(false, 3)), Present(false, 3), w, 2) == Some(512 * w[3])
  {
    var n := Write(e.m, f, w[2], Present(false, 3));
    assert Entry(n, 3, w[3]) == Entry(e.m, 3, w[3]) == Present(true, 512 * w[3]);
  }
}
