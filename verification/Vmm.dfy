/** kernel/memory/vmm.c on the words of physical memory. Table frames are reached at their physical
    addresses. */
module Vmm {
  import opened Bits
  import opened Entries
  import opened MachineWords
  import opened PageSet
  import opened PageTables
  import opened PageWords
  import opened Pmm

  /** What vmm_get_physical returns: 0 stands for not mapped. */
  ghost function PhysicalOf(m: Mem, root: nat, virt: nat): nat {
    var w := SoftWalk(m, root, PageOf(virt), 0);
    if w.None? then 0 else w.value * 4096 + And(virt, 0xFFF)
  }

  class MemoryManager {
    const mem: array<Word>
    const pmm: PageAllocator
    var pml4: nat
    // The tables of the tree, by name
    ghost var at: Tables

    ghost function State(): Sys
      reads this, mem, pmm, pmm.bitmap
    {
      Sys(View(mem[..]), at, pmm.State())
    }

    /** The same without the names of tables: what the code itself works on. */
    ghost function RawState(): Raw
      reads this, mem, pmm, pmm.bitmap
    {
      Raw(View(mem[..]), pmm.State())
    }

    /** The allocator manages existing memory below 2^52, the bitmap has memory of its own, and CR3
        holds a page address. */
    ghost predicate Ready()
      reads this, pmm
    {
      && pmm.Valid()
      && (mem as object) != (pmm.bitmap as object)
      && 512 * pmm.totalPages <= mem.Length && pmm.totalPages <= 0x100_0000_0000
      && pml4 % 4096 == 0
    }

    /** CR3 holds the root of a separate tree. */
    ghost predicate Valid()
      reads this, mem, pmm, pmm.bitmap
    {
      Ready() && Inv(State()) && pml4 == at[[]] * 4096
    }

    /** In a separate tree, and the walk of vp meets no large page. */
    ghost predicate InTree(vp: Path)
      requires IsPage(vp)
      reads this, mem, pmm, pmm.bitmap
    {
      Valid() && !MeetsHuge(View(mem[..]), at[[]], vp, 0)
    }

    /** vmm_init: the tree is the one in CR3. */
    constructor (memory: array<Word>, allocator: PageAllocator, cr3: nat, ghost tables: Tables)
      requires allocator.Valid() && (memory as object) != (allocator.bitmap as object)
      requires Inv(Sys(View(memory[..]), tables, allocator.State()))
      requires cr3 == tables[[]] * 4096
      ensures Valid() && mem == memory && pmm == allocator && at == tables
    {
      mem, pmm, pml4, at := memory, allocator, cr3, tables;
    }

    /** table[index]; memory that does not exist reads as 0. */
    method Load(table: nat, index: nat, ghost f: nat) returns (e: Word)
      requires table == 4096 * f && index < 512
      ensures Decode(e) == Entry(View(mem[..]), f, index)
    {
      DecodeBits(0);
      e := if table / 8 + index < mem.Length then mem[table / 8 + index] else 0;
    }

    /** table[index] = e; a store to memory that does not exist is lost. */
    method StoreEntry(table: nat, index: nat, e: Word, ghost f: nat)
      requires table == 4096 * f && index < 512
      modifies mem
      ensures mem[..] == StoreWord(old(mem[..]), f, index, e)
    {
      if table / 8 + index < mem.Length {
        mem[table / 8 + index] := e;
      }
      assert mem[..] == StoreWord(old(mem[..]), f, index, e);
    }

    method AllocPageTable() returns (table: nat)
      requires pmm.Valid() && (mem as object) != (pmm.bitmap as object)
      requires 512 * pmm.totalPages <= mem.Length
      modifies mem, pmm, pmm.bitmap
      ensures pmm.Valid()
      ensures (pmm.State(), table) == AllocPage(old(pmm.State()))
      ensures mem[..] == if table == 0 then old(mem[..]) else ZeroWords(old(mem[..]), table / 4096)
    {
      ghost var s := pmm.State();
      var phys := pmm.PmmAllocPage();
      if phys == 0 {
        return 0;
      }
      AllocAligned(s);
      ClearTable(phys);
      table := phys;
    }

    method ClearTable(table: nat)
      requires table % 4096 == 0 && table / 8 + 512 <= mem.Length
      modifies mem
      ensures mem[..] == ZeroWords(old(mem[..]), table / 4096)
    {
      var i := 0;
      while i < 512
        invariant i <= 512
        invariant forall k :: 0 <= k < mem.Length ==>
                    mem[k] == if table / 8 <= k < table / 8 + i then 0 else old(mem[k])
      {
        mem[table / 8 + i] := 0;
        i := i + 1;
      }
      assert mem[..] == ZeroWords(old(mem[..]), table / 4096);
    }

    /** get_or_create_table when the slot is not present. */
    method CreateTable(parent: nat, index: nat, ghost f: nat) returns (table: nat)
      requires Ready() && parent == 4096 * f && index < 512
      requires Entry(View(mem[..]), f, index).Absent?
      modifies mem, pmm, pmm.bitmap
      ensures Ready()
      ensures (pmm.State(), table) == AllocPage(old(pmm.State()))
      ensures mem[..] == WordTable(old(mem[..]), old(pmm.State()), f, index)
    {
      ghost var s := pmm.State();
      table := AllocPageTable();
      if table == 0 {
        return 0;
      }
      AllocAligned(s);
      TableEntryDecodes(table / 4096);
      StoreEntry(parent, index, Or(Or(table, PT_WRITABLE), PT_PRESENT), f);
    }

    /** Entry `index` of the table in frame f, whatever that frame holds; 0 is NULL. */
    method GetOrCreateTable(parent: nat, index: nat, ghost f: nat) returns (table: nat)
      requires Ready() && parent == 4096 * f && index < 512
      modifies mem, pmm, pmm.bitmap
      ensures Ready()
      ensures RawState() == RawTable(old(RawState()), f, index).0
      ensures table == 4096 * RawTable(old(RawState()), f, index).1
      ensures mem[..] == WordTable(old(mem[..]), old(pmm.State()), f, index)
    {
      ghost var r := RawState();
      AllocAligned(r.pmm);
      WordTableDecodes(mem[..], r.pmm, f, index);
      var e := Load(parent, index, f);
      DecodeAddress(e);
      if And(e, PT_PRESENT) != 0 {
        return And(e, PT_ADDR_MASK);
      }
      table := CreateTable(parent, index, f);
    }

    /** vmm_map_page with the four indices and the new entry computed. */
    method MapAt(i4: nat, i3: nat, i2: nat, i1: nat, e: Word, ghost vp: Path) returns (ok: bool)
      requires Ready() && IsPage(vp) && vp[0] == i4 && vp[1] == i3 && vp[2] == i2 && vp[3] == i1
      modifies mem, pmm, pmm.bitmap
      ensures Ready()
      ensures (pmm.State(), ok) == (RawMap(old(RawState()), pml4 / 4096, vp, 0, Decode(e)).0.pmm,
                                    RawMap(old(RawState()), pml4 / 4096, vp, 0, Decode(e)).1)
      ensures mem[..] == WordMap(old(mem[..]), old(pmm.State()), pml4 / 4096, vp, 0, e)
    {
      ghost var leaf, f4 := Decode(e), pml4 / 4096;
      ghost var r4, m4 := RawState(), mem[..];
      var pdpt := GetOrCreateTable(pml4, i4, f4);
      ghost var r3, m3, f3 := RawState(), mem[..], RawTable(r4, f4, i4).1;
      if pdpt == 0 { return false; }
      assert RawMap(r4, f4, vp, 0, leaf) == RawMap(r3, f3, vp, 1, leaf);
      assert WordMap(m4, r4.pmm, f4, vp, 0, e) == WordMap(m3, r3.pmm, f3, vp, 1, e);
      var pd := GetOrCreateTable(pdpt, i3, f3);
      ghost var r2, m2, f2 := RawState(), mem[..], RawTable(r3, f3, i3).1;
      if pd == 0 { return false; }
      assert RawMap(r3, f3, vp, 1, leaf) == RawMap(r2, f2, vp, 2, leaf);
      assert WordMap(m3, r3.pmm, f3, vp, 1, e) == WordMap(m2, r2.pmm, f2, vp, 2, e);
      var pt := GetOrCreateTable(pd, i2, f2);
      ghost var r1, m1, f1 := RawState(), mem[..], RawTable(r2, f2, i2).1;
      if pt == 0 { return false; }
      assert RawMap(r2, f2, vp, 2, leaf) == RawMap(r1, f1, vp, 3, leaf);
      assert WordMap(m2, r2.pmm, f2, vp, 2, e) == WordMap(m1, r1.pmm, f1, vp, 3, e);
      StoreEntry(pt, i1, e, f1);
      return true;
    }

    /** MapAt, keeping the names of tables up to date. */
    method MapNamed(i4: nat, i3: nat, i2: nat, i1: nat, e: Word, ghost vp: Path) returns (ok: bool)
      requires Ready() && IsPage(vp) && vp[0] == i4 && vp[1] == i3 && vp[2] == i2 && vp[3] == i1
      requires Decode(e).Present?
      modifies this`at, mem, pmm, pmm.bitmap
      ensures Ready()
      ensures (RawState(), ok) == RawMap(old(RawState()), pml4 / 4096, vp, 0, Decode(e))
      ensures mem[..] == WordMap(old(mem[..]), old(pmm.State()), pml4 / 4096, vp, 0, e)
      ensures old(InTree(vp)) ==>
                && Valid() && (State(), ok) == MapPage(old(State()), vp, Decode(e))
                && MapWritten(old(State()), State(), old(mem[..]), mem[..], vp, ok, e)
    {
      ghost var s, r, root := State(), RawState(), pml4 / 4096;
      ghost var inTree := InTree(vp);
      assert inTree ==> Root(s) == root;
      WordMapDecodes(mem[..], pmm.State(), root, vp, 0, e);
      if inTree {
        MapWordsInTree(s, mem[..], vp, e);
      }
      ok := MapAt(i4, i3, i2, i1, e, vp);
      if inTree {
        ghost var t := MapInTree(s, vp, Decode(e), r, root, RawState(), ok);
        at := t.at;
      }
    }

    /** For every address. In a separate tree, when the walk of virt meets no large page, that is the
        map of the specification, the tree stays separate, and every word of memory is accounted for. */
    method VmmMapPage(virt: nat, phys: Word, flags: Word) returns (ok: bool)
      requires Ready()
      modifies this`at, mem, pmm, pmm.bitmap
      ensures Ready()
      ensures (RawState(), ok) ==
              RawMap(old(RawState()), pml4 / 4096, PageOf(virt), 0, Decode(LeafEntry(phys, flags)))
      ensures old(InTree(PageOf(virt))) ==>
                && Valid()
                && (State(), ok) == MapPage(old(State()), PageOf(virt), Decode(LeafEntry(phys, flags)))
                && MapWritten(old(State()), State(), old(mem[..]), mem[..], PageOf(virt), ok, LeafEntry(phys, flags))
      ensures mem[..] == WordMap(old(mem[..]), old(pmm.State()), pml4 / 4096, PageOf(virt), 0, LeafEntry(phys, flags))
    {
      LeafEntryDecodes(phys, flags);
      ok := MapNamed(Pml4Index(virt), PdptIndex(virt), PdIndex(virt), PtIndex(virt),
                     Or(Or(And(phys, PT_ADDR_MASK), flags), PT_PRESENT), PageOf(virt));
    }

    method UnmapAt(i4: nat, i3: nat, i2: nat, i1: nat, ghost vp: Path)
      requires pml4 % 4096 == 0 && IsPage(vp) && vp[0] == i4 && vp[1] == i3 && vp[2] == i2 && vp[3] == i1
      modifies mem
      ensures mem[..] == WordUnmap(old(mem[..]), pml4 / 4096, vp, 0)
    {
      ghost var w, m, f4 := mem[..], View(mem[..]), pml4 / 4096;
      var p3, pdpt := Follow(pml4, i4, f4);
      if !p3 { return; }
      ghost var f3 := Entry(m, f4, i4).frame;
      assert WordUnmap(w, f4, vp, 0) == WordUnmap(w, f3, vp, 1);
      var p2, pd := Follow(pdpt, i3, f3);
      if !p2 { return; }
      ghost var f2 := Entry(m, f3, i3).frame;
      assert WordUnmap(w, f3, vp, 1) == WordUnmap(w, f2, vp, 2);
      var p1, pt := Follow(pd, i2, f2);
      if !p1 { return; }
      ghost var f1 := Entry(m, f2, i2).frame;
      assert WordUnmap(w, f2, vp, 2) == WordUnmap(w, f1, vp, 3);
      StoreEntry(pt, i1, 0, f1);
    }

    /** The test of the present bit and the address of the next table. */
    method Follow(table: nat, index: nat, ghost f: nat) returns (present: bool, next: nat)
      requires table == 4096 * f && index < 512
      ensures var e := Entry(View(mem[..]), f, index);
              present == e.Present? && (present ==> next == 4096 * e.frame)
      ensures next <= PT_ADDR_MASK
    {
      var e := Load(table, index, f);
      DecodeAddress(e);
      present := And(e, PT_PRESENT) != 0;
      next := And(e, PT_ADDR_MASK);
    }

    /** For every address; in a separate tree, away from large pages, the unmap of the specification. */
    method VmmUnmapPage(virt: nat)
      requires Ready()
      modifies mem
      ensures Ready()
      ensures mem[..] == WordUnmap(old(mem[..]), pml4 / 4096, PageOf(virt), 0)
      ensures View(mem[..]) == RawUnmap(old(View(mem[..])), pml4 / 4096, PageOf(virt), 0)
      ensures old(InTree(PageOf(virt))) ==>
                && Valid()
                && PageOf(virt)[..0] in old(at) && State() == UnmapFrom(old(State()), PageOf(virt), 0)
                && mem[..] == (if PageOf(virt)[..3] in at
                               then StoreWord(old(mem[..]), at[PageOf(virt)[..3]], PtIndex(virt), 0)
                               else old(mem[..]))
    {
      ghost var s, vp := State(), PageOf(virt);
      ghost var inTree := InTree(vp);
      WordUnmapDecodes(mem[..], pml4 / 4096, vp, 0);
      if inTree {
        UnmapWordsInTree(s, mem[..], vp);
      }
      UnmapAt(Pml4Index(virt), PdptIndex(virt), PdIndex(virt), PtIndex(virt), vp);
      if inTree {
        UnmapInTree(s, vp);
      }
    }

    /** vmm_get_physical down to the entry it ends at. */
    method LookUp(i4: nat, i3: nat, i2: nat, i1: nat, ghost vp: Path, ghost root: nat)
      returns (mapped: bool, base: nat)
      requires IsPage(vp) && vp[0] == i4 && vp[1] == i3 && vp[2] == i2 && vp[3] == i1
      requires pml4 == 4096 * root
      ensures var w := SoftWalk(View(mem[..]), root, vp, 0);
              mapped == w.Some? && (mapped ==> base == 4096 * w.value)
      ensures base <= PT_ADDR_MASK
    {
      ghost var m := View(mem[..]);
      var p3, pdpt := Follow(pml4, i4, root);
      if !p3 { return false, 0; }
      ghost var f3 := Entry(m, root, i4).frame;
      var p2, pd := Follow(pdpt, i3, f3);
      if !p2 { return false, 0; }
      ghost var f2 := Entry(m, f3, i3).frame;
      var p1, pt := Follow(pd, i2, f2);
      if !p1 { return false, 0; }
      ghost var f1 := Entry(m, f2, i2).frame;
      mapped, base := Follow(pt, i1, f1);
      assert SoftWalk(m, f2, vp, 2) == SoftWalk(m, f1, vp, 3);
      assert SoftWalk(m, f3, vp, 1) == SoftWalk(m, f2, vp, 2);
    }

    method VmmGetPhysical(virt: Word) returns (phys: Word)
      requires pml4 % 4096 == 0
      ensures phys == PhysicalOf(View(mem[..]), pml4 / 4096, virt)
    {
      var mapped, base := LookUp(Pml4Index(virt), PdptIndex(virt), PdIndex(virt), PtIndex(virt),
                                 PageOf(virt), pml4 / 4096);
      if !mapped {
        return 0;
      }
      phys := base + And(virt, 0xFFF);
    }

    method VmmIsMapped(virt: Word) returns (mapped: bool)
      requires pml4 % 4096 == 0
      ensures mapped == (PhysicalOf(View(mem[..]), pml4 / 4096, virt) != 0)
    {
      var phys := VmmGetPhysical(virt);
      mapped := phys != 0;
    }
  }

  /** What the code leaves behind is the specification's map, with the names of its tables. */
  lemma MapInTree(s: Sys, vp: Path, leaf: Pte, r: Raw, root: nat, after: Raw, ok: bool) returns (t: Sys)
    requires Inv(s) && IsPage(vp) && !MeetsHuge(s.m, Root(s), vp, 0) && leaf.Present?
    requires r == Raw(s.m, s.pmm) && root == Root(s) && (after, ok) == RawMap(r, root, vp, 0, leaf)
    ensures (t, ok) == MapPage(s, vp, leaf) && t == Sys(after.m, t.at, after.pmm)
    ensures Inv(t) && Root(t) == root
  {
    assert vp[..0] == [];
    MapTranslation(s, vp, 0, leaf);
    RawMapIsMap(s, vp, 0, leaf);
    t := MapPage(s, vp, leaf).0;
  }

  lemma MapWordsInTree(s: Sys, m: seq<Word>, vp: Path, leaf: Word)
    requires Inv(s) && s.m == View(m) && IsPage(vp) && !MeetsHuge(s.m, Root(s), vp, 0)
    ensures SmallPages(s.pmm)
    ensures var (t, ok) := MapPage(s, vp, Decode(leaf));
            MapWritten(s, t, m, WordMap(m, s.pmm, Root(s), vp, 0, leaf), vp, ok, leaf)
  {
    assert vp[..0] == [];
    MapWords(s, m, vp, 0, leaf);
  }

  lemma UnmapWordsInTree(s: Sys, m: seq<Word>, vp: Path)
    requires Inv(s) && s.m == View(m) && IsPage(vp) && !MeetsHuge(s.m, Root(s), vp, 0)
    ensures WordUnmap(m, Root(s), vp, 0) ==
            if vp[..3] in s.at then StoreWord(m, s.at[vp[..3]], vp[3], 0) else m
  {
    assert vp[..0] == [];
    UnmapWords(s, m, vp, 0);
  }

  lemma UnmapInTree(s: Sys, vp: Path)
    requires Inv(s) && IsPage(vp) && !MeetsHuge(s.m, Root(s), vp, 0)
    ensures vp[..0] in s.at
    ensures var t := UnmapFrom(s, vp, 0);
            && Inv(t) && t.at == s.at && t.pmm == s.pmm
            && RawUnmap(s.m, Root(s), vp, 0) == t.m
  {
    assert vp[..0] == [];
    UnmapTranslation(s, vp, 0);
    RawUnmapIsUnmap(s, vp, 0);
  }
}
