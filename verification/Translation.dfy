/** What callers of kernel/memory/vmm.c see: addresses in, addresses out. */
module Translation {
  import opened Bits
  import opened Entries
  import opened MachineWords
  import opened PageTables
  import opened VmLaws
  import opened Vmm

  /** vmm_is_mapped reports every translated address as mapped but one: physical address 0, which
      is also the failure value. */
  lemma IsMappedIff(m: Mem, root: nat, virt: nat)
    ensures PhysicalOf(m, root, virt) != 0 <==>
            var w := SoftWalk(m, root, PageOf(virt), 0);
            w.Some? && !(w.value == 0 && And(virt, 0xFFF) == 0)
  {}

  /** After a successful vmm_map_page, vmm_get_physical returns the address bits of phys | flags plus
      the page offset. That is the address asked for exactly when flags adds no address bit. */
  lemma MapThenGetPhysical(s: Sys, virt: nat, phys: Word, flags: Word)
    requires Inv(s) && !MeetsHuge(s.m, Root(s), PageOf(virt), 0)
    requires MapPage(s, PageOf(virt), Decode(LeafEntry(phys, flags))).1
    ensures var t := MapPage(s, PageOf(virt), Decode(LeafEntry(phys, flags))).0;
            && [] in t.at
            && PhysicalOf(t.m, Root(t), virt) == And(Or(phys, flags), PT_ADDR_MASK) + And(virt, 0xFFF)
            && (PhysicalOf(t.m, Root(t), virt) == And(phys, PT_ADDR_MASK) + And(virt, 0xFFF) <==>
                And(Field(phys), Field(flags)) == Field(flags))
  {
    LeafEntryDecodes(phys, flags);
    MapWalks(s, PageOf(virt), Decode(LeafEntry(phys, flags)), PageOf(virt));
    AddressMask(Or(phys, flags));
    AddressMask(phys);
    LeafFrameIff(phys, flags);
  }

  /** An address that differs from virt somewhere in bits 47..12 keeps what vmm_get_physical returns,
      and when the map fails every address does. */
  lemma MapKeepsOthers(s: Sys, virt: nat, phys: Word, flags: Word, other: nat)
    requires Inv(s) && !MeetsHuge(s.m, Root(s), PageOf(virt), 0)
    requires !MeetsHuge(s.m, Root(s), PageOf(other), 0)
    ensures var (t, ok) := MapPage(s, PageOf(virt), Decode(LeafEntry(phys, flags)));
            && [] in t.at
            && (!ok || And(Shr(virt, 12), Ones(36)) != And(Shr(other, 12), Ones(36)) ==>
                  PhysicalOf(t.m, Root(t), other) == PhysicalOf(s.m, Root(s), other))
  {
    LeafEntryDecodes(phys, flags);
    MapKeepsOther(s, virt, Decode(LeafEntry(phys, flags)), other);
  }

  lemma MapKeepsOther(s: Sys, virt: nat, leaf: Pte, other: nat)
    requires Inv(s) && leaf.Present?
    requires !MeetsHuge(s.m, Root(s), PageOf(virt), 0) && !MeetsHuge(s.m, Root(s), PageOf(other), 0)
    ensures var (t, ok) := MapPage(s, PageOf(virt), leaf);
            && [] in t.at
            && (!ok || And(Shr(virt, 12), Ones(36)) != And(Shr(other, 12), Ones(36)) ==>
                  PhysicalOf(t.m, Root(t), other) == PhysicalOf(s.m, Root(s), other))
  {
    SamePageIff(virt, other);
    MapWalks(s, PageOf(virt), leaf, PageOf(other));
  }

  lemma MapWalks(s: Sys, vp: Path, leaf: Pte, w: Path)
    requires Inv(s) && IsPage(vp) && IsPage(w) && leaf.Present?
    requires !MeetsHuge(s.m, Root(s), vp, 0) && !MeetsHuge(s.m, Root(s), w, 0)
    ensures var (t, ok) := MapPage(s, vp, leaf);
            && [] in t.at
            && SoftWalk(t.m, Root(t), w, 0) == if ok && w == vp then Some(leaf.frame) else SoftWalk(s.m, Root(s), w, 0)
  {
    assert vp[..0] == [];
    MapTranslation(s, vp, 0, leaf);
    var t := MapPage(s, vp, leaf).0;
    SoftWalkIsWalk(s.m, Root(s), w, 0);
    SoftWalkIsWalk(t.m, Root(t), w, 0);
  }

  /** vmm_unmap_page makes vmm_get_physical return 0 for the whole page and changes no other page. */
  lemma UnmapThenGetPhysical(s: Sys, virt: nat, other: nat)
    requires Inv(s) && !MeetsHuge(s.m, Root(s), PageOf(virt), 0)
    requires !MeetsHuge(s.m, Root(s), PageOf(other), 0)
    ensures PageOf(virt)[..0] in s.at
    ensures var t := UnmapFrom(s, PageOf(virt), 0);
            && [] in t.at
            && PhysicalOf(t.m, Root(t), other) ==
               if And(Shr(virt, 12), Ones(36)) == And(Shr(other, 12), Ones(36)) then 0
               else PhysicalOf(s.m, Root(s), other)
  {
    SamePageIff(virt, other);
    UnmapWalks(s, PageOf(virt), PageOf(other));
  }

  lemma UnmapWalks(s: Sys, vp: Path, w: Path)
    requires Inv(s) && IsPage(vp) && IsPage(w)
    requires !MeetsHuge(s.m, Root(s), vp, 0) && !MeetsHuge(s.m, Root(s), w, 0)
    ensures vp[..0] in s.at
    ensures var t := UnmapFrom(s, vp, 0);
            && [] in t.at
            && SoftWalk(t.m, Root(t), w, 0) == if w == vp then None else SoftWalk(s.m, Root(s), w, 0)
  {
    assert vp[..0] == [];
    UnmapTranslation(s, vp, 0);
    var t := UnmapFrom(s, vp, 0);
    SoftWalkIsWalk(s.m, Root(s), w, 0);
    SoftWalkIsWalk(t.m, Root(t), w, 0);
  }

  /** What vmm_get_physical answers after any legal run, for an address that was not in a large page. */
  lemma EveryRunGetPhysical(v: VmState, meaning: Meaning, ops: seq<VmOp>, reserved: set<nat>, virt: nat)
    requires Conserved(v, reserved) && LegalRun(v, ops, reserved) && Refines(v.sys, meaning)
    requires !MeetsHuge(v.sys.m, Root(v.sys), PageOf(virt), 0)
    ensures var e, d := Run(v, ops, reserved).sys, Denote(v, meaning, ops, reserved);
            PhysicalOf(e.m, Root(e), virt) ==
            if PageOf(virt) in d then d[PageOf(virt)] * 4096 + And(virt, 0xFFF) else 0
  {
    EveryRunSoftWalk(v, meaning, ops, reserved, PageOf(virt));
  }
}
