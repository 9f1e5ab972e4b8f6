/** Page-table entries and virtual addresses as 64-bit words (kernel/memory/vmm.c:5-10). */
module Entries {
  import opened Bits
  import opened MachineWords
  import opened PageTables

  const PT_ADDR_MASK: nat := 0x000F_FFFF_FFFF_F000
  const PT_PRESENT: nat := 1
  const PT_WRITABLE: nat := 2
  const PT_SIZE: nat := 0x80

  function Pml4Index(addr: nat): nat { And(Shr(addr, 39), 0x1FF) }
  function PdptIndex(addr: nat): nat { And(Shr(addr, 30), 0x1FF) }
  function PdIndex(addr: nat): nat { And(Shr(addr, 21), 0x1FF) }
  function PtIndex(addr: nat): nat { And(Shr(addr, 12), 0x1FF) }

  /** The virtual page of an address: its four table indices. */
  ghost function PageOf(virt: nat): (vp: Path)
    ensures IsPage(vp)
  {
    [Pml4Index(virt), PdptIndex(virt), PdIndex(virt), PtIndex(virt)]
  }

  /** Two addresses have the same four indices exactly when they agree in bits 47..12. */
  lemma SamePageIff(v: nat, w: nat)
    ensures PageOf(v) == PageOf(w) <==> And(Shr(v, 12), Ones(36)) == And(Shr(w, 12), Ones(36))
  {
    LowMask(Shr(v, 12), 36);
    LowMask(Shr(w, 12), 36);
    FourFields(Shr(v, 12), Shr(w, 12));
    Indices(v);
    Indices(w);
  }

  lemma FourFields(x: nat, y: nat)
    ensures Low(x, 36) == Low(y, 36) <==>
            && Low(x, 9) == Low(y, 9) && Low(Shr(x, 9), 9) == Low(Shr(y, 9), 9)
            && Low(Shr(x, 18), 9) == Low(Shr(y, 18), 9) && Low(Shr(x, 27), 9) == Low(Shr(y, 27), 9)
  {
    LowAgrees(x, y, 9, 27);
    LowAgrees(Shr(x, 9), Shr(y, 9), 9, 18);
    LowAgrees(Shr(x, 18), Shr(y, 18), 9, 9);
    ShrShr(x, 9, 9);
    ShrShr(y, 9, 9);
    ShrShr(x, 18, 9);
    ShrShr(y, 18, 9);
  }

  lemma Indices(v: nat)
    ensures var x := Shr(v, 12);
            PageOf(v) == [Low(Shr(x, 27), 9), Low(Shr(x, 18), 9), Low(Shr(x, 9), 9), Low(x, 9)]
  {
    assert Ones(9) == 0x1FF;
    ShrShr(v, 12, 9);
    ShrShr(v, 12, 18);
    ShrShr(v, 12, 27);
    LowMask(Shr(v, 12), 9);
    LowMask(Shr(v, 21), 9);
    LowMask(Shr(v, 30), 9);
    LowMask(Shr(v, 39), 9);
  }

  ghost function Decode(w: nat): Pte {
    if And(w, PT_PRESENT) == 0 then Absent
    else Present(And(w, PT_SIZE) != 0, And(w, PT_ADDR_MASK) / 4096)
  }

  /** Bits 51..12, moved down. */
  ghost function Field(w: nat): nat { Low(Shr(w, 12), 40) }

  lemma AddressMask(w: nat)
    ensures And(w, PT_ADDR_MASK) == 4096 * Field(w)
    ensures Field(w) < 0x100_0000_0000
  {
    MaskValue();
    MaskedField(w, 12, 40);
    Powers();
  }

  lemma MaskValue()
    ensures Shl(Ones(40), 12) == PT_ADDR_MASK
  {
    Powers();
    OnesIsPow2(40);
    ShlIsMul(Ones(40), 12);
  }

  lemma MaskKeepsField(w: nat)
    ensures And(w, PT_ADDR_MASK) == Shl(Field(w), 12)
  {
    MaskValue();
    FieldMask(w, 12, 40);
  }

  lemma MaskedField(w: nat, j: nat, k: nat)
    ensures And(w, Shl(Ones(k), j)) == Low(Shr(w, j), k) * Pow2(j)
    ensures Low(Shr(w, j), k) < Pow2(k)
  {
    FieldMask(w, j, k);
    ShlIsMul(Low(Shr(w, j), k), j);
    ShrLowSplit(Shr(w, j), k);
  }

  /** The address field of a page-aligned address with low bits added. */
  lemma FieldOfPage(p: nat, low: nat)
    requires p < 0x100_0000_0000 && low < 4096
    ensures Field(Or(4096 * p, low)) == p
  {
    Powers();
    ShlIsMul(p, 12);
    FieldOfShl(p, low, 12, 40);
  }

  lemma FieldOfShl(p: nat, low: nat, j: nat, k: nat)
    requires p < Pow2(k) && low < Pow2(j)
    ensures Low(Shr(Or(Shl(p, j), low), j), k) == p
  {
    OrShr(Shl(p, j), low, j);
    ShrOfShl(p, j);
    LowOfSmall(low, j);
    LowOfSmall(p, k);
    assert Or(p, 0) == p;
  }

  lemma DecodeBits(w: nat)
    ensures Decode(w) == if Bit(w, 0) then Present(Bit(w, 7), Field(w)) else Absent
  {
    assert Pow2(0) == PT_PRESENT;
    assert Pow2(7) == PT_SIZE;
    NonzeroHasBit(w, 0);
    NonzeroHasBit(w, 7);
    AddressMask(w);
  }

  /** What the code reads off an entry: the present bit, and the address it points to. */
  lemma DecodeAddress(w: nat)
    ensures And(w, PT_PRESENT) != 0 <==> Decode(w).Present?
    ensures Decode(w).Present? ==> And(w, PT_ADDR_MASK) == 4096 * Decode(w).frame
  {
    AddressMask(w);
    DividesBack(Field(w));
  }

  lemma DividesBack(n: nat)
    ensures 4096 * n / 4096 == n
  {}

  /** The entry get_or_create_table stores for the table in frame f. */
  function TableEntry(f: nat): nat { Or(Or(4096 * f, PT_WRITABLE), PT_PRESENT) }

  lemma TableEntryDecodes(f: nat)
    requires f < 0x100_0000_0000
    ensures TableEntry(f) < 0x1_0000_0000_0000_0000
    ensures Decode(TableEntry(f)) == Present(false, f)
  {
    TableEntryFits(f);
    TableEntryField(f);
    TableEntryBits(f);
    DecodeBits(TableEntry(f));
  }

  lemma TableEntryBits(f: nat)
    ensures Bit(TableEntry(f), 0) && !Bit(TableEntry(f), 7)
  {
    var a := 4096 * f;
    assert a == Shl(f, 12) by { ShlIsMul(f, 12); Powers(); }
    OrBit(Or(a, 2), 1, 0);
    OrBit(Or(a, 2), 1, 7);
    OrBit(a, 2, 7);
    BitBelowShl(f, 12, 7);
    assert !Bit(1, 7) && !Bit(2, 7);
  }

  lemma TableEntryField(f: nat)
    requires f < 0x100_0000_0000
    ensures Field(TableEntry(f)) == f
  {
    OrShr(Or(4096 * f, 2), 1, 12);
    OrShr(4096 * f, 2, 12);
    assert Shr(1, 12) == 0 && Shr(2, 12) == 0;
    assert Or(Shr(4096 * f, 12), 0) == Shr(4096 * f, 12);
    FieldOfPage(f, 2);
  }

  lemma TableEntryFits(f: nat)
    requires f < 0x100_0000_0000
    ensures TableEntry(f) < 0x1_0000_0000_0000_0000
  {
    Powers();
    OrBound(4096 * f, 2, 52);
    OrBound(Or(4096 * f, 2), 1, 52);
  }

  /** In plain numbers: the frame's address, present and writable. */
  lemma TableEntryValue(f: nat)
    ensures TableEntry(f) == 4096 * f + 3
  {
    Powers();
    OrIsSum(f, 12, 2);
    assert Pow2(1) == 2;
    OrIsSum(2048 * f + 1, 1, 1);
  }

  lemma OrIsSum(x: nat, j: nat, y: nat)
    requires y < Pow2(j)
    ensures Or(x * Pow2(j), y) == x * Pow2(j) + y
  {
    ShlIsMul(x, j);
    OrAdds(x, j, y);
  }

  /** The entry vmm_map_page stores. */
  function LeafEntry(phys: Word, flags: Word): Word {
    LeafEntryFits(phys, flags);
    Or(Or(And(phys, PT_ADDR_MASK), flags), PT_PRESENT)
  }

  /** Its frame is the address field of phys | flags. */
  lemma LeafEntryDecodes(phys: Word, flags: Word)
    ensures Decode(LeafEntry(phys, flags)) == Present(Bit(flags, 7), Field(Or(phys, flags)))
  {
    var a := And(phys, PT_ADDR_MASK);
    var w := LeafEntry(phys, flags);
    DecodeBits(w);
    MaskKeepsField(phys);
    assert Bit(w, 0) by { OrBit(Or(a, flags), 1, 0); }
    assert Bit(w, 7) == Bit(flags, 7) by {
      OrBit(Or(a, flags), 1, 7);
      OrBit(a, flags, 7);
      BitBelowShl(Field(phys), 12, 7);
      assert !Bit(1, 7);
    }
    LeafField(phys, flags, a);
  }

  /** Bit by bit: the present bit, the flags, and bits 51..12 of the address. */
  lemma LeafEntryBits(phys: Word, flags: Word, j: nat)
    ensures Bit(LeafEntry(phys, flags), j) <==> j == 0 || Bit(flags, j) || (12 <= j < 52 && Bit(phys, j))
  {
    var a := And(phys, PT_ADDR_MASK);
    OrBit(Or(a, flags), PT_PRESENT, j);
    OrBit(a, flags, j);
    AndBit(phys, PT_ADDR_MASK, j);
    MaskValue();
    BitOfShl(Ones(40), 12, j);
    if j >= 12 { BitOfOnes(40, j - 12); }
    assert Pow2(0) == PT_PRESENT;
    Pow2Bit(0, j);
  }

  lemma LeafField(phys: nat, flags: nat, a: nat)
    requires a == Shl(Field(phys), 12)
    ensures Field(Or(Or(a, flags), 1)) == Field(Or(phys, flags))
  {
    OrShr(Or(a, flags), 1, 12);
    OrShr(a, flags, 12);
    assert Shr(1, 12) == 0;
    ShrOfShl(Field(phys), 12);
    OrLow(Field(phys), Shr(flags, 12), 40);
    LowOfLow(Shr(phys, 12), 40);
    OrShr(phys, flags, 12);
    OrLow(Shr(phys, 12), Shr(flags, 12), 40);
  }

  lemma LeafEntryFits(phys: Word, flags: Word)
    ensures Or(Or(And(phys, PT_ADDR_MASK), flags), PT_PRESENT) < 0x1_0000_0000_0000_0000
  {
    Powers();
    OrBound(And(phys, PT_ADDR_MASK), flags, 64);
    OrBound(Or(And(phys, PT_ADDR_MASK), flags), 1, 64);
  }

  /** The stored frame is the one asked for exactly when flags sets no address bit that phys has
      clear; `flags & PT_ADDR_MASK == 0` is the case callers use. */
  lemma LeafFrameIff(phys: nat, flags: nat)
    ensures Field(Or(phys, flags)) == Field(phys) <==> And(Field(phys), Field(flags)) == Field(flags)
    ensures And(flags, PT_ADDR_MASK) == 0 ==> Field(Or(phys, flags)) == Field(phys)
  {
    OrShr(phys, flags, 12);
    OrLow(Shr(phys, 12), Shr(flags, 12), 40);
    OrAbsorbs(Field(phys), Field(flags));
    AddressMask(flags);
  }
}
