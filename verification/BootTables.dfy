/** The page tables that boot/fat32/Stage2_X86.asm builds before entering long mode. */
module BootTables {
  import opened Bits
  import opened Entries
  import opened MachineWords
  import opened PageTables
  import opened PageWords

  /** Two dwords make a 64-bit entry, low half first. */
  ghost function Words(d: seq<Dword>): seq<Word> {
    seq(|d| / 2, k requires 0 <= k < |d| / 2 => WordAt(d, k))
  }

  ghost function WordAt(d: seq<Dword>, k: nat): Word
    requires k < |d| / 2
  {
    (d[2 * k] as int) + 0x1_0000_0000 * (d[2 * k + 1] as int)
  }

  /** Physical address of the i-th 2 MB page, present, writable, page size. */
  function PdDword(i: nat): nat { Or(0x200000 * i, 0x83) }

  ghost predicate PdDwordOk(d: seq<Dword>, i: nat)
    requires i < 512 && |d| >= 0x1400
  {
    d[0xC00 + 2 * i] == PdDword(i) && d[0xC00 + 2 * i + 1] == 0
  }

  /** The first n PD entries are written, the rest of 0x1000..0x4FFF is as LoaderEntry32 leaves it. */
  ghost predicate Built(d: seq<Dword>, n: nat) {
    && |d| >= 0x1400 && n <= 512
    && d[0x400] == 0x2003 && d[0x800] == 0x3003
    && Zero(d, 0x401, 0x800) && Zero(d, 0x801, 0xC00)
    && (forall i :: 0 <= i < n ==> PdDwordOk(d, i))
    && Zero(d, 0xC00 + 2 * n, 0x1400)
  }

  ghost predicate Zero(d: seq<Dword>, lo: nat, hi: nat)
    requires hi <= |d|
  {
    forall j :: lo <= j < hi ==> d[j] == 0
  }

  ghost predicate SameElsewhere(d: seq<Dword>, e: seq<Dword>) {
    |d| == |e| && forall j :: 0 <= j < |d| && !(0x400 <= j < 0x1400) ==> d[j] == e[j]
  }

  /** LoaderEntry32 from `mov edi, 0x1000` to the end of .SetEntry. */
  method BuildTables(mem: array<Dword>)
    requires mem.Length >= 0x1400
    modifies mem
    ensures Built(mem[..], 512)
    ensures mem[0x400] == 0x2003 && mem[0x800] == 0x3003
    ensures forall i :: 0 <= i < 512 ==> mem[0xC00 + 2 * i] == 0x20_0000 * i + 0x83 && mem[0xC01 + 2 * i] == 0
    ensures forall j :: 0x400 < j < 0xC00 && j != 0x800 ==> mem[j] == 0
    ensures forall j :: 0x1000 <= j < 0x1400 ==> mem[j] == 0
    ensures forall j :: 0 <= j < mem.Length && !(0x400 <= j < 0x1400) ==> mem[j] == old(mem[j])
  {
    ClearTables(mem);
    var edi := 0x1000;
    mem[edi / 4] := 0x2003;
    mem[(edi + 4) / 4] := 0;
    edi := edi + 0x1000;
    mem[edi / 4] := 0x3003;
    mem[(edi + 4) / 4] := 0;
    edi := edi + 0x1000;
    var ebx, ecx := 0, 512;
    while ecx > 0
      invariant 0 <= ecx <= 512
      invariant edi == 0x3000 + 8 * (512 - ecx) && ebx == 0x200000 * (512 - ecx)
      invariant Built(mem[..], 512 - ecx)
      invariant SameElsewhere(mem[..], old(mem[..]))
    {
      SetEntry(mem, edi, ebx, 512 - ecx);
      ebx := (ebx + 0x200000) % 0x1_0000_0000;
      edi := edi + 8;
      ecx := ecx - 1;
    }
    forall i | 0 <= i < 512
      ensures mem[0xC00 + 2 * i] == 0x20_0000 * i + 0x83 && mem[0xC01 + 2 * i] == 0
    {
      assert PdDwordOk(mem[..], i);
      PdDwordValue(i);
    }
    ZeroAt(mem[..]);
  }

  lemma ZeroAt(d: seq<Dword>)
    requires Built(d, 512)
    ensures forall j :: 0x400 < j < 0xC00 && j != 0x800 ==> d[j] == 0
    ensures forall j :: 0x1000 <= j < 0x1400 ==> d[j] == 0
  {}

  lemma PdDwordValue(i: nat)
    requires i < 512
    ensures PdDword(i) == 0x20_0000 * i + 0x83
  {
    Powers();
    SmallPowers();
    OrIsSum(512 * i, 12, 0x83);
  }

  /** One iteration of .SetEntry up to the two stores. */
  method SetEntry(mem: array<Dword>, edi: nat, ebx: nat, ghost i: nat)
    requires i < 512 && edi == 0x3000 + 8 * i && ebx == 0x200000 * i && Built(mem[..], i)
    modifies mem
    ensures Built(mem[..], i + 1) && SameElsewhere(mem[..], old(mem[..]))
  {
    ghost var d := mem[..];
    HugeEntryFits(i);
    var eax := Or(ebx, 0x83);
    mem[edi / 4] := eax;
    mem[(edi + 4) / 4] := 0;
    assert edi / 4 == 0xC00 + 2 * i && (edi + 4) / 4 == 0xC00 + 2 * i + 1;
    BuiltOneMore(d, mem[..], i);
  }

  lemma BuiltOneMore(d: seq<Dword>, e: seq<Dword>, i: nat)
    requires i < 512 && Built(d, i) && |e| == |d|
    requires e[0xC00 + 2 * i] == PdDword(i) && e[0xC00 + 2 * i + 1] == 0
    requires forall j :: 0 <= j < |d| && j != 0xC00 + 2 * i && j != 0xC00 + 2 * i + 1 ==> e[j] == d[j]
    ensures Built(e, i + 1) && SameElsewhere(e, d)
  {
    forall k | 0 <= k < i + 1
      ensures PdDwordOk(e, k)
    {
      if k < i { assert PdDwordOk(d, k); }
    }
  }

  /** rep stosd: 4096 dwords of zero from 0x1000. */
  method ClearTables(mem: array<Dword>)
    requires mem.Length >= 0x1400
    modifies mem
    ensures forall j :: 0 <= j < mem.Length ==> mem[j] == if 0x400 <= j < 0x1400 then 0 else old(mem[j])
  {
    var edi, ecx := 0x1000, 4096;
    while ecx > 0
      invariant 0 <= ecx <= 4096 && edi == 0x1000 + 4 * (4096 - ecx)
      invariant forall j :: 0 <= j < mem.Length ==>
                  mem[j] == if 0x400 <= j < 0x400 + 4096 - ecx then 0 else old(mem[j])
    {
      mem[edi / 4] := 0;
      edi := edi + 4;
      ecx := ecx - 1;
    }
  }

  /** The i-th PD entry is a present 2 MB page at 2 MB * i. */
  lemma HugeEntryDecodes(i: nat)
    requires i < 512
    ensures PdDword(i) < 0x1_0000_0000
    ensures Decode(PdDword(i)) == Present(true, 512 * i)
  {
    HugeEntryFits(i);
    HugeEntryField(i);
    DecodeBits(PdDword(i));
    OrBit(0x200000 * i, 0x83, 0);
    OrBit(0x200000 * i, 0x83, 7);
    assert Bit(0x83, 0) && Bit(0x83, 7);
  }

  lemma HugeEntryFits(i: nat)
    requires i < 512
    ensures PdDword(i) < 0x1_0000_0000
  {
    ThirtyBits();
    OrBound(0x200000 * i, 0x83, 30);
  }

  lemma ThirtyBits()
    ensures Pow2(30) == 0x4000_0000
  {
    SmallPowers();
    Pow2Add(10, 10);
    Pow2Add(20, 10);
  }

  lemma HugeEntryField(i: nat)
    requires i < 512
    ensures Field(PdDword(i)) == 512 * i
  {
    FieldOfHuge(0x200000 * i, 512 * i, 0x83);
  }

  lemma FieldOfHuge(x: nat, p: nat, low: nat)
    requires x == 4096 * p && p < 0x100_0000_0000 && low < 4096
    ensures Field(Or(x, low)) == p
  {
    FieldOfPage(p, low);
  }

  // ---------------------------------------------------------------- what the tables mean

  /** The decoded entries of frames 1, 2 and 3. */
  ghost predicate BootEntries(m: Mem) {
    && |m| >= 2048
    && (forall i :: 0 <= i < 512 ==> Entry(m, 1, i) == if i == 0 then Present(false, 2) else Absent)
    && (forall i :: 0 <= i < 512 ==> Entry(m, 2, i) == if i == 0 then Present(false, 3) else Absent)
    && (forall i :: 0 <= i < 512 ==> Entry(m, 3, i) == Present(true, 512 * i))
  }

  lemma SmallEntriesDecode()
    ensures Decode(0) == Absent
    ensures Decode(0x2003) == Present(false, 2) && Decode(0x3003) == Present(false, 3)
  {
    DecodeBits(0);
    TableEntryValue(2);
    TableEntryValue(3);
    TableEntryDecodes(2);
    TableEntryDecodes(3);
  }

  lemma EntryOfDwords(d: seq<Dword>, f: nat, i: nat)
    requires 512 * f + i < |d| / 2
    ensures Entry(View(Words(d)), f, i) == Decode(WordAt(d, 512 * f + i))
  {}

  lemma BuiltEntry(d: seq<Dword>, i: nat)
    requires Built(d, 512) && i < 512
    ensures WordAt(d, 512 + i) == if i == 0 then 0x2003 else 0
    ensures WordAt(d, 1024 + i) == if i == 0 then 0x3003 else 0
    ensures WordAt(d, 1536 + i) == PdDword(i)
  {
    assert PdDwordOk(d, i);
  }

  /** What BuildTables leaves in memory are those entries. */
  lemma BuiltTablesDecode(d: seq<Dword>)
    requires Built(d, 512)
    ensures BootEntries(View(Words(d)))
  {
    var m := View(Words(d));
    forall i: nat | i < 512
      ensures Entry(m, 1, i) == if i == 0 then Present(false, 2) else Absent
      ensures Entry(m, 2, i) == if i == 0 then Present(false, 3) else Absent
      ensures Entry(m, 3, i) == Present(true, 512 * i)
    {
      SmallEntriesDecode();
      EntryOfDwords(d, 1, i);
      EntryOfDwords(d, 2, i);
      EntryOfDwords(d, 3, i);
      BuiltEntry(d, i);
      HugeEntryDecodes(i);
    }
  }

  /** The processor maps the pages of the first gigabyte to themselves and nothing else. */
  lemma BootWalk(m: Mem, vp: Path)
    requires BootEntries(m) && IsPage(vp)
    ensures Walk(m, 1, vp, 0) == if vp[0] == 0 && vp[1] == 0 then Some(512 * vp[2] + vp[3]) else None
    ensures MeetsHuge(m, 1, vp, 0) <==> vp[0] == 0 && vp[1] == 0
  {
    if vp[0] == 0 && vp[1] == 0 {
      assert Walk(m, 3, vp, 2) == Some(512 * vp[2] + vp[3]);
      assert Walk(m, 2, vp, 1) == Walk(m, 3, vp, 2);
      assert MeetsHuge(m, 3, vp, 2) && MeetsHuge(m, 2, vp, 1);
    }
  }

  /** An address, taken apart into its indices and offset. */
  lemma AddressParts(virt: nat)
    ensures var vp := PageOf(virt);
            virt == 4096 * (512 * (512 * (512 * (512 * Shr(virt, 48) + vp[0]) + vp[1]) + vp[2]) + vp[3])
                    + And(virt, 0xFFF)
  {
    Indices(virt);
    OffsetPart(virt);
    IndexParts(Shr(virt, 12));
    ShrShr(virt, 12, 36);
  }

  lemma IndexParts(x: nat)
    ensures x == 512 * (512 * (512 * (512 * Shr(x, 36) + Low(Shr(x, 27), 9)) + Low(Shr(x, 18), 9))
                        + Low(Shr(x, 9), 9)) + Low(x, 9)
  {
    NinthBits(x, 0);
    NinthBits(x, 9);
    NinthBits(x, 18);
    NinthBits(x, 27);
  }

  lemma OffsetPart(virt: nat)
    ensures virt == 4096 * Shr(virt, 12) + And(virt, 0xFFF)
  {
    assert Ones(12) == 0xFFF;
    Powers();
    SplitAt(virt, 12);
  }

  lemma SplitAt(x: nat, k: nat)
    ensures x == Shr(x, k) * Pow2(k) + And(x, Ones(k))
  {
    LowMask(x, k);
    ShrLowSplit(x, k);
    ShlIsMul(Shr(x, k), k);
  }

  lemma NinthBits(x: nat, j: nat)
    ensures Shr(x, j) == 512 * Shr(x, j + 9) + Low(Shr(x, j), 9)
  {
    ShrLowSplit(Shr(x, j), 9);
    ShlIsMul(Shr(Shr(x, j), 9), 9);
    ShrShr(x, j, 9);
    assert Pow2(9) == 512;
  }

  /** In the first gigabyte the PD index is the number of the 2 MB page. */
  lemma FirstGigabyte(virt: nat)
    requires virt < 0x1_0000_0000_0000
    ensures var vp := PageOf(virt);
            && (vp[0] == 0 && vp[1] == 0 <==> virt < 0x4000_0000)
            && (virt < 0x4000_0000 ==> 512 * vp[2] + vp[3] == virt / 4096 && vp[2] == virt / 0x20_0000)
            && (virt < 0x4000_0000 ==> virt / 4096 * 4096 + And(virt, 0xFFF) == virt)
  {
    AddressParts(virt);
    OffsetBound(virt);
  }

  lemma OffsetBound(virt: nat)
    ensures And(virt, 0xFFF) < 4096
  {}

  /** The boot tables are an exact identity map: an address below 2^30 translates to itself and any
      other 48-bit address is not present. */
  lemma BootIdentity(m: Mem, virt: nat)
    requires BootEntries(m) && virt < 0x1_0000_0000_0000
    ensures var w := Walk(m, 1, PageOf(virt), 0);
            && (w.Some? <==> virt < 0x4000_0000)
            && (w.Some? ==> w.value * 4096 + And(virt, 0xFFF) == virt)
  {
    BootWalk(m, PageOf(virt));
    FirstGigabyte(virt);
  }

  // ---------------------------------------------------------------- what vmm_get_physical makes of them

  lemma BootSoftWalk(m: Mem, vp: Path)
    requires BootEntries(m) && IsPage(vp) && vp[0] == 0 && vp[1] == 0
    ensures SoftWalk(m, 1, vp, 0) ==
            var e := Entry(m, 512 * vp[2], vp[3]);
            if e.Present? then Some(e.frame) else None
  {
    assert SoftWalk(m, 1, vp, 0) == SoftWalk(m, 2, vp, 1) == SoftWalk(m, 3, vp, 2)
        == SoftWalk(m, 512 * vp[2], vp, 3);
  }

  /** vmm_get_physical does not know 2 MB pages: for a page the boot tables map it reads word vp[3]
      of physical frame 512 * vp[2] as a page-table entry, and is right exactly when that word
      happens to map the page to itself. */
  lemma BootPagesMisread(m: Mem, vp: Path)
    requires BootEntries(m) && IsPage(vp) && vp[0] == 0 && vp[1] == 0
    ensures SoftWalk(m, 1, vp, 0) == Walk(m, 1, vp, 0) <==>
            var e := Entry(m, 512 * vp[2], vp[3]);
            e.Present? && e.frame == 512 * vp[2] + vp[3]
  {
    BootWalk(m, vp);
    BootSoftWalk(m, vp);
  }

  /** Memory that is zero but for the boot tables. */
  ghost function ClearedMemory(size: nat): Mem {
    seq(size, k requires 0 <= k < size =>
      if k == 512 then Present(false, 2)
      else if k == 1024 then Present(false, 3)
      else if 1536 <= k < 2048 then Present(true, 512 * (k - 1536))
      else Absent)
  }

  /** There every page of the first gigabyte is misread: the processor maps it and vmm_get_physical
      says it is not mapped. */
  lemma ClearedMemoryIsMisread(size: nat, vp: Path)
    requires size >= 2048 && IsPage(vp) && vp[0] == 0 && vp[1] == 0
    ensures var m := ClearedMemory(size);
            && BootEntries(m)
            && SoftWalk(m, 1, vp, 0) == None && Walk(m, 1, vp, 0) == Some(512 * vp[2] + vp[3])
  {
    var m := ClearedMemory(size);
    BootWalk(m, vp);
    BootSoftWalk(m, vp);
  }
}
