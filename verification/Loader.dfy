/** LoadFile and the routines under it (boot/fat32/Boot1.asm:167-358, and the same code with another
    load address in boot/fat32/Stage2_X86.asm:143-336), on the bytes of real-mode memory. */
module Loader {
  import opened Fat32
  import opened MachineWords

  // Where GetNextCluster reads FAT sectors to
  const FAT_BUFFER: nat := 0x4000
  const REAL_MODE_TOP: nat := 0x10_0000
  // Where stage 1 loads stage 2, and where stage 2 loads the kernel
  const STAGE1_LOAD: nat := 0x7E00
  const STAGE2_LOAD: nat := 0x500
  // The boot sector with the BPB fields and variables that both stages use, and stage 2's stack
  const LOADER: nat := 0x7C00
  const LOADER_END: nat := 0x7E00
  const VIDEO_MEMORY: nat := 0xA_0000

  /** len bytes from `at` on are RAM that does not hold the boot sector's code, fields or variables. */
  predicate Clear(at: nat, len: nat) {
    at + len <= LOADER || (LOADER_END <= at && at + len <= VIDEO_MEMORY)
  }

  /** The two stages' load areas. Stage 2 itself lies from 0x7E00 on. */
  predicate LoadArea(base: nat, len: nat) {
    (base == STAGE1_LOAD || base == STAGE2_LOAD) && Clear(base, len)
  }

  /** m with data stored from `at` on. */
  ghost function Blit(m: seq<Byte>, at: nat, data: seq<Byte>): seq<Byte>
    requires at + |data| <= |m|
  {
    m[..at] + data + m[at + |data|..]
  }

  lemma BlitAt(m: seq<Byte>, at: nat, data: seq<Byte>, a: nat)
    requires at + |data| <= |m| && a < |m|
    ensures |Blit(m, at, data)| == |m|
    ensures Blit(m, at, data)[a] == if at <= a < at + |data| then data[a - at] else m[a]
  {}

  lemma BlitTwice(m: seq<Byte>, at: nat, a: seq<Byte>, b: seq<Byte>)
    requires at + |a| + |b| <= |m|
    ensures Blit(Blit(m, at, a), at + |a|, b) == Blit(m, at, a + b)
  {}

  lemma BlitLe32(m: seq<Byte>, at: nat, data: seq<Byte>, k: nat)
    requires at + |data| <= |m| && k + 4 <= |data|
    ensures |Blit(m, at, data)| == |m| && Le32(Blit(m, at, data), at + k) == Le32(data, k)
  {}

  /** `loop` counts CX down before testing it, so a count of 0 means 65536. */
  function LoopCount(cx: nat): nat { if cx == 0 then TWO16 else cx }

  /** dec cx */
  function Dec(cx: nat): nat { if cx == 0 then TWO16 - 1 else cx - 1 }

  lemma OneSector(disk: Disk, lba: nat)
    ensures Sectors(disk, lba, 1) == disk(lba)
  {
    assert Sectors(disk, (lba + 1) % TWO32, 0) == [];
  }

  lemma SectorStep(disk: Disk, lba: nat, left: nat, done: seq<Byte>, all: seq<Byte>)
    requires left > 0 && done + Sectors(disk, lba, left) == all
    ensures done + disk(lba) + Sectors(disk, (lba + 1) % TWO32, left - 1) == all
    ensures |done| + |disk(lba)| <= |all|
  {
    var rest := Sectors(disk, (lba + 1) % TWO32, left - 1);
    assert done + disk(lba) + rest == done + (disk(lba) + rest);
  }

  /** add bx, bytes-per-sector; on carry, add dh, 0x10 with ES in DX. */
  function NextSegment(es: nat, bx: nat, size: nat): nat {
    if bx + size < TWO16 then es else es % 256 + 256 * ((es / 256 + 0x10) % 256)
  }

  function NextOffset(bx: nat, size: nat): nat { (bx + size) % TWO16 }

  /** One step moves the linear address 16 * ES + BX by exactly one sector, unless the offset carries
      while ES is in the last 64 KB of real-mode memory. */
  lemma AdvanceExactIff(es: nat, bx: nat, size: nat)
    requires es < TWO16 && bx < TWO16 && size < TWO16
    ensures NextSegment(es, bx, size) < TWO16 && NextOffset(bx, size) < TWO16
    ensures 16 * NextSegment(es, bx, size) + NextOffset(bx, size) == 16 * es + bx + size <==>
            bx + size < TWO16 || es < 0xF000
  {
    if bx + size >= TWO16 {
      assert (es / 256 + 0x10) % 256 == if es < 0xF000 then es / 256 + 0x10 else es / 256 + 0x10 - 256;
    }
  }

  ghost function Cluster16(disk: Disk, b: Bpb, c: nat): seq<Byte> {
    Sectors(disk, DataSector16(b, c), b.sectorsPerCluster)
  }

  class Machine {
    const mem: array<Byte>
    const disk: Disk
    const bpb: Bpb
    var es: nat
    var bx: nat

    ghost predicate Valid()
      reads this
    {
      DiskOk(disk, bpb) && es < TWO16 && bx < TWO16 && mem.Length >= REAL_MODE_TOP
    }

    function Linear(): nat
      reads this
    {
      16 * es + bx
    }

    constructor (memory: array<Byte>, drive: Disk, parameters: Bpb)
      requires DiskOk(drive, parameters) && memory.Length >= REAL_MODE_TOP
      ensures Valid() && mem == memory && disk == drive && bpb == parameters
    {
      mem, disk, bpb, es, bx := memory, drive, parameters, 0, 0;
    }

    /** int 0x13, ah = 0x42: one sector to ES:BX, taken as contiguous linear memory. */
    method BiosRead(lba: nat)
      requires Valid() && Linear() + bpb.bytesPerSector <= mem.Length
      modifies mem
      ensures mem[..] == Blit(old(mem[..]), Linear(), disk(lba))
    {
      var sector := disk(lba);
      var i := 0;
      while i < |sector|
        invariant i <= |sector|
        invariant forall k :: 0 <= k < mem.Length ==>
                    mem[k] == if Linear() <= k < Linear() + i then sector[k - Linear()] else old(mem[k])
      {
        mem[Linear() + i] := sector[i];
        i := i + 1;
      }
      assert mem[..] == Blit(old(mem[..]), Linear(), sector);
    }

    /** Memory is m with `done` stored from `start` on, and ES:BX is right after it. */
    ghost predicate Placed(m: seq<Byte>, start: nat, done: seq<Byte>)
      reads this, mem
    {
      Linear() == start + |done| <= |m| && mem[..] == Blit(m, start, done)
    }

    /** One pass of .sLoop and .Success: a sector to ES:BX, and ES:BX moved past it. */
    method ReadOne(lba: nat, ghost m: seq<Byte>, ghost start: nat, ghost done: seq<Byte>)
      requires Valid() && Linear() + bpb.bytesPerSector < REAL_MODE_TOP && Placed(m, start, done)
      modifies this`es, this`bx, mem
      ensures Valid() && Placed(m, start, done + disk(lba))
    {
      BlitTwice(m, start, done, disk(lba));
      BiosRead(lba);
      AdvanceExactIff(es, bx, bpb.bytesPerSector);
      es, bx := NextSegment(es, bx, bpb.bytesPerSector), NextOffset(bx, bpb.bytesPerSector);
    }

    /** `done` is placed, and `left` sectors from lba on complete it to `all`. */
    ghost predicate Reading(m: seq<Byte>, start: nat, done: seq<Byte>, lba: nat, left: nat, all: seq<Byte>)
      reads this, mem
    {
      Valid() && Clear(start, |all|) && Placed(m, start, done) && done + Sectors(disk, lba, left) == all
    }

    lemma ReadingStarts(lba: nat, n: nat)
      requires Valid() && Clear(Linear(), |Sectors(disk, lba, n)|)
      ensures Reading(mem[..], Linear(), [], lba, n, Sectors(disk, lba, n))
    {
      assert [] + Sectors(disk, lba, n) == Sectors(disk, lba, n);
    }

    lemma ReadingEnds(m: seq<Byte>, start: nat, done: seq<Byte>, lba: nat, all: seq<Byte>)
      requires Reading(m, start, done, lba, 0, all)
      ensures Placed(m, start, all)
    {
      assert done + [] == done;
    }

    method ReadNext(lba: nat, ghost m: seq<Byte>, ghost start: nat, ghost done: seq<Byte>, ghost left: nat,
                    ghost all: seq<Byte>)
      requires Reading(m, start, done, lba, left, all) && left > 0
      modifies this`es, this`bx, mem
      ensures Reading(m, start, done + disk(lba), (lba + 1) % TWO32, left - 1, all)
    {
      SectorStep(disk, lba, left, done, all);
      ReadOne(lba, m, start, done);
    }

    /** CX sectors from EAX on to ES:BX, which ends up past them. */
    method ReadSector(eax: nat, cx: nat)
      requires Valid() && cx < TWO16
      requires Clear(Linear(), |Sectors(disk, eax, if cx == 0 then 65536 else cx)|)
      modifies this`es, this`bx, mem
      ensures Valid()
      ensures var data := Sectors(disk, eax, if cx == 0 then 65536 else cx);
              Linear() == old(Linear()) + |data| && mem[..] == Blit(old(mem[..]), old(Linear()), data)
    {
      ghost var all, m, start := Sectors(disk, eax, LoopCount(cx)), mem[..], Linear();
      ghost var done: seq<Byte>, left: nat := [], LoopCount(cx);
      var lba: nat, count: nat := eax, cx;
      var more := true;
      ReadingStarts(lba, left);
      while more
        invariant Reading(m, start, done, lba, left, all) && count < TWO16
        invariant more <==> left > 0
        invariant more ==> left == LoopCount(count)
        decreases left
      {
        ReadNext(lba, m, start, done, left, all);
        done, left := done + disk(lba), left - 1;
        lba := (lba + 1) % TWO32;
        count := Dec(count);
        more := count != 0;
      }
      ReadingEnds(m, start, done, lba, all);
    }

    /** Sector and offset of cluster si's entry, in 16-bit registers. */
    method FatAddress(si: nat) returns (ax: nat, dx: nat)
      ensures ax == FatSector16(bpb, si) && dx == FatOffset16(bpb, si)
    {
      ax := 4 * si % TWO16;
      dx := ax % bpb.bytesPerSector;
      ax := ax / bpb.bytesPerSector;
      ax := (ax + bpb.hidden % TWO16) % TWO16;
      ax := (ax + bpb.reserved) % TWO16;
    }

    /** The entry of cluster si, through the FAT buffer. */
    method GetNextCluster(si: nat) returns (esi: nat)
      requires Valid() && si < TWO16
      modifies this`es, this`bx, mem
      ensures Valid()
      ensures esi == Next16(disk, bpb, si)
      ensures var s, o := disk(FatSector16(bpb, si)), FatOffset16(bpb, si);
              esi == 0x100_0000 * (s[o + 3] as int) + 0x1_0000 * (s[o + 2] as int) + 0x100 * (s[o + 1] as int)
                     + (s[o] as int)
      ensures 0x4000 + bpb.bytesPerSector <= mem.Length
      ensures mem[..] == Blit(old(mem[..]), 0x4000, disk(FatSector16(bpb, si)))
    {
      var ax, dx := FatAddress(si);
      es, bx := 0, FAT_BUFFER;
      ghost var sector := disk(ax);
      OneSector(disk, ax);
      ReadSector(ax, 1);
      BlitLe32(old(mem[..]), FAT_BUFFER, sector, dx);
      esi := LoadDword(FAT_BUFFER + dx);
    }

    method LoadDword(at: nat) returns (x: nat)
      requires at + 4 <= mem.Length
      ensures x == Le32(mem[..], at)
    {
      x := (mem[at] as int) + 0x100 * (mem[at + 1] as int) + 0x1_0000 * (mem[at + 2] as int)
           + 0x100_0000 * (mem[at + 3] as int);
    }

    /** One cluster to ES:BX, then its FAT entry. */
    method ReadCluster(esi: nat) returns (next: nat)
      requires Valid()
      requires Clear(Linear(), |Cluster16(disk, bpb, esi)|)
      modifies this`es, this`bx, mem
      ensures Valid()
      ensures Linear() == old(Linear()) + |Cluster16(disk, bpb, esi)|
      ensures next == Next16(disk, bpb, esi % TWO16)
      ensures mem[..] == LoadCluster(old(mem[..]), old(Linear()), disk, bpb, esi)
    {
      var si := esi % TWO16;
      var ax := (si - 2) % TWO16;
      var eax := ax * bpb.sectorsPerCluster % TWO16;
      eax := (eax + bpb.firstData) % TWO32;
      eax := (eax + bpb.hidden) % TWO32;
      ReadSector(eax, bpb.sectorsPerCluster);
      var savedBx, savedEs := bx, es;
      next := GetNextCluster(si);
      es, bx := savedEs, savedBx;
    }

    /** The clusters `rest` of cs remain to be loaded, and then memory is as specified. */
    ghost predicate Loading(m: seq<Byte>, base: nat, cs: seq<nat>, rest: seq<nat>)
      reads this, mem
    {
      && Valid() && |m| >= REAL_MODE_TOP
      && Clear(base, |Image16(disk, bpb, cs)|) && Clear(Linear(), |Image16(disk, bpb, rest)|)
      && LoadAll(mem[..], Linear(), disk, bpb, rest) == LoadAll(m, base, disk, bpb, cs)
    }

    /** One pass of .cLoop. */
    method LoadNext(esi: nat, ghost m: seq<Byte>, ghost base: nat, ghost cs: seq<nat>, ghost rest: seq<nat>)
      returns (next: nat)
      requires Loading(m, base, cs, rest) && rest != [] && rest[0] == esi
      modifies this`es, this`bx, mem
      ensures Loading(m, base, cs, rest[1..])
      ensures next == Next16(disk, bpb, esi % TWO16)
    {
      LoadAllStep(mem[..], Linear(), disk, bpb, rest);
      next := ReadCluster(esi);
    }

    /** The file whose first cluster is esi, to 0:base on. cs is the chain that makes it end. */
    method LoadFile(base: nat, esi: nat, ghost cs: seq<nat>)
      requires Valid() && Chain16(disk, bpb, cs) && cs[0] == esi
      requires LoadArea(base, |Image16(disk, bpb, cs)|)
      modifies this`es, this`bx, mem
      ensures Valid()
      ensures mem[..] == LoadAll(old(mem[..]), base, disk, bpb, cs)
    {
      es, bx := 0, base;
      var cluster := esi;
      ghost var rest := cs;
      var more := true;
      while more
        invariant Loading(old(mem[..]), base, cs, rest)
        invariant more <==> rest != []
        invariant more ==> Chain16(disk, bpb, rest) && rest[0] == cluster
        decreases |rest|
      {
        cluster := LoadNext(cluster, old(mem[..]), base, cs, rest);
        rest := rest[1..];
        more := cluster < END_OF_CHAIN;
      }
    }
  }

  /** Memory after loading the clusters cs from `at` on, each followed by a FAT sector read. */
  ghost function LoadAll(m: seq<Byte>, at: nat, disk: Disk, b: Bpb, cs: seq<nat>): seq<Byte>
    requires DiskOk(disk, b) && |m| >= REAL_MODE_TOP
    requires Clear(at, |Image16(disk, b, cs)|)
    decreases |cs|
  {
    if cs == [] then m
    else
      var data := Cluster16(disk, b, cs[0]);
      LoadAll(LoadCluster(m, at, disk, b, cs[0]), at + |data|, disk, b, cs[1..])
  }

  lemma LoadAllStep(m: seq<Byte>, at: nat, disk: Disk, b: Bpb, cs: seq<nat>)
    requires DiskOk(disk, b) && |m| >= REAL_MODE_TOP
    requires cs != [] && Clear(at, |Image16(disk, b, cs)|)
    ensures var next := at + |Cluster16(disk, b, cs[0])|;
            && |Image16(disk, b, cs)| == |Cluster16(disk, b, cs[0])| + |Image16(disk, b, cs[1..])|
            && Clear(at, |Cluster16(disk, b, cs[0])|) && Clear(next, |Image16(disk, b, cs[1..])|)
            && LoadAll(m, at, disk, b, cs) == LoadAll(LoadCluster(m, at, disk, b, cs[0]), next, disk, b, cs[1..])
  {
    ImageUnfold(disk, b, cs);
  }

  /** One cluster to `at` and the FAT sector of its entry to the buffer. */
  ghost function LoadCluster(m: seq<Byte>, at: nat, disk: Disk, b: Bpb, c: nat): (n: seq<Byte>)
    requires DiskOk(disk, b) && |m| >= REAL_MODE_TOP && Clear(at, |Cluster16(disk, b, c)|)
    ensures |n| == |m|
  {
    Blit(Blit(m, at, Cluster16(disk, b, c)), FAT_BUFFER, disk(FatSector16(b, c % TWO16)))
  }

  lemma LoadClusterAt(m: seq<Byte>, at: nat, disk: Disk, b: Bpb, c: nat, a: nat)
    requires DiskOk(disk, b) && |m| >= REAL_MODE_TOP && Clear(at, |Cluster16(disk, b, c)|) && a < |m|
    ensures LoadCluster(m, at, disk, b, c)[a] ==
            if FAT_BUFFER <= a < FAT_BUFFER + b.bytesPerSector then disk(FatSector16(b, c % TWO16))[a - FAT_BUFFER]
            else if at <= a < at + |Cluster16(disk, b, c)| then Cluster16(disk, b, c)[a - at]
            else m[a]
  {
    BlitAt(m, at, Cluster16(disk, b, c), a);
    BlitAt(Blit(m, at, Cluster16(disk, b, c)), FAT_BUFFER, disk(FatSector16(b, c % TWO16)), a);
  }

  lemma ImageUnfold(disk: Disk, b: Bpb, cs: seq<nat>)
    requires cs != []
    ensures Image16(disk, b, cs) == Cluster16(disk, b, cs[0]) + Image16(disk, b, cs[1..])
  {}

  /** The FAT sector that stays in the buffer: that of the chain's last cluster. */
  ghost function LastFatSector(disk: Disk, b: Bpb, cs: seq<nat>): (s: seq<Byte>)
    requires DiskOk(disk, b) && cs != []
    ensures |s| == b.bytesPerSector
  {
    disk(FatSector16(b, cs[|cs| - 1] % TWO16))
  }

  /** Every byte of memory after LoadFile: the FAT buffer holds the last FAT sector read, the rest of
      the image is the clusters one after the other, and nothing else changed. */
  lemma LoadAllAt(m: seq<Byte>, at: nat, disk: Disk, b: Bpb, cs: seq<nat>, a: nat)
    requires DiskOk(disk, b) && |m| >= REAL_MODE_TOP
    requires Clear(at, |Image16(disk, b, cs)|) && cs != [] && a < |m|
    ensures |LoadAll(m, at, disk, b, cs)| == |m|
    ensures LoadAll(m, at, disk, b, cs)[a] ==
            if 0x4000 <= a < 0x4000 + b.bytesPerSector then LastFatSector(disk, b, cs)[a - 0x4000]
            else if at <= a < at + |Image16(disk, b, cs)| then Image16(disk, b, cs)[a - at]
            else m[a]
  {
    LoadAllBytes(m, at, disk, b, cs, a);
  }

  lemma {:induction false} LoadAllBytes(m: seq<Byte>, at: nat, disk: Disk, b: Bpb, cs: seq<nat>, a: nat)
    requires DiskOk(disk, b) && |m| >= REAL_MODE_TOP
    requires Clear(at, |Image16(disk, b, cs)|) && cs != [] && a < |m|
    ensures |LoadAll(m, at, disk, b, cs)| == |m|
    ensures LoadAll(m, at, disk, b, cs)[a] == ByteAfter(m, at, Image16(disk, b, cs), LastFatSector(disk, b, cs), a)
    decreases |cs|
  {
    var data, rest := Cluster16(disk, b, cs[0]), cs[1..];
    var n := LoadCluster(m, at, disk, b, cs[0]);
    LoadAllStep(m, at, disk, b, cs);
    ImageUnfold(disk, b, cs);
    LoadClusterAt(m, at, disk, b, cs[0], a);
    if rest != [] {
      LastFatTail(disk, b, cs);
      LoadAllBytes(n, at + |data|, disk, b, rest, a);
      ComposeBytes(m, n, at, data, Image16(disk, b, rest), disk(FatSector16(b, cs[0] % TWO16)),
                   LastFatSector(disk, b, cs), a);
    } else {
      assert LoadAll(n, at + |data|, disk, b, rest) == n && Image16(disk, b, rest) == [];
    }
  }

  lemma LastFatTail(disk: Disk, b: Bpb, cs: seq<nat>)
    requires DiskOk(disk, b) && |cs| > 1
    ensures LastFatSector(disk, b, cs) == LastFatSector(disk, b, cs[1..])
  {}

  /** Byte a of m after an image was stored from `at` on and a sector into the FAT buffer. */
  ghost function ByteAfter(m: seq<Byte>, at: nat, img: seq<Byte>, fat: seq<Byte>, a: nat): Byte
    requires a < |m|
  {
    if 0x4000 <= a < 0x4000 + |fat| then fat[a - 0x4000]
    else if at <= a < at + |img| then img[a - at]
    else m[a]
  }

  lemma ComposeBytes(m: seq<Byte>, n: seq<Byte>, at: nat, x: seq<Byte>, y: seq<Byte>, fat: seq<Byte>, last: seq<Byte>,
                     a: nat)
    requires a < |m| == |n| && |fat| == |last| && n[a] == ByteAfter(m, at, x, fat, a)
    ensures ByteAfter(n, at + |x|, y, last, a) == ByteAfter(m, at, x + y, last, a)
  {}

  /** A file whose clusters are addressable and whose image misses the FAT buffer is loaded intact:
      its clusters, as the specification chains them, lie one after the other from base on. */
  lemma LoadedIntact(m: seq<Byte>, base: nat, disk: Disk, b: Bpb, cs: seq<nat>)
    requires DiskOk(disk, b) && |m| >= REAL_MODE_TOP
    requires Chain(disk, b, cs) && forall c :: c in cs ==> Addressable(disk, b, c)
    requires LoadArea(base, |Image(disk, b, cs)|)
    requires base + |Image(disk, b, cs)| <= FAT_BUFFER || FAT_BUFFER + b.bytesPerSector <= base
    ensures Chain16(disk, b, cs) && Image16(disk, b, cs) == Image(disk, b, cs)
    ensures |LoadAll(m, base, disk, b, cs)| == |m|
    ensures LoadAll(m, base, disk, b, cs)[base..base + |Image(disk, b, cs)|] == Image(disk, b, cs)
  {
    ChainsAgree(disk, b, cs);
    MissesBuffer(m, base, disk, b, cs);
  }

  lemma MissesBuffer(m: seq<Byte>, base: nat, disk: Disk, b: Bpb, cs: seq<nat>)
    requires DiskOk(disk, b) && |m| >= REAL_MODE_TOP && cs != []
    requires Clear(base, |Image16(disk, b, cs)|)
    requires base + |Image16(disk, b, cs)| <= FAT_BUFFER || FAT_BUFFER + b.bytesPerSector <= base
    ensures |LoadAll(m, base, disk, b, cs)| == |m|
    ensures LoadAll(m, base, disk, b, cs)[base..base + |Image16(disk, b, cs)|] == Image16(disk, b, cs)
  {
    var img := Image16(disk, b, cs);
    IntactIff(m, base, disk, b, cs, |img|);
    assert img[..|img|] == img;
  }

  /** Stage 1 loads stage 2 above the FAT buffer, so every addressable file that ends below video memory
      arrives intact. */
  lemma StageOneIntact(m: seq<Byte>, disk: Disk, b: Bpb, cs: seq<nat>)
    requires DiskOk(disk, b) && |m| >= REAL_MODE_TOP
    requires Chain(disk, b, cs) && forall c :: c in cs ==> Addressable(disk, b, c)
    requires 0x7E00 + |Image(disk, b, cs)| <= 0xA_0000
    ensures Chain16(disk, b, cs) && Image16(disk, b, cs) == Image(disk, b, cs)
    ensures LoadArea(0x7E00, |Image(disk, b, cs)|) && |LoadAll(m, 0x7E00, disk, b, cs)| == |m|
    ensures LoadAll(m, 0x7E00, disk, b, cs)[0x7E00..0x7E00 + |Image(disk, b, cs)|] == Image(disk, b, cs)
  {
    LoadedIntact(m, 0x7E00, disk, b, cs);
  }

  /** Byte k of the image is lost: it lies in the FAT buffer and differs from what is read there. */
  ghost predicate Lost(base: nat, disk: Disk, b: Bpb, cs: seq<nat>, k: nat)
    requires DiskOk(disk, b) && cs != [] && k < |Image16(disk, b, cs)|
  {
    FAT_BUFFER <= base + k < FAT_BUFFER + b.bytesPerSector
    && Image16(disk, b, cs)[k] != LastFatSector(disk, b, cs)[base + k - FAT_BUFFER]
  }

  lemma LostIff(m: seq<Byte>, base: nat, disk: Disk, b: Bpb, cs: seq<nat>, k: nat)
    requires DiskOk(disk, b) && |m| >= REAL_MODE_TOP && cs != []
    requires Clear(base, |Image16(disk, b, cs)|) && k < |Image16(disk, b, cs)|
    ensures |LoadAll(m, base, disk, b, cs)| == |m|
    ensures LoadAll(m, base, disk, b, cs)[base + k] == Image16(disk, b, cs)[k] <==> !Lost(base, disk, b, cs, k)
  {
    LoadAllAt(m, base, disk, b, cs, base + k);
  }

  /** The first n bytes of the image are in memory exactly when none of them is lost. */
  lemma IntactIff(m: seq<Byte>, base: nat, disk: Disk, b: Bpb, cs: seq<nat>, n: nat)
    requires DiskOk(disk, b) && |m| >= REAL_MODE_TOP && cs != []
    requires Clear(base, |Image16(disk, b, cs)|) && n <= |Image16(disk, b, cs)|
    ensures |LoadAll(m, base, disk, b, cs)| == |m|
    ensures LoadAll(m, base, disk, b, cs)[base..base + n] == Image16(disk, b, cs)[..n] <==>
            forall k :: 0 <= k < n ==> !Lost(base, disk, b, cs, k)
  {
    var img := Image16(disk, b, cs);
    var r := LoadAll(m, base, disk, b, cs);
    LoadAllAt(m, base, disk, b, cs, 0);
    forall k | 0 <= k < n
      ensures r[base + k] == img[k] <==> !Lost(base, disk, b, cs, k)
    {
      LostIff(m, base, disk, b, cs, k);
    }
    SameBytes(r, base, img[..n]);
  }

  lemma SameBytes(r: seq<Byte>, base: nat, img: seq<Byte>)
    requires base + |img| <= |r|
    ensures r[base..base + |img|] == img <==> forall k :: 0 <= k < |img| ==> r[base + k] == img[k]
  {
    if r[base..base + |img|] == img {
      forall k | 0 <= k < |img|
        ensures r[base + k] == img[k]
      {
        assert r[base..base + |img|][k] == img[k];
      }
    }
  }

  /** Stage 2 loads the kernel from 0x500 on, so its byte 0x3B00 falls on the FAT buffer. The n bytes of
      the kernel, which it then copies on, are in memory exactly when those from there on happen to be the
      last FAT sector's; a kernel of at most 0x3B00 bytes has none. */
  lemma StageTwoOverwrite(m: seq<Byte>, disk: Disk, b: Bpb, cs: seq<nat>, n: nat)
    requires DiskOk(disk, b) && |m| >= REAL_MODE_TOP && cs != []
    requires 0x500 + |Image16(disk, b, cs)| <= 0x7C00 && n <= |Image16(disk, b, cs)|
    ensures LoadArea(0x500, |Image16(disk, b, cs)|)
    ensures var img := Image16(disk, b, cs);
            var r := LoadAll(m, 0x500, disk, b, cs);
            && |r| == |m|
            && (r[0x500..0x500 + n] == img[..n] <==>
                forall k :: 0x3B00 <= k < n && k < 0x3B00 + b.bytesPerSector ==>
                  img[k] == LastFatSector(disk, b, cs)[k - 0x3B00])
            && (n <= 0x3B00 ==> r[0x500..0x500 + n] == img[..n])
  {
    IntactIff(m, STAGE2_LOAD, disk, b, cs, n);
    var img := Image16(disk, b, cs);
    forall k | 0 <= k < n
      ensures Lost(STAGE2_LOAD, disk, b, cs, k) <==>
              0x3B00 <= k < 0x3B00 + b.bytesPerSector && img[k] != LastFatSector(disk, b, cs)[k - 0x3B00]
    {}
  }

  // ---------------------------------------------------------------- a kernel that is damaged

  function SampleByte(lba: nat, i: nat): Byte {
    if lba != 32 then 0 else if i % 4 == 3 then 0x0F else 0xFF
  }

  function SampleSector(lba: nat): (s: seq<Byte>)
    ensures |s| == 512 && forall i :: 0 <= i < 512 ==> s[i] == SampleByte(lba, i)
  {
    seq(512, i requires 0 <= i => SampleByte(lba, i))
  }

  /** Such a file exists, well-formed and within the loader's arithmetic: loaded by stage 2, its byte
      0x3B00 is 0 and 0xFF in memory. */
  lemma StageTwoDamagesSample(m: seq<Byte>) returns (disk: Disk, b: Bpb, cs: seq<nat>)
    requires |m| >= REAL_MODE_TOP
    ensures DiskOk(disk, b) && Chain(disk, b, cs) && (forall c :: c in cs ==> Addressable(disk, b, c))
    ensures var img := Image16(disk, b, cs);
            && img == Image(disk, b, cs) && |img| == 0x4000 && LoadArea(STAGE2_LOAD, |img|)
            && var r := LoadAll(m, STAGE2_LOAD, disk, b, cs);
               |r| == |m| && img[0x3B00] == 0 && r[STAGE2_LOAD + 0x3B00] == 0xFF
  {
    var data, fat;
    disk, b, cs, data, fat := Sample();
    OneClusterDamaged(m, disk, b, cs, data, fat);
  }

  /** Cluster 2 has more than 29 sectors, from sector `data` on, and its FAT entry is at offset 8 of
      sector `fat`; all of it is within the loader's arithmetic. */
  ghost predicate Geometry(b: Bpb, data: nat, fat: nat) {
    && data == b.hidden + b.firstData && data + 29 < TWO32
    && fat == b.hidden + b.reserved < TWO16
    && 29 < b.sectorsPerCluster && b.sectorsPerCluster * b.bytesPerSector == 0x4000
    && 29 * b.bytesPerSector + 256 == 0x3B00
  }

  /** The entry ends the chain, and the byte 256 of the cluster's sector 29 will be lost. */
  ghost predicate LastAndLost(disk: Disk, data: nat, fat: nat) {
    && |disk(fat)| >= 512 && |disk(data + 29)| >= 512
    && END_OF_CHAIN <= Le32(disk(fat), 8) < 0x1000_0000
    && disk(data + 29)[256] == 0 && disk(fat)[0] == 0xFF
  }

  lemma OneClusterDamaged(m: seq<Byte>, disk: Disk, b: Bpb, cs: seq<nat>, data: nat, fat: nat)
    requires |m| >= REAL_MODE_TOP && DiskOk(disk, b) && |cs| == 1 && cs[0] == 2
    requires Geometry(b, data, fat) && LastAndLost(disk, data, fat)
    ensures Chain(disk, b, cs) && (forall c :: c in cs ==> Addressable(disk, b, c))
    ensures var img := Image16(disk, b, cs);
            && img == Image(disk, b, cs) && |img| == 0x4000 && LoadArea(STAGE2_LOAD, |img|)
            && var r := LoadAll(m, STAGE2_LOAD, disk, b, cs);
               |r| == |m| && img[0x3B00] == 0 && r[STAGE2_LOAD + 0x3B00] == 0xFF
  {
    FirstFatSector(b, cs[0]);
    FatLookupExactIff(b, cs[0]);
    OneClusterChain(disk, b, cs);
    OneClusterImage(disk, b, cs, 29, 256);
    ChainsAgree(disk, b, cs);
    LoadAllAt(m, STAGE2_LOAD, disk, b, cs, STAGE2_LOAD + 0x3B00);
  }

  /** A disk whose FAT, at sector 32, says of every cluster that it is the last, and whose data is zero;
      on it the file of cluster 2, of 32 sectors of 512 bytes. */
  lemma Sample() returns (disk: Disk, b: Bpb, cs: seq<nat>, data: nat, fat: nat)
    ensures DiskOk(disk, b) && |cs| == 1 && cs[0] == 2
    ensures Geometry(b, data, fat) && LastAndLost(disk, data, fat)
  {
    disk := SampleReads();
    b, cs, data, fat := BpbFields(512, 32, 32, 0, 1000), [2], 1000, 32;
  }

  lemma SampleReads() returns (disk: Disk)
    ensures (forall lba :: |disk(lba)| == 512) && LastAndLost(disk, 1000, 32)
  {
    disk := SampleSector;
    forall lba
      ensures |disk(lba)| == 512
    {
      assert disk(lba) == SampleSector(lba);
    }
    SampleEntry(disk(32));
    assert disk(1029) == SampleSector(1029);
  }

  /** Small cluster numbers have their entries in the first sector of the FAT. */
  lemma FirstFatSector(b: Bpb, c: nat)
    requires 4 * c < b.bytesPerSector
    ensures FatSector(b, c) == b.hidden + b.reserved && FatOffset(b, c) == 4 * c
  {}

  lemma SampleEntry(s: seq<Byte>)
    requires s == SampleSector(32)
    ensures Le32(s, 8) == 0x0FFF_FFFF && s[0] == 0xFF
  {
    assert s[8] == 0xFF && s[9] == 0xFF && s[10] == 0xFF && s[11] == 0x0F;
  }

  lemma OneClusterChain(disk: Disk, b: Bpb, cs: seq<nat>)
    requires DiskOk(disk, b) && |cs| == 1 && 2 <= cs[0] < 16384
    requires FatSector(b, cs[0]) < TWO16 && DataSector(b, cs[0]) < TWO32 && (cs[0] - 2) * b.sectorsPerCluster < TWO16
    requires FatOffset(b, cs[0]) + 4 <= b.bytesPerSector
    requires END_OF_CHAIN <= Le32(disk(FatSector(b, cs[0])), FatOffset(b, cs[0])) < 0x1000_0000
    ensures Chain(disk, b, cs) && Addressable(disk, b, cs[0])
  {}

  lemma OneClusterImage(disk: Disk, b: Bpb, cs: seq<nat>, s: nat, j: nat)
    requires DiskOk(disk, b) && |cs| == 1 && cs[0] >= 2
    requires s < b.sectorsPerCluster && j < b.bytesPerSector && DataSector(b, cs[0]) + s < TWO32
    ensures |Image(disk, b, cs)| == b.sectorsPerCluster * b.bytesPerSector
    ensures s * b.bytesPerSector + j < |Image(disk, b, cs)|
    ensures Image(disk, b, cs)[s * b.bytesPerSector + j] == disk(DataSector(b, cs[0]) + s)[j]
  {
    ImageSplit(disk, b, cs);
    ImageHead(disk, b, cs, s, j);
    assert cs[1..] == [];
  }
}
