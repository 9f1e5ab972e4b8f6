/** A FAT32 volume as the boot loader addresses it, and as the Microsoft FAT32 File System
    Specification (version 1.03, sections "FAT Data Structure" and "FAT Type Determination")
    defines it. The loader computes in 16-bit registers; the lemmas say exactly when that is exact. */
module Fat32 {
  import opened MachineWords

  const END_OF_CHAIN: nat := 0x0FFF_FFF8

  /** The fields of the boot sector the loader uses; firstData is its dReserved0. The type is what
      the fields can hold and the sector and cluster sizes the specification allows. */
  datatype BpbFields = BpbFields(bytesPerSector: nat, sectorsPerCluster: nat, reserved: nat, hidden: nat, firstData: nat)

  predicate BpbOk(b: BpbFields) {
    && (b.bytesPerSector == 512 || b.bytesPerSector == 1024 || b.bytesPerSector == 2048 || b.bytesPerSector == 4096)
    && 0 < b.sectorsPerCluster < 256 && b.reserved < TWO16 && b.hidden < TWO32 && b.firstData < TWO32
  }

  type Bpb = b: BpbFields | BpbOk(b) witness BpbFields(512, 1, 32, 0, 0)

  /** Sector contents by disk address. */
  type Disk = nat -> seq<Byte>

  ghost predicate DiskOk(disk: Disk, b: Bpb) {
    forall lba :: |disk(lba)| == b.bytesPerSector
  }

  function Le32(s: seq<Byte>, at: nat): nat
    requires at + 4 <= |s|
  {
    (s[at] as int) + 0x100 * (s[at + 1] as int) + 0x1_0000 * (s[at + 2] as int) + 0x100_0000 * (s[at + 3] as int)
  }

  /** The value whose four bytes, least significant first, are at `at`, and no other. */
  lemma Le32Iff(s: seq<Byte>, at: nat, v: nat)
    requires at + 4 <= |s| && v < 0x1_0000_0000
    ensures Le32(s, at) < 0x1_0000_0000
    ensures Le32(s, at) == v <==>
            s[at] == v % 256 && s[at + 1] == v / 256 % 256 && s[at + 2] == v / 65536 % 256 && s[at + 3] == v / 16777216
  {
    var a: int, b: int, c: int, d: int := s[at], s[at + 1], s[at + 2], s[at + 3];
    assert Le32(s, at) == 256 * (256 * (256 * d + c) + b) + a;
    LowByteSplit(v, 256 * (256 * d + c) + b, a);
    LowByteSplit(v / 256, 256 * d + c, b);
    LowByteSplit(v / 256 / 256, d, c);
    DivTwice(v);
  }

  lemma LowByteSplit(v: nat, q: nat, r: nat)
    requires r < 256
    ensures v == 256 * q + r <==> v % 256 == r && v / 256 == q
  {}

  lemma DivTwice(v: nat)
    ensures v / 256 / 256 == v / 65536 && v / 256 / 256 / 256 == v / 16777216
  {}

  /** n sectors from lba on, one after the other; the address is a 32-bit register. */
  ghost function Sectors(disk: Disk, lba: nat, n: nat): seq<Byte>
    decreases n
  {
    if n == 0 then [] else disk(lba) + Sectors(disk, (lba + 1) % TWO32, n - 1)
  }

  lemma {:induction false} SectorsLength(disk: Disk, b: Bpb, lba: nat, n: nat)
    requires DiskOk(disk, b)
    ensures |Sectors(disk, lba, n)| == n * b.bytesPerSector
    decreases n
  {
    if n > 0 {
      SectorsLength(disk, b, (lba + 1) % TWO32, n - 1);
      MulPred(n, b.bytesPerSector);
    }
  }

  lemma MulPred(n: nat, x: nat)
    requires n > 0
    ensures n * x == x + (n - 1) * x
  {}

  /** Byte j of the s-th sector read is byte j of sector lba + s, in 32 bits. */
  lemma {:induction false} SectorsAt(disk: Disk, b: Bpb, lba: nat, n: nat, s: nat, j: nat)
    requires DiskOk(disk, b) && s < n && lba < TWO32 && j < b.bytesPerSector
    ensures s * b.bytesPerSector + j < |Sectors(disk, lba, n)|
    ensures Sectors(disk, lba, n)[s * b.bytesPerSector + j] == disk((lba + s) % 0x1_0000_0000)[j]
    decreases n
  {
    var next := (lba + 1) % TWO32;
    if s > 0 {
      SectorsAt(disk, b, next, n - 1, s - 1, j);
      ModDropsMod(s - 1, lba + 1, TWO32);
      MulPred(s, b.bytesPerSector);
      SectorsTail(disk, b, lba, n, (s - 1) * b.bytesPerSector + j);
    } else {
      BeforeRest(disk(lba), Sectors(disk, next, n - 1), j);
      SmallMod(lba, TWO32);
    }
  }

  lemma SectorsTail(disk: Disk, b: Bpb, lba: nat, n: nat, k: nat)
    requires DiskOk(disk, b) && n > 0 && k < |Sectors(disk, (lba + 1) % TWO32, n - 1)|
    ensures b.bytesPerSector + k < |Sectors(disk, lba, n)|
    ensures Sectors(disk, lba, n)[b.bytesPerSector + k] == Sectors(disk, (lba + 1) % TWO32, n - 1)[k]
  {
    AfterFirst(disk(lba), Sectors(disk, (lba + 1) % TWO32, n - 1), k);
  }

  lemma SmallMod(x: nat, n: nat)
    requires x < n
    ensures x % n == x
  {}

  lemma AfterFirst(x: seq<Byte>, y: seq<Byte>, k: nat)
    requires k < |y|
    ensures (x + y)[|x| + k] == y[k]
  {}

  lemma BeforeRest(x: seq<Byte>, y: seq<Byte>, k: nat)
    requires k < |x|
    ensures (x + y)[k] == x[k]
  {}

  // ---------------------------------------------------------------- addresses

  /** Sector and byte offset of cluster c's entry, by the specification. */
  function FatSector(b: Bpb, c: nat): nat { b.hidden + b.reserved + 4 * c / b.bytesPerSector }

  function FatOffset(b: Bpb, c: nat): nat { 4 * c % b.bytesPerSector }

  /** First sector of cluster c, by the specification. */
  function DataSector(b: Bpb, c: nat): nat
    requires c >= 2
  {
    b.hidden + b.firstData + (c - 2) * b.sectorsPerCluster
  }

  /** The same, in the registers of GetNextCluster: shl ax, 2; div; add ax; add ax. */
  function FatSector16(b: Bpb, si: nat): nat {
    var ax := 4 * si % TWO16;
    (ax / b.bytesPerSector + b.hidden % TWO16 + b.reserved) % TWO16
  }

  function FatOffset16(b: Bpb, si: nat): (r: nat)
    ensures r + 4 <= b.bytesPerSector && r < 4096
  {
    OffsetFits(b, si);
    4 * si % TWO16 % b.bytesPerSector
  }

  lemma OffsetFits(b: Bpb, si: nat)
    ensures 4 * si % TWO16 % b.bytesPerSector + 4 <= b.bytesPerSector <= 4096
  {
    var k := if b.bytesPerSector == 512 then 128 else if b.bytesPerSector == 1024 then 256
             else if b.bytesPerSector == 2048 then 512 else 1024;
    assert b.bytesPerSector == 4 * k;
    RemainderOfMultiple(si, TWO16 / 4);
    RemainderOfMultiple(si % (TWO16 / 4), k);
    FitsIn(si % (TWO16 / 4) % k, k);
  }

  lemma FitsIn(r: nat, k: nat)
    requires r < k
    ensures 4 * r + 4 <= 4 * k
  {}

  /** What 4 * x leaves in a sector of 4 * k bytes is again a multiple of 4. */
  lemma RemainderOfMultiple(x: nat, k: nat)
    requires k > 0
    ensures 4 * x % (4 * k) == 4 * (x % k)
  {
    var q, r := x / k, x % k;
    assert 4 * x == (4 * k) * q + 4 * r by {
      assert x == k * q + r;
    }
    DivUnique(4 * x, 4 * k, q, 4 * r);
  }

  /** sub ax, 2; mul bx; add eax; add eax in ReadCluster. The product keeps 16 bits. */
  function DataSector16(b: Bpb, si: nat): nat {
    var ax := (si % TWO16 - 2) % TWO16;
    ((ax * b.sectorsPerCluster % TWO16 + b.firstData) % TWO32 + b.hidden) % TWO32
  }

  /** The 16-bit FAT lookup finds cluster c's entry exactly when c < 16384 and the sector number
      fits 16 bits. */
  lemma FatLookupExactIff(b: Bpb, c: nat)
    ensures var sector := b.hidden + b.reserved + 4 * c / b.bytesPerSector;
            FatSector(b, c) == sector && (FatSector16(b, c) == sector <==> c < 16384 && sector < 65536)
    ensures FatOffset16(b, c) == FatOffset(b, c) == 4 * c % b.bytesPerSector
  {
    var bps := b.bytesPerSector;
    var per := if bps == 512 then 128 else if bps == 1024 then 64 else if bps == 2048 then 32 else 16;
    assert bps * per == TWO16;
    var k, ax := 4 * c / TWO16, 4 * c % TWO16;
    DivSplit(4 * c, bps, per, k, ax);
    Fit16(ax / bps, b.hidden, b.reserved, per * k);
    assert per * k == 0 <==> k == 0;
  }

  /** What it reads otherwise: each of its sums keeps 16 bits. */
  lemma FatLookupWraps(b: Bpb, c: nat)
    ensures FatSector16(b, c) == (4 * c % 65536 / b.bytesPerSector + b.hidden + b.reserved) % 65536
  {
    ModDropsMod(4 * c % 65536 / b.bytesPerSector + b.reserved, b.hidden, 65536);
  }

  lemma ModDropsMod(x: int, y: int, n: nat)
    requires n > 0
    ensures (x + y % n) % n == (x + y) % n
  {
    var q := y / n;
    assert y == n * q + y % n;
    ModPlusMultiple(x + y % n, q, n);
  }

  lemma ModPlusMultiple(x: int, k: int, n: nat)
    requires n > 0
    ensures (x + n * k) % n == x % n
  {
    var q := x / n;
    assert x + n * k == n * (q + k) + x % n by {
      assert x == n * q + x % n;
      assert n * (q + k) == n * q + n * k;
    }
    DivUniqueInt(x + n * k, n, q + k, x % n);
  }

  lemma DivUniqueInt(x: int, n: nat, q: int, r: nat)
    requires n > 0 && x == n * q + r && r < n
    ensures x % n == r
  {
    var d := x / n - q;
    assert n * d == n * (x / n) - n * q;
    SmallMultiple(n, d);
  }

  lemma Fit16(a: nat, h: nat, r: nat, extra: nat)
    ensures (a + h % TWO16 + r) % TWO16 == h + r + extra + a <==> extra == 0 && h + r + extra + a < TWO16
  {}

  lemma DivSplit(x: nat, n: nat, per: nat, k: nat, ax: nat)
    requires n > 0 && n * per == TWO16 && x == TWO16 * k + ax
    ensures x / n == per * k + ax / n && x % n == ax % n
  {
    assert TWO16 * k == n * (per * k);
    assert n * (per * k + ax / n) == n * (per * k) + n * (ax / n);
    DivUnique(x, n, per * k + ax / n, ax % n);
  }

  lemma DivUnique(x: nat, n: nat, q: nat, r: nat)
    requires n > 0 && x == n * q + r && r < n
    ensures x / n == q && x % n == r
  {
    var d := x / n - q;
    assert n * d == n * (x / n) - n * q;
    SmallMultiple(n, d);
  }

  lemma SmallMultiple(n: int, d: int)
    requires -n < n * d < n
    ensures d == 0
  {
    if d > 0 {
      MulAtLeast(n, d);
    } else if d < 0 {
      MulAtLeast(n, -d);
    }
  }

  lemma MulAtLeast(n: int, d: int)
    requires n >= 0 && d >= 1
    ensures n * d >= n
  {}

  /** The 16-bit cluster arithmetic finds cluster c's data exactly when (c - 2) * sectors-per-cluster
      fits 16 bits and the address fits 32. */
  lemma DataSectorExactIff(b: Bpb, c: nat)
    requires c >= 2
    ensures var sector := b.hidden + b.firstData + (c - 2) * b.sectorsPerCluster;
            && DataSector(b, c) == sector
            && (DataSector16(b, c) == sector <==>
                (c - 2) * b.sectorsPerCluster < 65536 && sector < 0x1_0000_0000)
  {
    ProductMod(c, b.sectorsPerCluster);
    MulNat(c - 2, b.sectorsPerCluster);
    Fit32((c - 2) * b.sectorsPerCluster, b.firstData, b.hidden);
  }

  lemma MulNat(x: nat, y: nat)
    ensures x * y >= 0
  {}

  /** What it reads otherwise, for every cluster number: the product keeps 16 bits, the sums 32. */
  lemma DataSectorWraps(b: Bpb, c: nat)
    ensures DataSector16(b, c) == ((c - 2) * b.sectorsPerCluster % 65536 + b.firstData + b.hidden) % 0x1_0000_0000
  {
    var n := b.sectorsPerCluster;
    ProductWraps(c, n);
    ModDropsMod(b.hidden, (c - 2) * n % TWO16 + b.firstData, TWO32);
  }

  lemma ProductWraps(c: nat, n: nat)
    ensures (c % TWO16 - 2) % TWO16 * n % TWO16 == (c - 2) * n % TWO16
  {
    ModDropsMod(-2, c, TWO16);
    var q := (c - 2) / TWO16;
    assert (c - 2) * n == (c - 2) % TWO16 * n + TWO16 * (q * n) by {
      assert c - 2 == TWO16 * q + (c - 2) % TWO16;
    }
    ModPlusMultiple((c - 2) % TWO16 * n, q * n, TWO16);
  }

  /** Three truncations in a row lose nothing exactly when none of them does. */
  lemma Fit32(p: nat, f: nat, h: nat)
    ensures ((p % TWO16 + f) % TWO32 + h) % TWO32 == h + f + p <==> p < TWO16 && h + f + p < TWO32
  {
    var x := p % TWO16 + f;
    ModAtMost(p, TWO16);
    ModAtMost(x, TWO32);
    ModAtMost(x % TWO32 + h, TWO32);
  }

  lemma ModAtMost(x: nat, n: nat)
    requires n > 0
    ensures x % n <= x && (x % n == x <==> x < n)
  {}

  lemma ProductMod(c: nat, n: nat)
    requires c >= 2
    ensures (c % TWO16 - 2) % TWO16 * n % TWO16 == (c - 2) * n % TWO16
  {
    var r := (c % TWO16 - 2) % TWO16;
    var q := (c - 2 - r) / TWO16;
    assert c - 2 == TWO16 * q + r;
    assert (c - 2) * n == TWO16 * (q * n) + r * n;
    ModShift(r * n, q * n);
  }

  lemma ModShift(x: nat, k: nat)
    ensures (TWO16 * k + x) % TWO16 == x % TWO16
  {}

  // ---------------------------------------------------------------- chains

  /** Entry of cluster c: the specification keeps 28 bits. */
  ghost function Entry28(disk: Disk, b: Bpb, c: nat): nat
    requires DiskOk(disk, b)
  {
    FatLookupExactIff(b, c);
    Le32(disk(FatSector(b, c)), FatOffset(b, c)) % 0x1000_0000
  }

  /** What GetNextCluster returns: all 32 bits. */
  ghost function Next16(disk: Disk, b: Bpb, si: nat): nat
    requires DiskOk(disk, b)
  {
    Le32(disk(FatSector16(b, si)), FatOffset16(b, si))
  }

  /** The loader's stop test agrees with the specification's exactly when the top four bits of the
      entry are clear or the low 28 already end the chain. */
  lemma StopTestIff(e: nat)
    requires e < TWO32
    ensures (e >= 0x0FFF_FFF8 <==> e % 0x1000_0000 >= 0x0FFF_FFF8) <==>
            e < 0x1000_0000 || e % 0x1000_0000 >= 0x0FFF_FFF8
  {}

  /** cs is the chain the loader follows from cs[0]. */
  ghost predicate Chain16(disk: Disk, b: Bpb, cs: seq<nat>)
    requires DiskOk(disk, b)
  {
    && cs != []
    && var next := Next16(disk, b, cs[0] % TWO16);
       if |cs| == 1 then next >= END_OF_CHAIN
       else next < END_OF_CHAIN && cs[1] == next && Chain16(disk, b, cs[1..])
  }

  /** Link by link: each entry is the next cluster and below the mark, and the last one is not. */
  lemma {:induction false} Chain16Iff(disk: Disk, b: Bpb, cs: seq<nat>)
    requires DiskOk(disk, b) && cs != []
    ensures Chain16(disk, b, cs) <==>
            && (forall i :: 0 <= i < |cs| - 1 ==> cs[i + 1] == Next16(disk, b, cs[i] % 65536) < 0x0FFF_FFF8)
            && Next16(disk, b, cs[|cs| - 1] % 65536) >= 0x0FFF_FFF8
  {
    if |cs| > 1 {
      var rest := cs[1..];
      Chain16Iff(disk, b, rest);
      assert forall i :: 0 <= i < |cs| - 2 ==> rest[i] == cs[i + 1];
      assert forall i :: 1 <= i < |cs| - 1 ==> cs[i] == rest[i - 1] && cs[i + 1] == rest[i];
    }
  }

  /** The first cluster determines the chain, so a file has at most one and it has no cycle. */
  lemma {:induction false} ChainIsUnique(disk: Disk, b: Bpb, cs: seq<nat>, ds: seq<nat>)
    requires DiskOk(disk, b) && Chain16(disk, b, cs) && Chain16(disk, b, ds) && cs[0] == ds[0]
    ensures cs == ds
  {
    if |cs| > 1 && |ds| > 1 {
      ChainIsUnique(disk, b, cs[1..], ds[1..]);
      assert cs == [cs[0]] + cs[1..] && ds == [ds[0]] + ds[1..];
    }
  }

  /** cs is the file's cluster chain by the specification. */
  ghost predicate Chain(disk: Disk, b: Bpb, cs: seq<nat>)
    requires DiskOk(disk, b)
  {
    && cs != []
    && var next := Entry28(disk, b, cs[0]);
       if |cs| == 1 then next >= END_OF_CHAIN
       else next < END_OF_CHAIN && cs[1] == next && Chain(disk, b, cs[1..])
  }

  /** The cluster numbers and entries for which the loader's arithmetic is exact. */
  ghost predicate Addressable(disk: Disk, b: Bpb, c: nat)
    requires DiskOk(disk, b)
  {
    FatLookupExactIff(b, c);
    && 2 <= c < 16384 && FatSector(b, c) < TWO16
    && (c - 2) * b.sectorsPerCluster < TWO16 && DataSector(b, c) < TWO32
    && Le32(disk(FatSector(b, c)), FatOffset(b, c)) < 0x1000_0000
  }

  lemma {:induction false} ChainIff(disk: Disk, b: Bpb, cs: seq<nat>)
    requires DiskOk(disk, b) && cs != []
    ensures Chain(disk, b, cs) <==>
            && (forall i :: 0 <= i < |cs| - 1 ==> cs[i + 1] == Entry28(disk, b, cs[i]) < 0x0FFF_FFF8)
            && Entry28(disk, b, cs[|cs| - 1]) >= 0x0FFF_FFF8
  {
    if |cs| > 1 {
      var rest := cs[1..];
      ChainIff(disk, b, rest);
      assert forall i :: 0 <= i < |cs| - 2 ==> rest[i] == cs[i + 1];
      assert forall i :: 1 <= i < |cs| - 1 ==> cs[i] == rest[i - 1] && cs[i + 1] == rest[i];
    }
  }

  /** The bytes of the clusters, by the loader's addresses and by the specification's. */
  ghost function Image16(disk: Disk, b: Bpb, cs: seq<nat>): seq<Byte> {
    if cs == [] then []
    else Sectors(disk, DataSector16(b, cs[0]), b.sectorsPerCluster) + Image16(disk, b, cs[1..])
  }

  ghost function Image(disk: Disk, b: Bpb, cs: seq<nat>): seq<Byte> {
    if cs == [] then []
    else (if cs[0] < 2 then [] else Sectors(disk, DataSector(b, cs[0]), b.sectorsPerCluster)) + Image(disk, b, cs[1..])
  }

  /** Where byte j of sector s of the i-th cluster lies in the image. */
  ghost function Position(b: Bpb, i: nat, s: nat, j: nat): nat
    decreases i
  {
    if i == 0 then s * b.bytesPerSector + j
    else b.sectorsPerCluster * b.bytesPerSector + Position(b, i - 1, s, j)
  }

  lemma {:induction false} PositionIs(b: Bpb, i: nat, s: nat, j: nat)
    ensures Position(b, i, s, j) == i * (b.sectorsPerCluster * b.bytesPerSector) + s * b.bytesPerSector + j
    decreases i
  {
    if i > 0 {
      PositionIs(b, i - 1, s, j);
      MulPred(i, b.sectorsPerCluster * b.bytesPerSector);
    }
  }

  lemma ImageSplit(disk: Disk, b: Bpb, cs: seq<nat>)
    requires DiskOk(disk, b) && cs != [] && cs[0] >= 2
    ensures var head := Sectors(disk, DataSector(b, cs[0]), b.sectorsPerCluster);
            Image(disk, b, cs) == head + Image(disk, b, cs[1..])
            && |head| == b.sectorsPerCluster * b.bytesPerSector
  {
    SectorsLength(disk, b, DataSector(b, cs[0]), b.sectorsPerCluster);
  }

  lemma ImageTail(disk: Disk, b: Bpb, cs: seq<nat>, at: nat)
    requires DiskOk(disk, b) && cs != [] && cs[0] >= 2 && at < |Image(disk, b, cs[1..])|
    ensures var size := b.sectorsPerCluster * b.bytesPerSector;
            size + at < |Image(disk, b, cs)| && Image(disk, b, cs)[size + at] == Image(disk, b, cs[1..])[at]
  {
    ImageSplit(disk, b, cs);
  }

  lemma ImageHead(disk: Disk, b: Bpb, cs: seq<nat>, s: nat, j: nat)
    requires DiskOk(disk, b) && cs != [] && cs[0] >= 2
    requires s < b.sectorsPerCluster && j < b.bytesPerSector && DataSector(b, cs[0]) + s < TWO32
    ensures s * b.bytesPerSector + j < |Image(disk, b, cs)|
    ensures Image(disk, b, cs)[s * b.bytesPerSector + j] == disk(DataSector(b, cs[0]) + s)[j]
  {
    var lba := DataSector(b, cs[0]);
    ImageSplit(disk, b, cs);
    SmallMod(lba + s, TWO32);
    SectorsAt(disk, b, lba, b.sectorsPerCluster, s, j);
    BeforeRest(Sectors(disk, lba, b.sectorsPerCluster), Image(disk, b, cs[1..]), s * b.bytesPerSector + j);
  }

  /** The image, byte by byte: clusters in chain order, each at its sectors on the disk. */
  lemma {:induction false} ImageAt(disk: Disk, b: Bpb, cs: seq<nat>, i: nat, s: nat, j: nat, lba: nat)
    requires DiskOk(disk, b) && i < |cs| && (forall q :: 0 <= q < |cs| ==> cs[q] >= 2)
    requires s < b.sectorsPerCluster && j < b.bytesPerSector && lba == DataSector(b, cs[i]) + s < TWO32
    ensures Position(b, i, s, j) < |Image(disk, b, cs)|
    ensures Image(disk, b, cs)[Position(b, i, s, j)] == disk(lba)[j]
    decreases i
  {
    if i == 0 {
      ImageHead(disk, b, cs, s, j);
    } else {
      assert cs[1..][i - 1] == cs[i];
      ImageAt(disk, b, cs[1..], i - 1, s, j, lba);
      ImageShift(disk, b, cs, i, s, j);
    }
  }

  lemma ImageShift(disk: Disk, b: Bpb, cs: seq<nat>, i: nat, s: nat, j: nat)
    requires DiskOk(disk, b) && cs != [] && cs[0] >= 2 && i > 0
    requires Position(b, i - 1, s, j) < |Image(disk, b, cs[1..])|
    ensures Position(b, i, s, j) < |Image(disk, b, cs)|
    ensures Image(disk, b, cs)[Position(b, i, s, j)] == Image(disk, b, cs[1..])[Position(b, i - 1, s, j)]
  {
    ImageTail(disk, b, cs, Position(b, i - 1, s, j));
  }

  lemma NextAgrees(disk: Disk, b: Bpb, c: nat)
    requires DiskOk(disk, b) && Addressable(disk, b, c)
    ensures Next16(disk, b, c % TWO16) == Entry28(disk, b, c)
    ensures DataSector16(b, c) == DataSector(b, c)
  {
    assert c % TWO16 == c;
    assert FatSector16(b, c) == FatSector(b, c) && FatOffset16(b, c) == FatOffset(b, c) by {
      FatLookupExactIff(b, c);
    }
    assert DataSector16(b, c) == DataSector(b, c) by {
      DataSectorExactIff(b, c);
    }
  }

  /** On addressable clusters the loader follows the file's own chain and reads its own bytes. */
  lemma {:induction false} ChainsAgree(disk: Disk, b: Bpb, cs: seq<nat>)
    requires DiskOk(disk, b) && Chain(disk, b, cs)
    requires forall c :: c in cs ==> Addressable(disk, b, c)
    ensures Chain16(disk, b, cs)
    ensures Image16(disk, b, cs) == Image(disk, b, cs)
  {
    NextAgrees(disk, b, cs[0]);
    if |cs| > 1 {
      ChainsAgree(disk, b, cs[1..]);
    } else {
      assert cs[1..] == [];
    }
  }
}
