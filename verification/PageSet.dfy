/** The physical page allocator of kernel/memory/pmm.c as a set of allocated pages, and its laws
    over every run. Module Pmm proves that the bitmap code implements these functions. */
module PageSet {
  import opened MachineWords

  const PAGE_SIZE: nat := 4096
  const LOW_PAGES: nat := 0x100000 / PAGE_SIZE
  const KERNEL_PAGES: nat := 0x80000 / PAGE_SIZE
  const BITMAP_PAGE: nat := 0x140000 / PAGE_SIZE
  // Everything below this page is set by pmm_init
  const RESERVED_END: nat := LOW_PAGES + KERNEL_PAGES

  /** taken holds the pages below total whose bit is set. */
  datatype PmmState = PmmState(total: nat, taken: set<nat>, used: nat)

  predicate IsBelow(p: nat, n: nat) { p < n }

  ghost function Below(n: nat): (s: set<nat>)
    ensures forall p: nat :: p in s <==> p < n
  {
    set p: nat | p < n && IsBelow(p, n)
  }

  lemma {:induction false} BelowSize(n: nat)
    ensures |Below(n)| == n
  {
    if n > 0 {
      BelowSize(n - 1);
      assert Below(n) == Below(n - 1) + {n - 1};
    } else {
      assert Below(0) == {};
    }
  }

  lemma SubsetSize(a: set<nat>, b: set<nat>)
    requires a <= b
    ensures |a| <= |b| && (|a| == |b| ==> a == b)
  {
    assert b == a + (b - a);
    assert |b| == |a| + |b - a|;
  }

  // ---------------------------------------------------------------- operations

  function BitmapSize(total: nat): nat { (total + 7) / 8 }

  function BitmapPages(total: nat): nat { (BitmapSize(total) + PAGE_SIZE - 1) / PAGE_SIZE }

  /** The page that holds byte k of the bitmap. */
  function BitmapBytePage(k: nat): nat { (0x140000 + k) / PAGE_SIZE }

  /** The pages under the bitmap itself. */
  predicate InBitmap(total: nat, p: nat) {
    BITMAP_PAGE <= p < BITMAP_PAGE + BitmapPages(total)
  }

  /** Pages pmm_init sets: the low megabyte, the kernel, and the bitmap's. */
  predicate IsReserved(total: nat, p: nat) {
    p < RESERVED_END || InBitmap(total, p)
  }

  ghost function Reserved(total: nat): set<nat> {
    set p | p in Below(total) && IsReserved(total, p)
  }

  /** pmm_init with the counter at `used` on entry (it is not reset). */
  ghost function InitState(totalMemory: nat, used: nat): PmmState {
    var total := totalMemory / PAGE_SIZE;
    PmmState(total, Reserved(total), (used + RESERVED_END + BitmapPages(total)) % TWO64)
  }

  /** Least page at or above p that is not in a, or total. */
  ghost function NextFree(a: set<nat>, p: nat, total: nat): (q: nat)
    requires p <= total
    ensures p <= q <= total
    ensures q < total ==> q !in a
    ensures forall r :: p <= r < q ==> r in a
    decreases total - p
  {
    if p == total || p !in a then p else NextFree(a, p + 1, total)
  }

  lemma NextFreeIs(a: set<nat>, q: nat, total: nat)
    requires q <= total && (q < total ==> q !in a)
    requires forall p: nat :: p < q ==> p in a
    ensures NextFree(a, 0, total) == q
  {}

  ghost function AllocPage(s: PmmState): (r: (PmmState, nat)) {
    var p := NextFree(s.taken, 0, s.total);
    if p == s.total then (s, 0)
    else (PmmState(s.total, s.taken + {p}, (s.used + 1) % TWO64), p * PAGE_SIZE)
  }

  ghost function FreePage(s: PmmState, addr: nat): PmmState {
    var p := addr / PAGE_SIZE;
    if p >= s.total || p !in s.taken then s
    else PmmState(s.total, s.taken - {p}, (s.used - 1) % TWO64)
  }

  ghost function FreePages(s: PmmState): nat { (s.total - s.used) % TWO64 }

  // ---------------------------------------------------------------- allocation

  /** The page returned is the least free one. */
  lemma AllocIsLeast(s: PmmState, p: nat)
    requires AllocPage(s).0 != s
    ensures var q := AllocPage(s).1 / PAGE_SIZE;
            && AllocPage(s).1 == q * PAGE_SIZE
            && q < s.total && q !in s.taken && AllocPage(s).0.taken == s.taken + {q}
            && (p < q ==> p in s.taken)
  {
    var q := NextFree(s.taken, 0, s.total);
    assert q * PAGE_SIZE / PAGE_SIZE == q;
  }

  lemma AllocAligned(s: PmmState)
    ensures var addr := AllocPage(s).1;
            addr == PAGE_SIZE * (addr / PAGE_SIZE) && (addr != 0 ==> addr / PAGE_SIZE < s.total)
  {}

  /** A return of 0 means out of memory exactly as long as page 0 itself is never free. */
  lemma AllocReturnsZeroIff(s: PmmState)
    ensures AllocPage(s).1 == 0 <==> (Below(s.total) <= s.taken || 0 !in s.taken)
  {
    var q := NextFree(s.taken, 0, s.total);
    if q < s.total {
      assert q in Below(s.total);
    }
  }

  /** pmm_free_page(0) makes the next pmm_alloc_page return the failure value while taking page 0. */
  lemma FreeingPageZeroLosesIt(s: PmmState)
    requires s.total > 0 && 0 in s.taken
    ensures var t := FreePage(s, 0); AllocPage(t).1 == 0 && AllocPage(t).0 != t
  {
    var t := FreePage(s, 0);
    assert 0 !in t.taken;
    assert 0 in AllocPage(t).0.taken;
  }

  /** Allocating and then freeing the page restores the state. */
  lemma FreeUndoesAlloc(s: PmmState)
    requires AllocPage(s).0 != s && s.used < TWO64 - 1
    ensures FreePage(AllocPage(s).0, AllocPage(s).1) == s
  {
    AllocIsLeast(s, 0);
    var q := NextFree(s.taken, 0, s.total);
    assert s.taken + {q} - {q} == s.taken;
  }

  /** Freeing any address clears its page and nothing else, a page past the last one or already clear
      included; a second free of it does nothing. */
  lemma FreeClears(s: PmmState, addr: nat)
    requires s.taken <= Below(s.total)
    ensures FreePage(s, addr).taken == s.taken - {addr / 4096} && FreePage(s, addr).total == s.total
    ensures FreePage(FreePage(s, addr), addr) == FreePage(s, addr)
    ensures addr / 4096 !in s.taken ==> FreePage(s, addr) == s
  {
    if addr / PAGE_SIZE >= s.total {
      assert addr / PAGE_SIZE !in Below(s.total);
    }
  }

  /** The bitmap takes the least number of pages that has a bit for every page. */
  lemma BitmapPagesExact(total: nat)
    ensures 32768 * BitmapPages(total) >= total > 32768 * (BitmapPages(total) - 1)
  {}

  // ---------------------------------------------------------------- counters

  /** used_pages exceeds the number of allocated pages by exactly k. */
  ghost predicate CountInv(s: PmmState, k: nat) {
    s.taken <= Below(s.total) && s.used == |s.taken| + k && s.total + k < TWO64
  }

  /** The pages pmm_init counts twice: the bitmap's overlap with the kernel range. */
  function DoubleCounted(total: nat): nat {
    if BitmapPages(total) <= RESERVED_END - BITMAP_PAGE then BitmapPages(total) else RESERVED_END - BITMAP_PAGE
  }

  lemma ReservedIsPrefix(total: nat)
    ensures var n := if BITMAP_PAGE + BitmapPages(total) > RESERVED_END
                     then BITMAP_PAGE + BitmapPages(total) else RESERVED_END;
            && Reserved(total) == Below(if total < n then total else n)
            && (total >= RESERVED_END ==> n <= total)
            && (total > RESERVED_END ==> n < total)
  {}

  lemma ReservedBound(total: nat)
    ensures BITMAP_PAGE + BitmapPages(total) <= if total > RESERVED_END then total else RESERVED_END
  {}

  /** pmm_init sets no bit past the last page exactly when there are 0x180000 bytes of memory. */
  lemma InitStaysInRangeIff(total: nat)
    ensures (forall p: nat :: IsReserved(total, p) ==> p < total) <==> total >= 384
  {
    assert IsReserved(total, RESERVED_END - 1);
  }

  /** After the first pmm_init on at least 0x180000 bytes the excess is min(bitmap pages, 64).
      On less memory every page is reserved and the excess is what was counted past the end. */
  lemma InitCount(totalMemory: nat)
    requires totalMemory < TWO64
    ensures var total := totalMemory / PAGE_SIZE;
            CountInv(InitState(totalMemory, 0),
                     if total >= RESERVED_END then DoubleCounted(total)
                     else RESERVED_END - total + BitmapPages(total))
  {
    var total := totalMemory / PAGE_SIZE;
    ReservedSize(total);
    ReservedBound(total);
  }

  lemma ReservedSize(total: nat)
    ensures var n := if BITMAP_PAGE + BitmapPages(total) > RESERVED_END
                     then BITMAP_PAGE + BitmapPages(total) else RESERVED_END;
            |Reserved(total)| == if total < n then total else n
    ensures Reserved(total) <= Below(total)
  {
    ReservedIsPrefix(total);
    BelowSize(total);
    BelowSize(RESERVED_END);
    BelowSize(BITMAP_PAGE + BitmapPages(total));
  }

  lemma AllocKeepsCount(s: PmmState, k: nat)
    requires CountInv(s, k)
    ensures CountInv(AllocPage(s).0, k)
  {
    BelowSize(s.total);
    SubsetSize(AllocPage(s).0.taken, Below(s.total));
  }

  lemma FreeKeepsCount(s: PmmState, k: nat, addr: nat)
    requires CountInv(s, k)
    ensures CountInv(FreePage(s, addr), k)
  {
    BelowSize(s.total);
    SubsetSize(s.taken, Below(s.total));
  }

  /** pmm_get_free_pages reports k fewer pages than are free, wrapping to almost 2^64 when fewer
      than k are left; it is right exactly when k is 0. */
  lemma FreePagesReport(s: PmmState, k: nat)
    requires CountInv(s, k)
    ensures var clear := |Below(s.total) - s.taken|;
            && FreePages(s) == (if clear >= k then clear - k else TWO64 + clear - k)
            && (FreePages(s) == clear <==> k == 0)
  {
    BelowSize(s.total);
    SubsetSize(s.taken, Below(s.total));
    assert |Below(s.total)| == |s.taken| + |Below(s.total) - s.taken| by {
      assert Below(s.total) == s.taken + (Below(s.total) - s.taken);
    }
  }

  /** The kernel's own call, pmm_init(4 GB), counts 32 pages twice. */
  lemma KernelInitUndercountsFree()
    ensures var s := InitState(0x1_0000_0000, 0);
            CountInv(s, 32) && FreePages(s) + 32 == |Below(s.total) - s.taken|
  {
    InitCount(0x1_0000_0000);
    var s := InitState(0x1_0000_0000, 0);
    ReservedIsPrefix(s.total);
    assert s.total == 0x100000 && BitmapPages(s.total) == 32;
    assert CountInv(s, 32);
    FreePagesReport(s, 32);
    BelowSize(0x100000);
    BelowSize(384);
    assert s.taken == Below(384);
    assert |Below(s.total) - s.taken| == 0x100000 - 384 by {
      assert Below(0x100000) == Below(384) + (Below(0x100000) - Below(384));
    }
  }

  // ---------------------------------------------------------------- runs

  datatype PmmOp = PmmAlloc | PmmFree(addr: nat)

  ghost function PmmStep(s: PmmState, op: PmmOp): PmmState {
    match op
    case PmmAlloc => AllocPage(s).0
    case PmmFree(addr) => FreePage(s, addr)
  }

  ghost function PmmRun(s: PmmState, ops: seq<PmmOp>): PmmState
    decreases |ops|
  {
    if ops == [] then s else PmmRun(PmmStep(s, ops[0]), ops[1..])
  }

  /** The excess of used_pages over the allocated pages never changes, whatever is freed. */
  lemma {:induction false} EveryRunKeepsCount(s: PmmState, ops: seq<PmmOp>, k: nat)
    requires CountInv(s, k)
    ensures CountInv(PmmRun(s, ops), k) && PmmRun(s, ops).total == s.total
    decreases |ops|
  {
    if ops != [] {
      AllocKeepsCount(s, k);
      if ops[0].PmmFree? { FreeKeepsCount(s, k, ops[0].addr); }
      EveryRunKeepsCount(PmmStep(s, ops[0]), ops[1..], k);
    }
  }

  /** The allocator together with the pages its clients hold. */
  datatype Client = Client(pmm: PmmState, held: set<nat>)

  ghost predicate ClientLegal(c: Client, op: PmmOp) {
    op.PmmFree? ==> op.addr / PAGE_SIZE in c.held
  }

  ghost function ClientStep(c: Client, op: PmmOp): Client {
    match op
    case PmmAlloc =>
      var (s, addr) := AllocPage(c.pmm);
      Client(s, if addr == 0 then c.held else c.held + {addr / PAGE_SIZE})
    case PmmFree(addr) =>
      Client(FreePage(c.pmm, addr), c.held - {addr / PAGE_SIZE})
  }

  ghost function ClientRun(c: Client, ops: seq<PmmOp>): Client
    decreases |ops|
  {
    if ops == [] then c else ClientRun(ClientStep(c, ops[0]), ops[1..])
  }

  ghost predicate ClientLegalRun(c: Client, ops: seq<PmmOp>)
    decreases |ops|
  {
    ops == [] || (ClientLegal(c, ops[0]) && ClientLegalRun(ClientStep(c, ops[0]), ops[1..]))
  }

  /** Every allocated page is either reserved since pmm_init or held by a client, never both. */
  ghost predicate Partitioned(c: Client) {
    var r := Reserved(c.pmm.total);
    && c.pmm.taken == r + c.held && r !! c.held
    && c.held <= Below(c.pmm.total)
  }

  lemma InitIsPartitioned(totalMemory: nat, used: nat)
    requires totalMemory < TWO64
    ensures Partitioned(Client(InitState(totalMemory, used), {}))
  {}

  lemma ClientStepKeepsPartition(c: Client, op: PmmOp)
    requires Partitioned(c) && ClientLegal(c, op)
    ensures Partitioned(ClientStep(c, op)) && ClientStep(c, op).pmm.total == c.pmm.total
  {
    var r := Reserved(c.pmm.total);
    assert c.pmm.total > 0 ==> 0 in r;
    if op.PmmAlloc? && AllocPage(c.pmm).0 != c.pmm {
      AllocIsLeast(c.pmm, 0);
      var q := AllocPage(c.pmm).1 / PAGE_SIZE;
      assert q !in r && q != 0;
      assert c.pmm.taken + {q} == r + (c.held + {q});
    } else if op.PmmFree? {
      var p := op.addr / PAGE_SIZE;
      assert c.pmm.taken - {p} == r + (c.held - {p});
    }
  }

  /** Over every run whose clients free only what they hold, no page is lost and none is shared. */
  lemma {:induction false} EveryLegalRunIsPartitioned(c: Client, ops: seq<PmmOp>)
    requires Partitioned(c) && ClientLegalRun(c, ops)
    ensures Partitioned(ClientRun(c, ops)) && ClientRun(c, ops).pmm.total == c.pmm.total
    decreases |ops|
  {
    if ops != [] {
      ClientStepKeepsPartition(c, ops[0]);
      EveryLegalRunIsPartitioned(ClientStep(c, ops[0]), ops[1..]);
    }
  }

  /** The page of every bitmap byte is among those pmm_init sets for the bitmap. */
  lemma BitmapByteReserved(total: nat, k: nat)
    requires k < BitmapSize(total)
    ensures InBitmap(total, BitmapBytePage(k)) && IsReserved(total, BitmapBytePage(k))
  {}

  /** Self-protection: in such a run an allocation never hands out page 0, a page below 384, a page
      of the bitmap, or a page someone holds; and it fails exactly when every page is taken. */
  lemma SelfProtection(totalMemory: nat, ops: seq<PmmOp>)
    requires totalMemory < TWO64
    requires ClientLegalRun(Client(InitState(totalMemory, 0), {}), ops)
    ensures var c := ClientRun(Client(InitState(totalMemory, 0), {}), ops);
            var addr := AllocPage(c.pmm).1;
            && (addr == 0 <==> Below(c.pmm.total) <= c.pmm.taken)
            && (addr != 0 ==> addr % PAGE_SIZE == 0 && 384 <= addr / PAGE_SIZE < c.pmm.total
                              && addr / PAGE_SIZE !in c.held
                              && forall k :: 0 <= k < BitmapSize(c.pmm.total) ==> BitmapBytePage(k) != addr / PAGE_SIZE)
  {
    var c0 := Client(InitState(totalMemory, 0), {});
    InitIsPartitioned(totalMemory, 0);
    EveryLegalRunIsPartitioned(c0, ops);
    var c := ClientRun(c0, ops);
    AllocReturnsZeroIff(c.pmm);
    assert c.pmm.total > 0 ==> 0 in Reserved(c.pmm.total);
    if AllocPage(c.pmm).1 != 0 {
      AllocIsLeast(c.pmm, 0);
      var p := AllocPage(c.pmm).1 / PAGE_SIZE;
      assert p in Below(c.pmm.total);
      forall k | 0 <= k < BitmapSize(c.pmm.total)
        ensures BitmapBytePage(k) != p
      {
        BitmapByteReserved(c.pmm.total, k);
      }
    }
  }
}
