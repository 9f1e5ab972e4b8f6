/** The page bitmap of kernel/memory/pmm.c, updated in place. */
module Pmm {
  import opened Bits
  import opened MachineWords
  import opened PageSet

  ghost predicate BitSet(b: seq<Byte>, p: nat) {
    p < 8 * |b| && Bit(b[p / 8], p % 8)
  }

  /** The pages below total whose bit is set. */
  ghost function Taken(b: seq<Byte>, total: nat): set<nat> {
    set p | p in Below(total) && BitSet(b, p)
  }

  /** ~(1 << bit) cut to a byte. */
  function ClearMask(bit: nat): (m: Byte)
    requires bit < 8
    ensures m == Pow2(8) - 1 - Pow2(bit)
  {
    Pow2Monotone(bit, 8);
    255 - Pow2(bit)
  }

  /** byte | (1 << bit) sets one bit; byte & ~(1 << bit) clears one bit. */
  lemma ByteUpdate(x: Byte, bit: nat)
    requires bit < 8
    ensures Or(x, Pow2(bit)) < 256
    ensures forall k :: 0 <= k < 8 ==> (Bit(Or(x, Pow2(bit)), k) <==> Bit(x, k) || k == bit)
    ensures forall k :: 0 <= k < 8 ==> (Bit(And(x, ClearMask(bit)), k) <==> Bit(x, k) && k != bit)
  {
    assert Pow2(8) == 256;
    Pow2Monotone(bit, 8);
    OrBound(x, Pow2(bit), 8);
    forall k | 0 <= k < 8
      ensures Bit(Or(x, Pow2(bit)), k) <==> Bit(x, k) || k == bit
      ensures Bit(And(x, ClearMask(bit)), k) <==> Bit(x, k) && k != bit
    {
      OrBit(x, Pow2(bit), k);
      Pow2Bit(bit, k);
      NotBit(Pow2(bit), 8, k);
      AndBit(x, ClearMask(bit), k);
    }
  }

  /** Writing byte page/8 with one bit changed changes that page only. */
  lemma OneBitChanged(b: seq<Byte>, c: seq<Byte>, page: nat, on: bool)
    requires page / 8 < |b| && |c| == |b|
    requires forall k :: 0 <= k < |b| && k != page / 8 ==> c[k] == b[k]
    requires c[page / 8] == if on then Or(b[page / 8], Pow2(page % 8)) else And(b[page / 8], ClearMask(page % 8))
    ensures forall p: nat :: BitSet(c, p) <==> if p == page then on else BitSet(b, p)
  {
    ByteUpdate(b[page / 8], page % 8);
    forall p: nat
      ensures BitSet(c, p) <==> if p == page then on else BitSet(b, p)
    {
      if p / 8 == page / 8 {
        assert p % 8 == page % 8 <==> p == page;
      } else if p < 8 * |b| {
        assert c[p / 8] == b[p / 8];
      }
    }
  }

  lemma TakenIsReserved(b: seq<Byte>, total: nat)
    requires forall p: nat :: p < total ==> (BitSet(b, p) <==> IsReserved(total, p))
    ensures Taken(b, total) == Reserved(total)
  {}

  lemma AddModulo(x: nat, y: nat)
    ensures (x % TWO64 + y) % TWO64 == (x + y) % TWO64
  {}

  /** The memory that holds the bitmap and the three static variables. */
  class PageAllocator {
    // Bytes from 0x140000 on
    const bitmap: array<Byte>
    var totalPages: nat
    var usedPages: nat

    ghost function State(): PmmState
      reads this, bitmap
    {
      PmmState(totalPages, Taken(bitmap[..], totalPages), usedPages)
    }

    /** The bitmap fits its memory and the statics fit their types. */
    ghost predicate Valid()
      reads this
    {
      totalPages <= 8 * bitmap.Length && totalPages < TWO64 / PAGE_SIZE && usedPages < TWO64
    }

    constructor (memory: array<Byte>)
      ensures bitmap == memory && totalPages == 0 && usedPages == 0 && Valid()
    {
      bitmap := memory;
      totalPages, usedPages := 0, 0;
    }

    method IsPageAllocated(page: nat) returns (r: bool)
      requires page < 8 * bitmap.Length
      ensures r == BitSet(bitmap[..], page)
    {
      NonzeroHasBit(bitmap[page / 8], page % 8);
      r := And(bitmap[page / 8], Pow2(page % 8)) != 0;
    }

    method SetPageAllocated(page: nat)
      requires page < 8 * bitmap.Length
      modifies bitmap
      ensures forall p: nat :: BitSet(bitmap[..], p) <==> p == page || BitSet(old(bitmap[..]), p)
    {
      ByteUpdate(bitmap[page / 8], page % 8);
      bitmap[page / 8] := Or(bitmap[page / 8], Pow2(page % 8));
      OneBitChanged(old(bitmap[..]), bitmap[..], page, true);
    }

    method SetPageFree(page: nat)
      requires page < 8 * bitmap.Length
      modifies bitmap
      ensures forall p: nat :: BitSet(bitmap[..], p) <==> p != page && BitSet(old(bitmap[..]), p)
    {
      ByteUpdate(bitmap[page / 8], page % 8);
      bitmap[page / 8] := And(bitmap[page / 8], ClearMask(page % 8));
      OneBitChanged(old(bitmap[..]), bitmap[..], page, false);
    }

    /** Marks pages from..to and counts each, set before or not. */
    method Reserve(from: nat, to: nat)
      requires from <= to <= 8 * bitmap.Length && usedPages < TWO64
      modifies this`usedPages, bitmap
      ensures forall p: nat :: BitSet(bitmap[..], p) <==> from <= p < to || BitSet(old(bitmap[..]), p)
      ensures usedPages == (old(usedPages) + (to - from)) % TWO64
    {
      var i := from;
      while i < to
        invariant from <= i <= to
        invariant forall p: nat :: BitSet(bitmap[..], p) <==> from <= p < i || BitSet(old(bitmap[..]), p)
        invariant usedPages == (old(usedPages) + (i - from)) % TWO64
      {
        SetPageAllocated(i);
        AddModulo(old(usedPages) + (i - from), 1);
        usedPages := (usedPages + 1) % TWO64;
        i := i + 1;
      }
    }

    /** The three reservation loops of pmm_init. */
    method ReserveKnown(bitmapPages: nat)
      requires RESERVED_END <= 8 * bitmap.Length && usedPages < TWO64
      requires BITMAP_PAGE + bitmapPages <= 8 * bitmap.Length
      modifies this`usedPages, bitmap
      ensures forall p: nat :: BitSet(bitmap[..], p) <==>
                p < RESERVED_END || BITMAP_PAGE <= p < BITMAP_PAGE + bitmapPages || BitSet(old(bitmap[..]), p)
      ensures usedPages == (old(usedPages) + RESERVED_END + bitmapPages) % TWO64
    {
      ghost var u := usedPages;
      Reserve(0, LOW_PAGES);
      assert usedPages == (u + LOW_PAGES) % TWO64;
      Reserve(LOW_PAGES, LOW_PAGES + KERNEL_PAGES);
      assert usedPages == (u + RESERVED_END) % TWO64 by {
        AddModulo(u + LOW_PAGES, KERNEL_PAGES);
      }
      Reserve(BITMAP_PAGE, BITMAP_PAGE + bitmapPages);
      AddModulo(u + RESERVED_END, bitmapPages);
    }

    method ClearBytes(n: nat)
      requires n <= bitmap.Length
      modifies bitmap
      ensures forall p: nat :: BitSet(bitmap[..], p) <==> p >= 8 * n && BitSet(old(bitmap[..]), p)
    {
      var i := 0;
      while i < n
        invariant i <= n
        invariant forall k :: 0 <= k < i ==> bitmap[k] == 0
        invariant forall k :: i <= k < bitmap.Length ==> bitmap[k] == old(bitmap[k])
      {
        bitmap[i] := 0;
        i := i + 1;
      }
      forall p: nat
        ensures BitSet(bitmap[..], p) <==> p >= 8 * n && BitSet(old(bitmap[..]), p)
      {
        BitOfZero(p % 8);
      }
    }

    /** Any memory size: the memory at 0x140000 need only hold what pmm_init writes there. */
    method PmmInit(totalMemory: nat)
      requires totalMemory < TWO64 && Valid()
      requires BitmapSize(totalMemory / PAGE_SIZE) <= bitmap.Length && RESERVED_END <= 8 * bitmap.Length
      modifies this, bitmap
      ensures Valid()
      ensures State() == InitState(totalMemory, old(usedPages))
      ensures totalPages == totalMemory / 4096
      ensures forall p: nat :: BitSet(bitmap[..], p) <==>
                || p < 384 || 320 <= p < 320 + BitmapPages(totalPages)
                || (p >= (totalPages + 7) / 8 * 8 && BitSet(old(bitmap[..]), p))
    {
      totalPages := totalMemory / PAGE_SIZE;
      var bitmapPages := BitmapPages(totalPages);
      ReservedBound(totalPages);
      ClearBytes(BitmapSize(totalPages));
      ReserveKnown(bitmapPages);
      TakenIsReserved(bitmap[..], totalPages);
    }

    method PmmAllocPage() returns (addr: nat)
      requires Valid()
      modifies this`usedPages, bitmap
      ensures Valid()
      ensures (State(), addr) == AllocPage(old(State()))
      ensures addr % 4096 == 0 && (addr != 0 ==> State().taken == old(State().taken) + {addr / 4096})
      ensures forall p: nat :: p >= totalPages ==> (BitSet(bitmap[..], p) <==> BitSet(old(bitmap[..]), p))
    {
      var page := 0;
      while page < totalPages
        modifies {}
        invariant page <= totalPages
        invariant forall p: nat :: p < page ==> p in State().taken
      {
        var taken := IsPageAllocated(page);
        if !taken {
          break;
        }
        page := page + 1;
      }
      NextFreeIs(State().taken, page, totalPages);
      if page == totalPages {
        return 0;
      }
      SetPageAllocated(page);
      usedPages := (usedPages + 1) % TWO64;
      addr := page * PAGE_SIZE;
      assert State().taken == old(State().taken) + {page};
    }

    method PmmFreePage(addr: nat)
      requires Valid()
      modifies this`usedPages, bitmap
      ensures Valid()
      ensures State() == FreePage(old(State()), addr)
      ensures State().taken == old(State().taken) - {addr / 4096}
      ensures forall p: nat :: p >= totalPages ==> (BitSet(bitmap[..], p) <==> BitSet(old(bitmap[..]), p))
    {
      var page := addr / PAGE_SIZE;
      FreeClears(State(), addr);
      if page >= totalPages {
        return;
      }
      var taken := IsPageAllocated(page);
      if taken {
        SetPageFree(page);
        usedPages := (usedPages - 1) % TWO64;
        assert State().taken == old(State().taken) - {page};
      }
    }

    /** With a counter that exceeds the taken pages by k, the pages that are clear less k, and almost
        2^64 when fewer than k are clear: the true count exactly when k is 0. */
    method PmmGetFreePages() returns (n: nat)
      requires Valid()
      ensures n < TWO64 && (n + State().used) % TWO64 == State().total % TWO64
      ensures forall k: nat :: CountInv(State(), k) ==>
                var clear := |Below(State().total) - State().taken|;
                n == (if clear >= k then clear - k else TWO64 + clear - k) && (n == clear <==> k == 0)
    {
      n := (totalPages - usedPages) % TWO64;
      ghost var s := State();
      CompletesUsed(s.total, s.used);
      forall k: nat | CountInv(s, k)
        ensures var clear := |Below(s.total) - s.taken|;
                n == (if clear >= k then clear - k else TWO64 + clear - k) && (n == clear <==> k == 0)
      {
        FreePagesReport(s, k);
      }
    }
  }

  lemma CompletesUsed(total: int, used: int)
    ensures ((total - used) % TWO64 + used) % TWO64 == total % TWO64
  {}
}
