/** The heap region of kernel/memory/kmalloc.c against the pages of kernel/memory/pmm.c. */
module MemoryMap {
  import opened MachineWords
  import opened PageSet
  import BlockList
  import Heap
  import PageWords

  /** pmm_init does not reserve the heap. The first page pmm_alloc_page hands out lies inside
      [0x180000, 0x200000) exactly when there is memory past 0x180000 and the bitmap ends below page
      512; with a bitmap of at most 64 pages it is the very page of the first heap header. */
  lemma FirstPageInHeapIff(totalMemory: nat)
    requires totalMemory < TWO64
    ensures var total := totalMemory / PAGE_SIZE;
            var addr := AllocPage(InitState(totalMemory, 0)).1;
            && (BlockList.HEAP_START <= addr < BlockList.HEAP_END <==>
                total > RESERVED_END && BITMAP_PAGE + BitmapPages(total) < BlockList.HEAP_END / PAGE_SIZE)
            && (total > RESERVED_END && BitmapPages(total) <= 64 ==> addr == BlockList.HEAP_START)
  {
    var total := totalMemory / PAGE_SIZE;
    var end := BITMAP_PAGE + BitmapPages(total);
    var first := if end > RESERVED_END then end else RESERVED_END;
    ReservedIsPrefix(total);
    if total > RESERVED_END {
      NextFreeIs(Reserved(total), first, total);
    } else {
      NextFreeIs(Reserved(total), total, total);
    }
  }

  /** So it is on the kernel's own configuration, pmm_init(4 GB). */
  lemma KernelFirstPageIsHeapStart()
    ensures AllocPage(InitState(0x1_0000_0000, 0)).1 == BlockList.HEAP_START
  {
    FirstPageInHeapIff(0x1_0000_0000);
    assert 0x1_0000_0000 / PAGE_SIZE == 0x100000 && BitmapPages(0x100000) == 32;
  }

  /** With more than 8 GB the heap's first header lies on the bitmap itself, at its byte 0x40000. */
  lemma HeapOnBitmapIff(totalMemory: nat)
    ensures var total := totalMemory / PAGE_SIZE;
            && (InBitmap(total, BlockList.HEAP_START / PAGE_SIZE) <==> totalMemory >= 0x2_0000_0000 + PAGE_SIZE)
            && (InBitmap(total, BlockList.HEAP_START / PAGE_SIZE) <==> BitmapSize(total) > 0x40000)
            && 0x140000 + 0x40000 == BlockList.HEAP_START
  {}

  /** The words of the heap's region. */
  ghost function HeapWords(m: seq<Word>): seq<Word>
    requires 8 * |m| >= BlockList.HEAP_END
  {
    m[BlockList.HEAP_START / 8..BlockList.HEAP_END / 8]
  }

  /** Up to there, the first table that is linked is the heap's first page, and clearing it leaves no
      heap: the region then holds no list of blocks at all. */
  lemma FirstTableErasesHeap(m: seq<Word>, totalMemory: nat, bs: seq<BlockList.Block>)
    requires BlockList.HEAP_START < totalMemory / PAGE_SIZE * PAGE_SIZE && totalMemory < 0x2_0000_0000 + PAGE_SIZE
    requires 8 * |m| >= BlockList.HEAP_END
    requires BlockList.Tiles(bs, BlockList.HEAP_START, BlockList.HEAP_END)
    ensures var addr := AllocPage(InitState(totalMemory, 0)).1;
            addr == BlockList.HEAP_START && !Heap.Represents(HeapWords(PageWords.ZeroWords(m, addr / PAGE_SIZE)), bs)
  {
    FirstPageInHeapIff(totalMemory);
    HeapOnBitmapIff(totalMemory);
    NoHeapInZeros(HeapWords(PageWords.ZeroWords(m, BlockList.HEAP_START / PAGE_SIZE)), bs);
  }

  lemma NoHeapInZeros(h: seq<Word>, bs: seq<BlockList.Block>)
    requires |h| >= 3 && h[0] == 0 && h[2] == 0
    requires BlockList.Tiles(bs, BlockList.HEAP_START, BlockList.HEAP_END)
    ensures !Heap.Represents(h, bs)
  {
    BlockList.TilesAt(bs, BlockList.HEAP_START, BlockList.HEAP_END, 0);
    assert Heap.Chain(h, bs, 0) ==> Heap.LinkAt(h, bs, 0, 0);
  }
}
