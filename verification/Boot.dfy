/** paging_init and heap_install one after the other, for every memory size they serve. */
module Boot {
  import opened Memory
  import opened Frames
  import opened Placement
  import opened Paging
  import opened HeapWindow
  import opened FrameAccounts
  import HeapLayout
  import HeapState
  import HeapCreate

  /** Where mm.c starts placing, and sizeof(page_directory_t). */
  const PLACED := 0x20_0000
  const DIRECTORY_SIZE := 2 * 4 * ENTRIES + 4

  /** INDEX_FROM_BIT(nframes), which the source takes both as a count of words and as a size in bytes. */
  function FrameWords(availableKilobytes: nat): nat {
    U32(availableKilobytes * 1024) / PAGE_SIZE / 32
  }

  /** The source reserves `words` bytes for the bitmap and uses as many words of it: it stays clear of the directory
      behind it exactly up to 1024 words. */
  lemma BitmapClearOfDirectory(words: nat)
    requires 32 * words <= FRAME_LIMIT
    ensures PLACED + 4 * words <= Landing(PLACED + words, true) <==> words <= 1024
  {
  }

  /** One table is enough for the identity map. */
  lemma OneTable(words: nat)
    requires 32 * words <= FRAME_LIMIT
    ensures var at := Landing(PLACED + words, true) + DIRECTORY_SIZE;
            TablesNeeded(at, 0) == 1 && FinalPlacement(at) == AfterTable(at) && at < 0x20_C000
  {
    var at := Landing(PLACED + words, true) + DIRECTORY_SIZE;
    TablesNeededLeast(at, 0);
    assert AfterTables(at, 0) == at && AfterTables(at, 1) == AfterTable(at) <= TABLE_SPAN;
  }

  /** The accounts of frames open right after the heap range is mapped. */
  lemma AssignedAccounts(flat: map<nat, Page>, used: set<nat>, n: nat, j: nat)
    requires Assigned(flat, used, n, j) && 0 < n
    ensures Accounts(flat, used)
  {
    forall f | f in used && f != 0
      ensures f in Owned(flat)
    {
      var p := if f < n then f else HEAP_PAGE + (f - n);
      assert p in flat && flat[p] == AssignedEntry(p, n, j);
      assert flat[p].frame == f;
    }
    forall f | f in Owned(flat) + {0}
      ensures f in used
    {
      if f != 0 {
        var p :| p in flat && flat[p].frame != 0 && flat[p].frame == f;
        assert flat[p] == AssignedEntry(p, n, j);
      }
    }
    forall p, q | p in flat && q in flat && p != q && flat[p].frame != 0
      ensures flat[p].frame != flat[q].frame
    {
      assert flat[p] == AssignedEntry(p, n, j) && flat[q] == AssignedEntry(q, n, j);
    }
  }

  /** The addresses of the pages a map of entries makes present. */
  ghost function MappedPages(flat: map<nat, Page>): set<nat> {
    set p | p in flat && flat[p].present :: p * PAGE_SIZE
  }

  /** heap_install maps every page of the heap range, and not the one behind it. */
  lemma AssignedMapsHeap(flat: map<nat, Page>, used: set<nat>, n: nat)
    requires Assigned(flat, used, n, 0xFFF)
    ensures HeapState.PagesMapped(0x0100_0000, 0x01FF_F000, MappedPages(flat))
    ensures 0x01FF_F000 !in MappedPages(flat)
  {
    forall a | KHEAP_START <= a < KHEAP_MAX && a % PAGE_SIZE == 0
      ensures a in MappedPages(flat)
    {
      var p := a / PAGE_SIZE;
      assert p in flat && flat[p] == AssignedEntry(p, n, 0xFFF);
    }
  }

  /** What boot maps is what create_heap needs: the heap made over it is valid. */
  lemma BootedHeapValid(flat: map<nat, Page>, used: set<nat>, n: nat, m: seq<Byte>)
    requires Assigned(flat, used, n, 0xFFF)
    requires |m| == WORD_LIMIT && Get32(m, 0x0108_1000 - 8) != HEAP_MAGIC
    ensures var r := HeapCreate.KernelHeap(m, MappedPages(flat));
            r.Next? && HeapState.Inv(r.s, [HeapLayout.Seg(0x7_F000, true)])
  {
    hide Get32, HeapCreate.KernelHeap, Assigned, MappedPages;
    AssignedMapsHeap(flat, used, n);
    assert HeapState.PagesMapped(0x0108_1000, 0x0110_0000, MappedPages(flat));
    HeapCreate.KernelHeapValid(m, MappedPages(flat));
  }

  lemma ReducedWord(k: nat, r: nat)
    requires r < WORD_LIMIT
    ensures U32(k * WORD_LIMIT + r) == r
  {
  }

  /** The frames left. */
  lemma AssignedLeaves(flat: map<nat, Page>, used: set<nat>, n: nat)
    requires Assigned(flat, used, n, 0xFFF)
    ensures forall f: nat :: f !in used <==> n + 0xFFF <= f
  {
  }

  /** A bitmap word for every 128 KiB of memory, as long as the size in bytes fits 32 bits. */
  lemma FrameWordsIs(availableKilobytes: nat)
    ensures FrameWords(availableKilobytes) == availableKilobytes % 0x40_0000 / 128
    ensures availableKilobytes < 0x40_0000 ==> FrameWords(availableKilobytes) == availableKilobytes / 128
    ensures 32 * FrameWords(availableKilobytes) <= FRAME_LIMIT
  {
    var k := availableKilobytes / 0x40_0000;
    assert availableKilobytes * 1024 == k * WORD_LIMIT + availableKilobytes % 0x40_0000 * 1024;
    ReducedWord(k, availableKilobytes % 0x40_0000 * 1024);
  }

  /** Where placement stands behind the directory, and where the window behind the identity map starts. */
  lemma WindowIs(words: nat)
    requires 32 * words <= FRAME_LIMIT
    ensures Landing(PLACED + words, true) + DIRECTORY_SIZE == 0x20_3004 + words / 0x1000 * 0x1000
    ensures FinalPlacement(Landing(PLACED + words, true) + DIRECTORY_SIZE) == 0x20_5000 + words / 0x1000 * 0x1000
  {
    OneTable(words);
  }

  /** With at least 145 words of frames, boot ends with the low memory mapped onto itself up to the end of the window,
      the heap range mapped to the frames behind it by four tables inside the window, heap_t behind those, every page
      mapped that the heap can grow to, the frames accounted for, and all others free. */
  method BootPaging(availableKilobytes: nat) returns (pager: Pager, heap: nat)
    requires 145 <= availableKilobytes % 0x40_0000 / 128
    ensures fresh(pager) && pager.Valid()
    ensures pager.frames.Length == availableKilobytes % 0x40_0000 / 128
    ensures availableKilobytes < 0x40_0000 ==> pager.frames.Length == availableKilobytes / 128
    ensures var window := 0x20_5000 + pager.frames.Length / 0x1000 * 0x1000;
            && Assigned(pager.Flat(), pager.InUse(), window / 0x1000 + 0x10, 0xFFF)
            && (forall f: nat :: f < 32 * pager.frames.Length && f !in pager.InUse() <==>
                  window / 0x1000 + 0x10 + 0xFFF <= f < 32 * pager.frames.Length)
            && HeapTables(pager, window, 1)
            && heap == window + 0x9000 && pager.placement == heap + 32 <= window + 0x1_0000 <= 0x40_0000
    ensures Accounts(pager.Flat(), pager.InUse())
    ensures HeapState.PagesMapped(0x0100_0000, 0x01FF_F000, MappedPages(pager.Flat()))
  {
    hide TablesNeeded, AfterTables, Identity, Assigned, Used, Accounts, Pager.SlotOk, MappedPages,
      HeapState.PagesMapped, FinalPlacement, Landing;
    var words := FrameWords(availableKilobytes);
    FrameWordsIs(availableKilobytes);
    OneTable(words);
    WindowIs(words);
    pager := new Pager.Init(PLACED, words, DIRECTORY_SIZE);
    var i := pager.IdentityMap();
    ghost var window := pager.placement;
    forall a | window <= a < window + WINDOW
      ensures pager.tables[PageNumber(a) / ENTRIES] != null
    {
    }
    MapWindow(pager);
    heap := MapHeap(pager, 1);
    AssignedAccounts(pager.Flat(), pager.InUse(), (window + WINDOW) / PAGE_SIZE, 0xFFF);
    AssignedMapsHeap(pager.Flat(), pager.InUse(), (window + WINDOW) / PAGE_SIZE);
    AssignedLeaves(pager.Flat(), pager.InUse(), (window + WINDOW) / PAGE_SIZE);
  }
}
