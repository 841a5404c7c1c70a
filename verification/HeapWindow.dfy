/** heap_install up to create_heap: the 64 KiB window and the pages of the heap range. */
module HeapWindow {
  import opened Memory
  import opened Frames
  import opened Placement
  import opened Paging

  const WINDOW := 0x1_0000

  /** sizeof(heap_t) */
  const HEAP_T_SIZE := 32

  const HEAP_PAGE := KHEAP_START / PAGE_SIZE
  const HEAP_TABLE := KHEAP_START / TABLE_SPAN

  /** The window lies in tables that exist. */
  ghost predicate WindowCovered(pager: Pager)
    reads pager, pager.tables
  {
    && pager.tables.Length == ENTRIES && pager.placement + WINDOW <= WORD_LIMIT
    && forall i :: pager.placement <= i < pager.placement + WINDOW ==> pager.tables[PageNumber(i) / ENTRIES] != null
  }

  lemma TableOf(i: nat)
    requires i < WORD_LIMIT
    ensures PageNumber(i) / ENTRIES < ENTRIES
  {
  }

  lemma IdentityEnables(flat: map<nat, Page>, used: set<nat>, n: nat)
    requires Identity(flat, used, n)
    ensures n in flat ==> flat[n].frame == 0
    ensures n !in used
  {
  }

  lemma EntriesOfTables(pager: Pager, q: nat)
    requires pager.Valid() && q < PAGES
    ensures q in pager.Flat() <==> pager.tables[q / ENTRIES] != null
    ensures q !in pager.Flat() ==> forall p :: p in pager.Flat() ==> p / ENTRIES != q / ENTRIES
  {
    hide Used, Pager.SlotOk;
  }

  method MapWindowPage(pager: Pager, i: nat) returns (next: nat)
    requires pager.Valid() && i % PAGE_SIZE == 0 && i < WORD_LIMIT
    requires pager.tables[PageNumber(i) / ENTRIES] != null && i < 32 * pager.frames.Length * PAGE_SIZE
    requires Identity(pager.Flat(), pager.InUse(), i / PAGE_SIZE)
    modifies pager`placement, pager.tables, pager.tablesPhysical, pager.frames, pager.Entries()
    ensures pager.Valid() && pager.placement == old(pager.placement) && next == i + PAGE_SIZE && next % PAGE_SIZE == 0
    ensures forall t :: 0 <= t < ENTRIES ==> pager.tables[t] == old(pager.tables[t])
    ensures Identity(pager.Flat(), pager.InUse(), next / PAGE_SIZE)
  {
    hide Used, Pager.SlotOk, TablesBelow, InTable, ZeroTable, Landing, AfterTable, Pager.Flat, Pager.InUse, Identity;
    ghost var flat, used := pager.Flat(), pager.InUse();
    SpanStep(i);
    EntriesOfTables(pager, i / PAGE_SIZE);
    IdentityEnables(flat, used, i / PAGE_SIZE);
    var index := pager.MapNext(i);
    IdentityStep(flat, used, i / PAGE_SIZE, index, pager.Flat(), pager.InUse());
    next := i + PAGE_SIZE;
  }

  /** The first loop of heap_install: it maps the window behind the placement address, and continues the identity
      map. No table is made, so the bound stays where it is. */
  method MapWindow(pager: Pager)
    requires pager.Valid() && pager.placement % PAGE_SIZE == 0
    requires Identity(pager.Flat(), pager.InUse(), pager.placement / PAGE_SIZE) && WindowCovered(pager)
    requires pager.placement + WINDOW <= 32 * pager.frames.Length * PAGE_SIZE
    modifies pager`placement, pager.tables, pager.tablesPhysical, pager.frames, pager.Entries()
    ensures pager.Valid() && pager.placement == old(pager.placement)
    ensures forall t :: 0 <= t < ENTRIES ==> pager.tables[t] == old(pager.tables[t])
    ensures Identity(pager.Flat(), pager.InUse(), (pager.placement + WINDOW) / PAGE_SIZE)
  {
    hide Identity, Used, Pager.SlotOk, Pager.Flat, Pager.InUse, PageNumber;
    var i := pager.placement;
    while i < pager.placement + WINDOW
      invariant pager.Valid() && pager.placement == old(pager.placement) <= i <= pager.placement + WINDOW <= WORD_LIMIT
      invariant i % PAGE_SIZE == 0 && pager.placement + WINDOW <= 32 * pager.frames.Length * PAGE_SIZE
      invariant forall t :: 0 <= t < ENTRIES ==> pager.tables[t] == old(pager.tables[t])
      invariant Identity(pager.Flat(), pager.InUse(), i / PAGE_SIZE)
    {
      TableOf(i);
      assert old(pager.tables[PageNumber(i) / ENTRIES]) != null;
      i := MapWindowPage(pager, i);
    }
  }

  function AssignedEntry(p: nat, n: nat, j: nat): Page {
    if p < n then Page(true, false, true, p)
    else if HEAP_PAGE <= p < HEAP_PAGE + j then Page(true, false, true, n + (p - HEAP_PAGE))
    else ZERO_PAGE
  }

  /** The first n pages are mapped to the frames of the same numbers and the first j pages of the heap range to the
      frames behind them; the other entries are zero. */
  ghost predicate Assigned(flat: map<nat, Page>, used: set<nat>, n: nat, j: nat) {
    && n <= HEAP_PAGE
    && (forall f: nat :: f in used <==> f < n + j)
    && (forall p :: 0 <= p < n || HEAP_PAGE <= p < HEAP_PAGE + j ==> p in flat)
    && forall p :: p in flat ==> flat[p] == AssignedEntry(p, n, j)
  }

  lemma AssignedStep(flat: map<nat, Page>, used: set<nat>, n: nat, j: nat, index: nat, flat': map<nat, Page>, used': set<nat>)
    requires Assigned(flat, used, n, j) && index !in used && (forall f :: 0 <= f < index ==> f in used)
    requires HEAP_PAGE + j < PAGES
    requires flat' == (if HEAP_PAGE + j in flat then flat else flat + ZeroTable((HEAP_PAGE + j) / ENTRIES))
                        [HEAP_PAGE + j := Page(true, false, true, index)]
    requires HEAP_PAGE + j !in flat ==> forall p :: p in flat ==> p / ENTRIES != (HEAP_PAGE + j) / ENTRIES
    requires used' == used + {index}
    ensures index == n + j && Assigned(flat', used', n, j + 1)
  {
    assert n + j !in used;
    assert index == n + j;
    forall p | p in flat' && p != HEAP_PAGE + j
      ensures flat'[p] == AssignedEntry(p, n, j + 1)
    {
      if p < n || HEAP_PAGE <= p < HEAP_PAGE + j {
        assert p in flat;
      }
    }
  }

  /** The address of a table of the heap range, the placement address being w before the first. */
  function TableAt(w: nat, t: nat): nat {
    w + 0x1000 + 0x2000 * (if t >= HEAP_TABLE then t - HEAP_TABLE else 0)
  }

  /** The second loop of heap_install after j pages: k tables were there before it, and those it makes lie every other
      page behind the placement address w it started with. */
  ghost predicate HeapMapping(pager: Pager, w: nat, n: nat, k: nat, j: nat)
    reads pager, pager.tables, pager.tablesPhysical, pager.Entries(), pager.frames
  {
    && pager.Valid() && k <= HEAP_TABLE && PAGE_SIZE <= w && w % PAGE_SIZE == 0 && j < 0x1000
    && pager.placement == AfterTables(w, TablesBelow(j * PAGE_SIZE)) && w + WINDOW <= WORD_LIMIT
    && n + 0xFFF <= 32 * pager.frames.Length
    && (forall t :: 0 <= t < ENTRIES ==>
          (pager.tables[t] != null <==> t < k || HEAP_TABLE <= t < HEAP_TABLE + TablesBelow(j * PAGE_SIZE)))
    && (forall t :: HEAP_TABLE <= t < HEAP_TABLE + TablesBelow(j * PAGE_SIZE) && t < ENTRIES && pager.tables[t] != null ==>
          pager.tables[t].address == TableAt(w, t))
    && Assigned(pager.Flat(), pager.InUse(), n, j)
  }

  lemma OneTableMore(w: nat, x: nat)
    ensures AfterTables(w, x + 1) == AfterTable(AfterTables(w, x))
  {
  }

  /** Page j of the heap range: its table, and the number of tables before and after it is mapped. */
  lemma HeapSpan(j: nat)
    requires j < 0xFFF
    ensures var i, x, y := KHEAP_START + j * PAGE_SIZE, TablesBelow(j * PAGE_SIZE), j * PAGE_SIZE / TABLE_SPAN;
            && i < WORD_LIMIT && PageNumber(i) == HEAP_PAGE + j && PageNumber(i) / ENTRIES == HEAP_TABLE + y && y < 4
            && TablesBelow((j + 1) * PAGE_SIZE) == y + 1 && (x == y || x == y + 1)
  {
    SpanStep(j * PAGE_SIZE);
  }

  lemma AssignedEnables(flat: map<nat, Page>, used: set<nat>, n: nat, j: nat)
    requires Assigned(flat, used, n, j)
    ensures HEAP_PAGE + j in flat ==> flat[HEAP_PAGE + j].frame == 0
    ensures n + j !in used
  {
  }

  lemma HeapMappingEnables(pager: Pager, w: nat, n: nat, k: nat, j: nat)
    requires HeapMapping(pager, w, n, k, j) && j < 0xFFF
    ensures var i, x := KHEAP_START + j * PAGE_SIZE, TablesBelow(j * PAGE_SIZE);
            && i < WORD_LIMIT && PageNumber(i) == HEAP_PAGE + j
            && PageNumber(i) / ENTRIES == HEAP_TABLE + j * PAGE_SIZE / TABLE_SPAN
            && TablesBelow((j + 1) * PAGE_SIZE) == j * PAGE_SIZE / TABLE_SPAN + 1
            && (pager.tables[PageNumber(i) / ENTRIES] == null ==>
                  && TablesBelow((j + 1) * PAGE_SIZE) == x + 1 && PageNumber(i) / ENTRIES == HEAP_TABLE + x
                  && AfterTable(pager.placement) == AfterTables(w, x + 1) <= WORD_LIMIT
                  && Landing(pager.placement, true) == TableAt(w, PageNumber(i) / ENTRIES))
            && (pager.tables[PageNumber(i) / ENTRIES] != null ==> TablesBelow((j + 1) * PAGE_SIZE) == x)
            && (PageNumber(i) in pager.Flat() ==> pager.Flat()[PageNumber(i)].frame == 0)
            && n + j < 32 * pager.frames.Length && n + j !in pager.InUse()
            && w <= pager.placement <= Landing(pager.placement, true)
  {
    hide Used, Pager.SlotOk, Assigned, Pager.Flat, Pager.InUse, TablesBelow, AfterTables;
    HeapSpan(j);
    EntriesOfTables(pager, HEAP_PAGE + j);
    AssignedEnables(pager.Flat(), pager.InUse(), n, j);
    TablesFromBoundary(w, TablesBelow(j * PAGE_SIZE));
    TablesFromBoundary(w, TablesBelow(j * PAGE_SIZE) + 1);
    OneTableMore(w, TablesBelow(j * PAGE_SIZE));
  }

  method MapHeapPage(pager: Pager, ghost w: nat, ghost n: nat, ghost k: nat, j: nat)
    requires HeapMapping(pager, w, n, k, j) && j < 0xFFF
    modifies pager`placement, pager.tables, pager.tablesPhysical, pager.frames, pager.Entries()
    ensures HeapMapping(pager, w, n, k, j + 1)
    ensures forall t :: 0 <= t < ENTRIES && pager.tables[t] != null ==>
      pager.tables[t] == old(pager.tables[t]) || (fresh(pager.tables[t]) && fresh(pager.tables[t].pages))
  {
    hide AfterTables, TablesBelow, Assigned, PageNumber, Used, InTable, ZeroTable, Pager.SlotOk, Landing, Pager.Flat,
      Pager.InUse;
    HeapMappingEnables(pager, w, n, k, j);
    EntriesOfTables(pager, HEAP_PAGE + j);
    ghost var flat, used := pager.Flat(), pager.InUse();
    ghost var x := TablesBelow(j * PAGE_SIZE);
    var index := pager.MapNext(KHEAP_START + j * PAGE_SIZE);
    AssignedStep(flat, used, n, j, index, pager.Flat(), pager.InUse());
    assert pager.placement == AfterTables(w, TablesBelow((j + 1) * PAGE_SIZE));
  }

  lemma HeapMappingStarts(pager: Pager, k: nat)
    requires pager.Valid() && pager.TablesUpTo(k) && k <= HEAP_TABLE && pager.placement + WINDOW <= KHEAP_START
    requires pager.placement % PAGE_SIZE == 0
    requires Identity(pager.Flat(), pager.InUse(), (pager.placement + WINDOW) / PAGE_SIZE)
    requires (pager.placement + WINDOW) / PAGE_SIZE + 0xFFF <= 32 * pager.frames.Length
    ensures HeapMapping(pager, pager.placement, (pager.placement + WINDOW) / PAGE_SIZE, k, 0)
  {
    hide Used;
    assert TablesBelow(0) == 0;
  }

  /** The tables that map the heap range: numbers 4 to 7, every other page from the one behind w on. */
  ghost predicate HeapTables(pager: Pager, w: nat, k: nat)
    reads pager, pager.tables
  {
    && pager.tables.Length == ENTRIES
    && (forall t :: 0 <= t < ENTRIES ==> (pager.tables[t] != null <==> t < k || 4 <= t < 8))
    && forall t :: 4 <= t < 8 && pager.tables[t] != null ==> pager.tables[t].address == w + 0x1000 + 0x2000 * (t - 4)
  }

  /** Four tables cover the heap range. */
  lemma HeapMappingEnds(pager: Pager, w: nat, n: nat, k: nat)
    requires HeapMapping(pager, w, n, k, 0xFFF)
    ensures pager.Valid() && Assigned(pager.Flat(), pager.InUse(), n, 0xFFF) && HeapTables(pager, w, k)
    ensures Landing(pager.placement, true) == w + 0x9000 && w + 0x9000 + HEAP_T_SIZE <= WORD_LIMIT
  {
    hide AfterTables, Assigned, Used;
    TablesFromBoundary(w, 4);
    assert TablesBelow(0xFFF * PAGE_SIZE) == 4;
  }

  /** The allocation of heap_t, which no table depends on. */
  method PlaceHeap(pager: Pager) returns (heap: nat)
    requires pager.Valid() && Landing(pager.placement, true) + HEAP_T_SIZE <= WORD_LIMIT
    modifies pager`placement
    ensures pager.Valid() && pager.Flat() == old(pager.Flat()) && pager.InUse() == old(pager.InUse())
    ensures heap == Landing(old(pager.placement), true) && pager.placement == heap + HEAP_T_SIZE
  {
    hide Used, Pager.SlotOk;
    heap := pager.KmallocInt(HEAP_T_SIZE, true);
  }

  /** The second loop of heap_install, and the allocation of heap_t in create_heap: the four tables made for the heap
      range, and heap_t behind them, lie inside the window of 64 KiB that the first loop mapped. */
  method MapHeap(pager: Pager, ghost k: nat) returns (heap: nat)
    requires pager.Valid() && pager.TablesUpTo(k) && k <= HEAP_TABLE && pager.placement + WINDOW <= KHEAP_START
    requires pager.placement % PAGE_SIZE == 0
    requires Identity(pager.Flat(), pager.InUse(), (pager.placement + WINDOW) / PAGE_SIZE)
    requires (pager.placement + WINDOW) / PAGE_SIZE + 0xFFF <= 32 * pager.frames.Length
    modifies pager`placement, pager.tables, pager.tablesPhysical, pager.frames, pager.Entries()
    ensures pager.Valid()
    ensures Assigned(pager.Flat(), pager.InUse(), (old(pager.placement) + WINDOW) / PAGE_SIZE, 0xFFF)
    ensures HeapTables(pager, old(pager.placement), k)
    ensures heap == old(pager.placement) + 0x9000 && heap + HEAP_T_SIZE <= old(pager.placement) + WINDOW
    ensures pager.placement == heap + HEAP_T_SIZE
  {
    ghost var w, n := pager.placement, (pager.placement + WINDOW) / PAGE_SIZE;
    var i := KHEAP_START;
    var j := 0;
    hide HeapMapping, Assigned, Identity, TablesBelow, AfterTables, Used, Pager.SlotOk, AfterTable;
    HeapMappingStarts(pager, k);
    while i < KHEAP_MAX
      invariant j <= 0xFFF && i == KHEAP_START + j * PAGE_SIZE
      invariant HeapMapping(pager, w, n, k, j)
      invariant forall t :: 0 <= t < ENTRIES && pager.tables[t] != null ==>
        pager.tables[t] == old(pager.tables[t]) || (fresh(pager.tables[t]) && fresh(pager.tables[t].pages))
    {
      MapHeapPage(pager, w, n, k, j);
      i := i + PAGE_SIZE;
      j := j + 1;
    }
    HeapMappingEnds(pager, w, n, k);
    heap := PlaceHeap(pager);
  }
}
