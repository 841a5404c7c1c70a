/** kernel/paging.c: page tables made on demand, frames for pages, and the identity map built at start. */
module Paging {
  import opened Memory
  import opened Frames
  import opened Placement

  const ENTRIES := 1024
  const PAGES := ENTRIES * ENTRIES

  /** page_t, without the bits that nothing here writes. */
  datatype Page = Page(present: bool, rw: bool, user: bool, frame: nat)

  const ZERO_PAGE := Page(false, false, false, 0)

  /** page_table_t at its address, which is virtual and physical at once while the placement allocator is in use. */
  class PageTable {
    const address: nat
    const pages: array<Page>

    constructor Zeroed(address: nat)
      ensures this.address == address && fresh(pages) && pages.Length == ENTRIES
      ensures forall e :: 0 <= e < ENTRIES ==> pages[e] == ZERO_PAGE
    {
      this.address := address;
      pages := new Page[ENTRIES](_ => ZERO_PAGE);
    }
  }

  /** The page number of an address, and its two parts: bits 31 to 22 pick the table, bits 21 to 12 the entry. */
  function PageNumber(address: nat): nat {
    address / PAGE_SIZE
  }

  lemma NoBitInZero()
    ensures forall o: nat :: o < 32 ==> !BitSet(0, o)
  {
  }

  /** alloc_frame on the map and the bitmap: a page without a frame gets one that was free. */
  ghost predicate GotFrame(flat: map<nat, Page>, used: set<nat>, p: nat, isKernel: bool, isWriteable: bool, index: nat,
                           flat': map<nat, Page>, used': set<nat>) {
    p in flat &&
    if flat[p].frame != 0 then index == 0 && flat' == flat && used' == used
    else index !in used && used' == used + {index} && flat' == flat[p := Page(true, isWriteable, !isKernel, index)]
  }

  /** A frame for a kernel page that may be written, as expand asks for. */
  lemma ExpandedPage(flat: map<nat, Page>, used: set<nat>, p: nat, index: nat, flat': map<nat, Page>, used': set<nat>)
    requires GotFrame(flat, used, p, false, true, index, flat', used') && flat[p].frame == 0
    ensures p in flat' && flat'[p].present && flat'[p].rw && flat'[p].user && flat'[p].frame == index
    ensures forall q :: q in flat && q != p ==> q in flat' && flat'[q] == flat[q]
  {
  }

  ghost predicate FreedAsWritten(flat: map<nat, Page>, used: set<nat>, p: nat, flat': map<nat, Page>, used': set<nat>) {
    p in flat &&
    if flat[p].frame == 0 then flat' == flat && used' == used
    else flat' == flat[p := flat[p].(frame := 0)] && used' == used - {flat[p].frame / PAGE_SIZE}
  }

  ghost predicate FreedAsIntended(flat: map<nat, Page>, used: set<nat>, p: nat, flat': map<nat, Page>, used': set<nat>) {
    p in flat &&
    if flat[p].frame == 0 then flat' == flat && used' == used
    else flat' == flat[p := flat[p].(frame := 0)] && used' == used - {flat[p].frame}
  }

  predicate InTable(p: nat, t: nat) {
    p / ENTRIES == t
  }

  /** What a new table adds to the map: its own entries, all zero. */
  function ZeroTable(t: nat): map<nat, Page> {
    map p: nat | 0 <= p < PAGES && InTable(p, t) :: ZERO_PAGE
  }

  /** The first n pages go to the frames of the same numbers, the other entries are zero, and exactly these frames
      are in use. */
  ghost predicate Identity(flat: map<nat, Page>, used: set<nat>, n: nat) {
    && (forall f: nat :: f in used <==> f < n)
    && (forall p :: 0 <= p < n ==> p in flat)
    && forall p :: p in flat ==> flat[p] == if p < n then Page(true, false, true, p) else ZERO_PAGE
  }

  /** Mapping the next page keeps the identity: the least free frame has the page's number. */
  lemma IdentityStep(flat: map<nat, Page>, used: set<nat>, n: nat, index: nat, flat': map<nat, Page>, used': set<nat>)
    requires Identity(flat, used, n) && index !in used && (forall f :: 0 <= f < index ==> f in used)
    requires n < PAGES
    requires flat' == (if n in flat then flat else flat + ZeroTable(n / ENTRIES))[n := Page(true, false, true, index)]
    requires n !in flat ==> forall p :: p in flat ==> p / ENTRIES != n / ENTRIES
    requires used' == used + {index}
    ensures index == n && Identity(flat', used', n + 1)
  {
    assert n !in used;
    assert index == n;
    forall p | p in flat' && p != n
      ensures flat'[p] == if p < n then Page(true, false, true, p) else ZERO_PAGE
    {
      if p < n {
        assert p in flat;
      }
    }
  }

  lemma QuotientIs(a: nat, k: nat, r: nat)
    requires a == k * TABLE_SPAN + r && r < TABLE_SPAN
    ensures a / TABLE_SPAN == k
  {
  }

  lemma SpanOfPage(i: nat)
    ensures PageNumber(i) / ENTRIES == i / TABLE_SPAN
  {
  }

  lemma WholePages(i: nat)
    requires i % PAGE_SIZE == 0
    ensures i % TABLE_SPAN + PAGE_SIZE <= TABLE_SPAN
    ensures (i + PAGE_SIZE) % PAGE_SIZE == 0 && (i + PAGE_SIZE) / PAGE_SIZE == i / PAGE_SIZE + 1
  {
  }

  /** At offset i the table is missing exactly at the start of a span. */
  lemma SpanStep(i: nat)
    requires i % PAGE_SIZE == 0
    ensures PageNumber(i) / ENTRIES == i / TABLE_SPAN
    ensures TablesBelow(i + PAGE_SIZE) == i / TABLE_SPAN + 1
    ensures (i + PAGE_SIZE) % PAGE_SIZE == 0 && (i + PAGE_SIZE) / PAGE_SIZE == i / PAGE_SIZE + 1
    ensures TablesBelow(i) == if i % TABLE_SPAN == 0 then i / TABLE_SPAN else i / TABLE_SPAN + 1
  {
    hide PageNumber;
    SpanOfPage(i);
    WholePages(i);
    var k, r := i / TABLE_SPAN, i % TABLE_SPAN;
    QuotientIs(i + PAGE_SIZE + TABLE_SPAN - 1, k + 1, r + PAGE_SIZE - 1);
    if r == 0 {
      QuotientIs(i + TABLE_SPAN - 1, k, TABLE_SPAN - 1);
    } else {
      QuotientIs(i + TABLE_SPAN - 1, k + 1, r - 1);
    }
  }

  /** A table yet to be made is within the final placement. */
  lemma BelowNext(at: nat, n: nat)
    requires Behind(at, n + 1)
    ensures AfterTable(AfterTables(at, n)) == AfterTables(at, n + 1) <= FinalPlacement(at)
  {
    BelowNeeded(at, n + 1);
  }

  /** The page number put together from its parts. */
  lemma PageParts(address: nat)
    requires address < WORD_LIMIT
    ensures var p := PageNumber(address);
            p < PAGES && p / ENTRIES < ENTRIES && p / ENTRIES * ENTRIES + p % ENTRIES == p
  {
  }

  lemma ZeroEntry(t: nat, p: nat)
    requires p < PAGES && p / ENTRIES == t
    ensures p in ZeroTable(t) && ZeroTable(t)[p] == ZERO_PAGE
  {
  }

  /** The globals of paging: the frame bitmap, one page directory and the placement address. */
  class Pager {
    const frames: array<bv32>
    const tablesPhysical: array<nat>
    const tables: array<PageTable?>
    var placement: nat

    /** A slot is present exactly if its table pointer is set, and then it holds that table's address and the bits
        present, writable, user. Different slots have different tables. */
    ghost predicate Valid()
      reads this, tables, tablesPhysical
    {
      && tables.Length == ENTRIES && tablesPhysical.Length == ENTRIES
      && 32 * frames.Length <= FRAME_LIMIT && PAGE_SIZE <= placement
      && frames as object != tables && frames as object != tablesPhysical
      && (forall t :: 0 <= t < ENTRIES ==> SlotOk(tables[t], tablesPhysical[t]))
      && (forall t :: 0 <= t < ENTRIES && tables[t] != null ==> tables[t].pages as object != frames)
      && (forall t, u :: 0 <= t < u < ENTRIES && tables[t] != null && tables[u] != null ==>
            tables[t].pages != tables[u].pages)
    }

    static ghost predicate SlotOk(table: PageTable?, physical: nat) {
      if table == null then physical == 0
      else table.pages.Length == ENTRIES && table.address % PAGE_SIZE == 0 && physical == table.address + 7
    }

    /** The directory and its tables as one map from page number to entry. */
    ghost function Flat(): map<nat, Page>
      reads this, tables, tablesPhysical, Entries()
      requires Valid()
    {
      map p: nat | 0 <= p < PAGES && tables[p / ENTRIES] != null :: tables[p / ENTRIES].pages[p % ENTRIES]
    }

    ghost function Entries(): set<array<Page>>
      reads tables
    {
      set t | 0 <= t < tables.Length && tables[t] != null :: tables[t].pages
    }

    ghost function InUse(): set<nat>
      reads frames
    {
      Used(frames[..])
    }

    /** kmalloc_int in the placement phase; the physical address is the address itself. */
    method KmallocInt(size: nat, align: bool) returns (address: nat)
      requires Landing(placement, align) + size <= WORD_LIMIT
      modifies `placement
      ensures address == Landing(old(placement), align) && placement == address + size
      ensures align && 0x1000 <= old(placement) ==>
        address % 0x1000 == 0 && old(placement) < address <= old(placement) + 0x1000
      ensures !align || old(placement) < 0x1000 ==> address == old(placement)
    {
      if align && placement - placement % PAGE_SIZE != 0 {
        placement := placement - placement % PAGE_SIZE;
        placement := placement + PAGE_SIZE;
      }
      address := placement;
      placement := placement + size;
    }

    /** get_page, and set_page, which differs only in calling kmalloc_int itself. The entry is named by table and
        position. */
    method GetPage(address: nat) returns (t: nat, e: nat)
      requires Valid() && address < WORD_LIMIT
      requires tables[PageNumber(address) / ENTRIES] == null ==> AfterTable(placement) <= WORD_LIMIT
      modifies `placement, tables, tablesPhysical
      ensures Valid() && t == PageNumber(address) / ENTRIES && e == PageNumber(address) % ENTRIES && t < ENTRIES
      ensures tables[t] != null && forall u :: 0 <= u < ENTRIES && u != t ==> tables[u] == old(tables[u])
      ensures old(tables[t]) != null ==> tables[t] == old(tables[t]) && placement == old(placement)
      ensures old(tables[t]) == null ==>
        && fresh(tables[t]) && fresh(tables[t].pages)
        && tables[t].address == Landing(old(placement), true) && placement == AfterTable(old(placement))
        && tablesPhysical[t] - tables[t].address == 7
      ensures Flat() == if old(tables[t]) != null then old(Flat()) else old(Flat()) + ZeroTable(t)
    {
      var number := address / PAGE_SIZE;
      t, e := number / ENTRIES, number % ENTRIES;
      if !(tablesPhysical[t] % 2 == 1 && tables[t] != null) {
        var physical := KmallocInt(PAGE_SIZE, true);
        tables[t] := new PageTable.Zeroed(physical);
        tablesPhysical[t] := physical + 7;
      }
    }

    /** A store to an entry changes the map at that page and nowhere else. */
    method StoreEntry(t: nat, e: nat, page: Page)
      requires Valid() && t < ENTRIES && e < ENTRIES && tables[t] != null
      modifies if t < tables.Length && tables[t] != null then {tables[t].pages} else {}
      ensures Valid() && Flat() == old(Flat())[t * ENTRIES + e := page] && tables[t].pages[e] == page
    {
      ghost var p := t * ENTRIES + e;
      assert p / ENTRIES == t && p % ENTRIES == e;
      tables[t].pages[e] := page;
      forall q | q in old(Flat()) && q != p
        ensures Flat()[q] == old(Flat()[q])
      {
        assert q / ENTRIES == t ==> q % ENTRIES != e;
      }
    }

    lemma EntryInFlat(t: nat, e: nat)
      requires Valid() && t < ENTRIES && e < ENTRIES && tables[t] != null
      ensures t * ENTRIES + e in Flat() && Flat()[t * ENTRIES + e] == tables[t].pages[e]
    {
      assert (t * ENTRIES + e) / ENTRIES == t && (t * ENTRIES + e) % ENTRIES == e;
    }

    /** alloc_frame. A page that has a frame keeps it, and the result is 0. With no free frame the source goes on
        with ULONG_MAX; callers must leave it one. */
    method AllocFrame(t: nat, e: nat, isKernel: bool, isWriteable: bool) returns (index: nat)
      requires Valid() && t < ENTRIES && e < ENTRIES && tables[t] != null
      requires tables[t].pages[e].frame == 0 ==> exists f :: 0 <= f < 32 * frames.Length && f !in InUse()
      modifies frames, if t < tables.Length && tables[t] != null then {tables[t].pages} else {}
      ensures Valid()
      ensures GotFrame(old(Flat()), old(InUse()), t * ENTRIES + e, isKernel, isWriteable, index, Flat(), InUse())
      ensures old(tables[t].pages[e]).frame == 0 ==>
        index < 32 * frames.Length && forall f :: 0 <= f < index ==> f in old(InUse())
      ensures var page, before := tables[t].pages[e], old(tables[t].pages[e]);
              if before.frame != 0 then page == before && index == 0
              else page.present && page.rw == isWriteable && page.user == !isKernel && page.frame == index
    {
      EntryInFlat(t, e);
      index := 0;
      var page := tables[t].pages[e];
      if page.frame == 0 {
        index := FirstFreeFrame(frames);
        SetFrame(frames, index * PAGE_SIZE);
        hide Used;
        assert InUse() == old(InUse()) + {index} && Flat() == old(Flat());
        hide Flat;
        page := page.(present := true);
        page := page.(rw := isWriteable);
        page := page.(user := !isKernel);
        page := page.(frame := index);
        StoreEntry(t, e, page);
        assert InUse() == old(InUse()) + {index};
      }
    }

    /** The globals as paging_init leaves them before its loop: `placed` is where the placement allocator starts,
        and the frame words and the directory are the first things it places. */
    constructor Init(placed: nat, words: nat, directorySize: nat)
      requires 32 * words <= FRAME_LIMIT && PAGE_SIZE <= placed
      ensures Valid() && fresh(frames) && fresh(tables) && fresh(tablesPhysical) && frames.Length == words
      ensures TablesUpTo(0) && Flat() == map[] && InUse() == {}
      ensures placement == Landing(placed + words, true) + directorySize
    {
      frames := new bv32[words](_ => 0);
      tables := new PageTable?[ENTRIES](_ => null);
      tablesPhysical := new nat[ENTRIES](_ => 0);
      placement := placed + words;
      new;
      placement := Landing(placement, true) + directorySize;
      assert forall f :: 0 <= f < 32 * words ==> frames[f / 32] == 0;
      NoBitInZero();
    }

    /** One turn of the mapping loops: the entry of the page at i, made on demand, gets the least free frame. */
    method MapNext(i: nat) returns (index: nat)
      requires Valid() && i < WORD_LIMIT
      requires tables[PageNumber(i) / ENTRIES] == null ==> AfterTable(placement) <= WORD_LIMIT
      requires PageNumber(i) in Flat() ==> Flat()[PageNumber(i)].frame == 0
      requires exists f :: 0 <= f < 32 * frames.Length && f !in InUse()
      modifies `placement, tables, tablesPhysical, frames, Entries()
      ensures Valid()
      ensures var t := PageNumber(i) / ENTRIES;
              && t < ENTRIES && tables[t] != null && (forall u :: 0 <= u < ENTRIES && u != t ==> tables[u] == old(tables[u]))
              && (old(tables[t]) != null ==> tables[t] == old(tables[t]) && placement == old(placement))
              && (old(tables[t]) == null ==>
                    && fresh(tables[t]) && fresh(tables[t].pages)
                    && tables[t].address == Landing(old(placement), true) && placement == AfterTable(old(placement)))
              && Flat() == (if old(tables[t]) != null then old(Flat()) else old(Flat()) + ZeroTable(t))
                             [PageNumber(i) := Page(true, false, true, index)]
      ensures index < 32 * frames.Length && index !in old(InUse()) && InUse() == old(InUse()) + {index}
      ensures forall f :: 0 <= f < index ==> f in old(InUse())
    {
      hide Used, Landing, AfterTable, SlotOk, PageNumber, InTable, ZeroTable;
      PageParts(i);
      var t, e := GetPage(i);
      EntryInFlat(t, e);
      assert InUse() == old(InUse());
      ZeroEntry(t, PageNumber(i));
      index := AllocFrame(t, e, false, false);
    }

    ghost predicate TablesUpTo(k: nat)
      reads tables
    {
      tables.Length == ENTRIES && forall t :: 0 <= t < ENTRIES ==> (tables[t] != null <==> t < k)
    }

    /** The loop of paging_init at offset i, with k tables made since the placement address was p0. */
    ghost predicate Mapping(p0: nat, k: nat, i: nat)
      reads this, tables, tablesPhysical, Entries(), frames
    {
      && Valid() && i % PAGE_SIZE == 0 && k == TablesBelow(i) && i < placement + PAGE_SIZE
      && placement == AfterTables(p0, k) && Behind(p0, k)
      && FinalPlacement(p0) <= 32 * frames.Length * PAGE_SIZE
      && TablesUpTo(k) && Identity(Flat(), InUse(), i / PAGE_SIZE)
    }

    /** What makes the next turn of the loop possible. */
    lemma MappingEnables(p0: nat, k: nat, i: nat)
      requires Mapping(p0, k, i) && i < placement
      ensures i < FinalPlacement(p0) && i < WORD_LIMIT && PageNumber(i) / ENTRIES < ENTRIES
      ensures tables[PageNumber(i) / ENTRIES] == null ==>
        Behind(p0, k + 1) && AfterTable(placement) == AfterTables(p0, k + 1) <= WORD_LIMIT
        && PageNumber(i) / ENTRIES == k && i == k * TABLE_SPAN
      ensures placement <= AfterTable(placement)
      ensures PageNumber(i) in Flat() ==> Flat()[PageNumber(i)].frame == 0
      ensures PageNumber(i) < 32 * frames.Length && PageNumber(i) !in InUse()
    {
      hide AfterTables;
      BelowNeeded(p0, k);
      SpanStep(i);
      if tables[PageNumber(i) / ENTRIES] == null {
        BehindStep(p0, k);
        BelowNext(p0, k);
      }
    }

    lemma MappingStarts()
      requires Valid() && Flat() == map[] && InUse() == {} && TablesUpTo(0)
      requires FinalPlacement(placement) <= 32 * frames.Length * PAGE_SIZE
      ensures Mapping(placement, 0, 0)
    {
      hide Used, SlotOk;
    }

    /** What the loop leaves. */
    lemma MappingEnds(p0: nat, k: nat, i: nat)
      requires Mapping(p0, k, i) && i >= placement && PAGE_SIZE <= p0
      ensures k == TablesNeeded(p0, 0) && placement == FinalPlacement(p0) && i == placement && placement % PAGE_SIZE == 0
    {
      hide Used, SlotOk, Identity;
      BelowNeeded(p0, k);
      TablesCost(p0, k);
      assert i > 0 && TablesBelow(i) > 0;
      assert placement % PAGE_SIZE == 0 && 0 <= i - placement < PAGE_SIZE;
      assert (i - placement) % PAGE_SIZE == 0;
    }

    method MapPage(ghost p0: nat, ghost k: nat, i: nat) returns (ghost k': nat)
      requires Mapping(p0, k, i) && i < placement
      modifies `placement, tables, tablesPhysical, frames, Entries()
      ensures Mapping(p0, k', i + PAGE_SIZE)
      ensures forall t :: 0 <= t < ENTRIES && tables[t] != null ==>
        tables[t] == old(tables[t]) || (fresh(tables[t]) && fresh(tables[t].pages))
    {
      hide AfterTables, TablesBelow, FinalPlacement, Used, InTable, SlotOk, AfterTable, Identity, Behind;
      MappingEnables(p0, k, i);
      SpanStep(i);
      ghost var flat, used := Flat(), InUse();
      k' := if tables[PageNumber(i) / ENTRIES] == null then k + 1 else k;
      var index := MapNext(i);
      IdentityStep(flat, used, i / PAGE_SIZE, index, Flat(), InUse());
      assert Identity(Flat(), InUse(), (i + PAGE_SIZE) / PAGE_SIZE);
      assert Valid() && TablesUpTo(k');
      hide Valid, TablesUpTo, Flat, InUse;
      assert k' == TablesBelow(i + PAGE_SIZE) && placement == AfterTables(p0, k') && Behind(p0, k');
    }

    /** The loop of paging_init: identity-map every page below the placement address, which get_page moves. It ends
        with the least number of tables that covers what it leaves, and every page below the end of the map goes to
        the frame of the same number. */
    method IdentityMap() returns (i: nat)
      requires Valid() && Flat() == map[] && InUse() == {} && TablesUpTo(0)
      requires FinalPlacement(placement) <= 32 * frames.Length * PAGE_SIZE
      modifies `placement, tables, tablesPhysical, frames
      ensures Valid() && placement == FinalPlacement(old(placement)) && TablesUpTo(TablesNeeded(old(placement), 0))
      ensures i == placement && placement % PAGE_SIZE == 0
      ensures Identity(Flat(), InUse(), i / PAGE_SIZE)
      ensures forall t :: 0 <= t < ENTRIES && tables[t] != null ==> fresh(tables[t]) && fresh(tables[t].pages)
    {
      hide AfterTables, TablesBelow, FinalPlacement, Identity, TablesNeeded, Used, SlotOk;
      ghost var p0 := placement;
      ghost var k := 0;
      i := 0;
      MappingStarts();
      while i < placement
        invariant Mapping(p0, k, i)
        invariant forall t :: 0 <= t < ENTRIES && tables[t] != null ==> fresh(tables[t]) && fresh(tables[t].pages)
        decreases FinalPlacement(p0) - i
      {
        MappingEnables(p0, k, i);
        k := MapPage(p0, k, i);
        i := i + PAGE_SIZE;
      }
      MappingEnds(p0, k, i);
    }

    /** free_frame. It hands the frame number to clear_frame, which takes an address. */
    method FreeFrame(t: nat, e: nat)
      requires Valid() && t < ENTRIES && e < ENTRIES && tables[t] != null
      requires tables[t].pages[e].frame / PAGE_SIZE < 32 * frames.Length
      modifies frames, if t < tables.Length && tables[t] != null then {tables[t].pages} else {}
      ensures Valid()
      ensures FreedAsWritten(old(Flat()), old(InUse()), t * ENTRIES + e, Flat(), InUse())
    {
      EntryInFlat(t, e);
      var page := tables[t].pages[e];
      if page.frame != 0 {
        ClearFrame(frames, page.frame);
        hide Used, SlotOk;
        assert InUse() == old(InUse()) - {page.frame / PAGE_SIZE} && Flat() == old(Flat());
        hide Flat;
        StoreEntry(t, e, page.(frame := 0));
        assert InUse() == old(InUse()) - {page.frame / PAGE_SIZE};
      }
    }

    /** free_frame as intended, with the frame's address: a departure from the source, for comparison. */
    method FreeFrameIntended(t: nat, e: nat)
      requires Valid() && t < ENTRIES && e < ENTRIES && tables[t] != null
      requires tables[t].pages[e].frame < 32 * frames.Length
      modifies frames, if t < tables.Length && tables[t] != null then {tables[t].pages} else {}
      ensures Valid()
      ensures FreedAsIntended(old(Flat()), old(InUse()), t * ENTRIES + e, Flat(), InUse())
    {
      EntryInFlat(t, e);
      var page := tables[t].pages[e];
      if page.frame != 0 {
        ClearFrame(frames, page.frame * PAGE_SIZE);
        hide Used, SlotOk;
        assert InUse() == old(InUse()) - {page.frame} && Flat() == old(Flat());
        hide Flat;
        StoreEntry(t, e, page.(frame := 0));
        assert InUse() == old(InUse()) - {page.frame};
      }
    }
  }

  /** Two addresses name the same entry exactly if they lie in the same page. */
  lemma SameEntry(a: nat, b: nat)
    ensures PageNumber(a) / ENTRIES == PageNumber(b) / ENTRIES && PageNumber(a) % ENTRIES == PageNumber(b) % ENTRIES
            <==> a - a % PAGE_SIZE == b - b % PAGE_SIZE
  {
  }
}
