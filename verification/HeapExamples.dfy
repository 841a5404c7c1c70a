/** Concrete runs from the kernel's own heap, one for each condition of the main results. Every state before the last
    step has a valid reading; what the last step leaves has none, or none that shows the live blocks, or it halts. */
module HeapExamples {
  import opened Memory
  import opened HeapLayout
  import opened HeapState
  import opened HeapText
  import opened HeapGrow
  import opened HeapCarve
  import opened HeapExpand
  import opened HeapAlloc
  import opened HeapFree
  import opened HeapStale
  import opened HeapFreeExact
  import opened HeapContract
  import opened HeapCreate
  import opened OrderedArrays

  ghost predicate AllBlocks(segs: seq<Seg>) {
    forall i :: 0 <= i < |segs| ==> !segs[i].hole
  }

  lemma TailIsSmall(s: State, segs: seq<Seg>, n: nat)
    requires Inv(s, segs) && segs != [] && segs[|segs| - 1].size == n
    ensures n <= ADDRESS_LIMIT && s.start <= s.end <= s.max <= ADDRESS_LIMIT && |s.mem| == WORD_LIMIT
    ensures s.start + Total(segs[..|segs| - 1]) + n == s.end
  {
    hide Get32;
    SegFacts(s, segs, |segs| - 1);
    assert segs[|segs|..] == [];
  }

  lemma FitsReaches(s: State, size: nat)
    requires NoWrap(s, size) && AnyFits(s, size, false)
    ensures Alloc(s, size, false).Next?
  {
    hide Get32;
  }

  lemma CarvedTail(blocks: seq<Seg>, n: nat, block: nat)
    requires block <= n
    ensures Carved(blocks + [Seg(n, true)], |blocks|, 0, block) == blocks + [Seg(block, false)] + Optional(n - block)
  {
    var segs := blocks + [Seg(n, true)];
    assert segs[..|blocks|] == blocks && segs[|blocks| + 1..] == [];
  }

  /** alloc and free leading from one state to the next. */
  ghost predicate Allocated(s: State, size: nat, t: State, p: nat) {
    NoWrap(s, size) && Alloc(s, size, false) == Next(t, p)
  }

  /** A plain request served from the only hole, at the end of the heap. */
  lemma TailAlloc(s: State, blocks: seq<Seg>, n: nat, size: nat) returns (t: State, p: nat)
    requires Inv(s, blocks + [Seg(n, true)]) && AllBlocks(blocks) && size + OVERHEAD <= n
    ensures Allocated(s, size, t, p) && p == s.start + Total(blocks) + HEADER
    ensures var block := BlockSize(n, size + OVERHEAD, false);
            block <= n && Inv(t, blocks + [Seg(block, false)] + Optional(n - block))
    ensures t.start == s.start && t.end == s.end && t.max == s.max
    ensures SameOutside(s.mem, t.mem, s.start + Total(blocks), s.end)
  {
    hide Get32, Extents, Alloc, Carved, PiecesShown, Holds, IndexLists, AnyFits;
    var segs := blocks + [Seg(n, true)];
    TailIsSmall(s, segs, n);
    TailFits(s, segs, size, false);
    FitsReaches(s, size);
    var g, gsegs, k, front, block := AllocCuts(s, segs, size, false);
    assert k == |blocks| && gsegs[..k] == blocks && segs[..k] == blocks;
    assert Carved(gsegs, k, 0, block) == blocks + [Seg(block, false)] + Optional(n - block) by {
      CarvedTail(blocks, n, block);
    }
    t, p := Alloc(s, size, false).s, Alloc(s, size, false).p;
  }

  /** Memory and mapping as create_heap finds them. */
  ghost predicate Installable(m: seq<Byte>, mapped: set<nat>) {
    |m| == WORD_LIMIT && PagesMapped(0x0108_1000, 0x0110_0000, mapped) && Get32(m, 0x0108_1000 - 8) != HEAP_MAGIC
  }

  /** The kernel's heap as installed. */
  ghost predicate FromKernel(s: State) {
    exists m, mapped :: Installable(m, mapped) && KernelHeap(m, mapped) == Next(s, 0)
  }

  ghost predicate Taken(s: State, p: nat, t: State) {
    Free(s, p).Next? && Free(s, p).s == t
  }

  lemma NoMagicInZeros(m: seq<Byte>)
    requires |m| == WORD_LIMIT && m[0x0108_0FF8] == 0
    ensures Get32(m, 0x0108_1000 - 8) != HEAP_MAGIC
  {
    ValueOfWord(m, 0x0108_0FF8);
  }

  /** Memory of zeros, with every page mapped. */
  lemma Installed() returns (s: State)
    ensures Inv(s, [Seg(0x7_F000, true)]) && s.start == 0x0108_1000 && s.end == 0x0110_0000 && s.max == KHEAP_MAX
    ensures FromKernel(s)
  {
    hide Get32, Inv;
    var m: seq<Byte> := seq(WORD_LIMIT, _ => 0);
    var mapped := PageRange(0x0108_1000, 0, 0x7_F000);
    NewPages(0x0108_1000, 0x0108_1000, 0x0110_0000, {});
    NoMagicInZeros(m);
    KernelHeapValid(m, mapped);
    assert Installable(m, mapped);
    s := KernelHeap(m, mapped).s;
  }

  /** Two blocks, the second of 36 bytes in front of a hole. */
  lemma TwoAllocs(size: nat) returns (s0: State, s1: State, p1: nat, s2: State, p2: nat, segs: seq<Seg>)
    requires 0x7_0000 <= size < 0x7_8000
    ensures FromKernel(s0) && !Broken(s0) && !Broken(s1) && s2.start == 0x0108_1000
    ensures Allocated(s0, size, s1, p1) && Allocated(s1, 16, s2, p2) 
    ensures p1 == s2.start + HEADER && p2 == s2.start + size + OVERHEAD + HEADER
    ensures segs == [Seg(size + OVERHEAD, false), Seg(36, false), Seg(0x7_F000 - size - 56, true)] && Inv(s2, segs)
    ensures BlockAt(s2, segs, 1, p2 - HEADER) && Before(segs, 1) == [segs[0]] && segs[2..] == [segs[2]]
    ensures Total([segs[0]]) == size + OVERHEAD && Reaches(segs[2..]) && !FreeHalts(s2, segs, 1) && !HoleBefore(segs, 1)
  {
    hide Get32, Extents, Alloc, Free, Inv, Allocated, FromKernel, NoWrap;
    var g, n := Seg(size + OVERHEAD, false), 0x7_F000 - size - OVERHEAD;
    s0 := Installed();
    assert [] + [Seg(0x7_F000, true)] == [Seg(0x7_F000, true)];
    s1, p1 := TailAlloc(s0, [], 0x7_F000, size);
    assert [] + [g] + Optional(n) == [g] + [Seg(n, true)];
    s2, p2 := TailAlloc(s1, [g], n, 16);
    segs := [g, Seg(36, false), Seg(n - 36, true)];
    assert [g] + [Seg(36, false)] + Optional(n - 36) == segs;
    OneSeg(0, g, true);
    assert segs[..1] == [g] && segs[2..] == [segs[2]];
  }

  /** contract: alloc(0x70000); p = alloc(16); free(p). The freed hole starts at 0x70014, past the minimum size;
      contraction ends the heap there, off any page boundary. */
  lemma ContractionFails() returns (s0: State, s1: State, p1: nat, s2: State, p2: nat)
    ensures FromKernel(s0) && Allocated(s0, 0x7_0000, s1, p1) && Allocated(s1, 16, s2, p2)
    ensures !Broken(s0) && !Broken(s1) && !Broken(s2)
    ensures Free(s2, p2).Next? && Broken(Free(s2, p2).s) && Free(s2, p2).s.end == 0x010F_1014
  {
    hide Get32, Extents, Alloc, Free, Inv, Allocated, FromKernel, NoWrap, FreeHalts;
    var segs;
    s0, s1, p1, s2, p2, segs := TwoAllocs(0x7_0000);
    FreeBreaks(s2, segs, 1, p2 - HEADER);
    var t, m := FreeContracts(s2, segs, 1, p2 - HEADER);
  }

  lemma FooterLeft(s: State, m: seq<Byte>, a: nat, t: State)
    requires Contracted(s, m, a, t) && t.end != a
    ensures FooterAt(t.mem, t.end, a)
  {
    hide Get32;
  }

  /** contract again: alloc(0x71000); p = alloc(16); free(p). Bit 12 of 0x71014 is set, so contraction goes back to the
      minimum size, into the first block, and writes a footer there. */
  lemma RoundingFails() returns (s0: State, s1: State, p1: nat, s2: State, p2: nat, t: State)
    ensures FromKernel(s0) && Allocated(s0, 0x7_1000, s1, p1) && Allocated(s1, 16, s2, p2)
    ensures !Broken(s0) && !Broken(s1) && !Broken(s2)
    ensures Taken(s2, p2, t) && Broken(t) && t.end == 0x010F_1000
    ensures p1 == 0x0108_100C && HEADER <= p2 && FooterAt(t.mem, t.end, p2 - HEADER)
  {
    hide Get32, Extents, Alloc, Free, Inv, Allocated, FromKernel, NoWrap, FreeHalts, FooterAt, HoleResized;
    var segs;
    s0, s1, p1, s2, p2, segs := TwoAllocs(0x7_1000);
    FreeBreaks(s2, segs, 1, p2 - HEADER);
    var m;
    t, m := FreeContracts(s2, segs, 1, p2 - HEADER);
    FooterLeft(s2, m, p2 - HEADER, t);
  }

  /** The only hole starts 4070 bytes behind the page-aligned start of the heap. */
  lemma AlignedBreaks(s: State, segs: seq<Seg>, n: nat, size: nat)
    requires Inv(s, segs) && NoWrap(s, size) && AnyFits(s, size, true)
    requires |segs| == 2 && segs[0] == Seg(n, false) && PAGE_SIZE - OVERHEAD - HEADER < n < PAGE_SIZE
    ensures var r := Alloc(s, size, true);
            r.Next? && HEADER <= r.p && BrokenWith(r.s, Live(s.start, segs), r.p - HEADER)
  {
    hide Get32, Extents, Alloc, Holds, Carve, IndexLists, Separated, PagesMapped, BrokenWith;
    var at := FirstFit(s.mem, s.index, size + OVERHEAD, true);
    var k := HoleOfEntry(s, segs, at);
    assert segs[..1] == [Seg(n, false)];
    OneSeg(0, Seg(n, false), true);
    NarrowFrontBreaks(s, segs, at, size);
    AllocIsCarve(s, size, true);
  }

  /** The upper half of one word and the lower half of the next. */
  lemma TornWord(m: seq<Byte>, a: nat)
    requires a + 8 <= |m| && Get32(m, a) == 0x1238_90AB && Get32(m, a + 4) == 0x0108_1FE6
    ensures Get32(m, a + 2) == 0x1FE6_1238
  {
    ValueOfWord(m, a);
    ValueOfWord(m, a + 2);
    ValueOfWord(m, a + 4);
  }

  /** The cut in a hole 26 bytes before a page boundary: the footer of the front hole tears its size field, and the rest
      is computed from what is then read. */
  ghost predicate TornCut(s: State, t: State) {
    && t == s.(mem := t.mem, index := t.index) && SameOutside(s.mem, t.mem, 0x0108_1FE6, 0x0108_201C)
    && HeaderAt(t.mem, 0x0108_1FF4, 28, false) && FooterAt(t.mem, 0x0108_2010, 0x0108_1FF4)
    && HeaderAt(t.mem, 0x0108_2010, 0xE021_CDC6, true)
    && t.index == InsertBefore<nat>(s.index, 0x0108_2010, SizeLess(t.mem))
  }

  lemma TornFront(m: seq<Byte>)
    requires |m| == WORD_LIMIT
    ensures var m' := PutFooter(PutHeader(m, 0x0108_1FE6, 14, true), 0x0108_1FF4, 0x0108_1FE6);
            SizeAt(m', 0x0108_1FE6) == 0x1FE6_1238 && SameOutside(m, m', 0x0108_1FE6, 0x0108_1FF4)
  {
    hide Get32;
    TornWord(PutFooter(PutHeader(m, 0x0108_1FE6, 14, true), 0x0108_1FF4, 0x0108_1FE6), 0x0108_1FEC);
  }

  lemma TornPlace(s: State)
    requires |s.mem| == WORD_LIMIT && s.end == 0x0110_0000
    ensures var r := PlaceBlock(s, 0x0108_1FF4, 0xE021_CDE2, 8, 28);
            && r.Next? && r.p == 0x0108_2000 && SameOutside(s.mem, r.s.mem, 0x0108_1FF4, 0x0108_201C)
            && r.s == s.(mem := r.s.mem, index := InsertBefore<nat>(s.index, 0x0108_2010, SizeLess(r.s.mem)))
            && HeaderAt(r.s.mem, 0x0108_1FF4, 28, false) && FooterAt(r.s.mem, 0x0108_2010, 0x0108_1FF4)
            && HeaderAt(r.s.mem, 0x0108_2010, 0xE021_CDC6, true)
  {
    hide Get32, PutHeader, PutFooter, HeaderAt, FooterAt, InsertBefore;
    BlockRecord(s.mem, 0x0108_1FF4, 28);
    var m := PutFooter(PutHeader(s.mem, 0x0108_1FF4, 28, false), 0x0108_2010, 0x0108_1FF4);
    var m1 := PutHeader(m, 0x0108_2010, 0xE021_CDC6, true);
    HeaderKept(m, m1, 0x0108_1FF4, 28, false);
    FooterKept(m, m1, 0x0108_2010, 0x0108_1FF4);
  }

  lemma TornCarve(s: State, at: nat)
    requires |s.mem| == WORD_LIMIT && s.end == 0x0110_0000 && at < |s.index| && s.index[at] == 0x0108_1FE6
    requires SizeAt(s.mem, 0x0108_1FE6) == 0x7_E01A
    ensures var r := Carve(s, at, 8, true); r.Next? && r.p == 0x0108_2000 && TornCut(s, r.s)
  {
    hide Get32, PutHeader, PutFooter, SizeAt, PlaceBlock, HeaderAt, FooterAt, InsertBefore;
    var m := PutFooter(PutHeader(s.mem, 0x0108_1FE6, 14, true), 0x0108_1FF4, 0x0108_1FE6);
    TornFront(s.mem);
    assert Carve(s, at, 8, true) == PlaceBlock(s.(mem := m), 0x0108_1FF4, 0xE021_CDE2, 8, 28);
    TornPlace(s.(mem := m));
  }

  lemma OnlyHoleTorn(s: State, segs: seq<Seg>)
    requires Inv(s, segs) && NoWrap(s, 8) && AnyFits(s, 8, true) && s.start == 0x0108_1000 && s.end == 0x0110_0000
    requires segs == [Seg(4070, false), Seg(0x7_E01A, true)]
    ensures var r := Alloc(s, 8, true); r.Next? && r.p == 0x0108_2000 && TornCut(s, r.s)
  {
    hide Get32, Extents, Alloc, Holds, Carve, IndexLists, Separated, PagesMapped, TornCut, SizeAt;
    var at := FirstFit(s.mem, s.index, 8 + OVERHEAD, true);
    var k := HoleOfEntry(s, segs, at);
    assert segs[..1] == [Seg(4070, false)];
    OneSeg(0, Seg(4070, false), true);
    AllocIsCarve(s, 8, true);
    TornCarve(s, at);
  }

  /** The page-aligned cut: alloc(4050); alloc(8, aligned). The hole starts 4070 bytes into its page; 14 bytes are
      left in front of the aligned block, too few for a hole. */
  lemma AlignmentFails() returns (s0: State, s: State, p: nat, segs: seq<Seg>)
    ensures FromKernel(s0) && !Broken(s0) && Allocated(s0, 4050, s, p) && Inv(s, segs) && NoWrap(s, 8)
    ensures var r := Alloc(s, 8, true);
            r.Next? && r.p == 0x0108_2000 && TornCut(s, r.s) && BrokenWith(r.s, Live(s.start, segs), r.p - HEADER)
  {
    hide Get32, Extents, Alloc, CutSafe, Inv, AnyFits, Allocated, FromKernel, TornCut, Carve, SizeAt;
    s0 := Installed();
    assert [] + [Seg(0x7_F000, true)] == [Seg(0x7_F000, true)];
    s, p := TailAlloc(s0, [], 0x7_F000, 4050);
    segs := [] + [Seg(4070, false)] + Optional(0x7_F000 - 4070);
    assert segs[..1] == [Seg(4070, false)] && TailSize(segs) == 0x7_F000 - 4070;
    OneSeg(0, Seg(4070, false), true);
    TailFits(s, segs, 8, true);
    AlignedBreaks(s, segs, 4070, 8);
    OnlyHoleTorn(s, segs);
  }

  lemma StartSettles(s: State, n: nat)
    requires s.start % PAGE_SIZE == 0 && PAGE_SIZE <= s.start < ADDRESS_LIMIT
    ensures Settling(s, [Seg(n, true)]) == s.start
    ensures FrontGap(s.start) == 4084 == AlignOffset(s.start)
  {
    assert [Seg(n, true)][..0] == [];
  }

  lemma NothingLive(at: nat, n: nat)
    ensures Live(at, [Seg(n, true)]) == map[]
  {
    OneSeg(at, Seg(n, true), false);
  }

  /** The page-aligned cut again: one alloc of all the hole but 10 bytes, aligned. The rest is listed as a hole and is
      too small for one. */
  lemma RearFails() returns (s0: State)
    ensures FromKernel(s0) && !Broken(s0) && NoWrap(s0, 0x7_F000 - 4084 - OVERHEAD - 10)
    ensures var r := Alloc(s0, 0x7_F000 - 4084 - OVERHEAD - 10, true); r.Next? && Broken(r.s)
  {
    hide Get32, Extents, Alloc, Inv, FromKernel, Carve, Holds;
    var size := 0x7_F000 - 4084 - OVERHEAD - 10;
    s0 := Installed();
    var segs := [Seg(0x7_F000, true)];
    TailIsSmall(s0, segs, 0x7_F000);
    assert segs[..0] == [];
    StartSettles(s0, 0x7_F000);
    TailFits(s0, segs, size, true);
    AllocIsCarve(s0, size, true);
    var at := FirstFit(s0.mem, s0.index, size + OVERHEAD, true);
    var k := HoleOfEntry(s0, segs, at);
    NarrowRearBreaks(s0, segs, at, size);
    NothingLive(s0.start, 0x7_F000);
    var t := Alloc(s0, size, true).s;
    forall segs'
      ensures !Inv(t, segs')
    {
      assert Shows(Live(s0.start, segs'), map[]);
    }
  }

  lemma Sums(x: Seg, y: Seg)
    ensures Total([]) == 0 && Total([x]) == x.size && Total([x, y]) == x.size + y.size
  {
    assert [x, y][1..] == [y] && [y][1..] == [] && [x][1..] == [];
  }

  lemma ThreeFrees(s3: State, last: Seg, p1: nat, p2: nat, p3: nat) returns (s4: State, s5: State)
    requires last.hole && Inv(s3, [Seg(120, false), Seg(120, false), Seg(120, false), last])
    requires p1 == s3.start + 12 && p2 == s3.start + 132 && p3 == s3.start + 252
    ensures Taken(s3, p2, s4) && Taken(s4, p1, s5) && Free(s5, p3).Next? && Broken(Free(s5, p3).s)
    ensures !Broken(s4) && !Broken(s5)
  {
    hide Get32, Extents, Free, Inv, Holds, StaleFooter;
    var b, h1, h2 := Seg(120, false), Seg(120, true), Seg(240, true);
    var segs3 := [b, b, b, last];
    Sums(b, b);
    assert segs3[..1] == [b] && segs3[2..] == [b, last];
    FreeKeeps(s3, segs3, 1, p2 - HEADER);
    s4 := Free(s3, p2).s;
    var segs4 := [b, h1, b, last];
    assert Freed(segs3, 1) == segs4;
    assert segs4[..0] == [] && segs4[1..] == [h1, b, last] && segs4[1..][1..] == [b, last];
    FreeKeeps(s4, segs4, 0, p1 - HEADER);
    FreeLeavesStale(s4, segs4, 0, p1 - HEADER);
    s5 := Free(s4, p1).s;
    var segs5 := [h2, b, last];
    assert Freed(segs4, 0) == segs5;
    Sums(h2, h2);
    assert segs5[..1] == [h2] && segs5[2..] == [last];
    FreeBreaks(s5, segs5, 1, p3 - HEADER);
  }

  /** The left merge: a, b, c = alloc(100) each; free(b); free(a); free(c). The second free leaves the footer of the
      swallowed hole, and the third merges with what it points to. */
  lemma MergeFails() returns (s0: State, a: (State, nat), b: (State, nat), c: (State, nat), s4: State, s5: State)
    ensures FromKernel(s0) && Allocated(s0, 100, a.0, a.1) && Allocated(a.0, 100, b.0, b.1)
    ensures Allocated(b.0, 100, c.0, c.1) && Taken(c.0, b.1, s4) && Taken(s4, a.1, s5)
    ensures !Broken(s0) && !Broken(a.0) && !Broken(b.0) && !Broken(c.0) && !Broken(s4) && !Broken(s5)
    ensures Free(s5, c.1).Next? && Broken(Free(s5, c.1).s)
  {
    hide Get32, Extents, Alloc, Free, Inv, Allocated, FromKernel, Taken;
    s0 := Installed();
    var g := Seg(120, false);
    assert [] + [Seg(0x7_F000, true)] == [Seg(0x7_F000, true)];
    var s1, p1 := TailAlloc(s0, [], 0x7_F000, 100);
    assert [] + [g] + Optional(0x7_F000 - 120) == [g] + [Seg(0x7_F000 - 120, true)];
    var s2, p2 := TailAlloc(s1, [g], 0x7_F000 - 120, 100);
    assert [g] + [g] + Optional(0x7_F000 - 240) == [g, g] + [Seg(0x7_F000 - 240, true)];
    var s3, p3 := TailAlloc(s2, [g, g], 0x7_F000 - 240, 100);
    var segs3 := [g, g] + [g] + Optional(0x7_F000 - 360);
    var last := Seg(0x7_F000 - 360, true);
    assert segs3 == [g, g, g, last];
    Sums(g, g);
    a, b, c := (s1, p1), (s2, p2), (s3, p3);
    s4, s5 := ThreeFrees(s3, last, p1, p2, p3);
  }

  lemma SameTotals(s: State, t: State, segs: seq<Seg>, segs': seq<Seg>)
    requires Inv(s, segs) && Inv(t, segs') && |segs| == |segs'| == 2
    requires segs[0].size == segs'[0].size && segs[1].size == segs'[1].size
    ensures s.end - s.start == t.end - t.start
  {
    hide Get32, Holds, Bounds;
    assert segs == [segs[0], segs[1]] && segs' == [segs'[0], segs'[1]];
    Sums(segs[0], segs[1]);
    Sums(segs'[0], segs'[1]);
  }

  lemma FrontFreed(s2: State, rest: Seg, p: nat) returns (s: State)
    requires Inv(s2, [Seg(120, false), rest]) && !rest.hole && p == s2.start + HEADER
    ensures Taken(s2, p, s) && Inv(s, [Seg(120, true), rest])
    ensures s.start == s2.start && s.end == s2.end && s.max == s2.max
  {
    hide Get32, Extents, Free, Inv;
    var segs2 := [Seg(120, false), rest];
    assert segs2[..0] == [] && segs2[1..] == [rest];
    Sums(rest, rest);
    FreeKeeps(s2, segs2, 0, p - HEADER);
    s := Free(s2, p).s;
    assert Freed(segs2, 0) == [Seg(120, true), rest];
    SameTotals(s2, s, segs2, [Seg(120, true), rest]);
  }

  lemma OnlyListed(s: State, segs: seq<Seg>)
    requires Inv(s, segs) && |segs| == 2 && segs[0].hole && !segs[1].hole
    ensures s.index != [] && s.index[0] == s.start == Endmost(s.index) && forall a :: a in s.index ==> a == s.start
    ensures HeaderAt(s.mem, s.start, segs[0].size, true)
  {
    hide Get32, Holds, IndexLists;
    assert segs[..0] == [];
    SegFacts(s, segs, 0);
    ListedIffHole(s, segs, 0);
    forall a | a in s.index
      ensures a == s.start
    {
      IndexIsHoles(s, segs, a);
      var k := Find(s, segs, true, a);
      assert k == 0;
    }
    assert s.index[0] in s.index;
  }

  /** The hole at the start is the only one listed: alloc widens it and cuts the block out of it. */
  lemma OnlyHoleGrows(s: State, segs: seq<Seg>)
    requires Inv(s, segs) && |segs| == 2 && segs[0] == Seg(120, true) && !segs[1].hole
    requires s.end + Delta(s, 220) <= s.max && NoWrap(s, 200) && !AnyFits(s, 200, false)
    ensures var r := Alloc(s, 200, false); r.Next? && r.p == s.start + HEADER
  {
    hide Get32, Alloc, Carve, Grow, Extents, Holds, Delta, IndexLists, PagesMapped, Endmost, HeaderAt, SizeAt, Separated, AnyFits;
    OnlyListed(s, segs);
    FirstExpansion(s, segs, 200);
    GrowThenAlloc(s, 200, false);
    var g := Grow(s, 220).s;
    WidenedServes(s, segs, g, 200, false);
    var h, z := EndmostIsStuck(s, segs);
    PlainHead(g, 200);
    AllocIsCarve(g, 200, false);
  }

  lemma SecondIsLive(s: State, segs: seq<Seg>)
    requires Inv(s, segs) && |segs| == 2 && !segs[1].hole
    ensures s.start + segs[0].size in Live(s.start, segs)
  {
    hide Get32, Holds;
    HoldsRoomy(s.mem, s.start, segs, s.end);
    assert segs[..1] == [segs[0]];
    Sums(segs[0], segs[0]);
    Listed(s.start, segs, 1);
  }

  lemma NothingFits(s: State, segs: seq<Seg>, size: nat)
    requires Inv(s, segs) && forall k :: 0 <= k < |segs| && segs[k].hole ==> segs[k].size < size + OVERHEAD
    requires exists k :: 0 <= k < |segs| && segs[k].hole
    ensures !AnyFits(s, size, false) && s.index != []
  {
    hide Get32, Extents, Holds;
    var k :| 0 <= k < |segs| && segs[k].hole;
    ListedIffHole(s, segs, k);
    if AnyFits(s, size, false) {
      var j := HoleOfEntry(s, segs, FirstFit(s.mem, s.index, size + OVERHEAD, false));
    }
  }

  /** A hole of 120 bytes and then one block up to the end, with room for 220 bytes more. */
  lemma FullHeapGrows(s: State, rest: Seg)
    requires Inv(s, [Seg(120, true), rest]) && !rest.hole && s.end + 220 + PAGE_SIZE <= s.max
    ensures NoWrap(s, 200) && !AnyFits(s, 200, false)
    ensures Grow(s, 220).Next? && BrokenFor(Grow(s, 220).s, Live(s.start, [Seg(120, true), rest]))
    ensures s.start + 120 in Live(s.start, [Seg(120, true), rest])
    ensures var r := Alloc(s, 200, false); r.Next? && r.p == s.start + HEADER
  {
    hide Get32, Extents, Alloc, Inv, Grow;
    var segs := [Seg(120, true), rest];
    assert segs[0].hole && segs[..1] == [Seg(120, true)];
    Sums(segs[0], rest);
    NothingFits(s, segs, 200);
    TailIsSmall(s, segs, rest.size);
    assert Delta(s, 220) <= 220 + PAGE_SIZE;
    GrowBreaks(s, segs, 220);
    SecondIsLive(s, segs);
    OnlyHoleGrows(s, segs);
  }

  /** Growing: a = alloc(100); alloc(the rest); free(a); alloc(200). The heap ends with a block, and the expansion
      widens the hole at its start over that block: the last call hands out addresses inside it. */
  lemma GrowthFails() returns (s0: State, a: (State, nat), b: (State, nat), s: State, segs: seq<Seg>)
    ensures FromKernel(s0) && Allocated(s0, 100, a.0, a.1) && Allocated(a.0, 0x7_F000 - 140, b.0, b.1)
    ensures Taken(b.0, a.1, s) && Inv(s, segs) && b.1 - HEADER in Live(s.start, segs)
    ensures !Broken(s0) && !Broken(a.0) && !Broken(b.0)
    ensures NoWrap(s, 200) && !AnyFits(s, 200, false)
    ensures Grow(s, 200 + OVERHEAD).Next? && BrokenFor(Grow(s, 200 + OVERHEAD).s, Live(s.start, segs))
    ensures var r := Alloc(s, 200, false); r.Next? && r.p <= b.1 < r.p + 200
  {
    hide Get32, Extents, Alloc, Free, Inv, Grow, Allocated, FromKernel, Taken, NoWrap;
    s0 := Installed();
    var g, rest := Seg(120, false), Seg(0x7_F000 - 120, false);
    assert [] + [Seg(0x7_F000, true)] == [Seg(0x7_F000, true)];
    var s1, p1 := TailAlloc(s0, [], 0x7_F000, 100);
    assert [] + [g] + Optional(0x7_F000 - 120) == [g] + [Seg(0x7_F000 - 120, true)];
    var s2, p2 := TailAlloc(s1, [g], 0x7_F000 - 120, 0x7_F000 - 140);
    assert [g] + [rest] + Optional(0) == [g, rest];
    Sums(g, g);
    a, b := (s1, p1), (s2, p2);
    s := FrontFreed(s2, rest, p1);
    segs := [Seg(120, true), rest];
    FullHeapGrows(s, rest);
  }

  lemma EndForged(s2: State, last: Seg, p1: nat, p2: nat) returns (s3: State, s4: State)
    requires last.hole && Inv(s2, [Seg(0x7_0000, false), Seg(36, false), last])
    requires p1 == s2.start + HEADER && p2 == s2.start + 0x7_0000 + HEADER
    ensures Taken(s2, p1, s3) && Taken(s3, p2, s4) && !Broken(s3)
    ensures Inv(s4, [Seg(0x7_0000, true)]) && ForgedEnd(s4) && s4.start == s2.start && s4.max == s2.max
  {
    hide Get32, Extents, Free, Inv, Holds, StaleFooter, ForgedEnd, FooterAt;
    var g, h, small := Seg(0x7_0000, false), Seg(0x7_0000, true), Seg(36, false);
    var segs2, segs3 := [g, small, last], [h, small, last];
    Sums(g, small);
    Sums(h, small);
    assert segs2[..0] == [] && segs2[1..] == [small, last] && segs2[1..][1..] == [last];
    FreeKeeps(s2, segs2, 0, p1 - HEADER);
    FreeLeavesFooter(s2, segs2, 0, p1 - HEADER);
    s3 := Free(s2, p1).s;
    assert Freed(segs2, 0) == segs3;
    assert segs3[..1] == [h] && segs3[..0] == [] && segs3[2..] == [last] && segs3[2..][1..] == [];
    FooterBefore(s3, segs3, 1, p2 - HEADER);
    FreeKeeps(s3, segs3, 1, p2 - HEADER);
    FreeForgesEnd(s3, segs3, 1, p2 - HEADER);
    s4 := Free(s3, p2).s;
    assert Freed(segs3, 1) == [] + [Seg(0x7_0000, true)] + [];
    assert [] + [Seg(0x7_0000, true)] + [] == [Seg(0x7_0000, true)];
  }

  lemma StopsAtEnd(s4: State, s5: State, g: Seg)
    requires Inv(s5, [g]) && !g.hole && ForgedEnd(s4) && s5.end == s4.end <= ADDRESS_LIMIT && |s4.mem| == WORD_LIMIT
    requires SameOutside(s4.mem, s5.mem, s5.start, s4.end)
    ensures Free(s5, s5.start + HEADER) == Halted
  {
    hide Get32, Extents, Free, Inv;
    ForgedKept(s4, s5.mem, s5.start, s4.end);
    assert [g][..0] == [] && [g][1..] == [];
    Sums(g, g);
    FreeStops(s5, [g], 0, s5.start);
  }

  /** The ASSERT of the right merge: a = alloc(0x6FFEC); b = alloc(16); free(a); free(b); c = alloc(0x6FFEC); free(c).
      Freeing b ends the heap at its header, which stays behind as that of a hole; freeing c takes it for a right
      neighbour and does not find it in the index. Every step before that leaves a sound heap. */
  lemma AssertFails()
    returns (s0: State, a: (State, nat), b: (State, nat), s3: State, s4: State, c: (State, nat))
    ensures FromKernel(s0) && Allocated(s0, 0x6_FFEC, a.0, a.1) && Allocated(a.0, 16, b.0, b.1)
    ensures Taken(b.0, a.1, s3) && Taken(s3, b.1, s4) && Allocated(s4, 0x6_FFEC, c.0, c.1)
    ensures !Broken(s0) && !Broken(a.0) && !Broken(b.0) && !Broken(s3) && !Broken(s4) && !Broken(c.0)
    ensures Free(c.0, c.1) == Halted
  {
    hide Get32, Extents, Alloc, Free, Inv, Allocated, FromKernel, Taken, ForgedEnd;
    s0 := Installed();
    var g, small, last := Seg(0x7_0000, false), Seg(36, false), Seg(0xEFDC, true);
    assert [] + [Seg(0x7_F000, true)] == [Seg(0x7_F000, true)];
    var s1, p1 := TailAlloc(s0, [], 0x7_F000, 0x6_FFEC);
    assert [] + [g] + Optional(0xF000) == [g] + [Seg(0xF000, true)];
    var s2, p2 := TailAlloc(s1, [g], 0xF000, 16);
    assert [g] + [small] + Optional(0xEFDC) == [g, small, last];
    Sums(g, small);
    a, b := (s1, p1), (s2, p2);
    s3, s4 := EndForged(s2, last, p1, p2);
    TailIsSmall(s4, [Seg(0x7_0000, true)], 0x7_0000);
    assert [] + [Seg(0x7_0000, true)] == [Seg(0x7_0000, true)];
    var s5, p5 := TailAlloc(s4, [], 0x7_0000, 0x6_FFEC);
    assert [] + [g] + Optional(0) == [g];
    c := (s5, p5);
    StopsAtEnd(s4, s5, g);
  }
}
