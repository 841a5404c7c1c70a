/** What each operation of kernel/kheap.c does to the heap, as a function of the heap before it: every branch
    and every store of the source, including those its comments say otherwise about. `Halted` is a failed ASSERT. */
module HeapText {
  import opened Memory
  import opened HeapState
  import opened OrderedArrays

  const NOT_FOUND := 0xDEADBEEF
  const HEAP_INDEX_SIZE := 0x2_0000

  /** The words between the index array and the heap, up to the two in front of the heap that the left merge of its
      first block reads. */
  const INDEX_MARGIN := 1022

  /** How many entries the index can have before it reaches these two. */
  const INDEX_ROOM := HEAP_INDEX_SIZE + INDEX_MARGIN

  datatype Outcome = Halted | Next(s: State, p: nat)

  // ---- find_smallest_hole ----

  /** What find_smallest_hole charges for page-aligning the data of a block cut from a hole at `a`. */
  function AlignOffset(a: nat): nat {
    if U32(a + HEADER) >= PAGE_SIZE then PAGE_SIZE - U32(a + HEADER) % PAGE_SIZE else 0
  }

  predicate Fits(m: seq<Byte>, a: nat, size: nat, align: bool) {
    if align then SizeAt(m, a) - AlignOffset(a) >= size else SizeAt(m, a) >= size
  }

  /** The first index entry that fits, or the length of the index. */
  function FirstFit(m: seq<Byte>, index: seq<nat>, size: nat, align: bool): (i: nat)
    ensures i <= |index|
    ensures forall j :: 0 <= j < i ==> !Fits(m, index[j], size, align)
    ensures i < |index| ==> Fits(m, index[i], size, align)
  {
    if index == [] || Fits(m, index[0], size, align) then 0 else 1 + FirstFit(m, index[1..], size, align)
  }

  // ---- expand and contract ----

  /** The page boundary after `n`; a multiple of the page size moves up too. */
  function PageAfter(n: nat): nat {
    n / PAGE_SIZE * PAGE_SIZE + PAGE_SIZE
  }

  function PageAddress(start: nat, i: int): nat {
    U32(start + i)
  }

  /** The addresses start + i for i from `from` up to `to` in steps of a page. */
  function PageRange(start: nat, from: nat, to: nat): set<nat> {
    set i | from <= i < to && (i - from) % PAGE_SIZE == 0 :: PageAddress(start, i)
  }

  function Expand(s: State, n: nat): Outcome {
    var length := U32(s.end - s.start);
    if n <= length then Halted
    else
      var r := if n >= PAGE_SIZE then U32(PageAfter(n)) else n;
      if U32(s.start + r) > s.max then Halted
      else Next(s.(end := U32(s.start + r), mapped := s.mapped + PageRange(s.start, length, r)), 0)
  }

  /** The size contract settles on. The source masks with the page size itself, so a set bit 12 yields two pages. */
  function ContractSize(n: nat): nat {
    var r := if n / PAGE_SIZE % 2 == 1 then PAGE_SIZE + PAGE_SIZE else n;
    if r < HEAP_MIN_SIZE then HEAP_MIN_SIZE else r
  }

  /** The pages contract gives back: it steps down from the last page while the offset is above the new size. */
  function GivenBack(start: nat, length: nat, size: nat): set<nat> {
    set i | size < i <= length - PAGE_SIZE && (length - i) % PAGE_SIZE == 0 :: PageAddress(start, i)
  }

  function Contract(s: State, n: nat): Outcome {
    var length := U32(s.end - s.start);
    if n >= length then Halted
    else
      var r := ContractSize(n);
      Next(s.(end := U32(s.start + r), mapped := s.mapped - GivenBack(s.start, length, r)), r)
  }

  // ---- alloc ----

  /** The largest index entry, or 0: the endmost header by location. */
  function Endmost(index: seq<nat>): (a: nat)
    ensures forall i :: 0 <= i < |index| ==> index[i] <= a
    ensures a != 0 ==> a in index
  {
    if index == [] then 0
    else
      var n := |index| - 1;
      var a := Endmost(index[..n]);
      assert index == index[..n] + [index[n]];
      if index[n] > a then index[n] else a
  }

  /** The part of alloc that runs when no hole fits, up to its recursive call. */
  function Grow(s: State, newSize: nat): Outcome {
    var length := U32(s.end - s.start);
    match Expand(s, U32(length + newSize))
    case Halted => Halted
    case Next(g, _) =>
      var delta := U32(U32(g.end - g.start) - length);
      var h := Endmost(s.index);
      if h == 0 then
        var mem := PutFooter(PutHeader(s.mem, s.end, delta, true), s.end + delta, s.end);
        Next(g.(mem := mem, index := InsertBefore(s.index, s.end, SizeLess(mem))), 0)
      else
        var mem := Store32(s.mem, h + 8, SizeAt(s.mem, h) + delta);
        Next(g.(mem := PutFooter(mem, h + SizeAt(mem, h), h)), 0)
  }

  /** The block's header and footer, and the rear hole if anything of the hole is left. */
  function PlaceBlock(s: State, block: nat, holeSize: nat, usable: nat, newSize: nat): Outcome {
    var after := block + HEADER + usable + FOOTER;
    var mem := PutFooter(PutHeader(s.mem, block, newSize, false), after, block);
    var rest := U32(holeSize - newSize);
    if rest > 0 then
      var rear := U32(after);
      var mem1 := PutHeader(mem, rear, rest, true);
      var footer := U32(rear + rest - FOOTER);
      var mem2 := if footer < s.end then PutFooter(mem1, footer + FOOTER, rear) else mem1;
      Next(s.(mem := mem2, index := InsertBefore(s.index, rear, SizeLess(mem2))), U32(block + HEADER))
    else
      Next(s.(mem := mem), U32(block + HEADER))
  }

  /** The part of alloc that cuts a block out of the hole at index position `at`. */
  function Carve(s: State, at: nat, size: nat, align: bool): Outcome
    requires at < |s.index|
  {
    var pos := s.index[at];
    var holeSize := SizeAt(s.mem, pos);
    var want := U32(size + OVERHEAD);
    var whole := U32(holeSize - want) < OVERHEAD;
    var usable := if whole then U32(size + U32(holeSize - want)) else size;
    var newSize := if whole then holeSize else want;
    if align && pos >= PAGE_SIZE then
      var front := U32(PAGE_SIZE - pos % PAGE_SIZE - HEADER);
      var block := U32(pos + PAGE_SIZE - pos % PAGE_SIZE - HEADER);
      var mem := PutFooter(PutHeader(s.mem, pos, front, true), block, pos);
      PlaceBlock(s.(mem := mem), block, U32(holeSize - SizeAt(mem, pos)), usable, newSize)
    else
      PlaceBlock(s.(index := DeleteAt(s.index, at)), pos, holeSize, usable, newSize)
  }

  /** Addresses and sizes for which alloc computes without wrapping. */
  predicate NoWrap(s: State, size: nat) {
    s.start <= s.end <= s.max <= ADDRESS_LIMIT && size + OVERHEAD < 0x8000_0000
  }

  /** An expansion moves the end up, and nothing else of the bounds. */
  lemma GrowAdvances(s: State, size: nat)
    requires NoWrap(s, size) && Grow(s, size + OVERHEAD).Next?
    ensures var g := Grow(s, size + OVERHEAD).s;
            s.end < g.end <= s.max && g.start == s.start && g.max == s.max && NoWrap(g, size)
  {
    hide Get32;
  }

  function Alloc(s: State, size: nat, align: bool): Outcome
    requires NoWrap(s, size)
    decreases s.max - s.end
  {
    var at := FirstFit(s.mem, s.index, size + OVERHEAD, align);
    if at == |s.index| then
      match Grow(s, size + OVERHEAD)
      case Halted => Halted
      case Next(g, _) => Alloc(g, size, align)
    else
      Carve(s, at, size, align)
  }

  // ---- free ----

  /** The local variables of free after the marking and after each merge. */
  datatype Cursor = Stopped | At(s: State, header: nat, footer: nat, add: bool)

  function MergeLeft(s: State, header: nat, footer: nat): Cursor {
    var left := Load32(s.mem, header - 4);
    if Load32(s.mem, header - 8) == HEAP_MAGIC && Load8(s.mem, left + 4) == 1 then
      var cached := SizeAt(s.mem, header);
      var mem := Store32(s.mem, footer + 4, left);
      At(s.(mem := Store32(mem, left + 8, SizeAt(mem, left) + cached)), left, footer, false)
    else
      At(s, header, footer, true)
  }

  function PositionOf(index: seq<nat>, a: nat): (i: nat)
    ensures i <= |index|
    ensures i < |index| ==> index[i] == a
    ensures i == |index| ==> a !in index
  {
    if index == [] || index[0] == a then 0 else 1 + PositionOf(index[1..], a)
  }

  function MergeRight(c: Cursor): Cursor
    requires c.At?
  {
    var right := U32(c.footer + FOOTER);
    if Load32(c.s.mem, right) == HEAP_MAGIC && Load8(c.s.mem, right + 4) != 0 then
      var mem := Store32(c.s.mem, c.header + 8, SizeAt(c.s.mem, c.header) + SizeAt(c.s.mem, right));
      var at := PositionOf(c.s.index, right);
      if at == |c.s.index| then Stopped
      else
        c.(s := c.s.(mem := mem, index := DeleteAt(c.s.index, at)),
           footer := U32(right + SizeAt(mem, right) - FOOTER))
    else
      c
  }

  /** Contraction when the freed hole ends the heap. `right` is where the right merge looked: the branch for a
      hole that no longer exists searches the index for that address. */
  function Shrink(c: Cursor, right: nat): Cursor
    requires c.At?
  {
    if U32(c.footer + FOOTER) == c.s.end then
      var length := U32(c.s.end - c.s.start);
      match Contract(c.s, U32(c.header - c.s.start))
      case Halted => Stopped
      case Next(s, newLength) =>
        var size := U32(SizeAt(s.mem, c.header) - U32(length - newLength));
        if size > 0 then
          var mem := Store32(s.mem, c.header + 8, size);
          var end := U32(c.header + SizeAt(mem, c.header));
          c.(s := s.(mem := PutFooter(mem, end, c.header)), footer := U32(end - FOOTER))
        else
          var at := PositionOf(s.index, right);
          c.(s := if at < |s.index| then s.(index := DeleteAt(s.index, at)) else s)
    else
      c
  }

  /** Entering the freed hole in the index, if it is not there yet. */
  function Enter(c: Cursor): State
    requires c.At?
  {
    if c.add then c.s.(index := InsertBefore(c.s.index, c.header, SizeLess(c.s.mem))) else c.s
  }

  /** free after the left merge. */
  function Conclude(c: Cursor, right: nat): Outcome
    requires c.At?
  {
    match MergeRight(c)
    case Stopped => Halted
    case At(_, _, _, _) =>
      match Shrink(MergeRight(c), right)
      case Stopped => Halted
      case At(_, _, _, _) => Next(Enter(Shrink(MergeRight(c), right)), 0)
  }

  function Free(s: State, p: nat): Outcome {
    if p == 0 then Next(s, 0)
    else
      var header := U32(p - HEADER);
      var footer := U32(header + SizeAt(s.mem, header) - FOOTER);
      if Load32(s.mem, header) != HEAP_MAGIC || Load32(s.mem, footer) != HEAP_MAGIC then Halted
      else Conclude(MergeLeft(s.(mem := Store8(s.mem, header + 4, 1)), header, footer), U32(footer + FOOTER))
  }

  // ---- create_heap ----

  /** create_heap over memory `m`, up to the zeroing of the index array, which lies below the heap.
      The start moves past the index and then always up to the following page boundary. */
  function CreateHeap(m: seq<Byte>, startAddr: nat, endAddr: nat, max: nat, mapped: set<nat>): Outcome {
    if startAddr % PAGE_SIZE != 0 || endAddr % PAGE_SIZE != 0 then Halted
    else
      var moved := U32(startAddr + 4 * HEAP_INDEX_SIZE);
      var start := if moved >= PAGE_SIZE then U32(PageAfter(moved)) else moved;
      Next(State(PutHeader(m, start, endAddr - start, true), [start], start, endAddr, max, mapped), 0)
  }
}
