/** Cutting a block out of a hole: exactly when it keeps the invariant. */
module HeapCarve {
  import opened Memory
  import opened HeapLayout
  import opened HeapState
  import opened HeapText
  import opened OrderedArrays

  /** The gap alloc leaves in front of a block whose data is page-aligned, for a hole at `pos`. */
  function FrontGap(pos: nat): int {
    PAGE_SIZE - HEADER - pos % PAGE_SIZE
  }

  /** Unaligned requests always split soundly. An aligned one needs a front gap with room for a hole, and a rest that is
      nothing or has room for one. */
  predicate CarveSafe(pos: nat, holeSize: nat, want: nat, align: bool) {
    align ==>
      && FrontGap(pos) >= OVERHEAD
      && var rest := holeSize - FrontGap(pos) - want; rest == 0 || rest >= OVERHEAD
  }

  /** The size of the front hole, and of the block. */
  function Front(pos: nat, align: bool): int {
    if align then FrontGap(pos) else 0
  }

  function BlockSize(holeSize: nat, want: nat, align: bool): nat {
    if !align && holeSize - want < OVERHEAD then holeSize else want
  }

  function Optional(size: nat): seq<Seg> {
    if size > 0 then [Seg(size, true)] else []
  }

  /** The pieces a hole falls into. */
  function Pieces(front: nat, block: nat, rest: nat): seq<Seg> {
    Optional(front) + [Seg(block, false)] + Optional(rest)
  }

  function Carved(segs: seq<Seg>, k: nat, front: nat, block: nat): seq<Seg>
    requires k < |segs| && front + block <= segs[k].size
  {
    segs[..k] + Pieces(front, block, segs[k].size - front - block) + segs[k + 1..]
  }

  // ---- Memory ----

  ghost predicate BlockPlaced(m: seq<Byte>, m': seq<Byte>, block: nat, size: nat, rest: nat) {
    && SameOutside(m, m', block, block + size + rest)
    && HeaderAt(m', block, size, false) && FooterAt(m', block + size, block)
    && (rest > 0 ==> HeaderAt(m', block + size, rest, true) && FooterAt(m', block + size + rest, block + size))
  }

  lemma BlockRecord(m: seq<Byte>, block: nat, size: nat)
    requires |m| == WORD_LIMIT && OVERHEAD <= size && block + size < |m|
    ensures BlockPlaced(m, PutFooter(PutHeader(m, block, size, false), block + size, block), block, size, 0)
  {
    hide Get32;
    HeaderKept(PutHeader(m, block, size, false), PutFooter(PutHeader(m, block, size, false), block + size, block),
               block, size, false);
  }

  lemma RearRecord(m: seq<Byte>, m1: seq<Byte>, block: nat, size: nat, rest: nat)
    requires |m| == WORD_LIMIT && OVERHEAD <= size && OVERHEAD <= rest && block + size + rest < |m|
    requires BlockPlaced(m, m1, block, size, 0)
    ensures BlockPlaced(m, PutFooter(PutHeader(m1, block + size, rest, true), block + size + rest, block + size),
                        block, size, rest)
  {
    hide Get32;
    var m2 := PutHeader(m1, block + size, rest, true);
    var m3 := PutFooter(m2, block + size + rest, block + size);
    HeaderKept(m2, m3, block + size, rest, true);
    HeaderKept(m1, m3, block, size, false);
    FooterKept(m1, m3, block + size, block);
  }

  /** The block and the rear hole, written where they belong. */
  lemma PlaceBlockResult(s: State, block: nat, holeSize: nat, size: nat) returns (m: seq<Byte>)
    requires |s.mem| == WORD_LIMIT && block + holeSize <= s.end <= ADDRESS_LIMIT
    requires OVERHEAD <= size <= holeSize && (size == holeSize || size + OVERHEAD <= holeSize)
    ensures BlockPlaced(s.mem, m, block, size, holeSize - size)
    ensures PlaceBlock(s, block, holeSize, size - OVERHEAD, size)
            == Next(if size < holeSize
                    then s.(mem := m, index := InsertBefore<nat>(s.index, block + size, SizeLess(m)))
                    else s.(mem := m), block + HEADER)
  {
    hide Get32, PutHeader, PutFooter;
    BlockRecord(s.mem, block, size);
    m := PutFooter(PutHeader(s.mem, block, size, false), block + size, block);
    if size < holeSize {
      RearRecord(s.mem, m, block, size, holeSize - size);
      m := PutFooter(PutHeader(m, block + size, holeSize - size, true), block + holeSize, block + size);
    }
  }

  /** Whatever is left of the hole, the header of the block stands and nothing before it changes. */
  lemma PlaceHead(s: State, block: nat, holeSize: nat, size: nat)
    requires |s.mem| == WORD_LIMIT && block + holeSize <= s.end <= ADDRESS_LIMIT && OVERHEAD <= size <= holeSize
    ensures var r := PlaceBlock(s, block, holeSize, size - OVERHEAD, size);
            && r.Next? && r.s.start == s.start && HeaderAt(r.s.mem, block, size, false)
            && SameOutside(s.mem, r.s.mem, block, block + holeSize + OVERHEAD)
  {
    hide Get32, PutHeader, PutFooter;
    BlockRecord(s.mem, block, size);
    var m := PutFooter(PutHeader(s.mem, block, size, false), block + size, block);
    if size < holeSize {
      var m1 := PutHeader(m, block + size, holeSize - size, true);
      HeaderKept(m, m1, block, size, false);
      HeaderKept(m1, PutFooter(m1, block + holeSize, block + size), block, size, false);
    }
  }

  lemma FrontRecord(m: seq<Byte>, pos: nat, front: nat)
    requires |m| == WORD_LIMIT && OVERHEAD <= front && pos + front < |m|
    ensures var m' := PutFooter(PutHeader(m, pos, front, true), pos + front, pos);
            SameOutside(m, m', pos, pos + front) && HeaderAt(m', pos, front, true) && FooterAt(m', pos + front, pos)
  {
    hide Get32;
    HeaderKept(PutHeader(m, pos, front, true), PutFooter(PutHeader(m, pos, front, true), pos + front, pos), pos, front, true);
  }

  lemma CarvePlain(s: State, at: nat, size: nat)
    requires at < |s.index| && size + OVERHEAD <= SizeAt(s.mem, s.index[at]) < 0x8000_0000
    ensures var pos, n := s.index[at], SizeAt(s.mem, s.index[at]);
            var block := BlockSize(n, size + OVERHEAD, false);
            OVERHEAD <= block && Carve(s, at, size, false)
            == PlaceBlock(s.(index := DeleteAt(s.index, at)), pos, n, block - OVERHEAD, block)
  {
    hide Get32, PlaceBlock, SizeAt;
  }

  /** The offset the search charges is the front gap exactly if there is one. If the data behind the hole's header is
      aligned already, or the header reaches into the next page, the search charges a page more than the cut leaves. */
  lemma ChargedGap(pos: nat)
    requires PAGE_SIZE <= pos < ADDRESS_LIMIT
    ensures AlignOffset(pos) == FrontGap(pos) <==> FrontGap(pos) > 0
    ensures AlignOffset(pos) == if FrontGap(pos) > 0 then FrontGap(pos) else FrontGap(pos) + PAGE_SIZE
    ensures (pos + FrontGap(pos) + HEADER) % PAGE_SIZE == 0
  {
  }

  lemma CarveAligned(s: State, at: nat, size: nat)
    requires |s.mem| == WORD_LIMIT && at < |s.index| && SizeAt(s.mem, s.index[at]) < 0x8000_0000
    requires var pos := s.index[at];
             && PAGE_SIZE <= pos < ADDRESS_LIMIT && FrontGap(pos) >= OVERHEAD
             && FrontGap(pos) + size + OVERHEAD <= SizeAt(s.mem, pos)
    ensures var pos, n := s.index[at], SizeAt(s.mem, s.index[at]);
            var gap := FrontGap(pos);
            var m := PutFooter(PutHeader(s.mem, pos, gap, true), pos + gap, pos);
            Carve(s, at, size, true) == PlaceBlock(s.(mem := m), pos + gap, n - gap, size, size + OVERHEAD)
  {
    hide Get32, PlaceBlock, PutHeader, PutFooter;
    FrontRecord(s.mem, s.index[at], FrontGap(s.index[at]));
  }

  /** The same without room for a footer between the hole's header and the block: the size of the front hole, reduced
      to 32 bits, is what the rest is computed from. */
  lemma CarveNarrow(s: State, at: nat, size: nat)
    requires |s.mem| == WORD_LIMIT && at < |s.index| && SizeAt(s.mem, s.index[at]) < 0x8000_0000
    requires PAGE_SIZE <= s.index[at] < ADDRESS_LIMIT && FrontGap(s.index[at]) <= FOOTER
    requires size + OVERHEAD + OVERHEAD <= SizeAt(s.mem, s.index[at])
    ensures var pos, n, gap := s.index[at], SizeAt(s.mem, s.index[at]), FrontGap(s.index[at]);
            var m := PutFooter(PutHeader(s.mem, pos, U32(gap), true), pos + gap, pos);
            && SameOutside(s.mem, m, pos + gap - FOOTER, pos + HEADER)
            && Carve(s, at, size, true) == PlaceBlock(s.(mem := m), pos + gap, n - gap, size, size + OVERHEAD)
  {
    hide Get32, PlaceBlock, PutHeader, PutFooter;
    var pos, gap := s.index[at], FrontGap(s.index[at]);
    var m := PutHeader(s.mem, pos, U32(gap), true);
    WordKept(m, PutFooter(m, pos + gap, pos), pos + 8);
  }

  // ---- Segments and index ----

  lemma OptionalFacts(at: nat, n: nat)
    ensures Total(Optional(n)) == n
    ensures Holes(at, Optional(n)) == (if n > 0 then map[at := n] else map[])
    ensures Live(at, Optional(n)) == map[]
  {
    OneSeg(at, Seg(n, true), true);
    OneSeg(at, Seg(n, true), false);
  }

  lemma PiecesFacts(at: nat, front: nat, block: nat, rest: nat)
    ensures Total(Pieces(front, block, rest)) == front + block + rest
    ensures forall a :: a in Holes(at, Pieces(front, block, rest)) <==>
      (front > 0 && a == at) || (rest > 0 && a == at + front + block)
    ensures Live(at, Pieces(front, block, rest)) == map[at + front := block]
  {
    var b := Seg(block, false);
    OptionalFacts(at, front);
    OptionalFacts(at + front + block, rest);
    OneSeg(at + front, b, true);
    OneSeg(at + front, b, false);
    ExtentsSplice(at, Optional(front), [b], Optional(rest), true);
    ExtentsSplice(at, Optional(front), [b], Optional(rest), false);
  }

  /** Three lists of addresses around a cut: before `pos`, made of the pieces, and from `end` on. */
  lemma CutSets(old': map<nat, nat>, new': map<nat, nat>, p: map<nat, nat>, m: map<nat, nat>, q: map<nat, nat>,
                pos: nat, end: nat, rear: nat)
    requires forall a :: a in old' <==> a in p || a == pos || a in q
    requires forall a :: a in new' <==> a in p || a in m || a in q
    requires forall a :: a in m ==> a == pos || a == rear
    requires (forall a :: a in p ==> a < pos) && (forall a :: a in q ==> end <= a)
    requires pos < rear && (rear in m ==> rear < end) && pos < end
    ensures forall a :: a in new' <==> (a in old' && a != pos) || (pos in m && a == pos) || (rear in m && a == rear)
    ensures pos in old' && (rear in m ==> rear !in old')
  {
  }

  lemma PiecesLists(at: nat, pre: seq<Seg>, n: nat, post: seq<Seg>, front: nat, block: nat)
    requires Roomy(pre) && Roomy(post) && front + block <= n && OVERHEAD <= block
    ensures var pos, rest := at + Total(pre), n - front - block;
            var old', new' := Holes(at, pre + [Seg(n, true)] + post), Holes(at, pre + Pieces(front, block, rest) + post);
            && (forall a :: a in new' <==> (a in old' && a != pos) || (front > 0 && a == pos)
                                           || (rest > 0 && a == pos + front + block))
            && pos in old' && (rest > 0 ==> pos + front + block !in old')
  {
    hide Extents, Roomy, Pieces;
    var pos, rest := at + Total(pre), n - front - block;
    ListedAround(at, pre, Seg(n, true), post, true);
    PiecesFacts(pos, front, block, rest);
    ListedSplice(at, pre, Pieces(front, block, rest), post, true);
    KeysInRange(at, pre, true);
    KeysInRange(pos + n, post, true);
    CutSets(Holes(at, pre + [Seg(n, true)] + post), Holes(at, pre + Pieces(front, block, rest) + post),
            Holes(at, pre), Holes(pos, Pieces(front, block, rest)), Holes(pos + n, post), pos, pos + n, pos + front + block);
  }

  /** Which addresses are holes once the hole at position k is cut up. */
  lemma CarvedLists(at: nat, segs: seq<Seg>, k: nat, front: nat, block: nat)
    requires Roomy(segs) && k < |segs| && segs[k].hole && front + block <= segs[k].size && OVERHEAD <= block
    ensures var pos, rest := at + Total(segs[..k]), segs[k].size - front - block;
            var old', new' := Holes(at, segs), Holes(at, Carved(segs, k, front, block));
            && (forall a :: a in new' <==> (a in old' && a != pos) || (front > 0 && a == pos)
                                           || (rest > 0 && a == pos + front + block))
            && pos in old' && (rest > 0 ==> pos + front + block !in old')
  {
    hide Extents, Pieces, Total;
    assert segs == segs[..k] + [Seg(segs[k].size, true)] + segs[k + 1..];
    PiecesLists(at, segs[..k], segs[k].size, segs[k + 1..], front, block);
  }

  lemma CarvedLive(at: nat, segs: seq<Seg>, k: nat, front: nat, block: nat)
    requires Roomy(segs) && k < |segs| && segs[k].hole && front + block <= segs[k].size && OVERHEAD <= block
    ensures var b := at + Total(segs[..k]) + front;
            b !in Live(at, segs) && Live(at, Carved(segs, k, front, block)) == Live(at, segs)[b := block]
  {
    hide Extents, Pieces;
    var pre, g, post := segs[..k], segs[k], segs[k + 1..];
    var pos, rest := at + Total(pre), g.size - front - block;
    assert segs == pre + [g] + post;
    ExtentsSplice(at, pre, [g], post, false);
    OneSeg(pos, g, false);
    PiecesFacts(pos, front, block, rest);
    ExtentsSplice(at, pre, Pieces(front, block, rest), post, false);
    ExtentsInRange(at, pre, false);
    ExtentsInRange(pos + g.size, post, false);
  }

  /** The index after a cut: the old entry goes unless a front hole stays, and the rear hole comes in. */
  function CarvedIndex(index: seq<nat>, i: nat, front: nat, rear: nat, rest: nat, less: (nat, nat) -> bool): seq<nat>
    requires i < |index|
  {
    var kept := if front > 0 then index else DeleteAt(index, i);
    if rest > 0 then InsertBefore<nat>(kept, rear, less) else kept
  }

  lemma CarvedCounts(index: seq<nat>, i: nat, front: nat, rear: nat, rest: nat, less: (nat, nat) -> bool,
                     old': map<nat, nat>, new': map<nat, nat>)
    requires i < |index| && forall a :: multiset(index)[a] == if a in old' then 1 else 0
    requires var pos := index[i];
             forall a :: a in new' <==> (a in old' && a != pos) || (front > 0 && a == pos) || (rest > 0 && a == rear)
    requires rest > 0 ==> rear !in old'
    ensures forall a :: multiset(CarvedIndex(index, i, front, rear, rest, less))[a] == if a in new' then 1 else 0
  {
    var kept := if front > 0 then index else DeleteAt(index, i);
    DeleteContents(index, i);
    InsertContents<nat>(kept, rear, less);
    hide DeleteAt, InsertBefore;
    assert index[i] in multiset(index);
    var all := CarvedIndex(index, i, front, rear, rest, less);
    assert multiset(all) == (if rest > 0 then multiset(kept) + multiset{rear} else multiset(kept));
    assert front == 0 ==> multiset(kept) == multiset(index) - multiset{index[i]};
  }

  lemma CarvedIndexLists(index: seq<nat>, i: nat, at: nat, segs: seq<Seg>, k: nat, front: nat, block: nat,
                         less: (nat, nat) -> bool)
    requires Roomy(segs) && k < |segs| && segs[k].hole && front + block <= segs[k].size && OVERHEAD <= block
    requires IndexLists(index, at, segs) && i < |index| && index[i] == at + Total(segs[..k])
    ensures IndexLists(CarvedIndex(index, i, front, index[i] + front + block, segs[k].size - front - block, less),
                       at, Carved(segs, k, front, block))
  {
    hide Extents, Carved, CarvedIndex, Total, Roomy;
    CarvedLists(at, segs, k, front, block);
    CarvedCounts(index, i, front, index[i] + front + block, segs[k].size - front - block, less,
                 Holes(at, segs), Holes(at, Carved(segs, k, front, block)));
  }

  ghost predicate PiecesShown(m: seq<Byte>, pos: nat, front: nat, block: nat, rest: nat) {
    && (front > 0 ==> OVERHEAD <= front && HeaderAt(m, pos, front, true) && FooterAt(m, pos + front, pos))
    && OVERHEAD <= block && HeaderAt(m, pos + front, block, false) && FooterAt(m, pos + front + block, pos + front)
    && (rest > 0 ==> OVERHEAD <= rest && HeaderAt(m, pos + front + block, rest, true)
                     && FooterAt(m, pos + front + block + rest, pos + front + block))
  }

  lemma OptionalHolds(m: seq<Byte>, at: nat, n: nat, end: nat)
    requires n > 0 ==> OVERHEAD <= n && HeaderAt(m, at, n, true) && FooterAt(m, at + n, at)
    ensures Holds(m, at, Optional(n), end)
  {
    hide Get32;
    assert n > 0 ==> Optional(n)[1..] == [];
  }

  lemma PiecesHold(m: seq<Byte>, pos: nat, front: nat, block: nat, rest: nat, end: nat)
    requires PiecesShown(m, pos, front, block, rest)
    ensures Holds(m, pos, Pieces(front, block, rest), end)
  {
    hide Get32;
    OptionalHolds(m, pos, front, end);
    OptionalHolds(m, pos + front + block, rest, end);
    OptionalFacts(pos, front);
    HoldsAround(m, pos, Optional(front), Seg(block, false), Optional(rest), end);
  }

  lemma SeparatedFront(segs: seq<Seg>, k: nat, front: nat)
    requires Separated(segs) && k < |segs| && segs[k].hole
    ensures Separated(segs[..k] + Optional(front))
  {
  }

  lemma SeparatedRear(segs: seq<Seg>, k: nat, rest: nat)
    requires Separated(segs) && k < |segs| && segs[k].hole
    ensures Separated(Optional(rest) + segs[k + 1..])
  {
    var right := Optional(rest) + segs[k + 1..];
    forall i {:trigger right[i]} | 0 <= i < |right| - 1
      ensures !(right[i].hole && right[i + 1].hole)
    {
      var j := if rest > 0 then k + i else k + 1 + i;
      assert right[i + 1] == segs[j + 1] && ((rest > 0 && i == 0) || right[i] == segs[j]);
    }
  }

  lemma SeparatedCarved(segs: seq<Seg>, k: nat, front: nat, block: nat)
    requires Separated(segs) && k < |segs| && segs[k].hole && front + block <= segs[k].size
    ensures Separated(Carved(segs, k, front, block))
  {
    hide Separated;
    var rest := segs[k].size - front - block;
    var left, right := segs[..k] + Optional(front), Optional(rest) + segs[k + 1..];
    SeparatedFront(segs, k, front);
    SeparatedRear(segs, k, rest);
    SeparatedAround(left, Seg(block, false), right);
    assert Carved(segs, k, front, block) == left + [Seg(block, false)] + right;
  }

  lemma CarvedReading(s: State, segs: seq<Seg>, k: nat, m: seq<Byte>, front: nat, block: nat)
    requires Inv(s, segs) && k < |segs| && segs[k].hole && front + block <= segs[k].size
    requires var pos, rest := s.start + Total(segs[..k]), segs[k].size - front - block;
             SameOutside(s.mem, m, pos, pos + segs[k].size) && PiecesShown(m, pos, front, block, rest)
    ensures Holds(m, s.start, Carved(segs, k, front, block), s.end)
    ensures Total(Carved(segs, k, front, block)) == s.end - s.start && Get32(m, s.start - 8) != HEAP_MAGIC
  {
    hide Get32, Extents, Pieces, IndexLists, Separated, PagesMapped, HeaderAt, FooterAt;
    var pre, post, rest := segs[..k], segs[k + 1..], segs[k].size - front - block;
    var pos, mid := s.start + Total(pre), Pieces(front, block, rest);
    SegFacts(s, segs, k);
    OthersKept(s, segs, k, k + 1, m);
    PiecesHold(m, pos, front, block, rest, s.end);
    hide PiecesShown;
    PiecesFacts(pos, front, block, rest);
    HoldsAppend(m, s.start, pre, mid, s.end);
    HoldsAppend(m, s.start, pre + mid, post, s.end);
    TotalAppend(pre, mid);
    TotalAppend(pre + mid, post);
  }

  /** The cut, given what was written, keeps the invariant. */
  lemma CarvedInv(s: State, segs: seq<Seg>, k: nat, i: nat, m: seq<Byte>, front: nat, block: nat)
    requires Inv(s, segs) && k < |segs| && segs[k].hole && front + block <= segs[k].size
    requires i < |s.index| && s.index[i] == s.start + Total(segs[..k])
    requires var pos, rest := s.index[i], segs[k].size - front - block;
             SameOutside(s.mem, m, pos, pos + segs[k].size) && PiecesShown(m, pos, front, block, rest)
    ensures var rest := segs[k].size - front - block;
            Inv(s.(mem := m, index := CarvedIndex(s.index, i, front, s.index[i] + front + block, rest, SizeLess(m))),
                Carved(segs, k, front, block))
  {
    hide Get32, Extents, Pieces, Carved, CarvedIndex, PagesMapped, HeaderAt, FooterAt;
    HoldsRoomy(s.mem, s.start, segs, s.end);
    CarvedReading(s, segs, k, m, front, block);
    SeparatedCarved(segs, k, front, block);
    CarvedIndexLists(s.index, i, s.start, segs, k, front, block, SizeLess(m));
    hide Holds, Separated, IndexLists, Total;
  }

  // ---- The cut as a whole ----

  /** The hole at an index entry. */
  lemma HoleOfEntry(s: State, segs: seq<Seg>, at: nat) returns (k: nat)
    requires Inv(s, segs) && at < |s.index|
    ensures k < |segs| && segs[k].hole && s.index[at] == s.start + Total(segs[..k])
    ensures SizeAt(s.mem, s.index[at]) == segs[k].size >= OVERHEAD && s.index[at] + segs[k].size <= s.end
    ensures PAGE_SIZE <= s.index[at] < ADDRESS_LIMIT && s.end <= ADDRESS_LIMIT && |s.mem| == WORD_LIMIT
  {
    hide Get32, Extents, Holds;
    IndexIsHoles(s, segs, s.index[at]);
    k := Find(s, segs, true, s.index[at]);
  }

  lemma PlainPieces(s: State, at: nat, size: nat, n: nat) returns (m: seq<Byte>)
    requires at < |s.index| && |s.mem| == WORD_LIMIT && s.end <= ADDRESS_LIMIT
    requires n == SizeAt(s.mem, s.index[at]) && s.index[at] + n <= s.end && size + OVERHEAD <= n
    ensures var pos, block := s.index[at], BlockSize(n, size + OVERHEAD, false);
            && size + OVERHEAD <= block <= n
            && Carve(s, at, size, false) == Next(
                 s.(mem := m, index := CarvedIndex(s.index, at, 0, pos + block, n - block, SizeLess(m))), pos + HEADER)
            && SameOutside(s.mem, m, pos, pos + n) && PiecesShown(m, pos, 0, block, n - block)
  {
    hide Get32, PlaceBlock, SizeAt, HeaderAt, FooterAt, Carve;
    var block := BlockSize(n, size + OVERHEAD, false);
    CarvePlain(s, at, size);
    m := PlaceBlockResult(s.(index := DeleteAt(s.index, at)), s.index[at], n, block);
  }

  lemma AlignedPieces(s: State, at: nat, size: nat, n: nat) returns (m: seq<Byte>)
    requires at < |s.index| && |s.mem| == WORD_LIMIT && s.end <= ADDRESS_LIMIT
    requires n == SizeAt(s.mem, s.index[at]) && PAGE_SIZE <= s.index[at] && s.index[at] + n <= s.end
    requires CarveSafe(s.index[at], n, size + OVERHEAD, true) && FrontGap(s.index[at]) + size + OVERHEAD <= n
    ensures var pos, front, block := s.index[at], FrontGap(s.index[at]), size + OVERHEAD;
            && Carve(s, at, size, true) == Next(
                 s.(mem := m, index := CarvedIndex(s.index, at, front, pos + front + block, n - front - block, SizeLess(m))),
                 pos + front + HEADER)
            && SameOutside(s.mem, m, pos, pos + n) && PiecesShown(m, pos, front, block, n - front - block)
  {
    hide Get32, PlaceBlock, SizeAt, Carve, PutHeader, PutFooter, HeaderAt, FooterAt, InsertBefore;
    var pos, front := s.index[at], FrontGap(s.index[at]);
    CarveAligned(s, at, size);
    FrontRecord(s.mem, pos, front);
    var m0 := PutFooter(PutHeader(s.mem, pos, front, true), pos + front, pos);
    m := PlaceBlockResult(s.(mem := m0), pos + front, n - front, size + OVERHEAD);
    HeaderKept(m0, m, pos, front, true);
    FooterKept(m0, m, pos + front, pos);
  }

  /** A safe cut keeps the invariant. The returned address heads the block that replaces part of hole k. */
  lemma CarveKeeps(s: State, segs: seq<Seg>, at: nat, size: nat, align: bool) returns (t: State, k: nat)
    requires Inv(s, segs) && at < |s.index| && Fits(s.mem, s.index[at], size + OVERHEAD, align)
    requires CarveSafe(s.index[at], SizeAt(s.mem, s.index[at]), size + OVERHEAD, align)
    ensures k < |segs| && segs[k].hole && s.index[at] == s.start + Total(segs[..k])
    ensures segs[k].size == SizeAt(s.mem, s.index[at])
    ensures align ==> Front(s.index[at], align) == AlignOffset(s.index[at])
    ensures var pos, front, block := s.index[at], Front(s.index[at], align), BlockSize(segs[k].size, size + OVERHEAD, align);
            && 0 <= front && size + OVERHEAD <= block < size + OVERHEAD + OVERHEAD && front + block <= segs[k].size
            && Carve(s, at, size, align) == Next(t, pos + front + HEADER)
            && (align ==> (pos + front + HEADER) % PAGE_SIZE == 0)
            && Inv(t, Carved(segs, k, front, block))
            && t == s.(mem := t.mem, index := t.index) && SameOutside(s.mem, t.mem, pos, pos + segs[k].size)
            && PiecesShown(t.mem, pos, front, block, segs[k].size - front - block)
  {
    hide Get32, Extents, Carve, Carved, CarvedIndex, PiecesShown, Holds, Separated, IndexLists, PagesMapped;
    k := HoleOfEntry(s, segs, at);
    var pos, n := s.index[at], segs[k].size;
    var m;
    if align {
      ChargedGap(pos);
      m := AlignedPieces(s, at, size, n);
      CarvedInv(s, segs, k, at, m, FrontGap(pos), size + OVERHEAD);
    } else {
      m := PlainPieces(s, at, size, n);
      CarvedInv(s, segs, k, at, m, 0, BlockSize(n, size + OVERHEAD, false));
    }
    t := Carve(s, at, size, align).s;
  }

  /** The index after a safe cut: a plain cut drops the hole's entry, an aligned one leaves it where it is, although the
      hole is smaller now; what is left behind the block is inserted by size. */
  lemma CarveLists(s: State, segs: seq<Seg>, at: nat, size: nat, align: bool)
    requires Inv(s, segs) && at < |s.index| && Fits(s.mem, s.index[at], size + OVERHEAD, align)
    requires CarveSafe(s.index[at], SizeAt(s.mem, s.index[at]), size + OVERHEAD, align)
    ensures var pos, n, t := s.index[at], SizeAt(s.mem, s.index[at]), Carve(s, at, size, align).s;
            var after := pos + Front(pos, align) + BlockSize(n, size + OVERHEAD, align);
            var kept := if align then s.index else DeleteAt(s.index, at);
            0 <= after && t.index == if after < pos + n then InsertBefore<nat>(kept, after, SizeLess(t.mem)) else kept
  {
    hide Get32, Carve, InsertBefore, DeleteAt, SizeAt, PiecesShown, Inv;
    var pos := s.index[at];
    var k := HoleOfEntry(s, segs, at);
    if align {
      ChargedGap(pos);
      var m := AlignedPieces(s, at, size, segs[k].size);
    } else {
      var m := PlainPieces(s, at, size, segs[k].size);
    }
  }

  // ---- Unsafe cuts ----

  /** No reading satisfies the invariant and shows every block of `live` and a block at `b`. */
  ghost predicate BrokenWith(s: State, live: map<nat, nat>, b: nat) {
    forall segs :: Inv(s, segs) && Shows(Live(s.start, segs), live) ==> b !in Live(s.start, segs)
  }

  /** What an aligned cut surely does: it keeps the old index entry, and the block goes where its data is aligned. */
  lemma AlignedCut(s: State, at: nat, size: nat)
    requires at < |s.index| && PAGE_SIZE <= s.index[at] < ADDRESS_LIMIT
    ensures var pos, r := s.index[at], Carve(s, at, size, true);
            && r.Next? && r.s.start == s.start && r.s.end == s.end && pos in r.s.index
            && r.p == pos + FrontGap(pos) + HEADER
  {
    hide Get32, PutHeader, PutFooter, SizeAt;
    var pos, r := s.index[at], Carve(s, at, size, true);
    if r.s.index != s.index {
      var rear :| r.s.index == InsertBefore<nat>(s.index, rear, SizeLess(r.s.mem));
      InsertContents<nat>(s.index, rear, SizeLess(r.s.mem));
      assert pos in multiset(s.index);
      assert pos in multiset(r.s.index);
    }
  }

  /** With a front gap that is a hole, both headers stand, whatever is left behind the block. */
  lemma AlignedHeads(s: State, at: nat, size: nat)
    requires |s.mem| == WORD_LIMIT && at < |s.index| && PAGE_SIZE <= s.index[at]
    requires s.index[at] + SizeAt(s.mem, s.index[at]) <= s.end <= ADDRESS_LIMIT && FrontGap(s.index[at]) >= OVERHEAD
    requires FrontGap(s.index[at]) + size + OVERHEAD <= SizeAt(s.mem, s.index[at])
    ensures var pos, gap, t := s.index[at], FrontGap(s.index[at]), Carve(s, at, size, true).s;
            HeaderAt(t.mem, pos, gap, true) && HeaderAt(t.mem, pos + gap, size + OVERHEAD, false)
  {
    hide Get32, PlaceBlock, PutHeader, PutFooter, SizeAt, Carve;
    var pos, gap := s.index[at], FrontGap(s.index[at]);
    CarveAligned(s, at, size);
    FrontRecord(s.mem, pos, gap);
    var m := PutFooter(PutHeader(s.mem, pos, gap, true), pos + gap, pos);
    PlaceHead(s.(mem := m), pos + gap, SizeAt(s.mem, pos) - gap, size + OVERHEAD);
    HeaderKept(m, Carve(s, at, size, true).s.mem, pos, gap, true);
  }

  /** What such a cut writes where the front gap has no room for a footer: the block where its data is aligned, over the
      listed header or into the segment before it, and what is left of the hole as a rear hole. */
  lemma NarrowFrontWrites(s: State, segs: seq<Seg>, at: nat, size: nat)
    requires Inv(s, segs) && at < |s.index| && FrontGap(s.index[at]) <= FOOTER
    requires size + OVERHEAD + OVERHEAD + OVERHEAD <= SizeAt(s.mem, s.index[at])
    ensures var pos, gap, n := s.index[at], FrontGap(s.index[at]), SizeAt(s.mem, s.index[at]);
            var r, want := Carve(s, at, size, true), size + OVERHEAD;
            && r.Next? && r.p == pos + gap + HEADER
            && HeaderAt(r.s.mem, pos + gap, want, false) && FooterAt(r.s.mem, pos + gap + want, pos + gap)
            && HeaderAt(r.s.mem, pos + gap + want, n - gap - want, true) && FooterAt(r.s.mem, pos + n, pos + gap + want)
            && r.s.index == InsertBefore<nat>(s.index, pos + gap + want, SizeLess(r.s.mem))
            && r.s == s.(mem := r.s.mem, index := r.s.index) && SameOutside(s.mem, r.s.mem, pos + gap - FOOTER, pos + n)
  {
    hide Get32, PlaceBlock, PutHeader, PutFooter, SizeAt, Carve, HeaderAt, FooterAt, InsertBefore;
    var pos, gap := s.index[at], FrontGap(s.index[at]);
    var k := HoleOfEntry(s, segs, at);
    CarveNarrow(s, at, size);
    var m := PutFooter(PutHeader(s.mem, pos, U32(gap), true), pos + gap, pos);
    var m' := PlaceBlockResult(s.(mem := m), pos + gap, segs[k].size - gap, size + OVERHEAD);
  }

  /** A front gap too small for a hole, or none: the block overlaps the listed front hole or the block before it. */
  lemma NarrowFrontBreaks(s: State, segs: seq<Seg>, at: nat, size: nat)
    requires Inv(s, segs) && at < |s.index| && FrontGap(s.index[at]) < OVERHEAD
    ensures var r := Carve(s, at, size, true);
            r.Next? && HEADER <= r.p && BrokenWith(r.s, Live(s.start, segs), r.p - HEADER)
  {
    hide Get32, Extents, Holds, Carve;
    var pos := s.index[at];
    var k := HoleOfEntry(s, segs, at);
    AlignedCut(s, at, size);
    var r := Carve(s, at, size, true);
    var b := pos + FrontGap(pos);
    if FrontGap(pos) < 0 {
      assert k > 0;
      SegFacts(s, segs, k - 1);
      HoldsRoomy(s.mem, s.start, segs, s.end);
      Listed(s.start, segs, k - 1);
    }
    forall segs' | Inv(r.s, segs') && Shows(Live(r.s.start, segs'), Live(s.start, segs))
      ensures b !in Live(r.s.start, segs')
    {
      if b in Live(r.s.start, segs') {
        if FrontGap(pos) < 0 {
          StartsApart(r.s, segs', false, pos - segs[k - 1].size, false, b);
        } else {
          IndexIsHoles(r.s, segs', pos);
          StartsApart(r.s, segs', true, pos, false, b);
        }
        assert false;
      }
    }
  }

  lemma PlaceNarrow(s: State, block: nat, holeSize: nat, size: nat)
    requires |s.mem| == WORD_LIMIT && block + holeSize <= s.end <= ADDRESS_LIMIT && OVERHEAD <= size
    requires 0 < holeSize - size < OVERHEAD
    ensures var r, rear, rest := PlaceBlock(s, block, holeSize, size - OVERHEAD, size), block + size, holeSize - size;
            && r.Next? && r.p == block + HEADER && r.s == s.(mem := r.s.mem, index := r.s.index)
            && r.s.index == InsertBefore<nat>(s.index, rear, SizeLess(r.s.mem))
            && HeaderAt(r.s.mem, block, size, false) && FooterAt(r.s.mem, rear + rest, rear)
            && (rest >= HEADER ==> Get32(r.s.mem, rear) == HEAP_MAGIC)
            && SameOutside(s.mem, r.s.mem, block, if rest < HEADER then rear + HEADER else rear + rest)
  {
    hide Get32, PutHeader, PutFooter, InsertBefore;
    BlockRecord(s.mem, block, size);
    var m := PutFooter(PutHeader(s.mem, block, size, false), block + size, block);
    var m1 := PutHeader(m, block + size, holeSize - size, true);
    var m2 := PutFooter(m1, block + holeSize, block + size);
    HeaderKept(m, m1, block, size, false);
    HeaderKept(m1, m2, block, size, false);
    if holeSize - size >= HEADER {
      WordKept(m1, m2, block + size);
    }
  }

  /** What such a cut writes where only 1 to 19 bytes are left behind the block: front hole and block as in a safe cut,
      a header and over it the footer of a rear hole that is listed. With less than 12 bytes left the header reaches
      into the segment behind. */
  lemma NarrowRearWrites(s: State, segs: seq<Seg>, at: nat, size: nat)
    requires Inv(s, segs) && at < |s.index| && FrontGap(s.index[at]) >= OVERHEAD
    requires 0 < SizeAt(s.mem, s.index[at]) - FrontGap(s.index[at]) - (size + OVERHEAD) < OVERHEAD
    ensures var pos, gap, n := s.index[at], FrontGap(s.index[at]), SizeAt(s.mem, s.index[at]);
            var r, rear := Carve(s, at, size, true), pos + gap + size + OVERHEAD;
            && r.Next? && r.p == pos + gap + HEADER && r.s == s.(mem := r.s.mem, index := r.s.index)
            && HeaderAt(r.s.mem, pos, gap, true) && FooterAt(r.s.mem, pos + gap, pos)
            && HeaderAt(r.s.mem, pos + gap, size + OVERHEAD, false) && FooterAt(r.s.mem, pos + n, rear)
            && (pos + n - rear >= HEADER ==> Load32(r.s.mem, rear) == HEAP_MAGIC)
            && SameOutside(s.mem, r.s.mem, pos, if pos + n - rear < HEADER then rear + HEADER else pos + n)
            && r.s.index == InsertBefore<nat>(s.index, rear, SizeLess(r.s.mem))
  {
    hide Get32, PlaceBlock, PutHeader, PutFooter, SizeAt, Carve, HeaderAt, FooterAt, InsertBefore;
    var pos, gap := s.index[at], FrontGap(s.index[at]);
    var k := HoleOfEntry(s, segs, at);
    CarveAligned(s, at, size);
    FrontRecord(s.mem, pos, gap);
    var m := PutFooter(PutHeader(s.mem, pos, gap, true), pos + gap, pos);
    PlaceNarrow(s.(mem := m), pos + gap, segs[k].size - gap, size + OVERHEAD);
    HeaderKept(m, Carve(s, at, size, true).s.mem, pos, gap, true);
    FooterKept(m, Carve(s, at, size, true).s.mem, pos + gap, pos);
  }

  lemma NarrowRearListed(s: State, at: nat, size: nat)
    requires |s.mem| == WORD_LIMIT && at < |s.index| && PAGE_SIZE <= s.index[at]
    requires s.index[at] + SizeAt(s.mem, s.index[at]) <= s.end <= ADDRESS_LIMIT && FrontGap(s.index[at]) >= OVERHEAD
    requires 0 < SizeAt(s.mem, s.index[at]) - FrontGap(s.index[at]) - (size + OVERHEAD)
    ensures var r := Carve(s, at, size, true);
            && r.Next? && r.s.start == s.start && r.s.end == s.end
            && s.index[at] + FrontGap(s.index[at]) + size + OVERHEAD in r.s.index
  {
    hide Get32, PutHeader, PutFooter, SizeAt, Carve;
    var pos, gap := s.index[at], FrontGap(s.index[at]);
    CarveAligned(s, at, size);
    var m := PutFooter(PutHeader(s.mem, pos, gap, true), pos + gap, pos);
    var r := PlaceBlock(s.(mem := m), pos + gap, SizeAt(s.mem, pos) - gap, size, size + OVERHEAD);
    var rear := pos + gap + size + OVERHEAD;
    assert r.s.index == InsertBefore<nat>(s.index, rear, SizeLess(r.s.mem));
    InsertContents<nat>(s.index, rear, SizeLess(r.s.mem));
    assert rear in multiset(r.s.index);
  }

  /** A remainder too small for a hole is listed all the same, right before the next block or the end. */
  lemma NarrowRearBreaks(s: State, segs: seq<Seg>, at: nat, size: nat)
    requires Inv(s, segs) && at < |s.index| && FrontGap(s.index[at]) >= OVERHEAD
    requires 0 < SizeAt(s.mem, s.index[at]) - FrontGap(s.index[at]) - (size + OVERHEAD) < OVERHEAD
    ensures var r := Carve(s, at, size, true); r.Next? && BrokenFor(r.s, Live(s.start, segs))
  {
    hide Get32, Extents, Holds, Carve, IndexLists, PagesMapped, SizeAt, StaleFooter;
    var pos := s.index[at];
    var k := HoleOfEntry(s, segs, at);
    SegFacts(s, segs, k);
    if k + 1 < |segs| {
      SegFacts(s, segs, k + 1);
      HoldsRoomy(s.mem, s.start, segs, s.end);
      Listed(s.start, segs, k + 1);
    }
    var rear := pos + FrontGap(pos) + size + OVERHEAD;
    NarrowRearListed(s, at, size);
    var r := Carve(s, at, size, true);
    forall segs' | Inv(r.s, segs')
      ensures !Shows(Live(r.s.start, segs'), Live(s.start, segs))
    {
      IndexIsHoles(r.s, segs', rear);
      var j := Find(r.s, segs', true, rear);
      SegFacts(r.s, segs', j);
      if Shows(Live(r.s.start, segs'), Live(s.start, segs)) {
        assert k + 1 < |segs|;
        StartsApart(r.s, segs', true, rear, false, pos + segs[k].size);
        assert false;
      }
    }
  }

  lemma AlignedStart(s: State, at: nat, size: nat)
    requires at < |s.index| && PAGE_SIZE <= s.index[at] < ADDRESS_LIMIT
    ensures var r := Carve(s, at, size, true); r.Next? && r.s.start == s.start && HEADER <= r.p
  {
    hide Carve;
    AlignedCut(s, at, size);
  }

  lemma CarvedShows(s: State, segs: seq<Seg>, k: nat, front: nat, block: nat)
    requires Inv(s, segs) && k < |segs| && segs[k].hole && front + block <= segs[k].size && OVERHEAD <= block
    ensures var live := Live(s.start, Carved(segs, k, front, block));
            Shows(live, Live(s.start, segs)) && s.start + Total(segs[..k]) + front in live
  {
    hide Get32, Extents, Carved;
    HoldsRoomy(s.mem, s.start, segs, s.end);
    CarvedLive(s.start, segs, k, front, block);
  }

  /** A cut of a fitting hole keeps the invariant, with every live block and the new one, exactly when it is safe. */
  lemma CarveExact(s: State, segs: seq<Seg>, at: nat, size: nat, align: bool)
    requires Inv(s, segs) && at < |s.index| && Fits(s.mem, s.index[at], size + OVERHEAD, align)
    ensures var r := Carve(s, at, size, align);
            && r.Next? && HEADER <= r.p
            && (CarveSafe(s.index[at], SizeAt(s.mem, s.index[at]), size + OVERHEAD, align)
                <==> exists segs' :: Inv(r.s, segs') && Shows(Live(s.start, segs'), Live(s.start, segs))
                                     && r.p - HEADER in Live(s.start, segs'))
  {
    hide Get32, Extents, Holds, Carve, Carved, Inv;
    var pos, n, want := s.index[at], SizeAt(s.mem, s.index[at]), size + OVERHEAD;
    var k0 := HoleOfEntry(s, segs, at);
    if CarveSafe(pos, n, want, align) {
      var t, k := CarveKeeps(s, segs, at, size, align);
      CarvedShows(s, segs, k, Front(pos, align), BlockSize(n, want, align));
    } else if FrontGap(pos) < OVERHEAD {
      AlignedStart(s, at, size);
      NarrowFrontBreaks(s, segs, at, size);
    } else {
      ChargedGap(pos);
      AlignedStart(s, at, size);
      NarrowRearBreaks(s, segs, at, size);
    }
  }
}
