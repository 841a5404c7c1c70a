/** free: exactly when it keeps the invariant, and what it then does to the segments. */
module HeapFree {
  import opened Memory
  import opened HeapLayout
  import opened HeapState
  import opened HeapText
  import opened OrderedArrays

  /** The block of size `segs[k].size` at `h` is live and stands at position k. */
  ghost predicate BlockAt(s: State, segs: seq<Seg>, k: nat, h: nat) {
    Inv(s, segs) && k < |segs| && !segs[k].hole && h == s.start + Total(segs[..k])
  }

  predicate HoleBefore(segs: seq<Seg>, k: nat)
    requires k < |segs|
  {
    k > 0 && segs[k - 1].hole
  }

  predicate HoleAfter(segs: seq<Seg>, k: nat)
    requires k < |segs|
  {
    k + 1 < |segs| && segs[k + 1].hole
  }

  /** The heap while free is at work: memory shows `pre`, the freed hole of n bytes and `post`; while
      the cursor says it must still be added, the index is that of a heap with a block in its place. */
  ghost predicate Mid(c: Cursor, pre: seq<Seg>, n: nat, post: seq<Seg>) {
    && c.At? && Bounds(c.s)
    && c.header == c.s.start + Total(pre) && c.footer + FOOTER == c.header + n
    && c.header + n + Total(post) == c.s.end
    && Holds(c.s.mem, c.s.start, pre, c.s.end)
    && SegOk(c.s.mem, c.header, Seg(n, true), c.s.end)
    && Holds(c.s.mem, c.header + n, post, c.s.end)
    && Separated(pre) && Separated(post) && (pre != [] ==> !pre[|pre| - 1].hole)
    && IndexLists(c.s.index, c.s.start, pre + [Seg(n, !c.add)] + post)
  }

  /** The cursor free starts from: the block marked as a hole, then the left merge. */
  ghost function Marked(s: State, h: nat, n: nat): Cursor
    requires OVERHEAD <= n
  {
    MergeLeft(s.(mem := Store8(s.mem, h + 4, 1)), h, h + n - FOOTER)
  }

  lemma MarkedRecord(m: seq<Byte>, h: nat, n: nat, end: nat)
    requires SegOk(m, h, Seg(n, false), end) && |m| == WORD_LIMIT
    ensures var m' := Store8(m, h + 4, 1);
            SameOutside(m, m', h + 4, h + 5) && HeaderAt(m', h, n, true) && FooterAt(m', h + n, h)
  {
    var m' := Store8(m, h + 4, 1);
    WordKept(m, m', h);
    WordKept(m, m', h + 8);
    FooterKept(m, m', h + n, h);
  }

  lemma MarkBlock(s: State, segs: seq<Seg>, k: nat, h: nat)
    requires BlockAt(s, segs, k, h)
    ensures var n, m := segs[k].size, Store8(s.mem, h + 4, 1);
            && OVERHEAD <= n && s.start <= h && h + n + Total(segs[k + 1..]) == s.end
            && SameOutside(s.mem, m, h + 4, h + 5)
            && HeaderAt(m, h, n, true) && FooterAt(m, h + n, h)
  {
    SegFacts(s, segs, k);
    MarkedRecord(s.mem, h, segs[k].size, s.end);
  }

  /** What the left merge sees at the footer position before a segment. */
  lemma SeenBefore(s: State, segs: seq<Seg>, k: nat)
    requires Inv(s, segs) && k < |segs|
    ensures var h := s.start + Total(segs[..k]);
            && (k == 0 ==> Get32(s.mem, h - 8) != HEAP_MAGIC)
            && (k > 0 ==> segs[k - 1].size <= h - s.start
                          && SegOk(s.mem, h - segs[k - 1].size, segs[k - 1], s.end)
                          && Total(segs[..k - 1]) + segs[k - 1].size == Total(segs[..k]))
  {
    if k > 0 {
      SegFacts(s, segs, k - 1);
    }
  }

  /** No hole before the block: the left merge does nothing. */
  lemma MarkedAlone(s: State, segs: seq<Seg>, k: nat, h: nat)
    requires BlockAt(s, segs, k, h) && !HoleBefore(segs, k) && OVERHEAD <= segs[k].size
    ensures Marked(s, h, segs[k].size) == At(s.(mem := Store8(s.mem, h + 4, 1)), h, h + segs[k].size - FOOTER, true)
  {
    hide Get32, Holds, Separated, IndexLists, StaleFooter;
    MarkBlock(s, segs, k, h);
    SeenBefore(s, segs, k);
    var m := Store8(s.mem, h + 4, 1);
    WordKept(s.mem, m, h - 8);
    WordKept(s.mem, m, h - 4);
    assert !(Load32(m, h - 8) == HEAP_MAGIC && Load8(m, Load32(m, h - 4) + 4) == 1);
  }

  /** The parts of Mid that concern only the segments and the index, for the cut at position k. */
  lemma CutAt(s: State, segs: seq<Seg>, k: nat)
    requires Inv(s, segs) && k < |segs|
    ensures Separated(segs[..k]) && Separated(segs[k + 1..])
    ensures IndexLists(s.index, s.start, segs[..k] + [segs[k]] + segs[k + 1..])
  {
    SeparatedParts(segs, 0, k);
    SeparatedParts(segs, k + 1, |segs|);
    assert segs[0..k] == segs[..k];
    assert segs == segs[..k] + [segs[k]] + segs[k + 1..];
  }

  lemma MarkedAloneMid(s: State, segs: seq<Seg>, k: nat, h: nat)
    requires BlockAt(s, segs, k, h) && !HoleBefore(segs, k) && OVERHEAD <= segs[k].size
    ensures Mid(At(s.(mem := Store8(s.mem, h + 4, 1)), h, h + segs[k].size - FOOTER, true),
                segs[..k], segs[k].size, segs[k + 1..])
  {
    hide Get32;
    MarkBlock(s, segs, k, h);
    SegFacts(s, segs, k);
    OthersKept(s, segs, k, k + 1, Store8(s.mem, h + 4, 1));
    CutAt(s, segs, k);
    assert segs[k] == Seg(segs[k].size, false);
  }

  /** The two stores of the left merge, given where they go. */
  lemma FusedRecord(m: seq<Byte>, h0: nat, n0: nat, n: nat)
    requires |m| == WORD_LIMIT && 0 < h0 && OVERHEAD <= n0 && OVERHEAD <= n && h0 + n0 + n <= |m|
    requires HeaderAt(m, h0, n0, true) && FooterAt(m, h0 + n0 + n, h0 + n0)
    ensures var m1 := Store32(m, h0 + n0 + n - 4, h0);
            var m2 := Store32(m1, h0 + 8, n0 + n);
            && SizeAt(m1, h0) == n0
            && SameOutside(m, m2, h0, h0 + n0 + n)
            && HeaderAt(m2, h0, n0 + n, true) && FooterAt(m2, h0 + n0 + n, h0)
  {
    var e := h0 + n0 + n;
    var m1 := Store32(m, e - 4, h0);
    HeaderKept(m, m1, h0, n0, true);
    WordKept(m, m1, e - 8);
    var m2 := Store32(m1, h0 + 8, n0 + n);
    WordKept(m1, m2, h0);
    FooterKept(m1, m2, e, h0);
  }

  lemma MergeLeftTaken(s: State, h: nat, e: nat, left: nat, n0: nat, n: nat)
    requires FOOTER <= e
    requires Load32(s.mem, h - 8) == HEAP_MAGIC && Load32(s.mem, h - 4) == left && Load8(s.mem, left + 4) == 1
    requires SizeAt(s.mem, h) == n && SizeAt(Store32(s.mem, e - 4, left), left) == n0
    ensures MergeLeft(s, h, e - FOOTER)
            == At(s.(mem := Store32(Store32(s.mem, e - 4, left), left + 8, n0 + n)), left, e - FOOTER, false)
  {
  }

  lemma MarkedLeftSteps(m: seq<Byte>, m1: seq<Byte>, h: nat, n0: nat, n: nat)
    requires |m| == WORD_LIMIT && OVERHEAD <= n0 < h && OVERHEAD <= n && h + n < WORD_LIMIT
    requires HeaderAt(m, h - n0, n0, true) && FooterAt(m, h, h - n0)
    requires SameOutside(m, m1, h + 4, h + 5) && HeaderAt(m1, h, n, true) && FooterAt(m1, h + n, h)
    ensures HeaderAt(m1, h - n0, n0, true) && FooterAt(m1, h, h - n0)
    ensures var m2 := Store32(Store32(m1, h + n - 4, h - n0), h - n0 + 8, n0 + n);
            && SizeAt(Store32(m1, h + n - 4, h - n0), h - n0) == n0
            && SameOutside(m, m2, h - n0, h + n)
            && HeaderAt(m2, h - n0, n0 + n, true) && FooterAt(m2, h + n, h - n0)
  {
    FooterKept(m, m1, h, h - n0);
    HeaderKept(m, m1, h - n0, n0, true);
    FusedRecord(m1, h - n0, n0, n);
  }

  /** The hole before the block has its own footer: the left merge takes that hole's header. */
  lemma MarkedLeft(s: State, h: nat, n0: nat, n: nat)
    requires |s.mem| == WORD_LIMIT && OVERHEAD <= n0 < h && OVERHEAD <= n && h + n < WORD_LIMIT
    requires HeaderAt(s.mem, h - n0, n0, true) && FooterAt(s.mem, h, h - n0)
    requires var m := Store8(s.mem, h + 4, 1);
             SameOutside(s.mem, m, h + 4, h + 5) && HeaderAt(m, h, n, true) && FooterAt(m, h + n, h)
    ensures var m := Store8(s.mem, h + 4, 1);
            var m2 := Store32(Store32(m, h + n - 4, h - n0), h - n0 + 8, n0 + n);
            && Marked(s, h, n) == At(s.(mem := m2), h - n0, h + n - FOOTER, false)
            && SameOutside(s.mem, m2, h - n0, h + n)
            && HeaderAt(m2, h - n0, n0 + n, true) && FooterAt(m2, h + n, h - n0)
  {
    var m := Store8(s.mem, h + 4, 1);
    MarkedLeftSteps(s.mem, m, h, n0, n);
    MergeLeftTaken(s.(mem := m), h, h + n, h - n0, n0, n);
  }

  /** Fusing the hole at position k - 1 with the block after it changes no hole's address. */
  lemma CutPair(s: State, segs: seq<Seg>, k: nat)
    requires Inv(s, segs) && 0 < k < |segs| && segs[k - 1].hole && !segs[k].hole
    ensures Separated(segs[..k - 1]) && Separated(segs[k + 1..])
    ensures k > 1 ==> !segs[k - 2].hole
    ensures IndexLists(s.index, s.start, segs[..k - 1] + [Seg(segs[k - 1].size + segs[k].size, true)] + segs[k + 1..])
  {
    SeparatedParts(segs, 0, k - 1);
    SeparatedParts(segs, k + 1, |segs|);
    assert segs[0..k - 1] == segs[..k - 1];
    assert segs == segs[..k] + [segs[k]] + segs[k + 1..];
    assert segs[..k] == segs[..k - 1] + [segs[k - 1]] + [];
    ListedAround(s.start, segs[..k], segs[k], segs[k + 1..], true);
    ListedAround(s.start, segs[..k - 1], segs[k - 1], [], true);
    ListedAround(s.start, segs[..k - 1], Seg(segs[k - 1].size + segs[k].size, true), segs[k + 1..], true);
  }

  lemma MarkedLeftMid(s: State, segs: seq<Seg>, k: nat, h: nat, m: seq<Byte>)
    requires BlockAt(s, segs, k, h) && HoleBefore(segs, k) && OVERHEAD <= segs[k].size
    requires var n0, n := segs[k - 1].size, segs[k].size;
             && n0 <= h && SameOutside(s.mem, m, h - n0, h + n)
             && HeaderAt(m, h - n0, n0 + n, true) && FooterAt(m, h + n, h - n0)
    ensures Mid(At(s.(mem := m), h - segs[k - 1].size, h + segs[k].size - FOOTER, false),
                segs[..k - 1], segs[k - 1].size + segs[k].size, segs[k + 1..])
  {
    hide Get32;
    var pre, n0, n, post := segs[..k - 1], segs[k - 1].size, segs[k].size, segs[k + 1..];
    var c := At(s.(mem := m), h - n0, h + n - FOOTER, false);
    assert c.header == s.start + Total(pre) && c.header + n0 + n + Total(post) == s.end by {
      SegFacts(s, segs, k - 1);
      SegFacts(s, segs, k);
    }
    assert Bounds(c.s) && Holds(m, s.start, pre, s.end) && Holds(m, c.header + n0 + n, post, s.end) by {
      SegFacts(s, segs, k);
      OthersKept(s, segs, k - 1, k + 1, m);
    }
    CutPair(s, segs, k);
  }

  // ---- The right merge ----

  /** A header of the past just past the end: what the right merge reads when the freed block ends the heap. */
  predicate ForgedEnd(s: State) {
    Load32(s.mem, s.end) == HEAP_MAGIC && Load8(s.mem, s.end + 4) != 0
  }

  lemma MergeRightAtEnd(c: Cursor, pre: seq<Seg>, n: nat)
    requires Mid(c, pre, n, [])
    ensures MergeRight(c) == if ForgedEnd(c.s) then Stopped else c
  {
    var g := Seg(n, !c.add);
    ListedAround(c.s.start, pre, g, [], true);
    if c.s.end in c.s.index {
      assert multiset(c.s.index)[c.s.end] > 0;
      HoldsRoomy(c.s.mem, c.s.start, pre, c.s.end);
      ExtentsInRange(c.s.start, pre, true);
      assert false;
    }
  }

  lemma MergeRightBlock(c: Cursor, pre: seq<Seg>, n: nat, post: seq<Seg>)
    requires Mid(c, pre, n, post) && post != [] && !post[0].hole
    ensures MergeRight(c) == c
  {
    assert SegOk(c.s.mem, c.header + n, post[0], c.s.end);
  }

  /** The right merge enlarges the header and leaves the last footer alone: what it now points to is inside. */
  lemma FusedRight(m: seq<Byte>, a: nat, n: nat, r: nat, end: nat)
    requires |m| == WORD_LIMIT && 0 < a && OVERHEAD <= n && a + n + r <= end < |m|
    requires HeaderAt(m, a, n, true) && SegOk(m, a + n, Seg(r, true), end)
    ensures var m' := Store32(m, a + 8, n + r);
            && SameOutside(m, m', a, a + HEADER)
            && SegOk(m', a, Seg(n + r, true), end)
            && (a + n + r != end ==> StaleFooter(m', a, n + r))
            && SizeAt(m', a + n) == r
  {
    hide Get32;
    var m' := Store32(m, a + 8, n + r);
    WordKept(m, m', a);
    SegKept(m, m', a + n, Seg(r, true), end);
    if a + n + r != end {
      assert FooterAt(m', a + n + r, a + n) || StaleFooter(m', a + n, r);
      assert StaleFooter(m', a, n + r);
    }
  }

  lemma HolesHead(at: nat, r: nat, post: seq<Seg>)
    ensures forall a :: a in Holes(at, [Seg(r, true)] + post) <==> a == at || a in Holes(at + r, post)
  {
    assert ([Seg(r, true)] + post)[1..] == post;
  }

  /** Fusing with the hole on the right takes that hole's address from the list, and no other. */
  lemma HolesWithoutRight(at: nat, pre: seq<Seg>, n: nat, listed: bool, r: nat, post: seq<Seg>)
    requires Roomy(pre) && Roomy(post) && OVERHEAD <= n && OVERHEAD <= r
    ensures var right := at + Total(pre) + n;
            var old', new' := Holes(at, pre + [Seg(n, listed)] + ([Seg(r, true)] + post)),
                              Holes(at, pre + [Seg(n + r, listed)] + post);
            right in old' && right !in new' && forall a :: a != right ==> (a in old' <==> a in new')
  {
    hide Extents, Roomy;
    var right: nat := at + Total(pre) + n;
    var h, rest := at + Total(pre), [Seg(r, true)] + post;
    ListedAround(at, pre, Seg(n, listed), rest, true);
    HolesHead(right, r, post);
    ListedAround(at, pre, Seg(n + r, listed), post, true);
    ExtentsInRange(at, pre, true);
    ExtentsInRange(right + r, post, true);
    assert h + (n + r) == right + r;
    assert forall a :: a in Holes(at, pre + [Seg(n + r, listed)] + post) <==>
      a in Holes(at, pre) || (listed && a == h) || a in Holes(right + r, post);
    assert forall a :: a in Holes(at, pre + [Seg(n, listed)] + rest) <==>
      a in Holes(at, pre) || (listed && a == h) || a in Holes(right, rest);
    assert forall a :: a in Holes(right, rest) <==> a == right || a in Holes(right + r, post);
  }

  /** Dropping the swallowed hole from the index. */
  lemma IndexDropRight(index: seq<nat>, at: nat, pre: seq<Seg>, n: nat, listed: bool, r: nat, post: seq<Seg>)
    requires Roomy(pre) && Roomy(post) && OVERHEAD <= n && OVERHEAD <= r
    requires IndexLists(index, at, pre + [Seg(n, listed)] + ([Seg(r, true)] + post))
    ensures var i := PositionOf(index, at + Total(pre) + n);
            i < |index| && IndexLists(DeleteAt(index, i), at, pre + [Seg(n + r, listed)] + post)
  {
    hide Extents, DeleteAt, PositionOf, Roomy;
    var right := at + Total(pre) + n;
    HolesWithoutRight(at, pre, n, listed, r, post);
    assert multiset(index)[right] == 1;
    DeleteContents(index, PositionOf(index, right));
  }

  lemma MergeRightStep(c: Cursor, n: nat, r: nat, i: nat)
    requires c.At? && |c.s.mem| == WORD_LIMIT && c.header + n + r < |c.s.mem| && c.footer + FOOTER == c.header + n
    requires SizeAt(c.s.mem, c.header) == n && HeaderAt(c.s.mem, c.header + n, r, true)
    requires i == PositionOf(c.s.index, c.header + n) < |c.s.index|
    requires OVERHEAD <= r && SizeAt(Store32(c.s.mem, c.header + 8, n + r), c.header + n) == r
    ensures MergeRight(c) == At(c.s.(mem := Store32(c.s.mem, c.header + 8, n + r), index := DeleteAt(c.s.index, i)),
                                c.header, c.header + n + r - FOOTER, c.add)
  {
    hide Get32;
  }

  lemma MergeRightMid(c: Cursor, pre: seq<Seg>, n: nat, r: nat, post: seq<Seg>, m: seq<Byte>, index: seq<nat>)
    requires Mid(c, pre, n, [Seg(r, true)] + post)
    requires SameOutside(c.s.mem, m, c.header, c.header + n) && SegOk(m, c.header, Seg(n + r, true), c.s.end)
    requires OVERHEAD <= n + r && IndexLists(index, c.s.start, pre + [Seg(n + r, !c.add)] + post)
    ensures Mid(At(c.s.(mem := m, index := index), c.header, c.header + n + r - FOOTER, c.add), pre, n + r, post)
  {
    hide Get32;
    var all := [Seg(r, true)] + post;
    assert all[1..] == post;
    HoldsKept(c.s.mem, m, c.s.start, pre, c.s.end);
    HoldsKept(c.s.mem, m, c.header + n + r, post, c.s.end);
    WordKept(c.s.mem, m, c.s.start - 8);
    SeparatedParts(all, 1, |all|);
  }

  /** A hole follows: the right merge swallows it. */
  lemma MidHeaders(c: Cursor, pre: seq<Seg>, n: nat, post: seq<Seg>)
    requires Mid(c, pre, n, post) && post != [] && post[0].hole
    ensures var r := post[0].size;
            && SegOk(c.s.mem, c.header + n, Seg(r, true), c.s.end) && HeaderAt(c.s.mem, c.header + n, r, true)
            && HeaderAt(c.s.mem, c.header, n, true) && SizeAt(c.s.mem, c.header) == n && OVERHEAD <= r && OVERHEAD <= n
  {
    hide Get32, Extents, IndexLists, Separated;
  }

  lemma MergeRightHole(c: Cursor, pre: seq<Seg>, n: nat, post: seq<Seg>) returns (d: Cursor)
    requires Mid(c, pre, n, post) && post != [] && post[0].hole
    ensures d == MergeRight(c) && Mid(d, pre, n + post[0].size, post[1..])
    ensures d.add == c.add && d.header == c.header
    ensures PositionOf(c.s.index, c.header + n) < |c.s.index|
    ensures d.s == c.s.(mem := d.s.mem, index := DeleteAt(c.s.index, PositionOf(c.s.index, c.header + n)))
    ensures c.header + n + post[0].size != c.s.end ==> StaleFooter(d.s.mem, c.header, n + post[0].size)
    ensures SameOutside(c.s.mem, d.s.mem, c.header, c.header + HEADER)
  {
    hide Get32, MergeRight, PositionOf, Holds, IndexLists, SegOk, HeaderAt, Separated, PagesMapped, DeleteAt, SizeAt;
    var r, post' := post[0].size, post[1..];
    assert post == [Seg(r, true)] + post';
    var i := PositionOf(c.s.index, c.header + n);
    var m := Store32(c.s.mem, c.header + 8, n + r);
    HoldsRoomy(c.s.mem, c.s.start, pre, c.s.end);
    HoldsRoomy(c.s.mem, c.header + n, post, c.s.end);
    MidHeaders(c, pre, n, post);
    IndexDropRight(c.s.index, c.s.start, pre, n, !c.add, r, post');
    d := At(c.s.(mem := m, index := DeleteAt(c.s.index, i)), c.header, c.header + n + r - FOOTER, c.add);
    FusedRight(c.s.mem, c.header, n, r, c.s.end);
    MergeRightMid(c, pre, n, r, post', m, DeleteAt(c.s.index, i));
    MergeRightStep(c, n, r, i);
  }

  // ---- Contraction ----

  /** The block that ends at the end of the heap is freed with at most this much before the fused hole, or else
      contract leaves the hole outside the heap. */
  predicate CanShrink(before: nat) {
    before + OVERHEAD <= HEAP_MIN_SIZE
  }

  lemma ContractSizeFacts(n: nat)
    ensures CanShrink(n) ==> ContractSize(n) == HEAP_MIN_SIZE
    ensures !CanShrink(n) ==> HEAP_MIN_SIZE <= ContractSize(n) < n + OVERHEAD
  {
  }

  /** The pages given back lie strictly above the new end. */
  lemma GivenBackAbove(start: nat, end: nat, size: nat, mapped: set<nat>)
    requires PagesMapped(start, end, mapped) && start + size <= end < WORD_LIMIT
    ensures PagesMapped(start, start + size, mapped - GivenBack(start, end - start, size))
  {
  }

  lemma ShrinkRecord(m: seq<Byte>, a: nat, n: nat, size: nat)
    requires |m| == WORD_LIMIT && 0 < a && OVERHEAD <= size <= n && a + n < |m| && HeaderAt(m, a, n, true)
    ensures var m' := PutFooter(Store32(m, a + 8, size), a + size, a);
            && SameOutside(m, m', a, a + size) && SizeAt(Store32(m, a + 8, size), a) == size
            && HeaderAt(m', a, size, true) && FooterAt(m', a + size, a)
  {
    hide Get32;
    var m1 := Store32(m, a + 8, size);
    var m' := PutFooter(m1, a + size, a);
    WordKept(m, m1, a);
    HeaderKept(m1, m', a, size, true);
  }

  /** Shrink when the hole ends the heap and contract succeeds, with `size` bytes of the hole left. */
  lemma ShrinkTo(c: Cursor, right: nat, v: State, r: nat, size: nat)
    requires c.At? && U32(c.footer + FOOTER) == c.s.end
    requires Contract(c.s, U32(c.header - c.s.start)) == Next(v, r)
    requires size == U32(SizeAt(v.mem, c.header) - U32(U32(c.s.end - c.s.start) as int - r))
    ensures size == 0 && right !in v.index ==> Shrink(c, right) == c.(s := v)
    ensures size > 0 && SizeAt(Store32(v.mem, c.header + 8, size), c.header) == size ==>
      var end := U32(c.header + size);
      Shrink(c, right) == c.(s := v.(mem := PutFooter(Store32(v.mem, c.header + 8, size), end, c.header)),
                             footer := U32(end - FOOTER))
  {
    hide Get32, U32, SizeAt, Store32, PutFooter, Contract;
  }

  lemma ShrinkStep(c: Cursor, n: nat, right: nat)
    requires c.At? && Bounds(c.s) && c.s.start <= c.header && OVERHEAD <= n
    requires c.footer + FOOTER == c.header + n == c.s.end
    requires CanShrink(c.header - c.s.start) && HeaderAt(c.s.mem, c.header, n, true)
    ensures var size := c.s.start + HEAP_MIN_SIZE - c.header;
            Shrink(c, right) == At(c.s.(
              mem := PutFooter(Store32(c.s.mem, c.header + 8, size), c.header + size, c.header),
              end := c.s.start + HEAP_MIN_SIZE,
              mapped := c.s.mapped - GivenBack(c.s.start, c.s.end - c.s.start, HEAP_MIN_SIZE)),
              c.header, c.header + size - FOOTER, c.add)
  {
    hide Get32, U32, Shrink, PutFooter, Store32, GivenBack, ContractSize;
    ContractSizeFacts(c.header - c.s.start);
    var size, length := c.s.start + HEAP_MIN_SIZE - c.header, c.s.end - c.s.start;
    ShrinkRecord(c.s.mem, c.header, n, size);
    var v := c.s.(end := c.s.start + HEAP_MIN_SIZE, mapped := c.s.mapped - GivenBack(c.s.start, length, HEAP_MIN_SIZE));
    assert Contract(c.s, U32(c.header - c.s.start)) == Next(v, HEAP_MIN_SIZE);
    hide Contract;
    ShrinkTo(c, right, v, HEAP_MIN_SIZE, size);
  }

  /** Changing the size of the last segment moves no hole. */
  lemma IndexResize(index: seq<nat>, at: nat, pre: seq<Seg>, n: nat, n': nat, listed: bool)
    requires IndexLists(index, at, pre + [Seg(n, listed)] + [])
    ensures IndexLists(index, at, pre + [Seg(n', listed)] + [])
  {
    ListedAround(at, pre, Seg(n, listed), [], true);
    ListedAround(at, pre, Seg(n', listed), [], true);
  }

  lemma ShrinkKept(s: State, m: seq<Byte>, pre: seq<Seg>, end: nat)
    requires Bounds(s) && Holds(s.mem, s.start, pre, s.end) && s.start + Total(pre) < s.end
    requires SameOutside(s.mem, m, s.start + Total(pre), s.end)
    ensures Holds(m, s.start, pre, end) && Get32(m, s.start - 8) != HEAP_MAGIC
  {
    hide Get32;
    HoldsKept(s.mem, m, s.start, pre, s.end);
    HoldsAnyEnd(m, s.start, pre, s.end, end);
    WordKept(s.mem, m, s.start - 8);
  }

  lemma ShrunkMid(c: Cursor, pre: seq<Seg>, n: nat, m: seq<Byte>, mapped: set<nat>)
    requires Mid(c, pre, n, []) && CanShrink(Total(pre))
    requires var size, end := HEAP_MIN_SIZE - Total(pre), c.s.start + HEAP_MIN_SIZE;
             && SameOutside(c.s.mem, m, c.header, c.header + n)
             && HeaderAt(m, c.header, size, true) && FooterAt(m, c.header + size, c.header)
             && PagesMapped(c.s.start, end, mapped)
    ensures Mid(At(c.s.(mem := m, end := c.s.start + HEAP_MIN_SIZE, mapped := mapped), c.header,
                   c.s.start + HEAP_MIN_SIZE - FOOTER, c.add), pre, HEAP_MIN_SIZE - Total(pre), [])
  {
    hide Get32, Extents;
    IndexResize(c.s.index, c.s.start, pre, n, HEAP_MIN_SIZE - Total(pre), !c.add);
    hide IndexLists, Separated;
    ShrinkKept(c.s, m, pre, c.s.start + HEAP_MIN_SIZE);
  }

  /** Contraction keeps the hole and cuts it to end at the minimum size. */
  lemma ShrinkMid(c: Cursor, pre: seq<Seg>, n: nat, right: nat) returns (d: Cursor)
    requires Mid(c, pre, n, []) && CanShrink(Total(pre))
    ensures d == Shrink(c, right) && d.At? && d.add == c.add && d.header == c.header
    ensures Mid(d, pre, HEAP_MIN_SIZE - Total(pre), [])
    ensures d.s == c.s.(mem := d.s.mem, end := c.s.start + HEAP_MIN_SIZE,
                        mapped := c.s.mapped - GivenBack(c.s.start, c.s.end - c.s.start, HEAP_MIN_SIZE))
    ensures SameOutside(c.s.mem, d.s.mem, c.header, c.s.start + HEAP_MIN_SIZE) && c.s.start + HEAP_MIN_SIZE <= c.header + n
  {
    hide Get32, Shrink, GivenBack, Extents, U32, IndexLists, Separated, Store32, PutFooter;
    var size := HEAP_MIN_SIZE - Total(pre);
    var end := c.s.start + HEAP_MIN_SIZE;
    var m := PutFooter(Store32(c.s.mem, c.header + 8, size), c.header + size, c.header);
    var mapped := c.s.mapped - GivenBack(c.s.start, c.s.end - c.s.start, HEAP_MIN_SIZE);
    d := At(c.s.(mem := m, end := end, mapped := mapped), c.header, end - FOOTER, c.add);
    assert HeaderAt(c.s.mem, c.header, n, true) && OVERHEAD <= n;
    hide Holds, HeaderAt;
    ShrinkStep(c, n, right);
    ShrinkRecord(c.s.mem, c.header, n, size);
    GivenBackAbove(c.s.start, c.s.end, HEAP_MIN_SIZE, c.s.mapped);
    ShrunkMid(c, pre, n, m, mapped);
    hide Mid, PagesMapped, SameOutside;
  }

  lemma ShrinkInside(c: Cursor, pre: seq<Seg>, n: nat, post: seq<Seg>, right: nat)
    requires Mid(c, pre, n, post) && post != []
    ensures Shrink(c, right) == c
  {
    hide Get32;
    assert SegOk(c.s.mem, c.header + n, post[0], c.s.end);
  }

  /** Too much before the hole: the new end falls before the hole has room, and the index still lists it. */
  lemma ShrinkBeyond(c: Cursor, pre: seq<Seg>, n: nat, right: nat)
    requires Mid(c, pre, n, []) && !CanShrink(Total(pre)) && right !in c.s.index
    ensures var d := Shrink(c, right);
            d.At? && d.header == c.header && d.add == c.add && d.s.index == c.s.index
            && d.s.end < c.header + OVERHEAD
  {
    hide Get32, U32;
    ContractSizeFacts(Total(pre));
  }

  /** A hole that is listed but has no room before the end fits no reading. */
  lemma ListedPastEnd(s: State, h: nat)
    requires h in s.index && s.end < h + OVERHEAD
    ensures Broken(s)
  {
    forall segs
      ensures !Inv(s, segs)
    {
      if Inv(s, segs) {
        IndexIsHoles(s, segs, h);
        var k := Find(s, segs, true, h);
      }
    }
  }

  // ---- The whole of free ----

  lemma HolesWithFreed(at: nat, pre: seq<Seg>, n: nat, post: seq<Seg>)
    requires Roomy(pre) && Roomy(post) && OVERHEAD <= n
    ensures var h := at + Total(pre);
            var old', new' := Holes(at, pre + [Seg(n, false)] + post), Holes(at, pre + [Seg(n, true)] + post);
            h !in old' && h in new' && forall a :: a != h ==> (a in old' <==> a in new')
  {
    hide Extents, Roomy;
    ListedAround(at, pre, Seg(n, false), post, true);
    ListedAround(at, pre, Seg(n, true), post, true);
    ExtentsInRange(at, pre, true);
    ExtentsInRange(at + Total(pre) + n, post, true);
  }

  lemma EnterIndex(index: seq<nat>, less: (nat, nat) -> bool, at: nat, pre: seq<Seg>, n: nat, post: seq<Seg>)
    requires Roomy(pre) && Roomy(post) && OVERHEAD <= n
    requires IndexLists(index, at, pre + [Seg(n, false)] + post)
    ensures IndexLists(InsertBefore<nat>(index, at + Total(pre), less), at, pre + [Seg(n, true)] + post)
  {
    hide Extents;
    HolesWithFreed(at, pre, n, post);
    assert multiset(index)[at + Total(pre)] == 0;
    InsertContents<nat>(index, at + Total(pre), less);
  }

  lemma EnterInv(c: Cursor, pre: seq<Seg>, n: nat, post: seq<Seg>)
    requires Mid(c, pre, n, post) && (post != [] ==> !post[0].hole)
    ensures Inv(Enter(c), pre + [Seg(n, true)] + post)
  {
    hide Get32, Holds, Separated, PagesMapped, IndexLists, StaleFooter, InsertBefore;
    HoldsRoomy(c.s.mem, c.s.start, pre, c.s.end);
    HoldsRoomy(c.s.mem, c.header + n, post, c.s.end);
    HoldsAround(c.s.mem, c.s.start, pre, Seg(n, true), post, c.s.end);
    SeparatedAround(pre, Seg(n, true), post);
    if c.add {
      EnterIndex(c.s.index, SizeLess(c.s.mem), c.s.start, pre, n, post);
    }
  }

  /** Nothing but at most one hole follows. */
  predicate Reaches(post: seq<Seg>) {
    post == [] || (post[0].hole && |post| == 1)
  }

  /** What becomes of the segments around a freed hole of n bytes: it swallows a hole on its right, and when it
      then ends the heap it is cut to end at the minimum size. */
  function Settled(pre: seq<Seg>, n: nat, post: seq<Seg>): seq<Seg>
    requires Reaches(post) ==> CanShrink(Total(pre))
  {
    var fused := if post != [] && post[0].hole then n + post[0].size else n;
    var rest := if post != [] && post[0].hole then post[1..] else post;
    if rest == [] then pre + [Seg(HEAP_MIN_SIZE - Total(pre), true)] + []
    else pre + [Seg(fused, true)] + rest
  }

  /** The index after the right merge. */
  function Dropped(index: seq<nat>, right: nat, post: seq<Seg>): seq<nat> {
    if post != [] && post[0].hole && PositionOf(index, right) < |index| then DeleteAt(index, PositionOf(index, right))
    else index
  }

  /** How far the changes reach from the start of a freed hole of n bytes: over it, and over a hole right behind it. */
  function Reach(n: nat, post: seq<Seg>): nat {
    if post != [] && post[0].hole then n + post[0].size else n
  }

  lemma BehindReach(c: Cursor, pre: seq<Seg>, n: nat, post: seq<Seg>)
    requires Mid(c, pre, n, post) && !Reaches(post)
    ensures c.header + Reach(n, post) < c.s.end
  {
    hide Get32;
    HoldsRoomy(c.s.mem, c.header + n, post, c.s.end);
    if post[0].hole {
      assert Total(post[1..]) >= post[1].size;
    }
  }

  lemma ConcludeInside(c: Cursor, pre: seq<Seg>, n: nat, post: seq<Seg>, right: nat) returns (d: Cursor)
    requires Mid(c, pre, n, post) && !Reaches(post)
    ensures d.At? && Conclude(c, right) == Next(Enter(d), 0)
    ensures Inv(Enter(d), Settled(pre, n, post))
    ensures d.add == c.add && d.header == c.header
    ensures d.s == c.s.(mem := d.s.mem, index := Dropped(c.s.index, c.header + n, post))
    ensures if post[0].hole then StaleFooter(d.s.mem, c.header, n + post[0].size) else d.s.mem == c.s.mem
    ensures SameOutside(c.s.mem, d.s.mem, c.header, c.header + Reach(n, post))
  {
    hide Get32, MergeRight, Shrink, Enter, Extents, Store32, Total, PositionOf;
    assert Separated(post);
    BehindReach(c, pre, n, post);
    if post[0].hole {
      d := MergeRightHole(c, pre, n, post);
      ShrinkInside(d, pre, n + post[0].size, post[1..], right);
      hide Mid;
      EnterInv(d, pre, n + post[0].size, post[1..]);
    } else {
      d := c;
      MergeRightBlock(c, pre, n, post);
      ShrinkInside(c, pre, n, post, right);
      hide Mid;
      EnterInv(c, pre, n, post);
    }
  }

  /** The right merge of a freed hole that ends the heap or has only a hole behind it. */
  lemma FuseAtEnd(c: Cursor, pre: seq<Seg>, n: nat, post: seq<Seg>) returns (d: Cursor)
    requires Mid(c, pre, n, post) && Reaches(post) && (post == [] ==> !ForgedEnd(c.s))
    ensures d == MergeRight(c) && Mid(d, pre, Reach(n, post), [])
    ensures d.add == c.add && d.header == c.header
    ensures d.s == c.s.(mem := d.s.mem, index := Dropped(c.s.index, c.header + n, post))
    ensures SameOutside(c.s.mem, d.s.mem, c.header, c.header + HEADER) && OVERHEAD <= n
  {
    hide Get32, MergeRight, Holds, IndexLists;
    if post == [] {
      MergeRightAtEnd(c, pre, n);
      d := c;
    } else {
      d := MergeRightHole(c, pre, n, post);
      assert post[1..] == [];
    }
  }

  lemma ConcludeAtEnd(c: Cursor, pre: seq<Seg>, n: nat, post: seq<Seg>, right: nat) returns (d: Cursor)
    requires Mid(c, pre, n, post) && Reaches(post) && (post == [] ==> !ForgedEnd(c.s)) && CanShrink(Total(pre))
    ensures d.At? && Conclude(c, right) == Next(Enter(d), 0)
    ensures Inv(Enter(d), Settled(pre, n, post))
    ensures d.add == c.add && d.header == c.header
    ensures d.s == c.s.(mem := d.s.mem, index := Dropped(c.s.index, c.header + n, post), end := c.s.start + HEAP_MIN_SIZE,
                        mapped := c.s.mapped - GivenBack(c.s.start, c.s.end - c.s.start, HEAP_MIN_SIZE))
    ensures SameOutside(c.s.mem, d.s.mem, c.header, c.header + Reach(n, post))
    ensures SameWithin(c.s.mem, d.s.mem, c.s.start + HEAP_MIN_SIZE, |c.s.mem|)
  {
    hide Get32, MergeRight, Shrink, Enter, Extents, Total, GivenBack, Holds, IndexLists;
    var e := FuseAtEnd(c, pre, n, post);
    d := ShrinkMid(e, pre, Reach(n, post), right);
    EnterInv(d, pre, HEAP_MIN_SIZE - Total(pre), []);
  }

  /** Behind the freed hole nothing is listed. */
  lemma NotListed(c: Cursor, pre: seq<Seg>, n: nat, right: nat)
    requires Mid(c, pre, n, []) && c.header < right
    ensures right !in c.s.index
  {
    hide Get32;
    HoldsRoomy(c.s.mem, c.s.start, pre, c.s.end);
    ExtentsInRange(c.s.start, pre, true);
    ListedAround(c.s.start, pre, Seg(n, !c.add), [], true);
    assert multiset(c.s.index)[right] == 0;
  }

  lemma ListedSelf(c: Cursor, pre: seq<Seg>, n: nat)
    requires Mid(c, pre, n, []) && !c.add
    ensures c.header in c.s.index
  {
    hide Get32;
    ListedAround(c.s.start, pre, Seg(n, true), [], true);
    assert multiset(c.s.index)[c.header] == 1;
  }

  lemma ConcludeBeyond(c: Cursor, pre: seq<Seg>, n: nat, post: seq<Seg>, right: nat)
    requires Mid(c, pre, n, post) && Reaches(post) && (post == [] ==> !ForgedEnd(c.s)) && !CanShrink(Total(pre))
    requires right == c.header + n
    ensures Conclude(c, right).Next? && Broken(Conclude(c, right).s)
  {
    hide Get32, MergeRight, Shrink, GivenBack, Holds;
    var e := FuseAtEnd(c, pre, n, post);
    NotListed(e, pre, Reach(n, post), right);
    ShrinkBeyond(e, pre, Reach(n, post), right);
    var d := Shrink(e, right);
    if d.add {
      InsertContents<nat>(d.s.index, d.header, SizeLess(d.s.mem));
      assert d.header in multiset(Enter(d).index);
    } else {
      ListedSelf(e, pre, Reach(n, post));
    }
    ListedPastEnd(Enter(d), d.header);
  }
}
