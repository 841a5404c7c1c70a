/** free when the hole before the block still has the footer of a swallowed neighbour: the left merge then
    takes the neighbour's old header for the hole's. */
module HeapStale {
  import opened Memory
  import opened HeapLayout
  import opened HeapState
  import opened HeapText
  import opened HeapFree
  import opened OrderedArrays

  /** The hole before the block at h has a stale footer. */
  ghost predicate StaleBefore(s: State, segs: seq<Seg>, k: nat, h: nat) {
    && BlockAt(s, segs, k, h) && HoleBefore(segs, k)
    && segs[k - 1].size <= h && StaleFooter(s.mem, h - segs[k - 1].size, segs[k - 1].size)
  }

  /** A listed hole whose header leads to a header that is marked as a hole too fits no reading. */
  lemma TwoHoles(u: State, h0: nat, n0: nat)
    requires h0 in u.index && OVERHEAD <= n0
    requires u.end < h0 + OVERHEAD
             || (HeaderAt(u.mem, h0, n0, true) && u.end != h0 + n0
                 && (h0 + n0 + OVERHEAD <= u.end <= |u.mem| ==> u.mem[h0 + n0 + 4] == 1))
    ensures Broken(u)
  {
    hide Get32;
    forall segs
      ensures !Inv(u, segs)
    {
      if Inv(u, segs) {
        IndexIsHoles(u, segs, h0);
        var k := Find(u, segs, true, h0);
        SegFacts(u, segs, k);
        if k + 1 < |segs| {
          SegFacts(u, segs, k + 1);
        }
      }
    }
  }

  /** The stores of the mark and of the left merge through the stale footer. */
  lemma StaleRecord(m: seq<Byte>, h: nat, n0: nat, n: nat, end: nat)
    requires |m| == WORD_LIMIT && OVERHEAD <= n0 < h && OVERHEAD <= n && h + n < WORD_LIMIT
    requires HeaderAt(m, h - n0, n0, true) && StaleFooter(m, h - n0, n0) && SegOk(m, h, Seg(n, false), end)
    ensures var t := Get32(m, h - 4);
            var m0 := Store8(m, h + 4, 1);
            var m1 := Store32(m0, h + n - 4, t);
            var m2 := Store32(m1, t + 8, h - t + n);
            && Load32(m0, h - 8) == HEAP_MAGIC && Load32(m0, h - 4) == t && Load8(m0, t + 4) == 1
            && SizeAt(m0, h) == n && SizeAt(m1, t) == h - t && SizeAt(m2, t) == h - t + n
            && SameOutside(m, m2, t, h + n) && HeaderAt(m2, h - n0, n0, true) && m2[h + 4] == 1
  {
    hide Get32, U32, Store32;
    var t := Get32(m, h - 4);
    var m0 := Store8(m, h + 4, 1);
    var m1 := Store32(m0, h + n - 4, t);
    var m2 := Store32(m1, t + 8, h - t + n);
    WordKept(m, m0, h - 8);
    WordKept(m, m0, h - 4);
    WordKept(m, m0, h + 8);
    HeaderKept(m, m0, t, h - t, true);
    HeaderKept(m0, m1, t, h - t, true);
    HeaderKept(m, m2, h - n0, n0, true);
  }

  lemma StaleShape(s: State, segs: seq<Seg>, k: nat, h: nat)
    requires StaleBefore(s, segs, k, h)
    ensures var n0, n, t := segs[k - 1].size, segs[k].size, Get32(s.mem, h - 4);
            && OVERHEAD <= n0 <= h - s.start && OVERHEAD <= n && h - n0 + OVERHEAD <= t && t + OVERHEAD <= h
            && s.start + Total(segs[..k - 1]) == h - n0 && PAGE_SIZE <= s.start
            && h + n + Total(segs[k + 1..]) == s.end && s.end <= ADDRESS_LIMIT && |s.mem| == WORD_LIMIT
            && HeaderAt(s.mem, h - n0, n0, true) && SegOk(s.mem, h, Seg(n, false), s.end)
  {
    hide Get32, Extents;
    SegFacts(s, segs, k - 1);
    SegFacts(s, segs, k);
  }

  lemma StaleMarked(s: State, segs: seq<Seg>, k: nat, h: nat) returns (c: Cursor, t: nat)
    requires StaleBefore(s, segs, k, h) && OVERHEAD <= segs[k].size
    ensures t == Get32(s.mem, h - 4) && c == Marked(s, h, segs[k].size)
    ensures var n0, n := segs[k - 1].size, segs[k].size;
            && t < WORD_LIMIT && c == At(s.(mem := c.s.mem), t, h + n - FOOTER, false)
            && SameOutside(s.mem, c.s.mem, t, h + n) && t <= h && SizeAt(c.s.mem, t) == h - t + n
            && HeaderAt(c.s.mem, h - n0, n0, true) && h + 4 < |c.s.mem| && c.s.mem[h + 4] == 1
  {
    hide Get32, Extents, U32, SegOk, HeaderAt, Inv, SizeAt, Load32, Store32, Store8, MergeLeft, Separated;
    var n0, n := segs[k - 1].size, segs[k].size;
    StaleShape(s, segs, k, h);
    t := Get32(s.mem, h - 4);
    StaleRecord(s.mem, h, n0, n, s.end);
    hide StaleBefore, StaleFooter, BlockAt, HoleBefore;
    var m := Store8(s.mem, h + 4, 1);
    var m2 := Store32(Store32(m, h + n - 4, t), t + 8, h - t + n);
    MergeLeftTaken(s.(mem := m), h, h + n, t, h - t, n);
    c := At(s.(mem := m2), t, h + n - FOOTER, false);
  }

  /** free at work with the old header at t for the hole of n0 bytes at h0 that the block at h follows; `e` is
      where the freed space ends. */
  ghost predicate Astray(s: State, c: Cursor, t: nat, h0: nat, n0: nat, e: nat) {
    && c.At? && c.header == t && c.footer + FOOTER == e && !c.add
    && c.s == s.(mem := c.s.mem, index := c.s.index) && |c.s.mem| == WORD_LIMIT
    && PAGE_SIZE <= s.start <= h0 && OVERHEAD <= n0 && h0 + n0 + OVERHEAD <= e <= s.end <= ADDRESS_LIMIT
    && h0 + OVERHEAD <= t && t + OVERHEAD <= h0 + n0
    && h0 in c.s.index
    && SizeAt(c.s.mem, t) == e - t && HeaderAt(c.s.mem, h0, n0, true) && c.s.mem[h0 + n0 + 4] == 1
  }

  lemma StaleAstray(s: State, segs: seq<Seg>, k: nat, h: nat) returns (c: Cursor, t: nat)
    requires StaleBefore(s, segs, k, h) && OVERHEAD <= segs[k].size && segs[k - 1].size <= h
    ensures var n0, n := segs[k - 1].size, segs[k].size;
            && c == Marked(s, h, n) && Astray(s, c, t, h - n0, n0, h + n)
            && c.s.index == s.index && SameOutside(s.mem, c.s.mem, t, h + n)
  {
    hide Get32, Extents, U32, Marked, SegOk, HeaderAt, SizeAt;
    StaleShape(s, segs, k, h);
    c, t := StaleMarked(s, segs, k, h);
    ListedIffHole(s, segs, k - 1);
    hide StaleBefore, StaleFooter;
  }

  lemma AstrayRightHole(s: State, c: Cursor, t: nat, h0: nat, n0: nat, e: nat, r: nat) returns (d: Cursor)
    requires Astray(s, c, t, h0, n0, e) && OVERHEAD <= r && e + r <= s.end
    requires HeaderAt(c.s.mem, e, r, true) && multiset(c.s.index)[e] == 1
    ensures d == MergeRight(c) && Astray(s, d, t, h0, n0, e + r) && SameOutside(c.s.mem, d.s.mem, t, e)
    ensures forall a :: multiset(d.s.index)[a] == if a == e then 0 else multiset(c.s.index)[a]
  {
    hide Get32, U32, MergeRight, Store32, PositionOf, DeleteAt;
    var m := Store32(c.s.mem, t + 8, e - t + r);
    WordKept(c.s.mem, m, e + 8);
    HeaderKept(c.s.mem, m, h0, n0, true);
    var i := PositionOf(c.s.index, e);
    assert e in multiset(c.s.index);
    DeleteContents(c.s.index, i);
    assert SizeAt(m, t) == e + r - t && m[h0 + n0 + 4] == 1;
    assert h0 in multiset(DeleteAt(c.s.index, i));
    MergeRightStep(c, e - t, r, i);
    d := At(c.s.(mem := m, index := DeleteAt(c.s.index, i)), t, e + r - FOOTER, false);
  }

  lemma AstrayNoHole(s: State, c: Cursor, t: nat, h0: nat, n0: nat, e: nat)
    requires Astray(s, c, t, h0, n0, e) && (Load32(c.s.mem, e) != HEAP_MAGIC || Load8(c.s.mem, e + 4) == 0)
    ensures MergeRight(c) == c
  {
    hide Load32, Load8;
  }

  lemma AstrayBlock(m: seq<Byte>, e: nat, n: nat)
    requires |m| == WORD_LIMIT && e < ADDRESS_LIMIT && HeaderAt(m, e, n, false)
    ensures Load8(m, e + 4) == 0
  {
    hide Get32;
  }

  /** What lies past the end is out of reach of changes inside. */
  lemma ForgedKept(s: State, m: seq<Byte>, lo: nat, hi: nat)
    requires |s.mem| == WORD_LIMIT && hi <= s.end <= ADDRESS_LIMIT && SameOutside(s.mem, m, lo, hi)
    ensures ForgedEnd(s.(mem := m)) == ForgedEnd(s)
  {
    hide Get32;
    WordKept(s.mem, m, s.end);
  }

  lemma AstrayNext(s: State, segs: seq<Seg>, k: nat, h: nat, c: Cursor, t: nat)
    requires BlockAt(s, segs, k, h) && k + 1 < |segs| && t <= h
    requires c.At? && c.s.index == s.index && SameOutside(s.mem, c.s.mem, t, h + segs[k].size)
    ensures var e, g := h + segs[k].size, segs[k + 1];
            && HeaderAt(c.s.mem, e, g.size, g.hole) && OVERHEAD <= g.size
            && e + g.size + Total(segs[k + 2..]) == s.end
            && multiset(c.s.index)[e] == (if g.hole then 1 else 0) && (e in c.s.index <==> g.hole)
    ensures segs[k + 1..] != [] && segs[k + 1..][0] == segs[k + 1] && segs[k + 1..][1..] == segs[k + 2..]
    ensures segs[k + 2..] != [] ==> Total(segs[k + 2..]) > 0
  {
    hide Get32, Extents, U32;
    SegFacts(s, segs, k);
    SegFacts(s, segs, k + 1);
    SegKept(s.mem, c.s.mem, h + segs[k].size, segs[k + 1], s.end);
    ListedIffHole(s, segs, k + 1);
  }

  /** The right merge through the old header sees what the sound merge would see. */
  lemma AstrayRight(s: State, segs: seq<Seg>, k: nat, h: nat, c: Cursor, t: nat) returns (d: Cursor)
    requires StaleBefore(s, segs, k, h) && OVERHEAD <= segs[k].size && segs[k - 1].size <= h
    requires var n0, n := segs[k - 1].size, segs[k].size;
             Astray(s, c, t, h - n0, n0, h + n) && c.s.index == s.index && SameOutside(s.mem, c.s.mem, t, h + n)
    requires segs[k + 1..] == [] ==> !ForgedEnd(s)
    ensures var n0, e := segs[k - 1].size, h + Reach(segs[k].size, segs[k + 1..]);
            && d == MergeRight(c) && Astray(s, d, t, h - n0, n0, e) && SameOutside(s.mem, d.s.mem, t, e)
            && (Reaches(segs[k + 1..]) <==> e == s.end)
    ensures h + segs[k].size !in d.s.index
    ensures forall a :: a != h + segs[k].size ==> multiset(d.s.index)[a] == multiset(s.index)[a]
  {
    hide Get32, Extents, U32, Holds, IndexLists, StaleFooter, MergeRight, Load32, Load8;
    var n0, n, post := segs[k - 1].size, segs[k].size, segs[k + 1..];
    SegFacts(s, segs, k);
    if post == [] {
      EndNotListed(s, segs, h + n);
      ForgedKept(s, c.s.mem, t, h + n);
      AstrayNoHole(s, c, t, h - n0, n0, h + n);
      d := c;
    } else {
      AstrayNext(s, segs, k, h, c, t);
      hide StaleBefore, Inv;
      if post[0].hole {
        d := AstrayRightHole(s, c, t, h - n0, n0, h + n, post[0].size);
        assert multiset(d.s.index)[h + n] == 0;
      } else {
        AstrayBlock(c.s.mem, h + n, post[0].size);
        AstrayNoHole(s, c, t, h - n0, n0, h + n);
        d := c;
      }
    }
  }

  /** Contraction when the header is the old one at t: the two stores it makes, if any, and the new end. */
  lemma AstrayShrink(s: State, d: Cursor, t: nat, h0: nat, n0: nat, right: nat) returns (u: Cursor)
    requires Astray(s, d, t, h0, n0, s.end) && right !in d.s.index && s.start + HEAP_MIN_SIZE <= s.end
    ensures var end := s.start + ContractSize(t - s.start);
            && u == Shrink(d, right) && u.At? && !u.add && end <= s.end
            && u.s == d.s.(mem := u.s.mem, end := end, mapped := d.s.mapped - GivenBack(s.start, s.end - s.start, end - s.start))
            && (end == t ==> u.s.mem == d.s.mem)
            && |u.s.mem| == |d.s.mem|
            && forall x {:trigger u.s.mem[x]} ::
                 0 <= x < |u.s.mem| && !(t + 8 <= x < t + 12) && !(end - FOOTER <= x < end) ==> u.s.mem[x] == d.s.mem[x]
  {
    hide Get32, U32, HeaderAt, GivenBack, PutFooter, Store32, Shrink, ContractSize;
    var r := ContractSize(t - s.start);
    var end := s.start + r;
    assert HEAP_MIN_SIZE <= r && end <= s.end by {
      ContractSizeFacts(t - s.start);
    }
    var v := d.s.(end := end, mapped := d.s.mapped - GivenBack(s.start, s.end - s.start, r));
    assert Contract(d.s, U32(t - s.start)) == Next(v, r);
    hide Contract;
    var size := U32(end - t);
    ShrinkTo(d, right, v, r, size);
    if end == t {
      u := d.(s := v);
    } else {
      var m := Store32(d.s.mem, t + 8, size);
      assert SizeAt(m, t) == size && U32(t + size) == end;
      u := d.(s := v.(mem := PutFooter(m, end, t)), footer := end - FOOTER);
    }
  }

  lemma AstrayStays(s: State, d: Cursor, t: nat, h0: nat, n0: nat, e: nat, right: nat)
    requires Astray(s, d, t, h0, n0, e) && e != s.end
    ensures Shrink(d, right) == d
  {
  }

  /** Contracting to the old header's offset ends the heap at the block only where the minimum size does. */
  lemma ContractEnd(s: State, t: nat, h: nat)
    requires s.start <= t && t + OVERHEAD <= h
    ensures s.start + ContractSize(t - s.start) == h <==> h == s.start + HEAP_MIN_SIZE
    ensures s.start + ContractSize(t - s.start) != t ==> s.start + ContractSize(t - s.start) == s.start + HEAP_MIN_SIZE
  {
  }

  lemma AstrayBroken(d: Cursor, u: State, t: nat, h0: nat, n0: nat)
    requires d.At? && h0 in u.index && OVERHEAD <= n0 && h0 + n0 + OVERHEAD <= |d.s.mem|
    requires h0 + OVERHEAD <= t && t + OVERHEAD <= h0 + n0 && u.end != h0 + n0
    requires HeaderAt(d.s.mem, h0, n0, true) && d.s.mem[h0 + n0 + 4] == 1 && |u.mem| == |d.s.mem|
    requires forall x {:trigger u.mem[x]} ::
               0 <= x < |u.mem| && !(t + 8 <= x < t + 12) && !(u.end - FOOTER <= x < u.end) ==> u.mem[x] == d.s.mem[x]
    ensures Broken(u)
  {
    hide Get32;
    if h0 + OVERHEAD <= u.end {
      HeaderKept(d.s.mem, u.mem, h0, n0, true);
    }
    TwoHoles(u, h0, n0);
  }

  /** The freed block follows a hole with a stale footer and more than a hole follows it, or contraction ends
      the heap anywhere but at the block: no reading is left. */
  lemma StaleBreaks(s: State, segs: seq<Seg>, k: nat, h: nat)
    requires StaleBefore(s, segs, k, h) && OVERHEAD <= segs[k].size
    requires segs[k + 1..] == [] ==> !ForgedEnd(s)
    requires !(Reaches(segs[k + 1..]) && h == s.start + HEAP_MIN_SIZE)
    ensures var r := Conclude(Marked(s, h, segs[k].size), h + segs[k].size); r.Next? && Broken(r.s)
  {
    hide Get32, U32, Extents, Marked, MergeRight, Shrink, ContractSize, GivenBack;
    var n0, n := segs[k - 1].size, segs[k].size;
    var c, t := StaleAstray(s, segs, k, h);
    var d := AstrayRight(s, segs, k, h, c, t);
    hide StaleBefore;
    if Reaches(segs[k + 1..]) {
      var u := AstrayShrink(s, d, t, h - n0, n0, h + n);
      ContractEnd(s, t, h);
      AstrayBroken(d, u.s, t, h - n0, n0);
    } else {
      assert Shrink(d, h + n) == d by { AstrayStays(s, d, t, h - n0, n0, h + Reach(n, segs[k + 1..]), h + n); }
      TwoHoles(d.s, h - n0, n0);
    }
  }

  /** The holes that remain when the heap is cut at position k, past which only block k and at most one hole lie. */
  lemma HolesBefore(s: State, segs: seq<Seg>, k: nat, index: seq<nat>)
    requires Inv(s, segs) && k < |segs| && !segs[k].hole && Reaches(segs[k + 1..])
    requires var right := s.start + Total(segs[..k]) + segs[k].size;
             right !in index && forall a :: a != right ==> multiset(index)[a] == multiset(s.index)[a]
    ensures IndexLists(index, s.start, segs[..k])
  {
    hide Get32, Holds;
    var post := segs[k + 1..];
    var right := s.start + Total(segs[..k]) + segs[k].size;
    SegFacts(s, segs, k);
    assert segs == segs[..k] + [segs[k]] + post;
    ListedAround(s.start, segs[..k], segs[k], post, true);
    ExtentsInRange(s.start, segs[..k], true);
    assert post != [] ==> Holes(right + post[0].size, post[1..]) == map[];
    assert forall a :: a in Holes(right, post) ==> a == right;
    assert multiset(index)[right] == 0;
  }

  lemma CutHolds(s: State, segs: seq<Seg>, k: nat, m: seq<Byte>, end: nat)
    requires Inv(s, segs) && 0 < k <= |segs| && segs[k - 1].hole && OVERHEAD <= segs[k - 1].size
    requires end == s.start + Total(segs[..k]) && |m| == |s.mem|
    requires var h0 := s.start + Total(segs[..k - 1]);
             SameWithin(s.mem, m, 0, h0) && HeaderAt(m, h0, segs[k - 1].size, true)
    ensures Holds(m, s.start, segs[..k], end) && Get32(m, s.start - 8) != HEAP_MAGIC
  {
    hide Get32;
    var pre, g := segs[..k - 1], segs[k - 1];
    SegFacts(s, segs, k - 1);
    SplitAt(s, segs, k - 1);
    HoldsKept(s.mem, m, s.start, pre, s.end);
    HoldsAnyEnd(m, s.start, pre, s.end, end);
    HoldsAround(m, s.start, pre, g, [], end);
    assert segs[..k] == pre + [g] + [];
    WordKept(s.mem, m, s.start - 8);
  }

  /** The exception: contraction ends the heap exactly where the block began, which cuts the mistake away. */
  lemma StaleLucky(s: State, segs: seq<Seg>, k: nat, h: nat) returns (u: State)
    requires StaleBefore(s, segs, k, h) && OVERHEAD <= segs[k].size
    requires segs[k + 1..] == [] ==> !ForgedEnd(s)
    requires Reaches(segs[k + 1..]) && h == s.start + HEAP_MIN_SIZE
    ensures Conclude(Marked(s, h, segs[k].size), h + segs[k].size) == Next(u, 0) && Inv(u, segs[..k])
    ensures u == s.(mem := u.mem, index := u.index, end := h,
                    mapped := s.mapped - GivenBack(s.start, s.end - s.start, HEAP_MIN_SIZE))
    ensures segs[k - 1].size <= h && SameOutside(s.mem, u.mem, h - segs[k - 1].size, s.end)
  {
    hide Get32, U32, Extents, Marked, MergeRight, Shrink, ContractSize, GivenBack, IndexLists, Holds;
    var n0, n := segs[k - 1].size, segs[k].size;
    StaleShape(s, segs, k, h);
    var c, t := StaleAstray(s, segs, k, h);
    var d := AstrayRight(s, segs, k, h, c, t);
    var v := AstrayShrink(s, d, t, h - n0, n0, h + n);
    u := v.s;
    ContractEnd(s, t, h);
    HeaderKept(d.s.mem, u.mem, h - n0, n0, true);
    HolesBefore(s, segs, k, u.index);
    CutHolds(s, segs, k, u.mem, h);
    GivenBackAbove(s.start, s.end, HEAP_MIN_SIZE, s.mapped);
    SeparatedParts(segs, 0, k);
    assert segs[0..k] == segs[..k];
    hide StaleBefore, Separated, PagesMapped, HeaderAt, SegOk;
  }
}
