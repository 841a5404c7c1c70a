/** The expansions of alloc: what one or two of them make of a heap, sound or not. */
module HeapExpand {
  import opened Memory
  import opened HeapLayout
  import opened HeapState
  import opened HeapText
  import opened HeapGrow
  import opened HeapCarve

  predicate AnyFits(s: State, size: nat, align: bool) {
    FirstFit(s.mem, s.index, size + OVERHEAD, align) < |s.index|
  }

  /** The hole the search settles on in `g`. */
  function Chosen(g: State, size: nat, align: bool): nat
    requires AnyFits(g, size, align)
  {
    g.index[FirstFit(g.mem, g.index, size + OVERHEAD, align)]
  }

  lemma AllocIsCarve(s: State, size: nat, align: bool)
    requires NoWrap(s, size) && AnyFits(s, size, align)
    ensures Alloc(s, size, align) == Carve(s, FirstFit(s.mem, s.index, size + OVERHEAD, align), size, align)
  {
    hide Get32;
  }

  lemma GrowThenAlloc(s: State, size: nat, align: bool)
    requires NoWrap(s, size) && !AnyFits(s, size, align)
    ensures var r := Grow(s, size + OVERHEAD);
            if r.Halted? then Alloc(s, size, align) == Halted
            else NoWrap(r.s, size) && Alloc(s, size, align) == Alloc(r.s, size, align)
  {
    hide Get32, Grow;
    if Grow(s, size + OVERHEAD).Next? {
      GrowAdvances(s, size);
    }
  }

  /** What the search charges for alignment in a hole at `a`. */
  function Charge(a: nat, align: bool): (c: nat)
    ensures c <= PAGE_SIZE && (!align ==> c == 0)
  {
    if align then AlignOffset(a) else 0
  }

  lemma NoneFits(s: State, size: nat, align: bool, a: nat)
    requires !AnyFits(s, size, align) && a in s.index
    ensures !Fits(s.mem, a, size + OVERHEAD, align)
  {
  }

  // ---- Expansion of a heap that a hole ends, or without holes ----

  function TailSize(segs: seq<Seg>): nat {
    if segs != [] && segs[|segs| - 1].hole then segs[|segs| - 1].size else 0
  }

  /** A hole at the end that exceeds the request by its alignment offset fits. */
  lemma TailFits(s: State, segs: seq<Seg>, size: nat, align: bool)
    requires Inv(s, segs) && TailSize(segs) >= size + OVERHEAD + Charge(Settling(s, segs), align)
    ensures AnyFits(s, size, align)
  {
    hide Get32, Extents, Holds;
    var n := |segs| - 1;
    var a := s.start + Total(segs[..n]);
    ListedIffHole(s, segs, n);
    IndexIsHoles(s, segs, a);
    HoldsRoomy(s.mem, s.start, segs, s.end);
    Listed(s.start, segs, n);
    var k := Find(s, segs, true, a);
    assert Fits(s.mem, a, size + OVERHEAD, align);
    var i :| 0 <= i < |s.index| && s.index[i] == a;
  }

  lemma GrownTail(segs: seq<Seg>, d: nat)
    ensures TailSize(Grown(segs, d)) == TailSize(segs) + d
    ensures Grown(segs, d) != [] && Grown(segs, d)[|Grown(segs, d)| - 1].hole
  {
  }

  lemma GrownTwice(segs: seq<Seg>, d1: nat, d2: nat)
    ensures Grown(Grown(segs, d1), d2) == Grown(segs, d1 + d2)
  {
    var g := Grown(segs, d1);
    assert g[..|g| - 1] == if segs != [] && segs[|segs| - 1].hole then segs[..|segs| - 1] else segs;
  }

  /** The state in which the search succeeds, after no or some expansions. */
  ghost predicate GrownTo(s: State, segs: seq<Seg>, g: State, gsegs: seq<Seg>) {
    && Inv(g, gsegs) && g.start == s.start && g.max == s.max && s.end <= g.end && s.mapped <= g.mapped
    && SameOutside(s.mem, g.mem, Settling(s, segs), g.end)
    && Live(s.start, gsegs) == Live(s.start, segs)
    && gsegs == if g.end == s.end then segs else Grown(segs, g.end - s.end)
  }

  lemma SettlingGrown(s: State, segs: seq<Seg>, g: State, d: nat)
    requires Total(segs) == s.end - s.start && s.start <= s.end && g.start == s.start
    ensures Settling(g, Grown(segs, d)) == Settling(s, segs)
  {
    var t := Grown(segs, d);
    assert t[..|t| - 1] == if segs != [] && segs[|segs| - 1].hole then segs[..|segs| - 1] else segs;
  }

  lemma GrownOnce(s: State, segs: seq<Seg>, size: nat) returns (g: State, d: nat)
    requires Inv(s, segs) && NoWrap(s, size) && GrowSafe(s, segs) && Grow(s, size + OVERHEAD).Next?
    ensures g == Grow(s, size + OVERHEAD).s && GrownTo(s, segs, g, Grown(segs, d)) && g.end == s.end + d && 0 < d
    ensures Settling(g, Grown(segs, d)) == Settling(s, segs)
  {
    hide Get32, Extents, Holds, Grow, Grown, Delta, Separated, IndexLists;
    g, d := Grow(s, size + OVERHEAD).s, Delta(s, size + OVERHEAD);
    DeltaFacts(s, size + OVERHEAD);
    GrowExact(s, segs, size + OVERHEAD);
    SettlingGrown(s, segs, g, d);
  }

  lemma {:induction false} GrownToTrans(s: State, segs: seq<Seg>, g: State, gsegs: seq<Seg>, t: State, tsegs: seq<Seg>)
    requires GrownTo(s, segs, g, gsegs) && GrownTo(g, gsegs, t, tsegs) && s.end < g.end
    requires Settling(g, gsegs) == Settling(s, segs)
    ensures GrownTo(s, segs, t, tsegs)
  {
    hide Get32, Inv, Extents, Grown, Settling;
    GrownTwice(segs, g.end - s.end, t.end - g.end);
  }

  /** The tiling without a hole at the end. */
  function Stem(segs: seq<Seg>): seq<Seg> {
    if segs != [] && segs[|segs| - 1].hole then segs[..|segs| - 1] else segs
  }

  lemma SizeOfSegment(s: State, segs: seq<Seg>, k: nat)
    requires Inv(s, segs) && k < |segs|
    ensures SizeAt(s.mem, s.start + Total(segs[..k])) == segs[k].size
  {
    hide Get32, Extents, Holds, IndexLists, Separated, PagesMapped, StaleFooter, FooterAt;
    SegFacts(s, segs, k);
  }

  lemma InnerSegments(segs: seq<Seg>, d: nat, k: nat)
    requires k + 1 < |Grown(segs, d)|
    ensures k < |segs| && Grown(segs, d)[k] == segs[k] && Grown(segs, d)[..k] == segs[..k]
  {
  }

  /** Holes before the last segment were there before the expansion. */
  lemma InnerHole(s: State, segs: seq<Seg>, g: State, gsegs: seq<Seg>, k: nat)
    requires Inv(s, segs) && GrownTo(s, segs, g, gsegs) && s.end < g.end && k + 1 < |gsegs| && gsegs[k].hole
    ensures var a := s.start + Total(gsegs[..k]); a in s.index && SizeAt(g.mem, a) == SizeAt(s.mem, a)
  {
    hide Inv, Extents, Grown, SizeAt, Total;
    InnerSegments(segs, g.end - s.end, k);
    ListedIffHole(s, segs, k);
    SizeOfSegment(s, segs, k);
    SizeOfSegment(g, gsegs, k);
  }

  /** After an expansion only the hole at the end can fit. */
  lemma OnlyTailFits(s: State, segs: seq<Seg>, g: State, gsegs: seq<Seg>, size: nat, align: bool, k: nat)
    requires Inv(s, segs) && GrownTo(s, segs, g, gsegs) && s.end < g.end && !AnyFits(s, size, align)
    requires k < |gsegs| && gsegs[k].hole && Fits(g.mem, s.start + Total(gsegs[..k]), size + OVERHEAD, align)
    ensures k + 1 == |gsegs| && gsegs[..k] == Stem(segs)
  {
    hide Get32, Extents, Holds, IndexLists, AnyFits, SizeAt, Total, Inv;
    if k + 1 < |gsegs| {
      InnerHole(s, segs, g, gsegs, k);
      NoneFits(s, size, align, s.start + Total(gsegs[..k]));
    }
  }

  /** After an expansion the search finds the hole at the end or none. */
  lemma GrownServes(s: State, segs: seq<Seg>, g: State, size: nat, align: bool)
    requires Inv(s, segs) && GrowSafe(s, segs) && !AnyFits(s, size, align)
    requires s.end < g.end && GrownTo(s, segs, g, Grown(segs, g.end - s.end))
    ensures var a, n := Settling(s, segs), TailSize(segs) + g.end - s.end;
            && (AnyFits(g, size, align) <==> n >= size + OVERHEAD + Charge(a, align))
            && (AnyFits(g, size, align) ==> Chosen(g, size, align) == a && SizeAt(g.mem, a) == n)
  {
    hide Get32, Extents, Holds, IndexLists, Separated, Grown, SizeAt;
    var gsegs := Grown(segs, g.end - s.end);
    GrownTail(segs, g.end - s.end);
    SettlingGrown(s, segs, g, g.end - s.end);
    if AnyFits(g, size, align) {
      var at := FirstFit(g.mem, g.index, size + OVERHEAD, align);
      var k := HoleOfEntry(g, gsegs, at);
      OnlyTailFits(s, segs, g, gsegs, size, align, k);
    }
    if TailSize(gsegs) >= size + OVERHEAD + Charge(Settling(g, gsegs), align) {
      TailFits(g, gsegs, size, align);
    }
  }

  // ---- Expansion of a heap that a block ends, with holes before it ----

  /** The hole of z bytes at h is the endmost one, and a block lies right behind it. */
  ghost predicate Stuck(s: State, segs: seq<Seg>, h: nat, z: nat) {
    && Bounds(s) && h == Endmost(s.index) && h in s.index && OVERHEAD <= z && s.start <= h
    && HeaderAt(s.mem, h, z, true) && SizeAt(s.mem, h) == z
    && h + z < s.end && h + z in Live(s.start, segs) && h !in Live(s.start, segs)
    && forall a :: a in s.index && a != h ==> a + HEADER <= h
  }

  lemma NextIsBlock(s: State, segs: seq<Seg>, k: nat)
    requires Inv(s, segs) && k + 1 < |segs| && segs[k].hole
    ensures !segs[k + 1].hole
  {
  }

  lemma EndmostIsStuck(s: State, segs: seq<Seg>) returns (h: nat, z: nat)
    requires Inv(s, segs) && !GrowSafe(s, segs)
    ensures Stuck(s, segs, h, z)
  {
    hide Get32, Extents, Holds;
    h := Endmost(s.index);
    EndmostPositive(s, segs);
    IndexIsHoles(s, segs, h);
    var k := Find(s, segs, true, h);
    z := segs[k].size;
    SegFacts(s, segs, k);
    assert k + 1 < |segs|;
    SegFacts(s, segs, k + 1);
    HoldsRoomy(s.mem, s.start, segs, s.end);
    NextIsBlock(s, segs, k);
    Listed(s.start, segs, k + 1);
    if h in Live(s.start, segs) {
      StartsApart(s, segs, true, h, false, h);
    }
    forall a | a in s.index && a != h
      ensures a + HEADER <= h
    {
      IndexIsHoles(s, segs, a);
      StartsApart(s, segs, true, a, true, h);
    }
  }

  /** The expansions so far have moved the end and widened the hole at h to n bytes, over whatever lies there. */
  ghost predicate Stretched(s: State, g: State, h: nat, n: nat) {
    && Bounds(g) && g.start == s.start && g.max == s.max && g.index == s.index && s.end <= g.end
    && |s.mem| == WORD_LIMIT && OVERHEAD <= n && h + n <= g.end
    && SameOutside(s.mem, g.mem, h, h + n) && HeaderAt(g.mem, h, n, true)
  }

  lemma SizeOfHeader(m: seq<Byte>, h: nat, n: nat, hole: bool)
    requires |m| == WORD_LIMIT && HeaderAt(m, h, n, hole)
    ensures SizeAt(m, h) == n
  {
    hide Get32;
  }

  /** One more expansion. */
  lemma StretchMore(s: State, g: State, h: nat, n: nat, newSize: nat)
    requires Stretched(s, g, h, n) && PAGE_SIZE <= s.start <= h == Endmost(s.index) && 0 < newSize < 0x8000_0000
    ensures var r, d := Grow(g, newSize), Delta(g, newSize);
            && (r.Halted? <==> g.end + d > g.max)
            && (r.Next? ==> Stretched(s, r.s, h, n + d) && r.s.end == g.end + d)
  {
    hide Get32, Grow, Delta, PageRange, PagesMapped, PutFooter, Store32, HeaderAt, Endmost, SizeAt;
    var d := Delta(g, newSize);
    GrowResult(g, newSize);
    DeltaFacts(g, newSize);
    if g.end + d <= g.max {
      WiderRecord(g.mem, h, n, d);
      NewPages(g.start, g.end, g.end + d, g.mapped);
      var t := Grow(g, newSize).s;
      WordKept(g.mem, t.mem, g.start - 8);
    }
  }

  lemma SameSize(m: seq<Byte>, m': seq<Byte>, a: nat, h: nat, n: nat)
    requires |m| == WORD_LIMIT && a + HEADER <= h && h + n < WORD_LIMIT && SameOutside(m, m', h, h + n)
    ensures SizeAt(m', a) == SizeAt(m, a)
  {
    hide Get32;
    WordKept(m, m', a + 8);
  }

  /** Only the widened hole can fit. */
  lemma StretchedServes(s: State, segs: seq<Seg>, g: State, h: nat, z: nat, n: nat, size: nat, align: bool)
    requires Stuck(s, segs, h, z) && Stretched(s, g, h, n) && !AnyFits(s, size, align)
    ensures AnyFits(g, size, align) <==> n >= size + OVERHEAD + Charge(h, align)
    ensures AnyFits(g, size, align) ==> Chosen(g, size, align) == h && SizeAt(g.mem, h) == n
  {
    hide Get32, HeaderAt, AlignOffset, PagesMapped;
    SizeOfHeader(g.mem, h, n, true);
    if AnyFits(g, size, align) {
      var a := Chosen(g, size, align);
      if a != h {
        NoneFits(s, size, align, a);
        SameSize(s.mem, g.mem, a, h, n);
      }
    }
    if n >= size + OVERHEAD + Charge(h, align) {
      var i :| 0 <= i < |g.index| && g.index[i] == h;
      assert Fits(g.mem, g.index[i], size + OVERHEAD, align);
    }
  }

  // ---- Either way ----

  /** The hole that expansions widen: where it starts, and its size before. */
  function WidenedAt(s: State, segs: seq<Seg>): nat {
    if GrowSafe(s, segs) then Settling(s, segs) else Endmost(s.index)
  }

  function SizeBefore(s: State, segs: seq<Seg>): nat {
    if GrowSafe(s, segs) then TailSize(segs) else SizeAt(s.mem, Endmost(s.index))
  }

  /** The heap after expansions. */
  ghost predicate Widened(s: State, segs: seq<Seg>, g: State) {
    && s.end < g.end && s.start == g.start && s.max == g.max && Bounds(g)
    && if GrowSafe(s, segs) then GrownTo(s, segs, g, Grown(segs, g.end - s.end))
       else Stretched(s, g, Endmost(s.index), SizeBefore(s, segs) + g.end - s.end)
  }

  /** The expansion for a request would pass the end of the address range. */
  predicate TooFar(s: State, size: nat)
    requires s.start <= s.end
  {
    s.end + Delta(s, size + OVERHEAD) > s.max
  }

  lemma FirstExpansion(s: State, segs: seq<Seg>, size: nat)
    requires Inv(s, segs) && NoWrap(s, size)
    ensures var r, d := Grow(s, size + OVERHEAD), Delta(s, size + OVERHEAD);
            && size + OVERHEAD < d && PAGE_SIZE <= d
            && (r.Halted? <==> TooFar(s, size))
            && (r.Next? ==> Widened(s, segs, r.s) && r.s.end == s.end + d)
  {
    hide Get32, Extents, Holds, Grow, Grown, Delta, Separated, IndexLists, Endmost, SizeAt, HeaderAt, Settling;
    DeltaFacts(s, size + OVERHEAD);
    GrowExact(s, segs, size + OVERHEAD);
    if Grow(s, size + OVERHEAD).Next? {
      if GrowSafe(s, segs) {
        var g, d := GrownOnce(s, segs, size);
      } else {
        var h, z := EndmostIsStuck(s, segs);
        StretchMore(s, s, h, z, size + OVERHEAD);
      }
    }
  }

  lemma NextExpansion(s: State, segs: seq<Seg>, g: State, size: nat)
    requires Inv(s, segs) && NoWrap(s, size) && Widened(s, segs, g)
    ensures var r, d := Grow(g, size + OVERHEAD), Delta(g, size + OVERHEAD);
            && size + OVERHEAD < d && PAGE_SIZE <= d
            && (r.Halted? <==> TooFar(g, size))
            && (r.Next? ==> Widened(s, segs, r.s) && r.s.end == g.end + d)
  {
    hide Get32, Extents, Holds, Grow, Grown, Delta, Separated, IndexLists, Endmost, SizeAt, HeaderAt, Settling;
    DeltaFacts(g, size + OVERHEAD);
    if GrowSafe(s, segs) {
      var gsegs := Grown(segs, g.end - s.end);
      GrownTail(segs, g.end - s.end);
      SettlingGrown(s, segs, g, g.end - s.end);
      GrowExact(g, gsegs, size + OVERHEAD);
      if Grow(g, size + OVERHEAD).Next? {
        var t, d := GrownOnce(g, gsegs, size);
        GrownToTrans(s, segs, g, gsegs, t, Grown(gsegs, d));
        GrownTwice(segs, g.end - s.end, d);
      }
    } else {
      var h, z := EndmostIsStuck(s, segs);
      StretchMore(s, g, h, z + g.end - s.end, size + OVERHEAD);
    }
  }

  /** After an expansion the search finds the widened hole or none. */
  lemma WidenedServes(s: State, segs: seq<Seg>, g: State, size: nat, align: bool)
    requires Inv(s, segs) && Widened(s, segs, g) && !AnyFits(s, size, align)
    ensures var a, n := WidenedAt(s, segs), SizeBefore(s, segs) + g.end - s.end;
            && (AnyFits(g, size, align) <==> n >= size + OVERHEAD + Charge(a, align))
            && (AnyFits(g, size, align) ==> Chosen(g, size, align) == a && SizeAt(g.mem, a) == n)
  {
    hide Get32, Extents, Holds, Grown, Separated, IndexLists, Endmost, SizeAt, HeaderAt, Settling, AnyFits, Charge;
    if GrowSafe(s, segs) {
      GrownServes(s, segs, g, size, align);
    } else {
      var h, z := EndmostIsStuck(s, segs);
      StretchedServes(s, segs, g, h, z, z + g.end - s.end, size, align);
    }
  }
}
