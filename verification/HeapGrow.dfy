/** The expansion inside alloc: exactly when it keeps the invariant. */
module HeapGrow {
  import opened Memory
  import opened HeapLayout
  import opened HeapState
  import opened HeapText
  import opened OrderedArrays

  /** The heap ends with a hole, or has no hole at all. Otherwise the hole that alloc enlarges, the one with the
      largest address, does not reach the old end. */
  predicate GrowSafe(s: State, segs: seq<Seg>) {
    s.index == [] || (segs != [] && segs[|segs| - 1].hole)
  }

  /** The segments after growing by `delta` bytes. */
  function Grown(segs: seq<Seg>, delta: nat): seq<Seg> {
    if segs != [] && segs[|segs| - 1].hole
    then segs[..|segs| - 1] + [Seg(segs[|segs| - 1].size + delta, true)]
    else segs + [Seg(delta, true)]
  }

  /** The bytes an expansion for `newSize` adds. */
  function Delta(s: State, newSize: nat): (d: nat)
    requires s.start <= s.end
  {
    PageAfter(s.end - s.start + newSize) - (s.end - s.start)
  }

  /** An expansion adds whole pages, and more bytes than were asked for. */
  lemma DeltaFacts(s: State, newSize: nat)
    requires Bounds(s)
    ensures var d := Delta(s, newSize);
            newSize < d <= newSize + PAGE_SIZE && PAGE_SIZE <= d && d % PAGE_SIZE == 0 && (s.end + d) % PAGE_SIZE == 0
  {
  }

  lemma NewPages(start: nat, end: nat, end': nat, mapped: set<nat>)
    requires PagesMapped(start, end, mapped) && start <= end <= end' < WORD_LIMIT
    requires start % PAGE_SIZE == 0 && end % PAGE_SIZE == 0
    ensures PagesMapped(start, end', mapped + PageRange(start, end - start, end' - start))
  {
    forall a | start <= a < end' && a % PAGE_SIZE == 0
      ensures a in mapped + PageRange(start, end - start, end' - start)
    {
      if end <= a {
        assert PageAddress(start, a - start) == a;
      }
    }
  }

  lemma PagesBetween(start: nat, end: nat, end': nat, a: nat)
    requires start <= end <= end' < WORD_LIMIT && start % PAGE_SIZE == 0 && end % PAGE_SIZE == 0
    ensures a in PageRange(start, end - start, end' - start) <==> end <= a < end' && a % PAGE_SIZE == 0
  {
    if end <= a < end' && a % PAGE_SIZE == 0 {
      assert PageAddress(start, a - start) == a;
    }
  }

  /** expand halts exactly on a size that is no larger than the heap, and where the page boundary behind that size lies
      past max_address; otherwise the heap ends at that boundary. */
  lemma ExpandExact(s: State, n: nat)
    requires Bounds(s) && n < 0x8000_0000
    ensures var r, end := Expand(s, n), s.start + (n / 0x1000 + 1) * 0x1000;
            && (r.Halted? <==> n <= s.end - s.start || end > s.max)
            && (r.Next? ==>
                  && r.s == s.(end := end, mapped := r.s.mapped)
                  && forall a: nat :: a in r.s.mapped <==> a in s.mapped || (s.end <= a < end && a % 0x1000 == 0))
  {
    hide Get32, PagesMapped, PageRange;
    var r := Expand(s, n);
    if r.Next? {
      forall a: nat
        ensures a in r.s.mapped <==> a in s.mapped || (s.end <= a < r.s.end && a % 0x1000 == 0)
      {
        PagesBetween(s.start, s.end, r.s.end, a);
      }
    }
  }

  /** expand for a request that does not wrap: it halts exactly when the pages do not fit below the maximum. */
  lemma ExpandResult(s: State, newSize: nat)
    requires Bounds(s) && 0 < newSize < 0x8000_0000
    ensures var d, length := Delta(s, newSize), s.end - s.start;
            Expand(s, U32(length + newSize))
            == if s.end + d > s.max then Halted
               else Next(s.(end := s.end + d, mapped := s.mapped + PageRange(s.start, length, length + d)), 0)
  {
    hide Get32, PagesMapped, PageRange;
    DeltaFacts(s, newSize);
  }

  /** The expansion, spelled out for the two cases. */
  lemma GrowResult(s: State, newSize: nat)
    requires Bounds(s) && 0 < newSize < 0x8000_0000
    ensures var d, length, h := Delta(s, newSize), s.end - s.start, Endmost(s.index);
            var g := s.(end := s.end + d, mapped := s.mapped + PageRange(s.start, length, length + d));
            var added := PutFooter(PutHeader(s.mem, s.end, d, true), s.end + d, s.end);
            var wider := Store32(s.mem, h + 8, SizeAt(s.mem, h) + d);
            Grow(s, newSize)
            == if s.end + d > s.max then Halted
               else if h == 0 then Next(g.(mem := added, index := InsertBefore(s.index, s.end, SizeLess(added))), 0)
               else Next(g.(mem := PutFooter(wider, h + SizeAt(wider, h), h)), 0)
  {
    hide Get32, PagesMapped, PageRange, Expand, SizeAt, PutFooter, PutHeader, Store32, Endmost;
    ExpandResult(s, newSize);
    DeltaFacts(s, newSize);
  }

  /** The pages an expansion maps are those from the old end up to the new. */
  lemma GrowMaps(s: State, newSize: nat)
    requires Bounds(s) && 0 < newSize < 0x8000_0000 && Grow(s, newSize).Next?
    ensures var g := Grow(s, newSize).s;
            forall a: nat :: a in g.mapped <==> a in s.mapped || (s.end <= a < g.end && a % PAGE_SIZE == 0)
  {
    hide Get32, PagesMapped, PageRange, Grow, Expand, SizeAt, PutFooter, PutHeader, Store32, Endmost;
    GrowResult(s, newSize);
    DeltaFacts(s, newSize);
    var g := Grow(s, newSize).s;
    forall a: nat
      ensures a in g.mapped <==> a in s.mapped || (s.end <= a < g.end && a % PAGE_SIZE == 0)
    {
      PagesBetween(s.start, s.end, g.end, a);
    }
  }

  /** A sequence that ends with a block does not depend on where the end is. */
  lemma {:induction false} HoldsToBlock(m: seq<Byte>, at: nat, segs: seq<Seg>, end: nat, end': nat)
    requires Holds(m, at, segs, end) && at + Total(segs) <= end
    requires segs != [] ==> !segs[|segs| - 1].hole
    ensures Holds(m, at, segs, end')
    decreases |segs|
  {
    hide Get32;
    if segs != [] {
      HoldsToBlock(m, at + segs[0].size, segs[1..], end, end');
    }
  }

  lemma IndexEmptied(s: State, segs: seq<Seg>)
    requires Inv(s, segs) && s.index == []
    ensures forall k :: 0 <= k < |segs| ==> !segs[k].hole
    ensures Endmost(s.index) == 0
  {
    hide Get32;
    forall k | 0 <= k < |segs|
      ensures !segs[k].hole
    {
      ListedIffHole(s, segs, k);
    }
  }

  lemma FreshIndex(s: State, segs: seq<Seg>, d: nat, less: (nat, nat) -> bool)
    requires Inv(s, segs) && s.index == []
    ensures IndexLists(InsertBefore<nat>(s.index, s.end, less), s.start, segs + [Seg(d, true)])
  {
    hide Get32;
    ListedAround(s.start, segs, Seg(d, true), [], true);
    assert segs + [Seg(d, true)] + [] == segs + [Seg(d, true)];
    assert forall a :: multiset(s.index)[a] == 0 && a !in Holes(s.start, segs);
  }

  /** No hole at all: the new pages become one. */
  lemma GrowFresh(s: State, segs: seq<Seg>, newSize: nat)
    requires Inv(s, segs) && 0 < newSize < 0x8000_0000 && s.index == [] && s.end + Delta(s, newSize) <= s.max
    ensures var r, d := Grow(s, newSize), Delta(s, newSize);
            && r.Next? && Inv(r.s, Grown(segs, d)) && Grown(segs, d) == segs + [Seg(d, true)]
            && r.s == s.(mem := r.s.mem, index := r.s.index, end := s.end + d, mapped := r.s.mapped)
            && s.mapped <= r.s.mapped && SameOutside(s.mem, r.s.mem, s.end, s.end + d)
            && FooterAt(r.s.mem, s.end + d, s.end)
  {
    hide Get32, Grow, U32, Store32, PageRange, PagesMapped, Delta, Extents, StaleFooter, PutHeader, PutFooter;
    var d := Delta(s, newSize);
    var end := s.end + d;
    GrowResult(s, newSize);
    DeltaFacts(s, newSize);
    IndexEmptied(s, segs);
    NewPages(s.start, s.end, end, s.mapped);
    var m1 := PutHeader(s.mem, s.end, d, true);
    var m := PutFooter(m1, end, s.end);
    HeaderKept(m1, m, s.end, d, true);
    HoldsKept(s.mem, m, s.start, segs, s.end);
    HoldsToBlock(m, s.start, segs, s.end, end);
    HoldsAround(m, s.start, segs, Seg(d, true), [], end);
    SeparatedAround(segs, Seg(d, true), []);
    WordKept(s.mem, m, s.start - 8);
    assert segs + [Seg(d, true)] + [] == segs + [Seg(d, true)];
    FreshIndex(s, segs, d, SizeLess(m));
  }

  /** A hole at the end of the heap is the listed address that is largest. */
  lemma EndmostIsLast(s: State, segs: seq<Seg>)
    requires Inv(s, segs) && segs != [] && segs[|segs| - 1].hole
    ensures Endmost(s.index) == s.start + Total(segs[..|segs| - 1]) > 0
  {
    hide Get32, Endmost, Holds;
    var n := |segs| - 1;
    var a, e := s.start + Total(segs[..n]), Endmost(s.index);
    SegFacts(s, segs, n);
    ListedIffHole(s, segs, n);
    var i :| 0 <= i < |s.index| && s.index[i] == a;
    assert a <= e;
    IndexIsHoles(s, segs, e);
    IndexIsHoles(s, segs, a);
    var j := Find(s, segs, true, e);
    var k := Find(s, segs, true, a);
    StartsApart(s, segs, true, e, true, a);
    assert segs[n + 1..] == [];
  }

  lemma WiderRecord(m: seq<Byte>, h: nat, z: nat, d: nat)
    requires |m| == WORD_LIMIT && 0 < h && OVERHEAD <= z && h + z + d < |m| && HeaderAt(m, h, z, true)
    ensures var m1 := Store32(m, h + 8, SizeAt(m, h) + d);
            var m2 := PutFooter(m1, h + SizeAt(m1, h), h);
            && SizeAt(m1, h) == z + d && SameOutside(m, m2, h, h + z + d)
            && HeaderAt(m2, h, z + d, true) && FooterAt(m2, h + z + d, h)
  {
    hide Get32;
    var m1 := Store32(m, h + 8, z + d);
    WordKept(m, m1, h);
    var m2 := PutFooter(m1, h + z + d, h);
    HeaderKept(m1, m2, h, z + d, true);
  }

  lemma WiderIndex(index: seq<nat>, at: nat, segs: seq<Seg>, n: nat, z: nat)
    requires n + 1 == |segs| && segs[n].hole && IndexLists(index, at, segs)
    ensures IndexLists(index, at, segs[..n] + [Seg(z, true)])
  {
    assert segs == segs[..n] + [segs[n]] + [];
    assert segs[..n] + [Seg(z, true)] == segs[..n] + [Seg(z, true)] + [];
    ListedAround(at, segs[..n], segs[n], [], true);
    ListedAround(at, segs[..n], Seg(z, true), [], true);
  }

  lemma TailHeader(s: State, segs: seq<Seg>, n: nat)
    requires Inv(s, segs) && |segs| == n + 1
    ensures var h, z := s.start + Total(segs[..n]), segs[n].size;
            h + z == s.end && OVERHEAD <= z && HeaderAt(s.mem, h, z, segs[n].hole) && s.end < ADDRESS_LIMIT + 1 && 0 < h
  {
    hide Get32, Extents;
    SegFacts(s, segs, n);
    assert segs[n + 1..] == [];
  }

  lemma GrownIs(segs: seq<Seg>, d: nat)
    requires segs != [] && segs[|segs| - 1].hole
    ensures var n := |segs| - 1; Grown(segs, d) == segs[..n] + [Seg(segs[n].size + d, true)]
  {
  }

  lemma HoldsLast(m: seq<Byte>, at: nat, pre: seq<Seg>, g: Seg, end: nat)
    requires Holds(m, at, pre, end) && SegOk(m, at + Total(pre), g, end)
    ensures Holds(m, at, pre + [g], end) && Total(pre + [g]) == Total(pre) + g.size
  {
    hide Get32, SegOk;
    HoldsAround(m, at, pre, g, [], end);
    assert pre + [g] + [] == pre + [g];
  }

  lemma SeparatedTail(segs: seq<Seg>, z: nat)
    requires segs != [] && segs[|segs| - 1].hole && Separated(segs)
    ensures Separated(segs[..|segs| - 1] + [Seg(z, true)])
  {
    var n := |segs| - 1;
    var all := segs[..n] + [Seg(z, true)];
    assert forall i {:trigger all[i]} :: 0 <= i < n ==> all[i] == segs[i] && all[i + 1].hole == segs[i + 1].hole;
  }

  /** The reading after the hole at the end was widened. */
  lemma WiderReading(s: State, segs: seq<Seg>, m: seq<Byte>, d: nat)
    requires Inv(s, segs) && segs != [] && segs[|segs| - 1].hole
    requires var n := |segs| - 1; var h, z := s.start + Total(segs[..n]), segs[n].size;
             s.end + d < |m| && SameOutside(s.mem, m, h, s.end + d)
             && HeaderAt(m, h, z + d, true) && FooterAt(m, s.end + d, h)
    ensures Holds(m, s.start, Grown(segs, d), s.end + d) && Separated(Grown(segs, d))
    ensures Total(Grown(segs, d)) == s.end + d - s.start && Get32(m, s.start - 8) != HEAP_MAGIC
    ensures IndexLists(s.index, s.start, Grown(segs, d))
  {
    hide Get32, Extents, PagesMapped, IndexLists, Separated, StaleFooter, Grown;
    var n := |segs| - 1;
    var pre, z, end := segs[..n], segs[n].size, s.end + d;
    GrownIs(segs, d);
    SplitAt(s, segs, n);
    TailHeader(s, segs, n);
    WiderIndex(s.index, s.start, segs, n, z + d);
    HoldsKept(s.mem, m, s.start, pre, s.end);
    HoldsAnyEnd(m, s.start, pre, s.end, end);
    HoldsLast(m, s.start, pre, Seg(z + d, true), end);
    SeparatedTail(segs, z + d);
    WordKept(s.mem, m, s.start - 8);
  }

  /** A hole at the end: it takes the new pages and gets a footer. */
  lemma GrowTail(s: State, segs: seq<Seg>, newSize: nat)
    requires Inv(s, segs) && 0 < newSize < 0x8000_0000 && s.end + Delta(s, newSize) <= s.max
    requires segs != [] && segs[|segs| - 1].hole
    ensures var r, d := Grow(s, newSize), Delta(s, newSize);
            && r.Next? && Inv(r.s, Grown(segs, d))
            && r.s == s.(mem := r.s.mem, end := s.end + d, mapped := r.s.mapped) && s.mapped <= r.s.mapped
            && SameOutside(s.mem, r.s.mem, s.start + Total(segs[..|segs| - 1]), s.end + d)
            && FooterAt(r.s.mem, s.end + d, s.start + Total(segs[..|segs| - 1]))
  {
    hide Get32, Grow, Grown, U32, Store32, PageRange, PagesMapped, Delta, Extents, IndexLists, PutFooter, Holds, Separated,
      HeaderAt, SizeAt, Endmost;
    var d, n := Delta(s, newSize), |segs| - 1;
    var h, z := s.start + Total(segs[..n]), segs[n].size;
    GrowResult(s, newSize);
    DeltaFacts(s, newSize);
    EndmostIsLast(s, segs);
    NewPages(s.start, s.end, s.end + d, s.mapped);
    TailHeader(s, segs, n);
    WiderRecord(s.mem, h, z, d);
    var m1 := Store32(s.mem, h + 8, SizeAt(s.mem, h) + d);
    WiderReading(s, segs, PutFooter(m1, h + SizeAt(m1, h), h), d);
  }

  lemma EndmostPositive(s: State, segs: seq<Seg>)
    requires Inv(s, segs) && s.index != []
    ensures Endmost(s.index) > 0 && Endmost(s.index) in s.index
  {
    hide Get32, Holds;
    var a := s.index[0];
    IndexIsHoles(s, segs, a);
    var k := Find(s, segs, true, a);
  }

  /** A listed hole whose size field reaches over an address leaves no room for a block there. */
  lemma WiderClash(t: State, segs: seq<Seg>, h: nat, z: nat, b: nat)
    requires Inv(t, segs) && h in t.index && SizeAt(t.mem, h) == z && h < b < h + z
    ensures b !in Live(t.start, segs)
  {
    hide Get32, Holds;
    IndexIsHoles(t, segs, h);
    var k := Find(t, segs, true, h);
    if b in Live(t.start, segs) {
      StartsApart(t, segs, true, h, false, b);
    }
  }

  /** Holes exist, but the heap ends with a block: the enlarged hole now covers the block behind it. */
  lemma GrowBreaks(s: State, segs: seq<Seg>, newSize: nat)
    requires Inv(s, segs) && 0 < newSize < 0x8000_0000 && s.end + Delta(s, newSize) <= s.max
    requires !GrowSafe(s, segs)
    ensures Grow(s, newSize).Next? && BrokenFor(Grow(s, newSize).s, Live(s.start, segs))
    ensures var t, h, z := Grow(s, newSize).s, Endmost(s.index), SizeAt(s.mem, Endmost(s.index)) + Delta(s, newSize);
            HeaderAt(t.mem, h, z, true) && FooterAt(t.mem, h + z, h)
  {
    hide Get32, Grow, U32, Store32, PageRange, PagesMapped, Delta, IndexLists, PutFooter, Extents, Holds;
    var d, h := Delta(s, newSize), Endmost(s.index);
    GrowResult(s, newSize);
    DeltaFacts(s, newSize);
    EndmostPositive(s, segs);
    IndexIsHoles(s, segs, h);
    var k := Find(s, segs, true, h);
    var z := segs[k].size;
    SegFacts(s, segs, k);
    assert k + 1 < |segs|;
    SegFacts(s, segs, k + 1);
    HoldsRoomy(s.mem, s.start, segs, s.end);
    Listed(s.start, segs, k + 1);
    WiderRecord(s.mem, h, z, d);
    var t := Grow(s, newSize).s;
    forall segs' | Inv(t, segs')
      ensures !Shows(Live(t.start, segs'), Live(s.start, segs))
    {
      WiderClash(t, segs', h, z + d, h + z);
    }
  }

  /** Growing changes no live block. */
  lemma GrownLive(at: nat, segs: seq<Seg>, d: nat)
    ensures Live(at, Grown(segs, d)) == Live(at, segs)
    ensures Total(Grown(segs, d)) == Total(segs) + d
  {
    if segs != [] && segs[|segs| - 1].hole {
      var n := |segs| - 1;
      assert segs == segs[..n] + [segs[n]];
      ExtentsAppend(at, segs[..n], [segs[n]], false);
      ExtentsAppend(at, segs[..n], [Seg(segs[n].size + d, true)], false);
      TotalAppend(segs[..n], [segs[n]]);
      TotalAppend(segs[..n], [Seg(segs[n].size + d, true)]);
      OneSeg(at + Total(segs[..n]), segs[n], false);
      OneSeg(at + Total(segs[..n]), Seg(segs[n].size + d, true), false);
    } else {
      ExtentsAppend(at, segs, [Seg(d, true)], false);
      TotalAppend(segs, [Seg(d, true)]);
      OneSeg(at + Total(segs), Seg(d, true), false);
    }
  }

  /** The bytes up to the hole that grows, or up to the old end. */
  function Settling(s: State, segs: seq<Seg>): nat {
    if segs != [] && segs[|segs| - 1].hole then s.start + Total(segs[..|segs| - 1]) else s.end
  }

  lemma GrowHalts(s: State, newSize: nat)
    requires Bounds(s) && 0 < newSize < 0x8000_0000
    ensures Grow(s, newSize).Halted? <==> s.end + Delta(s, newSize) > s.max
  {
    hide Get32, Grow, Delta, PagesMapped, PageRange, SizeAt, PutFooter, PutHeader, Store32, Endmost, InsertBefore;
    GrowResult(s, newSize);
  }

  /** The expansion adds an entry only to an empty index. */
  lemma GrowLists(s: State, segs: seq<Seg>, newSize: nat)
    requires Inv(s, segs) && 0 < newSize < 0x8000_0000 && Grow(s, newSize).Next?
    ensures Grow(s, newSize).s.index == if s.index == [] then [s.end] else s.index
  {
    hide Get32, Grow, Delta, PagesMapped, PageRange, SizeAt, PutFooter, PutHeader, Store32, Holds, IndexLists, Separated, Extents,
      Endmost;
    GrowResult(s, newSize);
    if s.index == [] {
      IndexEmptied(s, segs);
    } else {
      EndmostPositive(s, segs);
    }
  }

  /** The expansion halts exactly when the new pages do not fit; otherwise it keeps the invariant with every
      live block exactly when it is safe. */
  lemma GrowExact(s: State, segs: seq<Seg>, newSize: nat)
    requires Inv(s, segs) && 0 < newSize < 0x8000_0000
    ensures var r, d := Grow(s, newSize), Delta(s, newSize);
            && (r.Halted? <==> s.end + d > s.max)
            && (r.Next? && GrowSafe(s, segs) ==>
                  && Inv(r.s, Grown(segs, d)) && Live(s.start, Grown(segs, d)) == Live(s.start, segs)
                  && r.s == s.(mem := r.s.mem, index := r.s.index, end := s.end + d, mapped := r.s.mapped)
                  && s.mapped <= r.s.mapped && SameOutside(s.mem, r.s.mem, Settling(s, segs), s.end + d)
                  && FooterAt(r.s.mem, s.end + d, Settling(s, segs)))
            && (r.Next? && !GrowSafe(s, segs) ==>
                  && BrokenFor(r.s, Live(s.start, segs))
                  && var h, z := Endmost(s.index), SizeAt(s.mem, Endmost(s.index)) + d;
                     HeaderAt(r.s.mem, h, z, true) && FooterAt(r.s.mem, h + z, h))
  {
    hide Get32, Grow, Extents, Holds, Delta, Grown, Separated, IndexLists, PagesMapped, BrokenFor, Total, FooterAt, HeaderAt, SizeAt, Endmost;
    GrowHalts(s, newSize);
    if s.end + Delta(s, newSize) <= s.max {
      GrownLive(s.start, segs, Delta(s, newSize));
      if !GrowSafe(s, segs) {
        GrowBreaks(s, segs, newSize);
      } else if segs != [] && segs[|segs| - 1].hole {
        GrowTail(s, segs, newSize);
      } else {
        GrowFresh(s, segs, newSize);
      }
    }
  }
}
