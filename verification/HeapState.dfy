/** The heap as a value, and the invariant that relates its memory, its index and a reading of it as segments. */
module HeapState {
  import opened Memory
  import opened HeapLayout

  const HEAP_MIN_SIZE := 0x7_0000

  /** Below this address no sum of a heap address and a heap size wraps, and the casts to `long` are exact. */
  const ADDRESS_LIMIT := 0x7FFF_0000

  /** What a heap_t and its memory amount to between calls. `mapped` holds the addresses of the pages that
      own a frame. */
  datatype State = State(mem: seq<Byte>, index: seq<nat>, start: nat, end: nat, max: nat, mapped: set<nat>)

  /** The footer of a hole that swallowed its right neighbour: the right merge of free leaves it pointing to
      the neighbour's old header, which stays in memory inside the hole. */
  ghost predicate StaleFooter(m: seq<Byte>, a: nat, size: nat) {
    && OVERHEAD <= size && a + size <= |m|
    && Get32(m, a + size - 8) == HEAP_MAGIC
    && var t := Get32(m, a + size - 4);
       a + OVERHEAD <= t && t + OVERHEAD <= a + size && HeaderAt(m, t, a + size - t, true)
  }

  /** A segment as memory shows it. Only a hole may lack a footer of its own: the endmost hole, which
      create_heap leaves without one, and a hole with a stale footer. */
  ghost predicate SegOk(m: seq<Byte>, a: nat, s: Seg, end: nat) {
    && OVERHEAD <= s.size && a + s.size <= |m|
    && HeaderAt(m, a, s.size, s.hole)
    && (FooterAt(m, a + s.size, a) || (s.hole && (a + s.size == end || StaleFooter(m, a, s.size))))
  }

  ghost predicate Holds(m: seq<Byte>, at: nat, segs: seq<Seg>, end: nat)
    decreases |segs|
  {
    segs == [] || (SegOk(m, at, segs[0], end) && Holds(m, at + segs[0].size, segs[1..], end))
  }

  /** Every page of the heap owns a frame. */
  ghost predicate PagesMapped(start: nat, end: nat, mapped: set<nat>) {
    forall a :: start <= a < end && a % PAGE_SIZE == 0 ==> a in mapped
  }

  ghost predicate Bounds(s: State) {
    && |s.mem| == WORD_LIMIT
    && PAGE_SIZE <= s.start && s.start % PAGE_SIZE == 0 && s.end % PAGE_SIZE == 0
    && s.start + HEAP_MIN_SIZE <= s.end <= s.max <= ADDRESS_LIMIT
    && PagesMapped(s.start, s.end, s.mapped)
    && Get32(s.mem, s.start - 8) != HEAP_MAGIC
  }

  /** The index lists every hole exactly once and nothing else. */
  ghost predicate IndexLists(index: seq<nat>, at: nat, segs: seq<Seg>) {
    forall a :: multiset(index)[a] == if a in Holes(at, segs) then 1 else 0
  }

  /** The heap invariant: the segments tile [start, end), memory shows each of them, no two holes touch,
      and the index lists exactly the holes. */
  ghost predicate Inv(s: State, segs: seq<Seg>) {
    && Bounds(s)
    && Total(segs) == s.end - s.start
    && Holds(s.mem, s.start, segs, s.end)
    && Separated(segs)
    && IndexLists(s.index, s.start, segs)
  }

  /** No reading of the memory as segments satisfies the invariant. */
  ghost predicate Broken(s: State) {
    forall segs :: !Inv(s, segs)
  }

  ghost predicate Shows(big: map<nat, nat>, small: map<nat, nat>) {
    forall a :: a in small ==> a in big && big[a] == small[a]
  }

  /** No reading satisfies the invariant and still shows every block of `live`. */
  ghost predicate BrokenFor(s: State, live: map<nat, nat>) {
    forall segs :: Inv(s, segs) ==> !Shows(Live(s.start, segs), live)
  }

  /** The bytes of every listed block are the same in both memories. */
  ghost predicate BytesKept(m: seq<Byte>, m': seq<Byte>, live: map<nat, nat>) {
    forall a :: a in live ==> SameWithin(m, m', a, a + live[a])
  }

  /** Size field of the header at `a`. */
  function SizeAt(m: seq<Byte>, a: nat): nat {
    Load32(m, a + 8)
  }

  /** header_t_less_than over the memory of the moment. */
  function SizeLess(m: seq<Byte>): (nat, nat) -> bool {
    (a: nat, b: nat) => SizeAt(m, a) < SizeAt(m, b)
  }

  ghost predicate SortedBySize(s: State) {
    forall i, j :: 0 <= i < j < |s.index| ==> SizeAt(s.mem, s.index[i]) <= SizeAt(s.mem, s.index[j])
  }

  // ---- Reading memory as segments ----

  lemma SegKept(m: seq<Byte>, m': seq<Byte>, a: nat, s: Seg, end: nat)
    requires SegOk(m, a, s, end) && SameWithin(m, m', a, a + s.size)
    ensures SegOk(m', a, s, end)
  {
    HeaderKept(m, m', a, s.size, s.hole);
    WordKept(m, m', a + s.size - 8);
    WordKept(m, m', a + s.size - 4);
    if StaleFooter(m, a, s.size) {
      var t := Get32(m, a + s.size - 4);
      HeaderKept(m, m', t, a + s.size - t, true);
    }
  }

  lemma {:induction false} HoldsKept(m: seq<Byte>, m': seq<Byte>, at: nat, segs: seq<Seg>, end: nat)
    requires Holds(m, at, segs, end) && SameWithin(m, m', at, at + Total(segs))
    ensures Holds(m', at, segs, end)
    decreases |segs|
  {
    if segs != [] {
      SegKept(m, m', at, segs[0], end);
      HoldsKept(m, m', at + segs[0].size, segs[1..], end);
    }
  }

  /** Segments that stop short of the end do not depend on where the end is. */
  lemma {:induction false} HoldsAnyEnd(m: seq<Byte>, at: nat, segs: seq<Seg>, end: nat, end': nat)
    requires Holds(m, at, segs, end) && at + Total(segs) < end
    ensures Holds(m, at, segs, end')
    decreases |segs|
  {
    if segs != [] {
      HoldsAnyEnd(m, at + segs[0].size, segs[1..], end, end');
    }
  }

  lemma {:induction false} HoldsAppend(m: seq<Byte>, at: nat, a: seq<Seg>, b: seq<Seg>, end: nat)
    ensures Holds(m, at, a + b, end) <==> Holds(m, at, a, end) && Holds(m, at + Total(a), b, end)
    decreases |a|
  {
    if a == [] {
      assert a + b == b;
    } else {
      assert (a + b)[1..] == a[1..] + b;
      HoldsAppend(m, at + a[0].size, a[1..], b, end);
    }
  }

  lemma {:induction false} HoldsRoomy(m: seq<Byte>, at: nat, segs: seq<Seg>, end: nat)
    requires Holds(m, at, segs, end)
    ensures Roomy(segs)
    decreases |segs|
  {
    if segs != [] {
      HoldsRoomy(m, at + segs[0].size, segs[1..], end);
    }
  }

  /** Memory determines the reading: sizes chain the headers, and the flag says what each one heads. */
  lemma {:induction false} ReadingUnique(m: seq<Byte>, at: nat, s1: seq<Seg>, s2: seq<Seg>, end: nat)
    requires Holds(m, at, s1, end) && Holds(m, at, s2, end) && Total(s1) == Total(s2)
    ensures s1 == s2
    decreases |s1|
  {
    if s1 != [] && s2 != [] {
      ReadingUnique(m, at + s1[0].size, s1[1..], s2[1..], end);
      assert s1 == [s1[0]] + s1[1..] && s2 == [s2[0]] + s2[1..];
    }
  }

  /** What the invariant says about the segment at position k. */
  lemma SegFacts(s: State, segs: seq<Seg>, k: nat)
    requires Inv(s, segs) && k < |segs|
    ensures var pre, g, post := segs[..k], segs[k], segs[k + 1..];
            var a := s.start + Total(pre);
            && SegOk(s.mem, a, g, s.end)
            && a + g.size + Total(post) == s.end
            && Total(segs[..k + 1]) == Total(pre) + g.size
    ensures Roomy(segs)
  {
    var pre, g, post := segs[..k], segs[k], segs[k + 1..];
    assert segs == pre + ([g] + post);
    assert segs[..k + 1] == pre + [g];
    HoldsRoomy(s.mem, s.start, segs, s.end);
    HoldsAppend(s.mem, s.start, pre, [g] + post, s.end);
    TotalAppend(pre, [g] + post);
    TotalAppend(pre, [g]);
    assert ([g] + post)[1..] == post;
  }

  /** The segments on either side of a boundary. */
  lemma SplitAt(s: State, segs: seq<Seg>, j: nat)
    requires Inv(s, segs) && j <= |segs|
    ensures Holds(s.mem, s.start, segs[..j], s.end)
    ensures Holds(s.mem, s.start + Total(segs[..j]), segs[j..], s.end)
    ensures s.start + Total(segs[..j]) + Total(segs[j..]) == s.end
  {
    assert segs == segs[..j] + segs[j..];
    HoldsAppend(s.mem, s.start, segs[..j], segs[j..], s.end);
    TotalAppend(segs[..j], segs[j..]);
  }

  /** A change confined to the segments from position i up to j leaves the others readable. */
  lemma OthersKept(s: State, segs: seq<Seg>, i: nat, j: nat, m: seq<Byte>)
    requires Inv(s, segs) && i <= j <= |segs|
    requires SameOutside(s.mem, m, s.start + Total(segs[..i]), s.start + Total(segs[..j]))
    ensures Holds(m, s.start, segs[..i], s.end) && Holds(m, s.start + Total(segs[..j]), segs[j..], s.end)
    ensures Bounds(s.(mem := m))
  {
    hide Get32, SegOk, Separated, IndexLists, PagesMapped, Holds;
    SplitAt(s, segs, i);
    SplitAt(s, segs, j);
    HoldsKept(s.mem, m, s.start, segs[..i], s.end);
    HoldsKept(s.mem, m, s.start + Total(segs[..j]), segs[j..], s.end);
    WordKept(s.mem, m, s.start - 8);
  }

  /** A listed hole or live block, its position and its bounds. */
  lemma Find(s: State, segs: seq<Seg>, hole: bool, a: nat) returns (k: nat)
    requires Inv(s, segs) && a in Extents(s.start, segs, hole)
    ensures k < |segs| && segs[k] == Seg(Extents(s.start, segs, hole)[a], hole)
    ensures s.start + Total(segs[..k]) == a
    ensures SegOk(s.mem, a, segs[k], s.end) && s.start <= a && a + segs[k].size <= s.end
    ensures SizeAt(s.mem, a) == segs[k].size
  {
    HoldsRoomy(s.mem, s.start, segs, s.end);
    k := Locate(s.start, segs, hole, a);
    SegFacts(s, segs, k);
  }

  /** The index entries are the holes. */
  lemma IndexIsHoles(s: State, segs: seq<Seg>, a: nat)
    requires Inv(s, segs)
    ensures a in s.index <==> a in Holes(s.start, segs)
    ensures multiset(s.index)[a] <= 1
  {
    assert a in s.index <==> a in multiset(s.index);
  }

  /** A sequence without repetitions is no longer than a set it is drawn from. */
  lemma {:induction false} NoRepetition(index: seq<nat>, all: set<nat>)
    requires forall a :: multiset(index)[a] <= if a in all then 1 else 0
    ensures |index| <= |all|
    decreases |index|
  {
    if index != [] {
      var n := |index| - 1;
      var rest := index[..n];
      assert index == rest + [index[n]];
      assert multiset(index)[index[n]] >= 1;
      NoRepetition(rest, all - {index[n]});
    }
  }

  /** The index cannot outgrow the heap: an entry for every 40 bytes, and one more. */
  lemma IndexIsBounded(s: State, segs: seq<Seg>)
    requires Inv(s, segs)
    ensures 2 * OVERHEAD * |s.index| <= s.end - s.start + OVERHEAD
  {
    hide Get32, Extents;
    HoldsRoomy(s.mem, s.start, segs, s.end);
    HolesAreFew(s.start, segs);
    NoRepetition(s.index, Holes(s.start, segs).Keys);
  }

  /** Two different segments of any reading are at least one overhead apart. */
  lemma StartsApart(s: State, segs: seq<Seg>, kind1: bool, a1: nat, kind2: bool, a2: nat)
    requires Inv(s, segs)
    requires a1 in Extents(s.start, segs, kind1) && a2 in Extents(s.start, segs, kind2)
    ensures (kind1 == kind2 && a1 == a2)
            || a1 + Extents(s.start, segs, kind1)[a1] <= a2 || a2 + Extents(s.start, segs, kind2)[a2] <= a1
    ensures OVERHEAD <= Extents(s.start, segs, kind1)[a1] && OVERHEAD <= Extents(s.start, segs, kind2)[a2]
  {
    HoldsRoomy(s.mem, s.start, segs, s.end);
    ExtentsDisjoint(s.start, segs, kind1, a1, kind2, a2);
    ExtentsInRange(s.start, segs, kind1);
    ExtentsInRange(s.start, segs, kind2);
  }

  /** Position k and the index: the address is listed, once, exactly if the segment is a hole. */
  lemma ListedIffHole(s: State, segs: seq<Seg>, k: nat)
    requires Inv(s, segs) && k < |segs|
    ensures var a := s.start + Total(segs[..k]);
            multiset(s.index)[a] == (if segs[k].hole then 1 else 0) && (a in s.index <==> segs[k].hole)
  {
    hide Get32;
    var a := s.start + Total(segs[..k]);
    HoldsRoomy(s.mem, s.start, segs, s.end);
    Listed(s.start, segs, k);
    IndexIsHoles(s, segs, a);
    if !segs[k].hole && a in Holes(s.start, segs) {
      StartsApart(s, segs, false, a, true, a);
    }
  }

  /** Nothing at or behind the end is listed. */
  lemma EndNotListed(s: State, segs: seq<Seg>, a: nat)
    requires Inv(s, segs) && s.end <= a
    ensures a !in s.index && multiset(s.index)[a] == 0
  {
    hide Get32;
    HoldsRoomy(s.mem, s.start, segs, s.end);
    IndexIsHoles(s, segs, a);
    ExtentsInRange(s.start, segs, true);
  }

  lemma HoldsAround(m: seq<Byte>, at: nat, pre: seq<Seg>, g: Seg, post: seq<Seg>, end: nat)
    requires Holds(m, at, pre, end) && SegOk(m, at + Total(pre), g, end)
    requires Holds(m, at + Total(pre) + g.size, post, end)
    ensures Holds(m, at, pre + [g] + post, end) && Total(pre + [g] + post) == Total(pre) + g.size + Total(post)
  {
    hide Get32;
    assert pre + [g] + post == pre + ([g] + post) && ([g] + post)[1..] == post;
    HoldsAppend(m, at, pre, [g] + post, end);
    TotalAppend(pre, [g] + post);
  }
}
