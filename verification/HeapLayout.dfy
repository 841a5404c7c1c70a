/** The heap as a sequence of adjacent segments, each a hole or a block, seen without memory.
    A segment's address is the sum of the sizes before it, so a segment sequence always tiles its range. */
module HeapLayout {
  import opened Memory

  datatype Seg = Seg(size: nat, hole: bool)

  function Total(segs: seq<Seg>): nat {
    if segs == [] then 0 else segs[0].size + Total(segs[1..])
  }

  /** Every segment has room for its header and footer. */
  ghost predicate Roomy(segs: seq<Seg>) {
    forall i :: 0 <= i < |segs| ==> segs[i].size >= OVERHEAD
  }

  /** No two holes touch. */
  ghost predicate Separated(segs: seq<Seg>) {
    forall i {:trigger segs[i]} :: 0 <= i < |segs| - 1 ==> !(segs[i].hole && segs[i + 1].hole)
  }

  /** The segments of one kind, as a map from address to size. */
  ghost function Extents(at: nat, segs: seq<Seg>, hole: bool): map<nat, nat>
    decreases |segs|
  {
    if segs == [] then map[]
    else
      var rest := Extents(at + segs[0].size, segs[1..], hole);
      if segs[0].hole == hole then map[at := segs[0].size] + rest else rest
  }

  ghost function Holes(at: nat, segs: seq<Seg>): map<nat, nat> {
    Extents(at, segs, true)
  }

  ghost function Live(at: nat, segs: seq<Seg>): map<nat, nat> {
    Extents(at, segs, false)
  }

  lemma {:induction false} TotalAppend(a: seq<Seg>, b: seq<Seg>)
    ensures Total(a + b) == Total(a) + Total(b)
  {
    if a == [] {
      assert a + b == b;
    } else {
      assert (a + b)[1..] == a[1..] + b;
      TotalAppend(a[1..], b);
    }
  }

  lemma {:induction false} ExtentsAppend(at: nat, a: seq<Seg>, b: seq<Seg>, hole: bool)
    ensures Extents(at, a + b, hole) == Extents(at, a, hole) + Extents(at + Total(a), b, hole)
    decreases |a|
  {
    if a == [] {
      assert a + b == b;
    } else {
      assert (a + b)[1..] == a[1..] + b;
      ExtentsAppend(at + a[0].size, a[1..], b, hole);
    }
  }

  /** Segments of one kind lie inside the range they tile. */
  lemma {:induction false} ExtentsInRange(at: nat, segs: seq<Seg>, hole: bool)
    requires Roomy(segs)
    ensures forall a :: a in Extents(at, segs, hole) ==>
      var n := Extents(at, segs, hole)[a]; at <= a && OVERHEAD <= n && a + n <= at + Total(segs)
    decreases |segs|
  {
    if segs != [] {
      ExtentsInRange(at + segs[0].size, segs[1..], hole);
    }
  }

  /** Any two segments, of whatever kinds, are the same segment or do not overlap. */
  lemma {:induction false} ExtentsDisjoint(at: nat, segs: seq<Seg>, kind1: bool, a1: nat, kind2: bool, a2: nat)
    requires Roomy(segs)
    requires a1 in Extents(at, segs, kind1) && a2 in Extents(at, segs, kind2)
    ensures (kind1 == kind2 && a1 == a2)
            || a1 + Extents(at, segs, kind1)[a1] <= a2 || a2 + Extents(at, segs, kind2)[a2] <= a1
    decreases |segs|
  {
    var next := at + segs[0].size;
    ExtentsInRange(next, segs[1..], kind1);
    ExtentsInRange(next, segs[1..], kind2);
    if a1 in Extents(next, segs[1..], kind1) && a2 in Extents(next, segs[1..], kind2) {
      ExtentsDisjoint(next, segs[1..], kind1, a1, kind2, a2);
    }
  }

  /** The position of the segment at a listed address. */
  lemma {:induction false} Locate(at: nat, segs: seq<Seg>, hole: bool, a: nat) returns (k: nat)
    requires Roomy(segs) && a in Extents(at, segs, hole)
    ensures k < |segs| && segs[k] == Seg(Extents(at, segs, hole)[a], hole)
    ensures at + Total(segs[..k]) == a
    decreases |segs|
  {
    var next := at + segs[0].size;
    ExtentsInRange(next, segs[1..], hole);
    if segs[0].hole == hole && a == at {
      return 0;
    }
    var j := Locate(next, segs[1..], hole, a);
    assert segs[..j + 1] == [segs[0]] + segs[1..][..j];
    assert segs[..j + 1][1..] == segs[1..][..j];
    return j + 1;
  }

  /** Extents of a sequence cut in three. */
  lemma ExtentsSplice(at: nat, pre: seq<Seg>, mid: seq<Seg>, post: seq<Seg>, hole: bool)
    ensures Extents(at, pre + mid + post, hole)
            == Extents(at, pre, hole) + Extents(at + Total(pre), mid, hole)
               + Extents(at + Total(pre) + Total(mid), post, hole)
    ensures Total(pre + mid + post) == Total(pre) + Total(mid) + Total(post)
  {
    ExtentsAppend(at, pre + mid, post, hole);
    ExtentsAppend(at, pre, mid, hole);
    TotalAppend(pre + mid, post);
    TotalAppend(pre, mid);
  }

  /** The segment at a position is listed at the address the sizes before it add up to. */
  lemma {:induction false} Listed(at: nat, segs: seq<Seg>, k: nat)
    requires Roomy(segs) && k < |segs|
    ensures var a, e := at + Total(segs[..k]), Extents(at, segs, segs[k].hole); a in e && e[a] == segs[k].size
    decreases |segs|
  {
    var next := at + segs[0].size;
    ExtentsInRange(next, segs[1..], segs[k].hole);
    if k > 0 {
      Listed(next, segs[1..], k - 1);
      assert segs[..k][1..] == segs[1..][..k - 1];
    }
  }

  /** Which addresses are listed, for a sequence cut around one segment. */
  lemma ListedAround(at: nat, pre: seq<Seg>, g: Seg, post: seq<Seg>, hole: bool)
    ensures forall a :: a in Extents(at, pre + [g] + post, hole) <==>
      a in Extents(at, pre, hole) || (g.hole == hole && a == at + Total(pre))
      || a in Extents(at + Total(pre) + g.size, post, hole)
    ensures Total(pre + [g] + post) == Total(pre) + g.size + Total(post)
  {
    ExtentsAppend(at, pre, [g] + post, hole);
    TotalAppend(pre, [g] + post);
    assert pre + [g] + post == pre + ([g] + post);
    assert ([g] + post)[1..] == post;
  }

  lemma SeparatedParts(segs: seq<Seg>, i: nat, j: nat)
    requires i <= j <= |segs| && Separated(segs)
    ensures Separated(segs[i..j])
  {
    assert forall x {:trigger segs[i..j][x]} :: 0 <= x < j - i - 1 ==>
      segs[i..j][x] == segs[x + i] && segs[i..j][x + 1] == segs[x + i + 1];
  }

  lemma OneSeg(at: nat, g: Seg, hole: bool)
    ensures Extents(at, [g], hole) == (if g.hole == hole then map[at := g.size] else map[])
    ensures Total([g]) == g.size
  {
    assert [g][1..] == [];
  }

  lemma SeparatedAround(pre: seq<Seg>, g: Seg, post: seq<Seg>)
    requires Separated(pre) && Separated(post)
    requires pre != [] && g.hole ==> !pre[|pre| - 1].hole
    requires post != [] && g.hole ==> !post[0].hole
    ensures Separated(pre + [g] + post)
  {
    var all := pre + [g] + post;
    forall i {:trigger all[i]} | 0 <= i < |all| - 1
      ensures !(all[i].hole && all[i + 1].hole)
    {
      if i < |pre| - 1 {
        assert all[i] == pre[i] && all[i + 1] == pre[i + 1];
      } else if i > |pre| {
        var j := i - |pre| - 1;
        assert all[i] == post[j] && all[i + 1] == post[j + 1];
      }
    }
  }

  lemma KeysInRange(at: nat, segs: seq<Seg>, hole: bool)
    requires Roomy(segs)
    ensures forall a :: a in Extents(at, segs, hole) ==> at <= a < at + Total(segs)
  {
    ExtentsInRange(at, segs, hole);
  }

  lemma OneMore(at: nat, n: nat, rest: map<nat, nat>)
    ensures |map[at := n] + rest| <= 1 + |rest|
  {
    var all := map[at := n] + rest;
    assert |all| == |all.Keys| && all.Keys == {at} + rest.Keys && |rest| == |rest.Keys|;
  }

  /** Holes of at least an overhead, no two of which touch, take two overheads each, but for the last. */
  lemma {:induction false} HolesAreFew(at: nat, segs: seq<Seg>)
    requires Roomy(segs) && Separated(segs)
    ensures 2 * OVERHEAD * |Holes(at, segs)| <= Total(segs) + if segs != [] && segs[0].hole then OVERHEAD else 0
    decreases |segs|
  {
    if segs != [] {
      var next := at + segs[0].size;
      SeparatedParts(segs, 1, |segs|);
      HolesAreFew(next, segs[1..]);
      if segs[0].hole {
        OneMore(at, segs[0].size, Holes(next, segs[1..]));
        assert |segs| > 1 ==> !segs[1].hole;
      }
    }
  }

  /** Which addresses are listed, for a sequence cut in three. */
  lemma ListedSplice(at: nat, pre: seq<Seg>, mid: seq<Seg>, post: seq<Seg>, hole: bool)
    ensures forall a :: a in Extents(at, pre + mid + post, hole) <==>
      a in Extents(at, pre, hole) || a in Extents(at + Total(pre), mid, hole)
      || a in Extents(at + Total(pre) + Total(mid), post, hole)
    ensures Total(pre + mid + post) == Total(pre) + Total(mid) + Total(post)
  {
    ExtentsSplice(at, pre, mid, post, hole);
  }
}
