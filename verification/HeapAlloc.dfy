/** The main results about alloc. */
module HeapAlloc {
  import opened Memory
  import opened HeapLayout
  import opened HeapState
  import opened HeapText
  import opened HeapGrow
  import opened HeapCarve
  import opened HeapExpand

  // ---- How often alloc expands, and when it halts ----

  /** How often alloc calls itself. */
  function Expansions(s: State, size: nat, align: bool): nat
    requires NoWrap(s, size)
    decreases s.max - s.end
  {
    if AnyFits(s, size, align) then 0
    else
      match Grow(s, size + OVERHEAD)
      case Halted => 0
      case Next(g, _) => 1 + Expansions(g, size, align)
  }

  /** After one expansion the widened hole would still be too small. */
  predicate Short(s: State, segs: seq<Seg>, size: nat, align: bool)
    requires s.start <= s.end
  {
    SizeBefore(s, segs) + Delta(s, size + OVERHEAD) < size + OVERHEAD + Charge(WidenedAt(s, segs), align)
  }

  /** The bounds of the heap after one expansion. */
  function Once(s: State, size: nat): State
    requires s.start <= s.end
  {
    s.(end := s.end + Delta(s, size + OVERHEAD))
  }

  lemma Served(s: State, size: nat, align: bool)
    requires NoWrap(s, size) && AnyFits(s, size, align)
    ensures Alloc(s, size, align) == Carve(s, FirstFit(s.mem, s.index, size + OVERHEAD, align), size, align)
    ensures Alloc(s, size, align).Next? && Expansions(s, size, align) == 0
  {
    hide Get32, Alloc;
    AllocIsCarve(s, size, align);
  }

  lemma ExpandsOnce(s: State, size: nat, align: bool)
    requires NoWrap(s, size) && !AnyFits(s, size, align)
    ensures var r := Grow(s, size + OVERHEAD);
            if r.Halted? then Alloc(s, size, align) == Halted && Expansions(s, size, align) == 0
            else NoWrap(r.s, size) && Alloc(s, size, align) == Alloc(r.s, size, align)
                 && Expansions(s, size, align) == 1 + Expansions(r.s, size, align)
  {
    hide Get32, Grow, Alloc;
    GrowThenAlloc(s, size, align);
  }

  lemma BoundsOrder(s: State, segs: seq<Seg>)
    requires Inv(s, segs)
    ensures s.start <= s.end && Bounds(s)
  {
  }

  /** What depends on the bounds only. */
  lemma SameBounds(s: State, t: State, size: nat)
    requires s.start == t.start <= s.end == t.end && s.max == t.max
    ensures Delta(s, size + OVERHEAD) == Delta(t, size + OVERHEAD) && TooFar(s, size) == TooFar(t, size)
  {
  }

  /** The expansions of alloc: after the first the widened hole serves the request unless it is `Short`, after the
      second it always does. */
  lemma AllocExpands(s: State, segs: seq<Seg>, size: nat, align: bool) returns (g: State)
    requires Inv(s, segs) && NoWrap(s, size)
    ensures var first, second := TooFar(s, size), Short(s, segs, size, align) && TooFar(Once(s, size), size);
            && (Alloc(s, size, align).Halted? <==> !AnyFits(s, size, align) && (first || second))
            && Expansions(s, size, align)
               == if AnyFits(s, size, align) || first then 0 else if !Short(s, segs, size, align) || second then 1 else 2
    ensures Alloc(s, size, align).Next? ==>
      && NoWrap(g, size) && AnyFits(g, size, align)
      && Alloc(s, size, align) == Carve(g, FirstFit(g.mem, g.index, size + OVERHEAD, align), size, align)
      && (if AnyFits(s, size, align) then g == s
          else Widened(s, segs, g)
               && g.end == Once(s, size).end + if Short(s, segs, size, align) then Delta(Once(s, size), size + OVERHEAD) else 0)
  {
    hide Get32, Grow, Inv, Alloc, Delta, TooFar, AnyFits, GrownTo, Stretched, GrowSafe, Carve, Charge, WidenedAt, SizeBefore, Expansions;
    BoundsOrder(s, segs);
    g := s;
    if AnyFits(s, size, align) {
      Served(s, size, align);
    } else {
      FirstExpansion(s, segs, size);
      ExpandsOnce(s, size, align);
      if !TooFar(s, size) {
        g := Grow(s, size + OVERHEAD).s;
        WidenedServes(s, segs, g, size, align);
        SameBounds(g, Once(s, size), size);
        if AnyFits(g, size, align) {
          Served(g, size, align);
        } else {
          NextExpansion(s, segs, g, size);
          ExpandsOnce(g, size, align);
          if !TooFar(g, size) {
            var t := Grow(g, size + OVERHEAD).s;
            WidenedServes(s, segs, t, size, align);
            Served(t, size, align);
            g := t;
          }
        }
      }
    }
  }

  /** From any heap that satisfies the invariant, alloc calls itself at most once for a plain request and at most twice
      for an aligned one. */
  lemma ExpansionsBounded(s: State, segs: seq<Seg>, size: nat, align: bool)
    requires Inv(s, segs) && NoWrap(s, size)
    ensures Expansions(s, size, align) <= if align then 2 else 1
  {
    hide Get32, Inv, Alloc, AnyFits, Expansions, Widened, Carve, SizeBefore, WidenedAt;
    var g := AllocExpands(s, segs, size, align);
    BoundsOrder(s, segs);
    DeltaFacts(s, size + OVERHEAD);
  }

  /** alloc halts exactly when an expansion it needs would pass max_address: the first, or the second of an aligned
      request for which the widened hole is still too small. */
  lemma AllocHalts(s: State, segs: seq<Seg>, size: nat, align: bool)
    requires Inv(s, segs) && NoWrap(s, size)
    ensures Alloc(s, size, align).Halted? <==>
      !AnyFits(s, size, align) && (TooFar(s, size) || (Short(s, segs, size, align) && TooFar(Once(s, size), size)))
    ensures Short(s, segs, size, align) ==> align
  {
    hide Get32, Inv, Alloc, AnyFits, Expansions, Widened, Carve, SizeBefore, WidenedAt;
    var g := AllocExpands(s, segs, size, align);
    BoundsOrder(s, segs);
    DeltaFacts(s, size + OVERHEAD);
  }

  // ---- The cut ----

  /** The condition for an expansion, should one be needed. */
  predicate Expandable(s: State, segs: seq<Seg>, size: nat, align: bool) {
    AnyFits(s, size, align) || GrowSafe(s, segs)
  }

  /** The size of the widened hole when it serves the request. */
  function ServedSize(s: State, segs: seq<Seg>, size: nat, align: bool): nat
    requires s.start <= s.end
  {
    SizeBefore(s, segs) + Delta(s, size + OVERHEAD)
    + if Short(s, segs, size, align) then Delta(Once(s, size), size + OVERHEAD) else 0
  }

  /** The cut is a safe one: of the hole that fits, or of the one that expansions will have widened. */
  predicate CutSafe(s: State, segs: seq<Seg>, size: nat, align: bool)
    requires s.start <= s.end
  {
    if AnyFits(s, size, align) then
      CarveSafe(Chosen(s, size, align), SizeAt(s.mem, Chosen(s, size, align)), size + OVERHEAD, align)
    else
      CarveSafe(WidenedAt(s, segs), ServedSize(s, segs, size, align), size + OVERHEAD, align)
  }

  /** Where alloc ends up, and what it cuts there. */
  lemma AllocReaches(s: State, segs: seq<Seg>, size: nat, align: bool) returns (g: State)
    requires Inv(s, segs) && NoWrap(s, size) && Alloc(s, size, align).Next?
    ensures NoWrap(g, size) && AnyFits(g, size, align) && if AnyFits(s, size, align) then g == s else Widened(s, segs, g)
    ensures Alloc(s, size, align) == Carve(g, FirstFit(g.mem, g.index, size + OVERHEAD, align), size, align)
    ensures var hole := Chosen(g, size, align);
            CutSafe(s, segs, size, align) == CarveSafe(hole, SizeAt(g.mem, hole), size + OVERHEAD, align)
  {
    hide Get32, Inv, Alloc, AnyFits, Expansions, Widened, Carve, SizeBefore, WidenedAt, CarveSafe, Delta, SizeAt, Chosen, TooFar;
    g := AllocExpands(s, segs, size, align);
    if !AnyFits(s, size, align) {
      WidenedServes(s, segs, g, size, align);
    }
  }

  /** The heap that a request cuts, when its expansions are safe. */
  lemma AllocGrown(s: State, segs: seq<Seg>, size: nat, align: bool) returns (g: State, gsegs: seq<Seg>)
    requires Inv(s, segs) && NoWrap(s, size) && Expandable(s, segs, size, align) && Alloc(s, size, align).Next?
    ensures GrownTo(s, segs, g, gsegs) && AnyFits(g, size, align)
    ensures if g.end == s.end then g == s else !AnyFits(s, size, align)
    ensures Alloc(s, size, align) == Carve(g, FirstFit(g.mem, g.index, size + OVERHEAD, align), size, align)
    ensures var hole := Chosen(g, size, align);
            CutSafe(s, segs, size, align) == CarveSafe(hole, SizeAt(g.mem, hole), size + OVERHEAD, align)
  {
    hide Get32, Inv, Alloc, AnyFits, Carve, CarveSafe, CutSafe, SizeAt, Chosen, Grown, Settling, Extents;
    g := AllocReaches(s, segs, size, align);
    gsegs := if g.end == s.end then segs else Grown(segs, g.end - s.end);
  }

  /** What a safe alloc does to memory and segments: a hole of the grown heap falls into front hole, block, rear hole. */
  lemma AllocCuts(s: State, segs: seq<Seg>, size: nat, align: bool)
    returns (g: State, gsegs: seq<Seg>, k: nat, front: nat, block: nat)
    requires Inv(s, segs) && NoWrap(s, size) && Expandable(s, segs, size, align) && Alloc(s, size, align).Next?
    requires CutSafe(s, segs, size, align)
    ensures GrownTo(s, segs, g, gsegs) && k < |gsegs| && gsegs[k].hole && front + block <= gsegs[k].size
    ensures size + OVERHEAD <= block < size + OVERHEAD + OVERHEAD
    ensures var r, hole := Alloc(s, size, align), s.start + Total(gsegs[..k]);
            && r.p == hole + front + HEADER && (if align then r.p % PAGE_SIZE == 0 else front == 0)
            && Inv(r.s, Carved(gsegs, k, front, block))
            && r.s == g.(mem := r.s.mem, index := r.s.index)
            && SameOutside(g.mem, r.s.mem, hole, hole + gsegs[k].size)
            && PiecesShown(r.s.mem, hole, front, block, gsegs[k].size - front - block)
    ensures block == BlockSize(gsegs[k].size, size + OVERHEAD, align)
    ensures g.end == s.end ==> g == s
    ensures s.end < g.end ==> !AnyFits(s, size, align) && Fits(g.mem, s.start + Total(gsegs[..k]), size + OVERHEAD, align)
  {
    hide Get32, Grow, Grown, Carve, Carved, Extents, Inv, Alloc, CutSafe, CarveSafe, Settling, Fits;
    g, gsegs := AllocGrown(s, segs, size, align);
    var t;
    t, k := CarveKeeps(g, gsegs, FirstFit(g.mem, g.index, size + OVERHEAD, align), size, align);
    front, block := Front(Chosen(g, size, align), align), BlockSize(gsegs[k].size, size + OVERHEAD, align);
  }

  lemma InvRoomy(s: State, segs: seq<Seg>)
    requires Inv(s, segs)
    ensures Roomy(segs)
  {
    hide Get32;
    HoldsRoomy(s.mem, s.start, segs, s.end);
  }

  /** Changes above a boundary of the reading leave the blocks below it alone, and there are none above. */
  lemma TailBytes(s: State, segs: seq<Seg>, m: seq<Byte>, hi: nat)
    requires Inv(s, segs) && SameOutside(s.mem, m, Settling(s, segs), hi)
    ensures BytesKept(s.mem, m, Live(s.start, segs))
  {
    hide Get32, Extents;
    forall a | a in Live(s.start, segs)
      ensures SameWithin(s.mem, m, a, a + Live(s.start, segs)[a])
    {
      var k := Find(s, segs, false, a);
      if segs[|segs| - 1].hole {
        var n := |segs| - 1;
        SegFacts(s, segs, n);
        HoldsRoomy(s.mem, s.start, segs, s.end);
        Listed(s.start, segs, n);
        StartsApart(s, segs, false, a, true, s.start + Total(segs[..n]));
        assert segs[n + 1..] == [];
      }
    }
  }

  /** Changes within a hole leave every live block alone. */
  lemma HoleBytes(s: State, segs: seq<Seg>, k: nat, m: seq<Byte>)
    requires Inv(s, segs) && k < |segs| && segs[k].hole
    requires var a := s.start + Total(segs[..k]); SameOutside(s.mem, m, a, a + segs[k].size)
    ensures BytesKept(s.mem, m, Live(s.start, segs))
  {
    hide Get32, Extents, Holds;
    forall a | a in Live(s.start, segs)
      ensures SameWithin(s.mem, m, a, a + Live(s.start, segs)[a])
    {
      InvRoomy(s, segs);
      Listed(s.start, segs, k);
      StartsApart(s, segs, false, a, true, s.start + Total(segs[..k]));
    }
  }

  lemma BytesChain(m1: seq<Byte>, m2: seq<Byte>, m3: seq<Byte>, live: map<nat, nat>)
    requires BytesKept(m1, m2, live) && BytesKept(m2, m3, live)
    ensures BytesKept(m1, m3, live)
  {
    forall a | a in live
      ensures SameWithin(m1, m3, a, a + live[a])
    {
      assert SameWithin(m1, m2, a, a + live[a]) && SameWithin(m2, m3, a, a + live[a]);
    }
  }

  /** What the caller gets: a new block with room for the request, page-aligned if asked; the other live blocks
      stay and none of their bytes change. */
  lemma AllocKeeps(s: State, segs: seq<Seg>, size: nat, align: bool) returns (t: State, segs': seq<Seg>, n: nat)
    requires Inv(s, segs) && NoWrap(s, size) && Expandable(s, segs, size, align) && Alloc(s, size, align).Next?
    requires CutSafe(s, segs, size, align)
    ensures size + OVERHEAD <= n < size + OVERHEAD + OVERHEAD
    ensures var p := Alloc(s, size, align).p;
            && Alloc(s, size, align) == Next(t, p) && HEADER <= p && (align ==> p % PAGE_SIZE == 0)
            && Inv(t, segs') && t.start == s.start && t.max == s.max && s.end <= t.end && s.mapped <= t.mapped
            && p - HEADER !in Live(s.start, segs)
            && Live(s.start, segs') == Live(s.start, segs)[p - HEADER := n]
            && BytesKept(s.mem, t.mem, Live(s.start, segs))
  {
    hide Get32, Grow, Grown, Carved, Extents, Inv, Alloc, CutSafe, Settling;
    var g, gsegs, k, front, block := AllocCuts(s, segs, size, align);
    t, segs', n := Alloc(s, size, align).s, Carved(gsegs, k, front, block), block;
    InvRoomy(g, gsegs);
    CarvedLive(s.start, gsegs, k, front, block);
    TailBytes(s, segs, g.mem, g.end);
    HoleBytes(g, gsegs, k, t.mem);
    BytesChain(s.mem, g.mem, t.mem, Live(s.start, segs));
  }

  // ---- The cut of a hole widened over live blocks ----

  /** A hole that a plain request did not fit, widened over the block behind it and then cut: the new block
      reaches over the start of that one. */
  lemma WidenedCutBreaks(s: State, segs: seq<Seg>, t: State, h: nat, z: nat, block: nat)
    requires h + z in Live(s.start, segs) && 0 < z < block && t.start == s.start
    requires HeaderAt(t.mem, h, block, false)
    ensures BrokenWith(t, Live(s.start, segs), h)
  {
    hide Get32, Extents, Holds, IndexLists, Separated, Bounds;
    forall segs' | Inv(t, segs') && Shows(Live(t.start, segs'), Live(s.start, segs))
      ensures h !in Live(t.start, segs')
    {
      if h in Live(t.start, segs') {
        var k := Find(t, segs', false, h);
        StartsApart(t, segs', false, h, false, h + z);
      }
    }
  }

  lemma PlainHead(g: State, size: nat)
    requires NoWrap(g, size) && AnyFits(g, size, false) && |g.mem| == WORD_LIMIT
    requires var h := Chosen(g, size, false); h + SizeAt(g.mem, h) <= g.end && size + OVERHEAD <= SizeAt(g.mem, h)
    ensures var h := Chosen(g, size, false);
            var r, block := Carve(g, FirstFit(g.mem, g.index, size + OVERHEAD, false), size, false),
                            BlockSize(SizeAt(g.mem, h), size + OVERHEAD, false);
            && r.Next? && r.p == h + HEADER && r.s.start == g.start && size + OVERHEAD <= block
            && HeaderAt(r.s.mem, h, block, false)
  {
    hide Get32, Carve, SizeAt, HeaderAt;
    var h := Chosen(g, size, false);
    var m := PlainPieces(g, FirstFit(g.mem, g.index, size + OVERHEAD, false), size, SizeAt(g.mem, h));
  }

  /** A plain block out of the widened hole takes the place of the hole and reaches over the block behind it. */
  lemma PlainStretchBreaks(s: State, segs: seq<Seg>, g: State, h: nat, z: nat, n: nat, size: nat)
    requires Stuck(s, segs, h, z) && Stretched(s, g, h, n) && !AnyFits(s, size, false)
    requires NoWrap(g, size) && AnyFits(g, size, false)
    ensures var r := Carve(g, FirstFit(g.mem, g.index, size + OVERHEAD, false), size, false);
            r.Next? && r.p == h + HEADER && r.s.start == s.start && BrokenWith(r.s, Live(s.start, segs), h)
  {
    hide Get32, Extents, Carve, AnyFits, PagesMapped, HeaderAt, BrokenWith, SizeAt, Chosen;
    StretchedServes(s, segs, g, h, z, n, size, false);
    NoneFits(s, size, false, h);
    PlainHead(g, size);
    var t := Carve(g, FirstFit(g.mem, g.index, size + OVERHEAD, false), size, false).s;
    WidenedCutBreaks(s, segs, t, h, z, BlockSize(n, size + OVERHEAD, false));
  }

  lemma AlignedOverlap(t: State, segs: seq<Seg>, h: nat, z: nat, gap: int, want: nat)
    requires Inv(t, segs) && h in t.index && OVERHEAD <= z && -HEADER <= gap && 0 <= h + gap && OVERHEAD <= want
    requires gap >= OVERHEAD ==>
      z < gap + want && HeaderAt(t.mem, h, gap, true) && HeaderAt(t.mem, h + gap, want, false)
    requires h + gap in Live(t.start, segs) && h + z in Live(t.start, segs)
    ensures gap == z
  {
    hide Get32, Extents, Holds, IndexLists, Separated, PagesMapped;
    IndexIsHoles(t, segs, h);
    StartsApart(t, segs, true, h, false, h + gap);
    StartsApart(t, segs, true, h, false, h + z);
    StartsApart(t, segs, false, h + gap, false, h + z);
    var k := Find(t, segs, true, h);
    var j := Find(t, segs, false, h + gap);
  }

  /** An aligned block out of the widened hole: the front hole stays listed at h. Either it has no room before the
      block, or it covers the live block behind the old hole, or the new block does, or the two blocks are one. */
  lemma AlignedClash(t: State, h: nat, z: nat, gap: int, want: nat, live: map<nat, nat>)
    requires h in t.index && h + z in live && OVERHEAD <= z && -HEADER <= gap && 0 <= h + gap && OVERHEAD <= want
    requires gap >= OVERHEAD ==>
      z < gap + want && HeaderAt(t.mem, h, gap, true) && HeaderAt(t.mem, h + gap, want, false)
    ensures h + gap in live || BrokenWith(t, live, h + gap)
  {
    hide Get32, Extents, Holds, IndexLists, Separated, PagesMapped;
    var b: nat := h + gap;
    if b !in live {
      forall segs' | Inv(t, segs') && Shows(Live(t.start, segs'), live)
        ensures b !in Live(t.start, segs')
      {
        if b in Live(t.start, segs') {
          AlignedOverlap(t, segs', h, z, gap, want);
        }
      }
    }
  }

  lemma AlignedStretchBreaks(s: State, segs: seq<Seg>, g: State, h: nat, z: nat, n: nat, size: nat)
    requires Stuck(s, segs, h, z) && Stretched(s, g, h, n) && !AnyFits(s, size, true)
    requires NoWrap(g, size) && AnyFits(g, size, true)
    ensures var r := Carve(g, FirstFit(g.mem, g.index, size + OVERHEAD, true), size, true);
            && r.Next? && HEADER <= r.p && r.s.start == s.start
            && (r.p - HEADER in Live(s.start, segs) || BrokenWith(r.s, Live(s.start, segs), r.p - HEADER))
  {
    hide Get32, Extents, Carve, PagesMapped, HeaderAt, BrokenWith, SizeAt, AlignOffset;
    var at := FirstFit(g.mem, g.index, size + OVERHEAD, true);
    StretchedServes(s, segs, g, h, z, n, size, true);
    NoneFits(s, size, true, h);
    AlignedCut(g, at, size);
    if FrontGap(h) >= OVERHEAD {
      ChargedGap(h);
      AlignedHeads(g, at, size);
    }
    AlignedClash(Carve(g, at, size, true).s, h, z, FrontGap(h), size + OVERHEAD, Live(s.start, segs));
  }

  /** A request that needs an expansion which is not safe: alloc hands out a live block once more, or memory for
      which no reading shows the new block and the old ones. */
  lemma UnsafeBreaks(s: State, segs: seq<Seg>, size: nat, align: bool)
    requires Inv(s, segs) && NoWrap(s, size) && !Expandable(s, segs, size, align) && Alloc(s, size, align).Next?
    ensures var r := Alloc(s, size, align);
            && HEADER <= r.p && r.s.start == s.start
            && ((align && r.p - HEADER in Live(s.start, segs)) || BrokenWith(r.s, Live(s.start, segs), r.p - HEADER))
  {
    hide Get32, Extents, Carve, Alloc, BrokenWith, SizeAt, AnyFits, Inv, Chosen, CutSafe, CarveSafe, HeaderAt, PagesMapped;
    var g := AllocReaches(s, segs, size, align);
    var h, z := EndmostIsStuck(s, segs);
    var n := z + g.end - s.end;
    if align {
      AlignedStretchBreaks(s, segs, g, h, z, n, size);
    } else {
      PlainStretchBreaks(s, segs, g, h, z, n, size);
    }
  }

  // ---- The exact conditions ----

  lemma SafeExact(s: State, segs: seq<Seg>, size: nat, align: bool)
    requires Inv(s, segs) && NoWrap(s, size) && Expandable(s, segs, size, align) && Alloc(s, size, align).Next?
    ensures var r := Alloc(s, size, align);
            && HEADER <= r.p
            && (CutSafe(s, segs, size, align)
                <==> exists segs' :: Inv(r.s, segs') && Shows(Live(s.start, segs'), Live(s.start, segs))
                                     && r.p - HEADER in Live(s.start, segs'))
            && (CutSafe(s, segs, size, align) ==> r.p - HEADER !in Live(s.start, segs))
  {
    hide Get32, Grown, Carve, Extents, Inv, Alloc, CutSafe, CarveSafe;
    BoundsOrder(s, segs);
    var g, gsegs := AllocGrown(s, segs, size, align);
    CarveExact(g, gsegs, FirstFit(g.mem, g.index, size + OVERHEAD, align), size, align);
    if CutSafe(s, segs, size, align) {
      var t, segs', n := AllocKeeps(s, segs, size, align);
    }
  }

  /** Every request that returns, from every heap that satisfies the invariant: alloc hands out a block that was not
      live, and some reading shows it beside all blocks that were, exactly when the expansions it needs meet an empty
      index or a hole at the end and the cut leaves no sliver. */
  lemma AllocExact(s: State, segs: seq<Seg>, size: nat, align: bool)
    requires Inv(s, segs) && NoWrap(s, size) && Alloc(s, size, align).Next?
    ensures var r := Alloc(s, size, align);
            && HEADER <= r.p
            && (Expandable(s, segs, size, align) && CutSafe(s, segs, size, align)
                <==> && r.p - HEADER !in Live(s.start, segs)
                     && exists segs' :: Inv(r.s, segs') && Shows(Live(s.start, segs'), Live(s.start, segs))
                                        && r.p - HEADER in Live(s.start, segs'))
  {
    hide Get32, Extents, Inv, Alloc, CutSafe, CarveSafe, Expandable;
    if Expandable(s, segs, size, align) {
      SafeExact(s, segs, size, align);
    } else {
      UnsafeBreaks(s, segs, size, align);
    }
  }

  /** A plain request is never handed a live block and always cut safely: only the expansion matters. */
  lemma PlainExact(s: State, segs: seq<Seg>, size: nat)
    requires Inv(s, segs) && NoWrap(s, size) && Alloc(s, size, false).Next?
    ensures var r := Alloc(s, size, false);
            && HEADER <= r.p
            && (Expandable(s, segs, size, false)
                <==> exists segs' :: Inv(r.s, segs') && Shows(Live(s.start, segs'), Live(s.start, segs))
                                     && r.p - HEADER in Live(s.start, segs'))
  {
    hide Get32, Extents, Inv, Alloc, Expandable;
    if Expandable(s, segs, size, false) {
      SafeExact(s, segs, size, false);
    } else {
      UnsafeBreaks(s, segs, size, false);
    }
  }
}
