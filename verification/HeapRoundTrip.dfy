/** alloc followed by free of the result gives the former tiling back, up to the size of a hole at the end. */
module HeapRoundTrip {
  import opened Memory
  import opened HeapLayout
  import opened HeapState
  import opened HeapText
  import opened HeapGrow
  import opened HeapCarve
  import opened HeapExpand
  import opened HeapAlloc
  import opened HeapFree
  import opened HeapStale
  import opened HeapFreeExact

  /** The position of the block among the pieces of hole k. */
  function BlockPosition(k: nat, front: nat): nat {
    if front > 0 then k + 1 else k
  }

  lemma CarvedPosition(segs: seq<Seg>, k: nat, front: nat, block: nat)
    requires k < |segs| && front + block <= segs[k].size
    ensures var all, j, rest := Carved(segs, k, front, block), BlockPosition(k, front), segs[k].size - front - block;
            && j < |all| && all[j] == Seg(block, false)
            && all[..j] == segs[..k] + Optional(front) && Total(all[..j]) == Total(segs[..k]) + front
            && all[j + 1..] == Optional(rest) + segs[k + 1..]
            && (front > 0 ==> all[j - 1] == Seg(front, true) && all[..j - 1] == segs[..k])
            && (front == 0 && k > 0 ==> all[j - 1] == segs[k - 1])
  {
    OptionalFacts(0, front);
    TotalAppend(segs[..k], Optional(front));
  }

  /** The tiling after the pieces are put together again. */
  function Rejoined(segs: seq<Seg>, k: nat): seq<Seg>
    requires k < |segs| && (k + 1 == |segs| ==> CanShrink(Total(segs[..k])))
  {
    if k + 1 < |segs| then segs else segs[..k] + [Seg(HEAP_MIN_SIZE - Total(segs[..k]), true)]
  }

  /** Behind the block of a cut hole the heap ends, or a rear hole reaches its end, exactly if the hole did. */
  lemma RearReaches(segs: seq<Seg>, k: nat, rest: nat)
    requires Separated(segs) && k < |segs| && segs[k].hole
    ensures Reaches(Optional(rest) + segs[k + 1..]) <==> k + 1 == |segs|
    ensures Optional(rest) + segs[k + 1..] == [] <==> rest == 0 && k + 1 == |segs|
  {
    var post := segs[k + 1..];
    var behind := Optional(rest) + post;
    assert post != [] ==> post[0] == segs[k + 1] && !segs[k + 1].hole;
    assert if rest > 0 then behind[0] == Seg(rest, true) && behind[1..] == post else behind == post;
  }

  lemma RearRejoined(segs: seq<Seg>, k: nat, n: nat, rest: nat)
    requires Separated(segs) && k < |segs| && segs[k].hole && n + rest == segs[k].size
    requires k + 1 == |segs| ==> CanShrink(Total(segs[..k]))
    ensures var behind := Optional(rest) + segs[k + 1..];
            (Reaches(behind) <==> k + 1 == |segs|) && Settled(segs[..k], n, behind) == Rejoined(segs, k)
  {
    hide Total;
    var pre, post := segs[..k], segs[k + 1..];
    var behind := Optional(rest) + post;
    RearReaches(segs, k, rest);
    assert post != [] ==> post[0] == segs[k + 1] && !segs[k + 1].hole;
    assert if rest > 0 then behind[0] == Seg(rest, true) && behind[1..] == post else behind == post;
    if post == [] {
      var last := [Seg(HEAP_MIN_SIZE - Total(pre), true)];
      assert pre + last + [] == pre + last;
    } else {
      assert segs == pre + [segs[k]] + post;
    }
  }

  /** Freeing the block of a cut hole fuses it with the front hole; what stood before the hole stands before both. */
  lemma CarvedAround(segs: seq<Seg>, k: nat, front: nat, block: nat)
    requires Separated(segs) && k < |segs| && segs[k].hole && front + block <= segs[k].size
    ensures var all, j := Carved(segs, k, front, block), BlockPosition(k, front);
            && j < |all| && Before(all, j) == segs[..k] && FusedSize(all, j) == front + block
            && (Reaches(all[j + 1..]) <==> k + 1 == |segs|)
            && (all[j + 1..] == [] <==> front + block == segs[k].size && k + 1 == |segs|)
  {
    hide Carved, Total, Reaches;
    CarvedPosition(segs, k, front, block);
    RearReaches(segs, k, segs[k].size - front - block);
  }

  /** Freeing the block of a cut hole fuses front hole, block and rear hole into the former hole. */
  lemma FreedCarved(segs: seq<Seg>, k: nat, front: nat, block: nat)
    requires Separated(segs) && k < |segs| && segs[k].hole && front + block <= segs[k].size
    requires k + 1 == |segs| ==> CanShrink(Total(segs[..k]))
    ensures var all, j := Carved(segs, k, front, block), BlockPosition(k, front);
            && j < |all| && (Reaches(all[j + 1..]) ==> CanShrink(Total(Before(all, j))))
            && Freed(all, j) == Rejoined(segs, k)
  {
    hide Carved, Total, Settled, Rejoined, Reaches;
    CarvedPosition(segs, k, front, block);
    CarvedAround(segs, k, front, block);
    RearRejoined(segs, k, front + block, segs[k].size - front - block);
  }

  /** The block just cut has no stale footer before it. It is safe to free unless it ends the heap, or the hole behind
      it does, and contraction cannot stop in front of it. */
  lemma FreshBlock(t: State, segs: seq<Seg>, k: nat, front: nat, block: nat)
    requires Separated(segs) && k < |segs| && segs[k].hole && front + block <= segs[k].size && OVERHEAD <= block
    requires Inv(t, Carved(segs, k, front, block))
    requires PiecesShown(t.mem, t.start + Total(segs[..k]), front, block, segs[k].size - front - block)
    ensures var all, j, h := Carved(segs, k, front, block), BlockPosition(k, front), t.start + Total(segs[..k]) + front;
            && BlockAt(t, all, j, h)
            && (FreeSafe(t, all, j, h) <==> (k + 1 == |segs| ==> CanShrink(Total(segs[..k]))))
            && (FreeHalts(t, all, j) <==> k + 1 == |segs| && front + block == segs[k].size && ForgedEnd(t))
  {
    hide Get32, Carved, Inv, HeaderAt, Total, ForgedEnd, Reaches;
    var all, j, h := Carved(segs, k, front, block), BlockPosition(k, front), t.start + Total(segs[..k]) + front;
    CarvedPosition(segs, k, front, block);
    CarvedAround(segs, k, front, block);
    if HoleBefore(all, j) {
      FooterBefore(t, all, j, h);
    }
  }

  /** Freeing the block just cut halts exactly if it ends the heap in front of a forged header; otherwise the hole
      comes back exactly if it lies inside the heap or contraction can stop in it. */
  lemma TwoStep(g: State, gsegs: seq<Seg>, t: State, k: nat, front: nat, block: nat)
    requires Inv(g, gsegs) && k < |gsegs| && gsegs[k].hole && front + block <= gsegs[k].size && OVERHEAD <= block
    requires Inv(t, Carved(gsegs, k, front, block)) && t == g.(mem := t.mem, index := t.index)
    requires PiecesShown(t.mem, t.start + Total(gsegs[..k]), front, block, gsegs[k].size - front - block)
    ensures var r, last := Free(t, t.start + Total(gsegs[..k]) + front + HEADER), k + 1 == |gsegs|;
            && (r.Halted? <==> last && front + block == gsegs[k].size && ForgedEnd(t))
            && (r.Next? ==> if last && !CanShrink(Total(gsegs[..k])) then Broken(r.s) else Inv(r.s, Rejoined(gsegs, k)))
  {
    hide Get32, Carved, Extents, Free, Holds, IndexLists, PagesMapped, PiecesShown, FreeSafe, FreeHalts, FreeFrame, Total,
      ForgedEnd, CanShrink, Rejoined;
    var all, j, h := Carved(gsegs, k, front, block), BlockPosition(k, front), t.start + Total(gsegs[..k]) + front;
    FreshBlock(t, gsegs, k, front, block);
    hide Inv;
    FreeExact(t, all, j, h);
    if FreeHalts(t, all, j) {
    } else if k + 1 < |gsegs| || CanShrink(Total(gsegs[..k])) {
      FreedCarved(gsegs, k, front, block);
      FreeKeeps(t, all, j, h);
    } else {
      FreeBreaks(t, all, j, h);
    }
  }

  /** alloc then free. A hole inside the heap comes back exactly. Of a hole at the end, widened or not, free halts
      exactly if the block took all of it up to the end and the bytes behind the end pose as a hole; otherwise it comes
      back cut to the minimum heap size if it starts early enough for that, and no reading is left if it does not. */
  lemma AllocFree(s: State, segs: seq<Seg>, size: nat, align: bool)
    returns (g: State, gsegs: seq<Seg>, k: nat, front: nat, block: nat)
    requires Inv(s, segs) && NoWrap(s, size) && Expandable(s, segs, size, align) && Alloc(s, size, align).Next?
    requires CutSafe(s, segs, size, align)
    ensures GrownTo(s, segs, g, gsegs) && k < |gsegs| && gsegs[k].hole && front + block <= gsegs[k].size
    ensures var a := Alloc(s, size, align);
            var f := Free(a.s, a.p);
            && Inv(a.s, Carved(gsegs, k, front, block))
            && (k + 1 < |gsegs| ==> g == s && f.Next? && Inv(f.s, segs))
            && (k + 1 == |gsegs| ==>
                  && gsegs[..k] == Stem(segs)
                  && (f.Halted? <==> front + block == gsegs[k].size && ForgedEnd(a.s))
                  && (f.Next? ==>
                        if CanShrink(Total(Stem(segs)))
                        then Inv(f.s, Stem(segs) + [Seg(HEAP_MIN_SIZE - Total(Stem(segs)), true)])
                        else Broken(f.s)))
  {
    hide Get32, Carved, Extents, Free, Alloc, CutSafe, PiecesShown, Grown, Fits, AnyFits, ForgedEnd;
    g, gsegs, k, front, block := AllocCuts(s, segs, size, align);
    var a := Alloc(s, size, align);
    if s.end < g.end {
      OnlyTailFits(s, segs, g, gsegs, size, align, k);
    } else if k + 1 == |gsegs| {
      assert gsegs[..k] == Stem(segs);
    }
    TwoStep(g, gsegs, a.s, k, front, block);
  }
}
