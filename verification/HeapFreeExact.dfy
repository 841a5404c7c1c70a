/** The main results about free. */
module HeapFreeExact {
  import opened Memory
  import opened HeapLayout
  import opened HeapState
  import opened HeapText
  import opened HeapFree
  import opened HeapStale
  import opened OrderedArrays

  /** The segments before the hole that freeing block k makes, and that hole's size before it meets its right. */
  function Before(segs: seq<Seg>, k: nat): seq<Seg>
    requires k < |segs|
  {
    if HoleBefore(segs, k) then segs[..k - 1] else segs[..k]
  }

  function FusedSize(segs: seq<Seg>, k: nat): nat
    requires k < |segs|
  {
    if HoleBefore(segs, k) then segs[k - 1].size + segs[k].size else segs[k].size
  }

  /** The segments after block k is freed. */
  function Freed(segs: seq<Seg>, k: nat): seq<Seg>
    requires k < |segs| && (Reaches(segs[k + 1..]) ==> CanShrink(Total(Before(segs, k))))
  {
    Settled(Before(segs, k), FusedSize(segs, k), segs[k + 1..])
  }

  /** The bytes past the end look like the header of a hole, and the block stands right before them: the right
      merge takes them for one and its search of the index fails. */
  predicate FreeHalts(s: State, segs: seq<Seg>, k: nat)
    requires k < |segs|
  {
    segs[k + 1..] == [] && ForgedEnd(s)
  }

  /** The condition under which free keeps the invariant. A hole with a stale footer before the block is
      tolerable only where contraction happens to cut the heap at the block; otherwise, if the freed hole ends
      the heap, it must start early enough for contraction to leave it inside. */
  ghost predicate FreeSafe(s: State, segs: seq<Seg>, k: nat, h: nat)
    requires k < |segs|
  {
    if StaleBefore(s, segs, k, h) then Reaches(segs[k + 1..]) && h == s.start + HEAP_MIN_SIZE
    else Reaches(segs[k + 1..]) ==> CanShrink(Total(Before(segs, k)))
  }

  lemma SafeShrinks(s: State, segs: seq<Seg>, k: nat, h: nat)
    requires BlockAt(s, segs, k, h) && FreeSafe(s, segs, k, h)
    ensures Reaches(segs[k + 1..]) ==> CanShrink(Total(Before(segs, k)))
    ensures StaleBefore(s, segs, k, h) ==> Freed(segs, k) == segs[..k]
  {
    hide Get32, Extents;
    if StaleBefore(s, segs, k, h) {
      StaleShape(s, segs, k, h);
      var pre, n0 := segs[..k - 1], segs[k - 1].size;
      assert HEAP_MIN_SIZE - Total(pre) == n0;
      assert segs[..k] == pre + [Seg(n0, true)] + [];
      hide Total;
    }
  }

  /** free of a null pointer does nothing, and free of anything whose header or footer does not hold the magic number
      fails an ASSERT. */
  lemma FreeRefuses(s: State, p: nat)
    requires |s.mem| == WORD_LIMIT
    ensures Free(s, 0) == Next(s, 0)
    ensures HEADER <= p < WORD_LIMIT - 4 && Get32(s.mem, p - HEADER) != 0x1238_90AB ==> Free(s, p) == Halted
    ensures HEADER <= p < WORD_LIMIT - 4 ==>
      var end := p - HEADER + Get32(s.mem, p - 4);
      FOOTER <= end <= WORD_LIMIT && Get32(s.mem, end - FOOTER) != 0x1238_90AB ==> Free(s, p) == Halted
  {
    hide Get32, Conclude, MergeLeft;
  }

  /** free of a live block comes down to its steps after the left merge. */
  lemma FreeOfBlock(s: State, segs: seq<Seg>, k: nat, h: nat)
    requires BlockAt(s, segs, k, h)
    ensures OVERHEAD <= segs[k].size
    ensures Free(s, h + HEADER) == Conclude(Marked(s, h, segs[k].size), h + segs[k].size)
  {
    hide Get32, Conclude, MergeLeft;
    SegFacts(s, segs, k);
  }

  /** Before the block stands no hole, a hole with its own footer, or one with a stale footer. */
  lemma FooterBefore(s: State, segs: seq<Seg>, k: nat, h: nat)
    requires BlockAt(s, segs, k, h) && HoleBefore(segs, k)
    ensures segs[k - 1].size <= h
    ensures StaleBefore(s, segs, k, h) <==> !FooterAt(s.mem, h, h - segs[k - 1].size)
  {
    hide Get32;
    SeenBefore(s, segs, k);
    SegFacts(s, segs, k);
  }

  /** Mark and left merge, with no stale footer in the way. */
  lemma SoundStart(s: State, segs: seq<Seg>, k: nat, h: nat) returns (c: Cursor)
    requires BlockAt(s, segs, k, h) && !StaleBefore(s, segs, k, h) && OVERHEAD <= segs[k].size
    ensures c == Marked(s, h, segs[k].size) && Mid(c, Before(segs, k), FusedSize(segs, k), segs[k + 1..])
    ensures c.At? && c.s == s.(mem := c.s.mem) && c.add == !HoleBefore(segs, k)
    ensures c.header == s.start + Total(Before(segs, k)) && c.header + FusedSize(segs, k) == h + segs[k].size
    ensures SameOutside(s.mem, c.s.mem, c.header, h + segs[k].size) && h + segs[k].size <= s.end
    ensures FooterAt(c.s.mem, h + segs[k].size, c.header)
  {
    hide Get32, Extents, Marked, U32, Store8, Store32, MergeLeft;
    MarkBlock(s, segs, k, h);
    if HoleBefore(segs, k) {
      FooterBefore(s, segs, k, h);
      SeenBefore(s, segs, k);
      hide Inv, Holds;
      MarkedLeft(s, h, segs[k - 1].size, segs[k].size);
      c := Marked(s, h, segs[k].size);
      MarkedLeftMid(s, segs, k, h, c.s.mem);
    } else {
      hide Inv, Holds;
      MarkedAlone(s, segs, k, h);
      MarkedAloneMid(s, segs, k, h);
      c := Marked(s, h, segs[k].size);
    }
  }

  /** What free leaves alone: everything but memory within the fused range, the index, and, if the heap is
      contracted, the end and the pages given back above it. */
  ghost predicate FreeFrame(s: State, segs: seq<Seg>, k: nat, t: State)
    requires k < |segs| && s.start <= s.end
  {
    && t.start == s.start && t.max == s.max
    && SameOutside(s.mem, t.mem, s.start + Total(Before(segs, k)),
                   s.start + Total(Before(segs, k)) + Reach(FusedSize(segs, k), segs[k + 1..]))
    && (if Reaches(segs[k + 1..])
        then t.end == s.start + HEAP_MIN_SIZE
             && t.mapped == s.mapped - GivenBack(s.start, s.end - s.start, HEAP_MIN_SIZE)
        else t.end == s.end && t.mapped == s.mapped)
  }

  /** free with no stale footer in the way, up to the last cursor. */
  lemma SoundSteps(s: State, segs: seq<Seg>, k: nat, h: nat) returns (d: Cursor)
    requires BlockAt(s, segs, k, h) && !FreeHalts(s, segs, k) && FreeSafe(s, segs, k, h) && !StaleBefore(s, segs, k, h)
    ensures d.At? && d.add == !HoleBefore(segs, k) && d.header == s.start + Total(Before(segs, k))
    ensures Free(s, h + HEADER) == Next(Enter(d), 0)
    ensures Reaches(segs[k + 1..]) ==> CanShrink(Total(Before(segs, k)))
    ensures Inv(Enter(d), Freed(segs, k)) && FreeFrame(s, segs, k, d.s)
    ensures d.s.index == Dropped(s.index, h + segs[k].size, segs[k + 1..])
    ensures HoleAfter(segs, k) && k + 2 < |segs| ==>
      StaleFooter(d.s.mem, d.header, FusedSize(segs, k) + segs[k + 1].size)
    ensures k + 1 < |segs| && !segs[k + 1].hole ==> FooterAt(d.s.mem, h + segs[k].size, d.header)
    ensures OVERHEAD <= segs[k].size && Marked(s, h, segs[k].size).At?
    ensures Reaches(segs[k + 1..]) ==>
      SameWithin(Marked(s, h, segs[k].size).s.mem, d.s.mem, s.start + HEAP_MIN_SIZE, |s.mem|)
  {
    hide Get32, Extents, U32, Free, Marked, Conclude, Enter, Dropped, IndexLists, Holds, Separated, Total, PagesMapped, GivenBack;
    FreeOfBlock(s, segs, k, h);
    var pre, n, post := Before(segs, k), FusedSize(segs, k), segs[k + 1..];
    var c := SoundStart(s, segs, k, h);
    ForgedKept(s, c.s.mem, c.header, h + segs[k].size);
    if Reaches(post) {
      d := ConcludeAtEnd(c, pre, n, post, h + segs[k].size);
    } else {
      d := ConcludeInside(c, pre, n, post, h + segs[k].size);
    }
  }

  lemma StaleBounds(s: State, segs: seq<Seg>, k: nat, h: nat)
    requires StaleBefore(s, segs, k, h) && Reaches(segs[k + 1..])
    ensures var a := s.start + Total(Before(segs, k));
            segs[k - 1].size <= h && a == h - segs[k - 1].size
            && a + Reach(FusedSize(segs, k), segs[k + 1..]) == s.end
  {
    hide Get32, Extents;
    StaleShape(s, segs, k, h);
    if segs[k + 1..] != [] {
      assert segs[k + 1..][1..] == [];
    }
  }

  /** free keeps the invariant. */
  lemma FreeKeeps(s: State, segs: seq<Seg>, k: nat, h: nat)
    requires BlockAt(s, segs, k, h) && !FreeHalts(s, segs, k) && FreeSafe(s, segs, k, h)
    ensures Reaches(segs[k + 1..]) ==> CanShrink(Total(Before(segs, k)))
    ensures var r := Free(s, h + HEADER); r.Next? && Inv(r.s, Freed(segs, k)) && FreeFrame(s, segs, k, r.s)
  {
    hide Get32, Extents, U32, Free, Marked, Conclude, IndexLists, Holds, Separated, Total, PagesMapped, GivenBack;
    SafeShrinks(s, segs, k, h);
    if StaleBefore(s, segs, k, h) {
      FreeOfBlock(s, segs, k, h);
      StaleBounds(s, segs, k, h);
      var u := StaleLucky(s, segs, k, h);
    } else {
      var d := SoundSteps(s, segs, k, h);
    }
  }

  /** free drops the swallowed hole from the index. Without a left merge it inserts the freed one by size; with one the
      entry of the hole before stays where it is, whatever the hole's new size. */
  lemma FreeIndex(s: State, segs: seq<Seg>, k: nat, h: nat)
    requires BlockAt(s, segs, k, h) && !FreeHalts(s, segs, k) && FreeSafe(s, segs, k, h) && !StaleBefore(s, segs, k, h)
    ensures var r, dropped := Free(s, h + HEADER), Dropped(s.index, h + segs[k].size, segs[k + 1..]);
            r.Next? && r.s.index == if HoleBefore(segs, k) then dropped else InsertBefore<nat>(dropped, h, SizeLess(r.s.mem))
  {
    hide Get32, Extents, U32, Free, Marked, Conclude, Dropped, Inv, Total;
    var d := SoundSteps(s, segs, k, h);
  }

  /** Swallowing a hole on the right, away from the end, leaves a stale footer. */
  lemma FreeLeavesStale(s: State, segs: seq<Seg>, k: nat, h: nat)
    requires BlockAt(s, segs, k, h) && !FreeHalts(s, segs, k) && FreeSafe(s, segs, k, h) && !StaleBefore(s, segs, k, h)
    requires HoleAfter(segs, k) && k + 2 < |segs|
    ensures var r := Free(s, h + HEADER);
            r.Next? && StaleFooter(r.s.mem, s.start + Total(Before(segs, k)), FusedSize(segs, k) + segs[k + 1].size)
  {
    hide Get32, Extents, U32, Free, Marked, Conclude, Dropped, Inv, Total, StaleFooter;
    var d := SoundSteps(s, segs, k, h);
  }

  /** A free that swallows nothing on the right leaves the hole a footer of its own. */
  lemma FreeLeavesFooter(s: State, segs: seq<Seg>, k: nat, h: nat)
    requires BlockAt(s, segs, k, h) && !FreeHalts(s, segs, k) && FreeSafe(s, segs, k, h) && !StaleBefore(s, segs, k, h)
    requires k + 1 < |segs| && !segs[k + 1].hole
    ensures var r := Free(s, h + HEADER);
            r.Next? && FooterAt(r.s.mem, h + segs[k].size, s.start + Total(Before(segs, k)))
  {
    hide Get32, Extents, U32, Free, Marked, Conclude, Dropped, Inv, Total, FooterAt;
    var d := SoundSteps(s, segs, k, h);
  }

  /** The mark and the left merge leave the block's own header standing, marked as a hole. */
  lemma MarkedHeadStands(s: State, segs: seq<Seg>, k: nat, h: nat)
    requires BlockAt(s, segs, k, h) && HoleBefore(segs, k) && !StaleBefore(s, segs, k, h) && OVERHEAD <= segs[k].size
    ensures var c := Marked(s, h, segs[k].size);
            c.At? && |c.s.mem| == WORD_LIMIT && h + HEADER < WORD_LIMIT
            && Load32(c.s.mem, h) == HEAP_MAGIC && Load8(c.s.mem, h + 4) == 1
  {
    hide Get32, Extents, Marked, U32, MergeLeft, Holds, IndexLists, Separated, PagesMapped;
    MarkBlock(s, segs, k, h);
    FooterBefore(s, segs, k, h);
    SeenBefore(s, segs, k);
    var n0, n := segs[k - 1].size, segs[k].size;
    MarkedLeft(s, h, n0, n);
    var m := Store8(s.mem, h + 4, 1);
    var m1 := Store32(m, h + n - 4, h - n0);
    WordKept(m, m1, h);
    WordKept(m1, Marked(s, h, n).s.mem, h);
  }

  lemma HeadStands(m: seq<Byte>, m': seq<Byte>, h: nat)
    requires |m| == WORD_LIMIT && h + HEADER < WORD_LIMIT && SameWithin(m, m', h, |m|)
    ensures Load32(m', h) == Load32(m, h) && Load8(m', h + 4) == Load8(m, h + 4)
  {
    hide Get32;
    WordKept(m, m', h);
  }

  /** Freeing a block behind a hole, so that contraction ends the heap at that very block, leaves its header behind
      the end, marked as a hole. */
  lemma FreeForgesEnd(s: State, segs: seq<Seg>, k: nat, h: nat)
    requires BlockAt(s, segs, k, h) && !FreeHalts(s, segs, k) && FreeSafe(s, segs, k, h) && !StaleBefore(s, segs, k, h)
    requires HoleBefore(segs, k) && Reaches(segs[k + 1..]) && h == s.start + HEAP_MIN_SIZE
    ensures var r := Free(s, h + HEADER); r.Next? && ForgedEnd(r.s)
  {
    hide Get32, Extents, U32, Free, Marked, Conclude, Dropped, Inv, Total, GivenBack;
    var d := SoundSteps(s, segs, k, h);
    MarkedHeadStands(s, segs, k, h);
    HeadStands(Marked(s, h, segs[k].size).s.mem, d.s.mem, h);
  }

  /** Otherwise no reading of what free leaves behind satisfies the invariant. */
  lemma FreeBreaks(s: State, segs: seq<Seg>, k: nat, h: nat)
    requires BlockAt(s, segs, k, h) && !FreeHalts(s, segs, k) && !FreeSafe(s, segs, k, h)
    ensures var r := Free(s, h + HEADER); r.Next? && Broken(r.s)
  {
    hide Get32, Extents, U32, Free, Marked, Conclude, IndexLists, Holds, Separated, Total, PagesMapped;
    FreeOfBlock(s, segs, k, h);
    if StaleBefore(s, segs, k, h) {
      StaleBreaks(s, segs, k, h);
    } else {
      var c := SoundStart(s, segs, k, h);
      ForgedKept(s, c.s.mem, c.header, h + segs[k].size);
      ConcludeBeyond(c, Before(segs, k), FusedSize(segs, k), segs[k + 1..], h + segs[k].size);
    }
  }

  lemma StaleStops(s: State, segs: seq<Seg>, k: nat, h: nat)
    requires StaleBefore(s, segs, k, h) && FreeHalts(s, segs, k) && OVERHEAD <= segs[k].size
    ensures Conclude(Marked(s, h, segs[k].size), h + segs[k].size) == Halted
  {
    hide Get32, Extents, U32, Marked, Holds, IndexLists, Separated, PagesMapped, StaleFooter, HeaderAt, SegOk;
    StaleShape(s, segs, k, h);
    var c, t := StaleAstray(s, segs, k, h);
    ForgedKept(s, c.s.mem, t, h + segs[k].size);
    EndNotListed(s, segs, s.end);
  }

  /** The ASSERT in the right merge fails for a block at the end in front of a header of the past. */
  lemma FreeStops(s: State, segs: seq<Seg>, k: nat, h: nat)
    requires BlockAt(s, segs, k, h) && FreeHalts(s, segs, k)
    ensures Free(s, h + HEADER) == Halted
  {
    hide Get32, Extents, U32, Free, Marked, IndexLists, Holds, Separated, Total, PagesMapped;
    FreeOfBlock(s, segs, k, h);
    if StaleBefore(s, segs, k, h) {
      StaleStops(s, segs, k, h);
    } else {
      var c := SoundStart(s, segs, k, h);
      ForgedKept(s, c.s.mem, c.header, h + segs[k].size);
      assert segs[k + 1..] == [];
      MergeRightAtEnd(c, Before(segs, k), FusedSize(segs, k));
    }
  }

  /** free of a live block halts exactly on a forged end, and if it does not halt it keeps the invariant exactly
      when it is safe. */
  lemma FreeExact(s: State, segs: seq<Seg>, k: nat, h: nat)
    requires BlockAt(s, segs, k, h)
    ensures Free(s, h + HEADER).Halted? <==> FreeHalts(s, segs, k)
    ensures var r := Free(s, h + HEADER);
            r.Next? ==> (FreeSafe(s, segs, k, h) <==> exists segs' :: Inv(r.s, segs'))
  {
    hide Get32, Free, Inv, FreeSafe, FreeHalts;
    if FreeHalts(s, segs, k) {
      FreeStops(s, segs, k, h);
    } else if FreeSafe(s, segs, k, h) {
      FreeKeeps(s, segs, k, h);
    } else {
      FreeBreaks(s, segs, k, h);
    }
  }

  /** The same condition for halting, byte by byte: a block that ends the heap, behind it the magic number and a byte
      other than 0 where a header has its flag. */
  lemma FreeHaltsAt(s: State, segs: seq<Seg>, k: nat, h: nat)
    requires BlockAt(s, segs, k, h)
    ensures s.end + 8 <= |s.mem|
    ensures Free(s, h + HEADER).Halted?
            <==> k + 1 == |segs| && Get32(s.mem, s.end) == 0x1238_90AB && s.mem[s.end + 4] != 0
  {
    hide Get32, Free, FreeSafe;
    FreeExact(s, segs, k, h);
  }

  lemma LiveHead(h: nat, segs: seq<Seg>)
    requires segs != [] && !segs[0].hole && h !in Live(h + segs[0].size, segs[1..])
    ensures Live(h, segs) == map[h := segs[0].size] + Live(h + segs[0].size, segs[1..])
  {
  }

  /** The live blocks other than the one at position k. */
  lemma LiveWithout(at: nat, segs: seq<Seg>, k: nat)
    requires Roomy(segs) && k < |segs| && !segs[k].hole
    ensures var h := at + Total(segs[..k]);
            Live(at, segs) - {h} == Live(at, segs[..k]) + Live(h + segs[k].size, segs[k + 1..])
  {
    hide Extents;
    var h := at + Total(segs[..k]);
    var tail := [segs[k]] + segs[k + 1..];
    assert segs == segs[..k] + tail && tail[1..] == segs[k + 1..];
    ExtentsAppend(at, segs[..k], tail, false);
    ExtentsInRange(at, segs[..k], false);
    ExtentsInRange(h + segs[k].size, segs[k + 1..], false);
    LiveHead(h, tail);
    assert h !in Live(at, segs[..k]) && h !in Live(h + segs[k].size, segs[k + 1..]);
  }

  /** A hole before the block adds no live block. */
  lemma LiveBefore(at: nat, segs: seq<Seg>, k: nat)
    requires k < |segs|
    ensures Live(at, segs[..k]) == Live(at, Before(segs, k))
    ensures Total(Before(segs, k)) + FusedSize(segs, k) == Total(segs[..k]) + segs[k].size
  {
    if HoleBefore(segs, k) {
      assert segs[..k] == segs[..k - 1] + [segs[k - 1]];
      ExtentsAppend(at, segs[..k - 1], [segs[k - 1]], false);
      TotalAppend(segs[..k - 1], [segs[k - 1]]);
      OneSeg(at + Total(segs[..k - 1]), segs[k - 1], false);
    }
  }

  lemma LiveSettled(at: nat, pre: seq<Seg>, n: nat, post: seq<Seg>)
    requires Reaches(post) ==> CanShrink(Total(pre))
    ensures Live(at, Settled(pre, n, post)) == Live(at, pre) + Live(at + Total(pre) + n, post)
  {
    var m := if Reaches(post) then HEAP_MIN_SIZE - Total(pre) else Reach(n, post);
    var rest := if post != [] && post[0].hole then post[1..] else post;
    var a := at + Total(pre);
    if Reaches(post) {
      assert rest == [];
      assert Live(a + n, post) == Live(a + Reach(n, post), rest);
    }
    assert Live(a + n, post) == Live(a + m, rest);
    assert Settled(pre, n, post) == pre + ([Seg(m, true)] + rest);
    assert ([Seg(m, true)] + rest)[1..] == rest;
    ExtentsAppend(at, pre, [Seg(m, true)] + rest, false);
  }

  /** free removes its block from the live blocks and touches no other. */
  lemma FreeLive(s: State, segs: seq<Seg>, k: nat, h: nat)
    requires BlockAt(s, segs, k, h) && (Reaches(segs[k + 1..]) ==> CanShrink(Total(Before(segs, k))))
    ensures Live(s.start, Freed(segs, k)) == Live(s.start, segs) - {h}
  {
    hide Get32, Holds;
    var pre, n, post := Before(segs, k), FusedSize(segs, k), segs[k + 1..];
    SegFacts(s, segs, k);
    LiveWithout(s.start, segs, k);
    LiveBefore(s.start, segs, k);
    LiveSettled(s.start, pre, n, post);
  }
}
