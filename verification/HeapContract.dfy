/** Where contraction ends the heap, whether or not that leaves a sound one. */
module HeapContract {
  import opened Memory
  import opened HeapLayout
  import opened HeapState
  import opened HeapText
  import opened HeapFree
  import opened HeapStale
  import opened HeapFreeExact
  import opened OrderedArrays

  /** contract takes a size over as it is exactly from the minimum size on and with bit 12 clear, page boundary or not;
      any other gives the minimum size. */
  lemma ContractedSize(n: nat)
    ensures ContractSize(n) == if n >= 0x7_0000 && n % 0x2000 < 0x1000 then n else 0x7_0000
  {
    assert n / PAGE_SIZE % 2 == n % 0x2000 / PAGE_SIZE;
  }

  /** The pages given back are those strictly between the new end and the old. */
  lemma PagesGivenBack(start: nat, end: nat, size: nat, a: nat)
    requires start % PAGE_SIZE == 0 && end % PAGE_SIZE == 0 && start + size <= end < WORD_LIMIT
    ensures a in GivenBack(start, end - start, size) <==> start + size < a < end && a % PAGE_SIZE == 0
  {
    if start + size < a < end && a % PAGE_SIZE == 0 {
      assert PageAddress(start, a - start) == a;
    }
  }

  /** The end of a heap that starts at `start`, after contraction to a hole that starts at `a`. */
  ghost predicate EndsAt(start: nat, a: nat, end: nat) {
    var offset := a - start;
    end == start + if offset >= 0x7_0000 && offset % 0x2000 < 0x1000 then offset else 0x7_0000
  }

  /** The pages left mapped when the end moves down. */
  ghost predicate PagesLeft(mapped: set<nat>, mapped': set<nat>, end: nat, end': nat) {
    forall x: nat :: x in mapped' <==> x in mapped && !(end' < x < end && x % PAGE_SIZE == 0)
  }

  /** contract halts exactly on a size that is not below the heap's; otherwise memory and index stay, and it answers the
      size it settles on. */
  lemma ContractExact(s: State, n: nat)
    requires Bounds(s) && n < WORD_LIMIT
    ensures var r := Contract(s, n);
            && (r.Halted? <==> n >= s.end - s.start)
            && (r.Next? ==>
                  && EndsAt(s.start, s.start + n, r.s.end) && r.p == r.s.end - s.start
                  && r.s == s.(end := r.s.end, mapped := r.s.mapped) && PagesLeft(s.mapped, r.s.mapped, s.end, r.s.end))
  {
    hide Get32, PagesMapped, GivenBack, ContractSize;
    ContractedSize(n);
    var r := Contract(s, n);
    if r.Next? {
      forall x: nat
        ensures x in r.s.mapped <==> x in s.mapped && !(r.s.end < x < s.end && x % PAGE_SIZE == 0)
      {
        PagesGivenBack(s.start, s.end, r.p, x);
      }
    }
  }

  /** The header and the footer that contraction leaves. Nothing is written when the hole starts at the new end; when
      the hole does not reach as far as its header and footer take, the footer goes over the header; and when the new
      end lies before the hole, the footer goes there and the size is negative, that is, reduced to 32 bits. */
  ghost predicate HoleResized(m: seq<Byte>, m': seq<Byte>, a: nat, end: nat)
    requires a + HEADER <= |m| == |m'| && FOOTER <= end <= |m|
  {
    && (end == a ==> m' == m)
    && (end != a ==>
          && FooterAt(m', end, a)
          && (!(a < end < a + OVERHEAD) ==> Get32(m', a + 8) == U32(end - a))
          && forall x {:trigger m'[x]} ::
               0 <= x < |m'| && !(a + 8 <= x < a + 12) && !(end - FOOTER <= x < end) ==> m'[x] == m[x])
  }

  lemma ResizedRecord(m: seq<Byte>, a: nat, end: nat)
    requires |m| == WORD_LIMIT && PAGE_SIZE <= a && a + HEADER <= |m| && FOOTER <= end <= |m| && end != a
    ensures HoleResized(m, PutFooter(Store32(m, a + 8, U32(end - a)), end, a), a, end)
  {
    hide Get32, U32;
    var m1 := Store32(m, a + 8, U32(end - a));
    var m2 := PutFooter(m1, end, a);
    assert U32(U32(end - a)) == U32(end - a) && U32(a) == a;
    if !(a < end < a + OVERHEAD) {
      WordKept(m1, m2, a + 8);
    }
  }

  lemma ShrinkMoves(c: Cursor, n: nat, right: nat, r: nat)
    requires c.At? && |c.s.mem| == WORD_LIMIT && PAGE_SIZE <= c.s.start <= c.header && OVERHEAD <= n
    requires c.footer + FOOTER == c.header + n == c.s.end <= ADDRESS_LIMIT && c.s.start + HEAP_MIN_SIZE <= c.s.end
    requires SizeAt(c.s.mem, c.header) == n && right !in c.s.index && r == ContractSize(c.header - c.s.start)
    ensures r <= c.s.end - c.s.start
    ensures var end := c.s.start + r;
            var v := c.s.(end := end, mapped := c.s.mapped - GivenBack(c.s.start, c.s.end - c.s.start, r));
            var m := Store32(c.s.mem, c.header + 8, U32(end - c.header));
            Shrink(c, right) == if end == c.header then c.(s := v)
                                else c.(s := v.(mem := PutFooter(m, end, c.header)), footer := end - FOOTER)
  {
    hide Get32, U32, Shrink, PutFooter, Store32, GivenBack, ContractSize;
    ContractedSize(c.header - c.s.start);
    var end := c.s.start + r;
    var v := c.s.(end := end, mapped := c.s.mapped - GivenBack(c.s.start, c.s.end - c.s.start, r));
    assert Contract(c.s, U32(c.header - c.s.start)) == Next(v, r);
    hide Contract;
    var size := U32(end - c.header);
    ShrinkTo(c, right, v, r, size);
    if end != c.header {
      assert SizeAt(Store32(c.s.mem, c.header + 8, size), c.header) == size && U32(c.header + size) == end;
    }
  }

  lemma Unresized(m: seq<Byte>, a: nat)
    requires a + HEADER <= |m| && FOOTER <= a
    ensures HoleResized(m, m, a, a)
  {
  }

  /** Contraction from any header below the end. */
  lemma ShrinkResult(c: Cursor, n: nat, right: nat) returns (d: Cursor)
    requires c.At? && Bounds(c.s) && c.s.start <= c.header && OVERHEAD <= n
    requires c.footer + FOOTER == c.header + n == c.s.end
    requires SizeAt(c.s.mem, c.header) == n && right !in c.s.index
    ensures d == Shrink(c, right) && d.At? && d.header == c.header && d.add == c.add
    ensures d.s == c.s.(mem := d.s.mem, end := d.s.end, mapped := d.s.mapped)
    ensures EndsAt(c.s.start, c.header, d.s.end) && d.s.end <= c.s.end
    ensures PagesLeft(c.s.mapped, d.s.mapped, c.s.end, d.s.end)
    ensures |d.s.mem| == WORD_LIMIT && HoleResized(c.s.mem, d.s.mem, c.header, d.s.end)
  {
    hide Get32, U32, Shrink, PutFooter, Store32, GivenBack, ContractSize, SizeAt, PagesMapped, HoleResized;
    var r := ContractSize(c.header - c.s.start);
    ContractedSize(c.header - c.s.start);
    ShrinkMoves(c, n, right, r);
    d := Shrink(c, right);
    forall x: nat
      ensures x in d.s.mapped <==> x in c.s.mapped && !(d.s.end < x < c.s.end && x % PAGE_SIZE == 0)
    {
      PagesGivenBack(c.s.start, c.s.end, r, x);
    }
    if d.s.end == c.header {
      Unresized(c.s.mem, c.header);
    } else {
      ResizedRecord(c.s.mem, c.header, d.s.end);
    }
  }

  lemma MidSize(c: Cursor, pre: seq<Seg>, n: nat)
    requires Mid(c, pre, n, [])
    ensures Bounds(c.s) && OVERHEAD <= n && SizeAt(c.s.mem, c.header) == n && c.footer + FOOTER == c.header + n == c.s.end
    ensures c.s.start <= c.header
  {
    hide Get32, Holds, IndexLists, PagesMapped;
  }

  /** The space that free has fused when it comes to contraction: one hole up to the end. */
  ghost predicate Fused(s: State, e: Cursor, n: nat) {
    && e.At? && Bounds(e.s) && e.s.start <= e.header && OVERHEAD <= n
    && e.footer + FOOTER == e.header + n == e.s.end && SizeAt(e.s.mem, e.header) == n
    && e.s == s.(mem := e.s.mem, index := e.s.index) && SameOutside(s.mem, e.s.mem, e.header, s.end)
  }

  lemma SoundFused(s: State, segs: seq<Seg>, k: nat, h: nat) returns (e: Cursor, n: nat)
    requires BlockAt(s, segs, k, h) && !FreeHalts(s, segs, k) && Reaches(segs[k + 1..]) && !StaleBefore(s, segs, k, h)
    requires OVERHEAD <= segs[k].size
    ensures e == MergeRight(Marked(s, h, segs[k].size)) && e.At? && Fused(s, e, n) && Marked(s, h, segs[k].size).At?
    ensures e.header == s.start + Total(Before(segs, k)) && e.add == !HoleBefore(segs, k)
    ensures e.s.index == Dropped(s.index, h + segs[k].size, segs[k + 1..]) && h + segs[k].size !in e.s.index
  {
    hide Get32, Extents, U32, Marked, MergeRight, Holds, IndexLists, PagesMapped, Dropped, SizeAt, StaleBefore, Inv,
      Separated;
    var post := segs[k + 1..];
    var c := SoundStart(s, segs, k, h);
    ForgedKept(s, c.s.mem, c.header, h + segs[k].size);
    e := FuseAtEnd(c, Before(segs, k), FusedSize(segs, k), post);
    n := Reach(FusedSize(segs, k), post);
    MidSize(e, Before(segs, k), n);
    NotListed(e, Before(segs, k), n, h + segs[k].size);
  }

  lemma StaleFused(s: State, segs: seq<Seg>, k: nat, h: nat) returns (e: Cursor, n: nat)
    requires BlockAt(s, segs, k, h) && !FreeHalts(s, segs, k) && Reaches(segs[k + 1..]) && StaleBefore(s, segs, k, h)
    requires OVERHEAD <= segs[k].size
    ensures e == MergeRight(Marked(s, h, segs[k].size)) && e.At? && Fused(s, e, n) && Marked(s, h, segs[k].size).At?
    ensures 4 <= h <= |s.mem| && e.header == Get32(s.mem, h - 4) && !e.add && h + segs[k].size !in e.s.index
    ensures forall x: nat :: x != h + segs[k].size ==> multiset(e.s.index)[x] == multiset(s.index)[x]
  {
    hide Get32, Extents, U32, Marked, MergeRight, Holds, IndexLists, PagesMapped, SizeAt, Separated, HeaderAt;
    StaleShape(s, segs, k, h);
    var c, t := StaleAstray(s, segs, k, h);
    assert t == Get32(s.mem, h - 4) by {
      var c', t' := StaleMarked(s, segs, k, h);
    }
    e := AstrayRight(s, segs, k, h, c, t);
    n := s.end - t;
    assert Bounds(e.s) by {
      WordKept(s.mem, e.s.mem, s.start - 8);
    }
  }

  /** What a free that contracts leaves, safe or not: the end, the pages, and header and footer of the hole; `m` is
      memory before contraction. */
  ghost predicate Contracted(s: State, m: seq<Byte>, a: nat, t: State) {
    && t.start == s.start && t.max == s.max
    && EndsAt(s.start, a, t.end) && PagesLeft(s.mapped, t.mapped, s.end, t.end)
    && |m| == |t.mem| == |s.mem| == WORD_LIMIT && SameOutside(s.mem, m, a, s.end)
    && s.start <= a && a + OVERHEAD <= s.end <= ADDRESS_LIMIT && FOOTER <= t.end <= s.end
    && Get32(m, a + 8) == s.end - a && HoleResized(m, t.mem, a, t.end)
  }

  lemma FusedConcludes(s: State, c: Cursor, e: Cursor, n: nat, right: nat) returns (t: State)
    requires c.At? && e == MergeRight(c) && Fused(s, e, n) && right !in e.s.index
    ensures Conclude(c, right) == Next(t, 0) && Contracted(s, e.s.mem, e.header, t)
    ensures t.index == if e.add then InsertBefore<nat>(e.s.index, e.header, SizeLess(t.mem)) else e.s.index
  {
    hide Get32, MergeRight, Shrink, PagesMapped, HoleResized, PagesLeft, InsertBefore;
    var d := ShrinkResult(e, n, right);
    t := Enter(d);
  }

  /** The end after every free that contracts, when no stale footer misleads the left merge: where the fused hole
      starts if that is from the minimum size on and bit 12 of its offset is clear, and the minimum size otherwise. */
  lemma FreeContracts(s: State, segs: seq<Seg>, k: nat, h: nat) returns (t: State, m: seq<Byte>)
    requires BlockAt(s, segs, k, h) && !FreeHalts(s, segs, k) && Reaches(segs[k + 1..]) && !StaleBefore(s, segs, k, h)
    ensures var a, dropped := s.start + Total(Before(segs, k)), Dropped(s.index, h + segs[k].size, segs[k + 1..]);
            && Free(s, h + HEADER) == Next(t, 0) && Contracted(s, m, a, t)
            && t.index == if HoleBefore(segs, k) then dropped else InsertBefore<nat>(dropped, h, SizeLess(t.mem))
  {
    hide Get32, Extents, U32, Free, Marked, MergeRight, Conclude, Inv, Fused, Contracted, Dropped, InsertBefore;
    FreeOfBlock(s, segs, k, h);
    var e, n := SoundFused(s, segs, k, h);
    m := e.s.mem;
    t := FusedConcludes(s, Marked(s, h, segs[k].size), e, n, h + segs[k].size);
  }

  /** With a stale footer the offset is that of the old header it names. */
  lemma StaleContracts(s: State, segs: seq<Seg>, k: nat, h: nat) returns (t: State, m: seq<Byte>)
    requires StaleBefore(s, segs, k, h) && !FreeHalts(s, segs, k) && Reaches(segs[k + 1..])
    ensures 4 <= h <= |s.mem| && Free(s, h + HEADER) == Next(t, 0) && Contracted(s, m, Get32(s.mem, h - 4), t)
    ensures h + segs[k].size !in t.index
    ensures forall x: nat :: x != h + segs[k].size ==> multiset(t.index)[x] == multiset(s.index)[x]
  {
    hide Get32, Extents, U32, Free, Marked, MergeRight, Conclude, Inv, Fused, Contracted;
    FreeOfBlock(s, segs, k, h);
    var e, n := StaleFused(s, segs, k, h);
    m := e.s.mem;
    t := FusedConcludes(s, Marked(s, h, segs[k].size), e, n, h + segs[k].size);
  }
}
