/** The index sorted by size: what it gives the search, and which operations keep it. */
module HeapOrder {
  import opened Memory
  import opened HeapLayout
  import opened HeapState
  import opened HeapText
  import opened HeapCarve
  import opened HeapExpand
  import opened HeapAlloc
  import opened HeapFree
  import opened HeapFreeExact
  import opened OrderedArrays

  lemma SizeLessIsOrder(m: seq<Byte>)
    ensures StrictWeakOrder<nat>(SizeLess(m))
  {
  }

  lemma SortedIsOrdered(s: State)
    ensures SortedBySize(s) <==> Ordered<nat>(s.index, SizeLess(s.mem))
  {
  }

  /** In a sorted index the search for a plain request finds a hole of the least sufficient size, and fails only
      if no hole is large enough. */
  lemma FindsSmallest(s: State, segs: seq<Seg>, size: nat)
    requires Inv(s, segs) && SortedBySize(s)
    ensures var at := FirstFit(s.mem, s.index, size, false);
            && (at < |s.index| ==> forall a :: a in Holes(s.start, segs) && Holes(s.start, segs)[a] >= size ==>
                  size <= SizeAt(s.mem, s.index[at]) <= Holes(s.start, segs)[a])
            && (at == |s.index| <==> forall a :: a in Holes(s.start, segs) ==> Holes(s.start, segs)[a] < size)
  {
    hide Get32, Extents, SizeAt, Inv, SegOk;
    var at := FirstFit(s.mem, s.index, size, false);
    forall a | a in Holes(s.start, segs)
      ensures exists j :: 0 <= j < |s.index| && s.index[j] == a && SizeAt(s.mem, s.index[j]) == Holes(s.start, segs)[a]
    {
      IndexIsHoles(s, segs, a);
      var k := Find(s, segs, true, a);
    }
    if at < |s.index| {
      IndexIsHoles(s, segs, s.index[at]);
      var k := Find(s, segs, true, s.index[at]);
      assert s.index[at] in Holes(s.start, segs);
    }
  }

  /** Sizes read the same in both memories for the listed addresses: the order carries over. */
  lemma OrderCarries(index: seq<nat>, m: seq<Byte>, m': seq<Byte>)
    requires Ordered<nat>(index, SizeLess(m))
    requires forall a :: a in index ==> SizeAt(m', a) == SizeAt(m, a)
    ensures Ordered<nat>(index, SizeLess(m'))
  {
    hide SizeAt;
    forall i, j | 0 <= i < j < |index|
      ensures !SizeLess(m')(index[j], index[i])
    {
      assert index[i] in index && index[j] in index;
    }
  }

  /** Holes other than the one at position k keep their size field when only that segment's bytes change. */
  lemma OtherSizes(s: State, segs: seq<Seg>, lo: nat, hi: nat, m: seq<Byte>, a: nat)
    requires Inv(s, segs) && a in s.index && SameOutside(s.mem, m, lo, hi)
    requires a in Holes(s.start, segs) ==> a + Holes(s.start, segs)[a] <= lo || hi <= a
    ensures SizeAt(m, a) == SizeAt(s.mem, a)
  {
    hide Get32, Extents;
    IndexIsHoles(s, segs, a);
    var k := Find(s, segs, true, a);
    WordKept(s.mem, m, a + 8);
  }

  lemma CarveSizes(s: State, segs: seq<Seg>, at: nat, k: nat, m: seq<Byte>)
    requires Inv(s, segs) && at < |s.index| && k < |segs| && segs[k].hole && s.index[at] == s.start + Total(segs[..k])
    requires SameOutside(s.mem, m, s.index[at], s.index[at] + segs[k].size)
    ensures forall a :: a in DeleteAt(s.index, at) ==> SizeAt(m, a) == SizeAt(s.mem, a)
  {
    hide Get32, Extents, SizeAt, Holds;
    forall a | a in DeleteAt(s.index, at)
      ensures SizeAt(m, a) == SizeAt(s.mem, a)
    {
      DeleteContents(s.index, at);
      IndexIsHoles(s, segs, s.index[at]);
      assert a in multiset(DeleteAt(s.index, at));
      assert multiset(DeleteAt(s.index, at))[s.index[at]] == 0;
      IndexIsHoles(s, segs, a);
      assert a in multiset(s.index);
      InvRoomy(s, segs);
      Listed(s.start, segs, k);
      StartsApart(s, segs, true, a, true, s.index[at]);
      OtherSizes(s, segs, s.index[at], s.index[at] + segs[k].size, m, a);
    }
  }

  lemma CarvedOrdered(index: seq<nat>, at: nat, m: seq<Byte>, rear: nat, rest: nat)
    requires at < |index| && Ordered<nat>(DeleteAt(index, at), SizeLess(m))
    ensures Ordered<nat>(CarvedIndex(index, at, 0, rear, rest, SizeLess(m)), SizeLess(m))
  {
    hide SizeAt, Ordered;
    SizeLessIsOrder(m);
    InsertKeepsOrder<nat>(DeleteAt(index, at), rear, SizeLess(m));
  }

  /** A plain alloc that needs no expansion keeps the index sorted. */
  lemma PlainAllocKeepsSorted(s: State, segs: seq<Seg>, size: nat)
    requires Inv(s, segs) && NoWrap(s, size) && AnyFits(s, size, false) && SortedBySize(s)
    ensures Alloc(s, size, false).Next? && SortedBySize(Alloc(s, size, false).s)
  {
    hide Get32, Extents, SizeAt, Inv, PiecesShown, Ordered, Alloc, Carve, SortedBySize, CarvedIndex, InsertBefore, DeleteAt;
    var at := FirstFit(s.mem, s.index, size + OVERHEAD, false);
    var k := HoleOfEntry(s, segs, at);
    var n := segs[k].size;
    var m := PlainPieces(s, at, size, n);
    AllocIsCarve(s, size, false);
    SortedIsOrdered(s);
    DeleteKeepsOrder<nat>(s.index, at, SizeLess(s.mem));
    CarveSizes(s, segs, at, k, m);
    OrderCarries(DeleteAt(s.index, at), s.mem, m);
    CarvedOrdered(s.index, at, m, s.index[at] + BlockSize(n, size + OVERHEAD, false), n - BlockSize(n, size + OVERHEAD, false));
    SortedIsOrdered(Alloc(s, size, false).s);
  }

  /** The index entries that stay keep their sizes when the block at position k is freed without a left merge. */
  lemma FreeSizes(s: State, segs: seq<Seg>, k: nat, h: nat, m: seq<Byte>)
    requires BlockAt(s, segs, k, h) && !HoleBefore(segs, k)
    requires SameOutside(s.mem, m, h, h + Reach(segs[k].size, segs[k + 1..]))
    ensures forall a :: a in Dropped(s.index, h + segs[k].size, segs[k + 1..]) ==> SizeAt(m, a) == SizeAt(s.mem, a)
  {
    hide Get32, Extents, SizeAt, Holds, DeleteAt, PositionOf, SegOk, Separated;
    var right: nat, post := h + segs[k].size, segs[k + 1..];
    var kept := Dropped(s.index, right, post);
    InvRoomy(s, segs);
    Listed(s.start, segs, k);
    SegFacts(s, segs, k);
    if HoleAfter(segs, k) {
      ListedIffHole(s, segs, k + 1);
      Listed(s.start, segs, k + 1);
    }
    forall a | a in kept
      ensures SizeAt(m, a) == SizeAt(s.mem, a)
    {
      assert a in multiset(kept);
      if HoleAfter(segs, k) {
        DeleteContents(s.index, PositionOf(s.index, right));
        assert right !in multiset(kept);
        assert a in multiset(s.index);
      }
      IndexIsHoles(s, segs, a);
      StartsApart(s, segs, true, a, false, h);
      if HoleAfter(segs, k) {
        StartsApart(s, segs, true, a, true, right);
      }
      OtherSizes(s, segs, h, h + Reach(segs[k].size, post), m, a);
    }
  }

  lemma DroppedOrdered(s: State, segs: seq<Seg>, right: nat, post: seq<Seg>)
    requires Ordered<nat>(s.index, SizeLess(s.mem))
    ensures Ordered<nat>(Dropped(s.index, right, post), SizeLess(s.mem))
  {
    var i := PositionOf(s.index, right);
    if i < |s.index| {
      DeleteKeepsOrder<nat>(s.index, i, SizeLess(s.mem));
    }
  }

  /** A free that merges with no hole on the left keeps the index sorted. */
  lemma FreeKeepsSorted(s: State, segs: seq<Seg>, k: nat, h: nat)
    requires BlockAt(s, segs, k, h) && !FreeHalts(s, segs, k) && FreeSafe(s, segs, k, h) && !HoleBefore(segs, k)
    requires SortedBySize(s)
    ensures Free(s, h + HEADER).Next? && SortedBySize(Free(s, h + HEADER).s)
  {
    hide Get32, Extents, SizeAt, Inv, Free, Dropped, Ordered, FreeSafe;
    var right: nat, post := h + segs[k].size, segs[k + 1..];
    FreeIndex(s, segs, k, h);
    FreeKeeps(s, segs, k, h);
    var t := Free(s, h + HEADER).s;
    FreeSizes(s, segs, k, h, t.mem);
    SortedIsOrdered(s);
    DroppedOrdered(s, segs, right, post);
    OrderCarries(Dropped(s.index, right, post), s.mem, t.mem);
    SizeLessIsOrder(t.mem);
    InsertKeepsOrder<nat>(Dropped(s.index, right, post), h, SizeLess(t.mem));
    SortedIsOrdered(t);
  }
}
