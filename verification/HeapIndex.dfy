/** How many entries the index needs. Neither alloc nor free looks whether there is room for another one. */
module HeapIndex {
  import opened Memory
  import opened HeapLayout
  import opened HeapState
  import opened HeapText
  import opened HeapGrow
  import opened HeapCarve
  import opened HeapExpand
  import opened HeapAlloc
  import opened HeapFree
  import opened HeapFreeExact
  import opened HeapRun
  import opened HeapCreate
  import opened OrderedArrays

  /** Up to some five megabytes a valid heap leaves its index the free entries that alloc and free need. */
  lemma IndexHasRoom(s: State, segs: seq<Seg>)
    requires Inv(s, segs)
    requires s.end - s.start + OVERHEAD < 2 * OVERHEAD * (INDEX_ROOM - 2)
    ensures |s.index| + 2 < INDEX_ROOM
  {
    hide Inv;
    IndexIsBounded(s, segs);
  }

  /** The kernel's index array reaches, with the words behind it, up to the word the left merge of the heap's first block
      reads. */
  lemma IndexReaches()
    ensures KHEAP_START + 4 * INDEX_ROOM == 0x0108_1000 - 8 && KHEAP_START + 4 * HEAP_INDEX_SIZE == 0x0108_0000
  {
  }

  // ---- A run that needs more: many small blocks, of which every other one is freed ----

  /** n blocks of less than two overheads each, with nothing or a hole behind them. */
  ghost predicate Packed(segs: seq<Seg>, n: nat) {
    && n <= |segs| <= n + 1
    && (forall i :: 0 <= i < n ==> !segs[i].hole && segs[i].size < 2 * OVERHEAD)
    && (n < |segs| ==> segs[n].hole)
  }

  lemma {:induction false} SmallTotal(blocks: seq<Seg>)
    requires forall i :: 0 <= i < |blocks| ==> blocks[i].size < 2 * OVERHEAD
    ensures Total(blocks) <= 2 * OVERHEAD * |blocks|
  {
    if blocks != [] {
      SmallTotal(blocks[1..]);
    }
  }

  lemma PackedTotal(segs: seq<Seg>, n: nat)
    requires Packed(segs, n)
    ensures Total(segs) <= 2 * OVERHEAD * n + TailSize(segs)
  {
    SmallTotal(segs[..n]);
    if n < |segs| {
      assert segs == segs[..n] + [segs[n]];
      TotalAppend(segs[..n], [segs[n]]);
      OneSeg(0, segs[n], true);
    } else {
      assert segs == segs[..n];
    }
  }

  lemma NoHoleNoIndex(s: State, segs: seq<Seg>)
    requires Inv(s, segs) && forall i :: 0 <= i < |segs| ==> !segs[i].hole
    ensures s.index == []
  {
    hide Inv;
    if s.index != [] {
      var k := HoleOfEntry(s, segs, 0);
    }
  }

  /** There is still address range for n more blocks, of at most two overheads each, and an expansion. */
  ghost predicate Spacious(s: State, n: nat) {
    s.start + 2 * OVERHEAD * n + 2 * PAGE_SIZE <= s.max
  }

  /** A packed heap serves one more request for no bytes, expanding if it has to. */
  lemma PackedServes(s: State, segs: seq<Seg>, n: nat)
    requires Inv(s, segs) && Packed(segs, n) && Spacious(s, n)
    ensures NoWrap(s, 0) && Alloc(s, 0, false).Next?
    ensures Expandable(s, segs, 0, false) && CutSafe(s, segs, 0, false)
  {
    hide Get32, Extents, Holds, IndexLists, PagesMapped, Alloc, AnyFits, Delta, Settling;
    assert NoWrap(s, 0);
    PackedTotal(segs, n);
    if n == |segs| {
      NoHoleNoIndex(s, segs);
    }
    if !AnyFits(s, 0, false) {
      if TailSize(segs) >= OVERHEAD {
        TailFits(s, segs, 0, false);
      }
      DeltaFacts(s, OVERHEAD);
    }
    AllocHalts(s, segs, 0, false);
  }

  lemma PackedMore(segs: seq<Seg>, gsegs: seq<Seg>, n: nat, k: nat, block: nat)
    requires Packed(segs, n) && k < |gsegs| && gsegs[k].hole && block <= gsegs[k].size && block < 2 * OVERHEAD
    requires gsegs == segs || exists d: nat :: gsegs == Grown(segs, d)
    ensures Packed(Carved(gsegs, k, 0, block), n + 1)
  {
    assert gsegs[..n] == segs[..n] && |gsegs| <= n + 1;
    assert k == n && gsegs[n + 1..] == [];
    assert Carved(gsegs, k, 0, block) == segs[..n] + [Seg(block, false)] + Optional(gsegs[k].size - block);
  }

  /** One more block. */
  lemma PackedStep(s: State, segs: seq<Seg>, n: nat) returns (e: Event, t: State, segs': seq<Seg>)
    requires Inv(s, segs) && Packed(segs, n) && Spacious(s, n)
    ensures Valid(s) && Step(s, e, t) && Inv(t, segs') && Packed(segs', n + 1) && t.start == s.start && t.max == s.max
  {
    hide Get32, Inv, Extents, Alloc, CutSafe, Expandable, Packed, Carved, PiecesShown, AnyFits, Fits, Settling, NoWrap;
    PackedServes(s, segs, n);
    TheReading(s, segs);
    var g, gsegs, k, front, block := AllocCuts(s, segs, 0, false);
    t, segs' := Alloc(s, 0, false).s, Carved(gsegs, k, front, block);
    e := Allocated(0, false, Alloc(s, 0, false).p);
    PackedMore(segs, gsegs, n, k, block);
  }

  // ---- Building runs ----

  /** A run from s0 to t. */
  ghost predicate Leads(s0: State, states: seq<State>, events: seq<Event>, t: State) {
    Run(states, events) && states[0] == s0 && states[|events|] == t
  }

  lemma Longer(s0: State, states: seq<State>, events: seq<Event>, t: State, e: Event, u: State)
    requires Leads(s0, states, events, t) && Valid(t) && Step(t, e, u)
    ensures Leads(s0, states + [u], events + [e], u)
  {
    hide Step, Valid;
    var all, es := states + [u], events + [e];
    forall i | 0 <= i < |es| && Valid(all[i])
      ensures Step(all[i], es[i], all[i + 1])
    {
      if i < |events| {
        assert all[i] == states[i] && all[i + 1] == states[i + 1] && es[i] == events[i];
      }
    }
  }

  /** n requests for no bytes. */
  lemma {:induction false} Filled(s0: State, segs0: seq<Seg>, n: nat)
    returns (states: seq<State>, events: seq<Event>, t: State, segs: seq<Seg>)
    requires Inv(s0, segs0) && Packed(segs0, 0) && Spacious(s0, n)
    ensures Leads(s0, states, events, t) && Inv(t, segs) && Packed(segs, n) && t.start == s0.start && t.max == s0.max
    decreases n
  {
    hide Get32, Inv, Step, Packed;
    if n == 0 {
      TheReading(s0, segs0);
      states, events, t, segs := [s0], [], s0, segs0;
    } else {
      var e, u;
      states, events, u, segs := Filled(s0, segs0, n - 1);
      e, t, segs := PackedStep(u, segs, n - 1);
      Longer(s0, states, events, u, e, t);
      states, events := states + [t], events + [e];
    }
  }

  /** Of the first 2 * j segments every other one is a hole, and the rest up to n are blocks. */
  ghost predicate Thinned(segs: seq<Seg>, n: nat, j: nat) {
    2 * j <= n <= |segs| && forall i :: 0 <= i < n ==> (segs[i].hole <==> i < 2 * j && i % 2 == 0)
  }

  /** The block behind the holes so far has blocks on both sides. */
  lemma ThinnedFreed(s: State, segs: seq<Seg>, n: nat, j: nat, h: nat)
    requires Thinned(segs, n, j) && 2 * j + 1 < n && BlockAt(s, segs, 2 * j, h)
    ensures !HoleBefore(segs, 2 * j) && !Reaches(segs[2 * j + 1..])
    ensures !FreeHalts(s, segs, 2 * j) && FreeSafe(s, segs, 2 * j, h)
    ensures Freed(segs, 2 * j) == segs[2 * j := Seg(segs[2 * j].size, true)]
    ensures Dropped(s.index, h + segs[2 * j].size, segs[2 * j + 1..]) == s.index
    ensures Thinned(Freed(segs, 2 * j), n, j + 1)
  {
    hide Inv, Total;
    var k := 2 * j;
    assert segs[k + 1..] != [] && !segs[k + 1..][0].hole;
    assert !HoleBefore(segs, k);
    assert Freed(segs, k) == segs[..k] + [Seg(segs[k].size, true)] + segs[k + 1..];
  }

  lemma FreeAnswer(s: State, p: nat)
    requires Free(s, p).Next?
    ensures Free(s, p).p == 0
  {
    hide Get32, MergeLeft, MergeRight, Shrink, Enter;
  }

  /** One more entry. */
  lemma ThinnedStep(s: State, segs: seq<Seg>, n: nat, j: nat) returns (e: Event, t: State, segs': seq<Seg>)
    requires Inv(s, segs) && Thinned(segs, n, j) && 2 * j + 1 < n
    ensures Valid(s) && Step(s, e, t) && Inv(t, segs') && Thinned(segs', n, j + 1) && |t.index| == |s.index| + 1
  {
    hide Get32, Inv, Extents, Free, FreeSafe, FreeHalts, Freed, Dropped, Reaches, Total, InsertBefore;
    var k, h := 2 * j, s.start + Total(segs[..2 * j]);
    ThinnedFreed(s, segs, n, j, h);
    TheReading(s, segs);
    InvRoomy(s, segs);
    Listed(s.start, segs, k);
    FreeKeeps(s, segs, k, h);
    FreeIndex(s, segs, k, h);
    FreeAnswer(s, h + HEADER);
    e, t, segs' := Released(h + HEADER), Free(s, h + HEADER).s, Freed(segs, k);
    InsertContents<nat>(s.index, h, SizeLess(t.mem));
    assert SafeBlock(s, segs, k, h);
  }

  /** j frees. */
  lemma {:induction false} Freeing(s0: State, states0: seq<State>, events0: seq<Event>, t0: State, segs0: seq<Seg>,
                                   n: nat, j: nat)
    returns (states: seq<State>, events: seq<Event>, t: State, segs: seq<Seg>)
    requires Leads(s0, states0, events0, t0) && Inv(t0, segs0) && Thinned(segs0, n, 0) && 2 * j <= n
    ensures Leads(s0, states, events, t) && Inv(t, segs) && Thinned(segs, n, j) && |t.index| == |t0.index| + j
    decreases j
  {
    hide Get32, Inv, Step, Thinned, Leads;
    if j == 0 {
      states, events, t, segs := states0, events0, t0, segs0;
    } else {
      var e, u;
      states, events, u, segs := Freeing(s0, states0, events0, t0, segs0, n, j - 1);
      e, t, segs := ThinnedStep(u, segs, n, j - 1);
      Longer(s0, states, events, u, e, t);
      states, events := states + [t], events + [e];
    }
  }

  /** The kernel's heap is large enough for its index to overflow: a run of safe allocs and frees, through valid states
      only, lists more holes than there is room for in front of the heap. */
  lemma IndexOutgrows(m: seq<Byte>, mapped: set<nat>) returns (states: seq<State>, events: seq<Event>)
    requires |m| == WORD_LIMIT && Get32(m, 0x0108_1000 - 8) != HEAP_MAGIC
    requires PagesMapped(0x0108_1000, 0x0110_0000, mapped)
    ensures Run(states, events) && KernelHeap(m, mapped) == Next(states[0], 0)
    ensures forall n :: 0 <= n <= |events| ==> Valid(states[n])
    ensures |states[|events|].index| >= INDEX_ROOM
  {
    hide Get32, Inv, Step, PagesMapped, KernelHeap, Valid;
    KernelHeapValid(m, mapped);
    var s0 := KernelHeap(m, mapped).s;
    var t, segs;
    states, events, t, segs := Filled(s0, [Seg(0x7_F000, true)], 2 * INDEX_ROOM);
    assert Thinned(segs, 2 * INDEX_ROOM, 0);
    states, events, t, segs := Freeing(s0, states, events, t, segs, 2 * INDEX_ROOM, INDEX_ROOM);
    forall n | 0 <= n <= |events|
      ensures Valid(states[n])
    {
      RunIsSafe(states, events, n);
    }
  }
}
