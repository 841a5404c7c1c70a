/** create_heap, and the kernel's own heap. */
module HeapCreate {
  import opened Memory
  import opened HeapLayout
  import opened HeapState
  import opened HeapText
  import opened HeapRun

  /** Where the heap proper starts: past the index, and a page further even if that is a page boundary. */
  function HeapStart(startAddr: nat): nat {
    startAddr + 4 * HEAP_INDEX_SIZE + PAGE_SIZE
  }

  /** What create_heap needs of its arguments and of memory. */
  ghost predicate Creatable(m: seq<Byte>, startAddr: nat, endAddr: nat, max: nat, mapped: set<nat>) {
    && HeapStart(startAddr) + HEAP_MIN_SIZE <= endAddr <= max <= ADDRESS_LIMIT
    && PagesMapped(HeapStart(startAddr), endAddr, mapped)
    && HeapStart(startAddr) <= |m| && Get32(m, HeapStart(startAddr) - 8) != HEAP_MAGIC
  }

  lemma CreateResult(m: seq<Byte>, startAddr: nat, endAddr: nat, max: nat, mapped: set<nat>)
    requires |m| == WORD_LIMIT && startAddr % PAGE_SIZE == 0 && endAddr % PAGE_SIZE == 0
    requires HeapStart(startAddr) + HEADER <= WORD_LIMIT && endAddr < WORD_LIMIT
    ensures var start := HeapStart(startAddr);
            CreateHeap(m, startAddr, endAddr, max, mapped)
            == Next(State(PutHeader(m, start, endAddr - start, true), [start], start, endAddr, max, mapped), 0)
  {
    hide PutHeader;
  }

  /** create_heap halts exactly on a misaligned argument; otherwise it yields a valid heap, one hole and no block,
      exactly when its arguments allow it. */
  lemma CreateExact(m: seq<Byte>, startAddr: nat, endAddr: nat, max: nat, mapped: set<nat>)
    requires |m| == WORD_LIMIT && HeapStart(startAddr) + HEADER <= WORD_LIMIT && endAddr < WORD_LIMIT
    ensures var r := CreateHeap(m, startAddr, endAddr, max, mapped);
            && (r.Halted? <==> startAddr % PAGE_SIZE != 0 || endAddr % PAGE_SIZE != 0)
            && (r.Next? ==> (Creatable(m, startAddr, endAddr, max, mapped) <==> Valid(r.s)))
            && (r.Next? && Creatable(m, startAddr, endAddr, max, mapped) ==>
                  Inv(r.s, [Seg(endAddr - HeapStart(startAddr), true)]) && LiveOf(r.s) == map[])
            && (r.Next? ==> SameOutside(m, r.s.mem, HeapStart(startAddr), HeapStart(startAddr) + HEADER))
  {
    hide Get32, PagesMapped, PutHeader;
    if startAddr % PAGE_SIZE == 0 && endAddr % PAGE_SIZE == 0 {
      var start := HeapStart(startAddr);
      CreateResult(m, startAddr, endAddr, max, mapped);
      var t := CreateHeap(m, startAddr, endAddr, max, mapped).s;
      WordKept(m, t.mem, start - 8);
      if Creatable(m, startAddr, endAddr, max, mapped) {
        var segs := [Seg(endAddr - start, true)];
        assert segs[1..] == [];
        OneSeg(start, segs[0], true);
        OneSeg(start, segs[0], false);
        assert Bounds(t);
        assert SegOk(t.mem, start, segs[0], t.end);
        assert IndexLists([start], start, segs);
        assert Total(segs) == t.end - t.start;
        assert Holds(t.mem, t.start, segs, t.end);
        assert Separated(segs);
        assert IndexLists(t.index, t.start, segs);
        TheReading(t, segs);
      }
    }
  }

  /** The heap the kernel installs, over memory whose pages in its range are mapped. */
  function KernelHeap(m: seq<Byte>, mapped: set<nat>): Outcome {
    CreateHeap(m, KHEAP_START, KHEAP_START + KHEAP_INITIAL_SIZE, KHEAP_MAX, mapped)
  }

  /** The kernel's constants give a valid heap with one hole of 0x7F000 bytes at 0x1081000. */
  lemma KernelHeapValid(m: seq<Byte>, mapped: set<nat>)
    requires |m| == WORD_LIMIT && Get32(m, 0x0108_1000 - 8) != HEAP_MAGIC
    requires PagesMapped(0x0108_1000, 0x0110_0000, mapped)
    ensures var r := KernelHeap(m, mapped);
            && r.Next? && r.p == 0 && Inv(r.s, [Seg(0x7_F000, true)]) && LiveOf(r.s) == map[]
            && r.s.start == 0x0108_1000 && r.s.end == 0x0110_0000 && r.s.max == 0x01FF_F000
  {
    hide Get32, PagesMapped, PutHeader, Inv;
    CreateResult(m, KHEAP_START, KHEAP_START + KHEAP_INITIAL_SIZE, KHEAP_MAX, mapped);
    CreateExact(m, KHEAP_START, KHEAP_START + KHEAP_INITIAL_SIZE, KHEAP_MAX, mapped);
  }

  /** Whatever the kernel does from there on, inside the heap safely and outside it at will: the heap stays valid, and
      its live blocks are the blocks handed out and not taken back. */
  lemma KernelRuns(m: seq<Byte>, mapped: set<nat>, states: seq<State>, events: seq<Event>)
    requires |m| == WORD_LIMIT && Get32(m, 0x0108_1000 - 8) != HEAP_MAGIC
    requires PagesMapped(0x0108_1000, 0x0110_0000, mapped)
    requires Run(states, events) && KernelHeap(m, mapped) == Next(states[0], 0)
    ensures forall n :: 0 <= n <= |events| ==> Valid(states[n]) && Accounted(states[n], Ledger(map[], events, n))
  {
    hide Get32, PagesMapped, Inv, Step;
    KernelHeapValid(m, mapped);
    forall n | 0 <= n <= |events|
      ensures Valid(states[n]) && Accounted(states[n], Ledger(map[], events, n))
    {
      RunIsAccounted(states, events, map[], n);
    }
  }

  /** Whatever the kernel does from there on, safely or not: all goes well up to an event exactly if every call up to
      it meets the conditions for alloc and free. */
  lemma KernelRunsExact(m: seq<Byte>, mapped: set<nat>, states: seq<State>, events: seq<Event>, n: nat)
    requires |m| == WORD_LIMIT && Get32(m, 0x0108_1000 - 8) != HEAP_MAGIC
    requires PagesMapped(0x0108_1000, 0x0110_0000, mapped)
    requires RunAsWritten(states, events, map[]) && KernelHeap(m, mapped) == Next(states[0], 0) && n <= |events|
    ensures AllSafe(states, events, n) <==> AllSound(states, events, n)
    ensures AllSafe(states, events, n) ==> Valid(states[n]) && Accounted(states[n], Ledger(map[], events, n))
  {
    hide Get32, PagesMapped, Inv, AllSafe, AllSound, AsWritten;
    KernelHeapValid(m, mapped);
    RunExact(states, events, map[], n);
  }
}
