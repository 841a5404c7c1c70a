/** Whole runs: any interleaving of allocations, frees, writes of programs into their own blocks and stores outside
    the heap. */
module HeapRun {
  import opened Memory
  import opened HeapLayout
  import opened HeapState
  import opened HeapText
  import opened HeapExpand
  import opened HeapAlloc
  import opened HeapFree
  import opened HeapFreeExact

  ghost predicate Valid(s: State) {
    exists segs :: Inv(s, segs)
  }

  /** The reading of a valid heap; there is only one. */
  ghost function Reading(s: State): seq<Seg>
    requires Valid(s)
    ensures Inv(s, Reading(s))
  {
    var segs :| Inv(s, segs);
    segs
  }

  ghost function LiveOf(s: State): map<nat, nat>
    requires Valid(s)
  {
    Live(s.start, Reading(s))
  }

  lemma TheReading(s: State, segs: seq<Seg>)
    requires Inv(s, segs)
    ensures Valid(s) && Reading(s) == segs
  {
    hide Get32;
    ReadingUnique(s.mem, s.start, segs, Reading(s), s.end);
  }

  datatype Event =
    | Allocated(size: nat, align: bool, p: nat)
    | Released(p: nat)
    | Wrote(p: nat)
    | Elsewhere

  /** A store that leaves the heap alone, and the word in front of it that the left merge of its first block reads. */
  ghost predicate OutsideStore(s: State, t: State) {
    t == s.(mem := t.mem) && SameWithin(s.mem, t.mem, s.start - 8, s.end)
  }

  /** What an event does, whether or not that is safe. `p` is the address a program holds: the data of its block. */
  ghost predicate Moves(s: State, e: Event, t: State)
    requires Valid(s)
  {
    match e
    case Allocated(size, align, p) => NoWrap(s, size) && Alloc(s, size, align) == Next(t, p)
    case Released(p) => p >= HEADER && p - HEADER in LiveOf(s) && Free(s, p) == Next(t, 0)
    case Wrote(p) =>
      p >= HEADER && p - HEADER in LiveOf(s) && t == s.(mem := t.mem)
      && SameOutside(s.mem, t.mem, p, p - HEADER + LiveOf(s)[p - HEADER] - FOOTER)
    case Elsewhere => OutsideStore(s, t)
  }

  ghost predicate SafeBlock(s: State, segs: seq<Seg>, k: nat, h: nat) {
    BlockAt(s, segs, k, h) && FreeSafe(s, segs, k, h)
  }

  /** The live block at h is safe to free. */
  ghost predicate Releasable(s: State, segs: seq<Seg>, h: nat) {
    exists k :: SafeBlock(s, segs, k, h)
  }

  /** The conditions of the main results about alloc and free, before the call. */
  ghost predicate Safe(s: State, e: Event)
    requires Valid(s)
  {
    match e
    case Allocated(size, align, _) => Expandable(s, Reading(s), size, align) && CutSafe(s, Reading(s), size, align)
    case Released(p) => p >= HEADER && Releasable(s, Reading(s), p - HEADER)
    case Wrote(_) => true
    case Elsewhere => true
  }

  /** One step of a safe run. */
  ghost predicate Step(s: State, e: Event, t: State)
    requires Valid(s)
  {
    Moves(s, e, t) && Safe(s, e)
  }

  /** What a step does to the live blocks. */
  ghost predicate LiveStep(s: State, e: Event, t: State)
    requires Valid(s) && Valid(t)
  {
    match e
    case Allocated(size, align, p) =>
      p >= HEADER && p - HEADER !in LiveOf(s) && p - HEADER in LiveOf(t)
      && LiveOf(t) == LiveOf(s)[p - HEADER := LiveOf(t)[p - HEADER]] && size + OVERHEAD <= LiveOf(t)[p - HEADER]
      && (align ==> p % PAGE_SIZE == 0)
      && BytesKept(s.mem, t.mem, LiveOf(s))
    case Released(p) =>
      p >= HEADER && LiveOf(t) == LiveOf(s) - {p - HEADER} && BytesKept(s.mem, t.mem, LiveOf(t))
    case Wrote(p) =>
      p >= HEADER && LiveOf(t) == LiveOf(s) && BytesKept(s.mem, t.mem, LiveOf(s) - {p - HEADER})
    case Elsewhere => LiveOf(t) == LiveOf(s) && BytesKept(s.mem, t.mem, LiveOf(s))
  }

  lemma AllocStep(s: State, e: Event, t: State)
    requires e.Allocated? && Valid(s) && Step(s, e, t)
    ensures Valid(t) && t.start == s.start && LiveStep(s, e, t)
  {
    hide Get32, Inv, Alloc, CutSafe, Extents;
    var u, segs, n := AllocKeeps(s, Reading(s), e.size, e.align);
    TheReading(t, segs);
  }

  /** A change outside a segment's header and footer leaves it readable. */
  lemma BodyWritten(m: seq<Byte>, m': seq<Byte>, a: nat, n: nat, end: nat)
    requires SegOk(m, a, Seg(n, false), end) && SameOutside(m, m', a + HEADER, a + n - FOOTER)
    ensures SegOk(m', a, Seg(n, false), end)
  {
    hide Get32;
    HeaderKept(m, m', a, n, false);
    FooterKept(m, m', a + n, a);
  }

  /** A program that writes between the header and the footer of its own block breaks nothing. */
  lemma WriteKeeps(s: State, segs: seq<Seg>, a: nat, m: seq<Byte>)
    requires Inv(s, segs) && a in Live(s.start, segs)
    requires SameOutside(s.mem, m, a + HEADER, a + Live(s.start, segs)[a] - FOOTER)
    ensures Inv(s.(mem := m), segs)
  {
    hide Get32, Extents, IndexLists, Separated, PagesMapped;
    var k := Find(s, segs, false, a);
    SegFacts(s, segs, k);
    OthersKept(s, segs, k, k + 1, m);
    BodyWritten(s.mem, m, a, segs[k].size, s.end);
    HoldsAround(m, s.start, segs[..k], segs[k], segs[k + 1..], s.end);
    assert segs == segs[..k] + [segs[k]] + segs[k + 1..];
  }

  lemma WriteStep(s: State, e: Event, t: State)
    requires e.Wrote? && Valid(s) && Step(s, e, t)
    ensures Valid(t) && t.start == s.start && LiveStep(s, e, t)
  {
    hide Get32, Extents, Holds;
    var segs, a := Reading(s), e.p - HEADER;
    WriteKeeps(s, segs, a, t.mem);
    TheReading(t, segs);
    var live := LiveOf(s) - {a};
    forall b | b in live
      ensures b + live[b] <= a || a + LiveOf(s)[a] <= b
    {
      StartsApart(s, segs, false, a, false, b);
    }
  }

  /** Stores outside the heap change neither the reading nor a byte of a live block. */
  lemma ElsewhereStep(s: State, e: Event, t: State)
    requires e.Elsewhere? && Valid(s) && Step(s, e, t)
    ensures Valid(t) && t.start == s.start && LiveStep(s, e, t)
  {
    hide Get32, Extents, Holds, IndexLists, Separated, PagesMapped;
    var segs := Reading(s);
    HoldsKept(s.mem, t.mem, s.start, segs, s.end);
    WordKept(s.mem, t.mem, s.start - 8);
    TheReading(t, segs);
    forall a | a in LiveOf(s)
      ensures SameWithin(s.mem, t.mem, a, a + LiveOf(s)[a])
    {
      var k := Find(s, segs, false, a);
    }
  }

  lemma LiveBehind(at: nat, post: seq<Seg>)
    requires Roomy(post)
    ensures forall a :: a in Live(at, post) ==> at + Reach(0, post) <= a
  {
    if post != [] && post[0].hole {
      assert Live(at, post) == Live(at + post[0].size, post[1..]);
      ExtentsInRange(at + post[0].size, post[1..], false);
    } else {
      ExtentsInRange(at, post, false);
    }
  }

  lemma OtherBytesOf(m: seq<Byte>, m': seq<Byte>, lo: nat, hi: nat, live: map<nat, nat>)
    requires SameOutside(m, m', lo, hi) && forall a :: a in live ==> a + live[a] <= lo || hi <= a
    ensures BytesKept(m, m', live)
  {
  }

  /** What free changes lies between the live blocks around it. */
  lemma FreedBytes(s: State, segs: seq<Seg>, k: nat, h: nat, m: seq<Byte>)
    requires BlockAt(s, segs, k, h)
    requires var a := s.start + Total(Before(segs, k));
             SameOutside(s.mem, m, a, a + Reach(FusedSize(segs, k), segs[k + 1..]))
    ensures BytesKept(s.mem, m, Live(s.start, segs) - {h})
  {
    hide Get32, Holds, Extents, IndexLists, Separated, PagesMapped;
    var pre, post := Before(segs, k), segs[k + 1..];
    InvRoomy(s, segs);
    LiveWithout(s.start, segs, k);
    LiveBefore(s.start, segs, k);
    ExtentsInRange(s.start, pre, false);
    LiveBehind(h + segs[k].size, post);
    hide Inv, Reach;
    OtherBytesOf(s.mem, m, s.start + Total(pre), s.start + Total(pre) + Reach(FusedSize(segs, k), post),
                 Live(s.start, pre) + Live(h + segs[k].size, post));
  }

  lemma FreeNotHalted(s: State, segs: seq<Seg>, k: nat, h: nat)
    requires BlockAt(s, segs, k, h) && Free(s, h + HEADER).Next?
    ensures !FreeHalts(s, segs, k)
  {
    hide Get32, Free;
    FreeExact(s, segs, k, h);
  }

  lemma FreeStep(s: State, e: Event, t: State)
    requires e.Released? && Valid(s) && Step(s, e, t)
    ensures Valid(t) && t.start == s.start && LiveStep(s, e, t)
  {
    hide Get32, Extents, Inv, Free, FreeSafe, FreeHalts;
    var segs, h := Reading(s), e.p - HEADER;
    var k :| SafeBlock(s, segs, k, h);
    FreeNotHalted(s, segs, k, h);
    FreeKeeps(s, segs, k, h);
    FreeLive(s, segs, k, h);
    FreedBytes(s, segs, k, h, t.mem);
    TheReading(t, Freed(segs, k));
  }

  lemma AnyStep(s: State, e: Event, t: State)
    requires Valid(s) && Step(s, e, t)
    ensures Valid(t) && t.start == s.start && LiveStep(s, e, t)
  {
    hide Get32, Step, LiveStep;
    match e
    case Allocated(_, _, _) => AllocStep(s, e, t);
    case Released(_) => FreeStep(s, e, t);
    case Wrote(_) => WriteStep(s, e, t);
    case Elsewhere => ElsewhereStep(s, e, t);
  }

  // ---- Steps, safe or not ----

  lemma CarveStart(s: State, at: nat, size: nat, align: bool)
    requires at < |s.index| && Carve(s, at, size, align).Next?
    ensures Carve(s, at, size, align).s.start == s.start
  {
    hide Get32, SizeAt, PutHeader, PutFooter;
  }

  lemma AllocStart(s: State, segs: seq<Seg>, size: nat, align: bool)
    requires Inv(s, segs) && NoWrap(s, size) && Alloc(s, size, align).Next?
    ensures Alloc(s, size, align).s.start == s.start
  {
    hide Get32, Inv, Alloc, Carve, CutSafe, SizeAt, Chosen, GrownTo, Stretched;
    var g := AllocReaches(s, segs, size, align);
    CarveStart(g, FirstFit(g.mem, g.index, size + OVERHEAD, align), size, align);
  }

  lemma UnsafeAllocStep(s: State, e: Event, t: State)
    requires e.Allocated? && Valid(s) && Moves(s, e, t) && Valid(t) && LiveStep(s, e, t)
    ensures Safe(s, e)
  {
    hide Get32, Inv, Alloc, CutSafe, Expandable, Extents, NoWrap;
    AllocExact(s, Reading(s), e.size, e.align);
    AllocStart(s, Reading(s), e.size, e.align);
    assert Inv(t, Reading(t)) && Shows(Live(s.start, Reading(t)), Live(s.start, Reading(s)));
  }

  lemma UnsafeFreeStep(s: State, e: Event, t: State)
    requires e.Released? && Valid(s) && Moves(s, e, t) && Valid(t)
    ensures Safe(s, e)
  {
    hide Get32, Inv, Free, FreeSafe, FreeHalts, Extents;
    var k := Find(s, Reading(s), false, e.p - HEADER);
    FreeExact(s, Reading(s), k, e.p - HEADER);
    assert SafeBlock(s, Reading(s), k, e.p - HEADER);
  }

  /** An event from a valid state is safe exactly if the state after it is valid and shows what the event promises:
      every other live block with all its bytes, and the new one with room for its request. */
  lemma StepExact(s: State, e: Event, t: State)
    requires Valid(s) && Moves(s, e, t)
    ensures Safe(s, e) <==> Valid(t) && LiveStep(s, e, t)
  {
    hide Get32, Inv, Moves, LiveStep;
    if Safe(s, e) {
      AnyStep(s, e, t);
    }
    if Valid(t) && LiveStep(s, e, t) {
      match e
      case Allocated(_, _, _) => UnsafeAllocStep(s, e, t);
      case Released(_) => UnsafeFreeStep(s, e, t);
      case Wrote(_) =>
      case Elsewhere =>
    }
  }

  // ---- Safe runs ----

  /** It starts in a valid state, and each event leads from its state to the next one if its state is valid. */
  ghost predicate Run(states: seq<State>, events: seq<Event>) {
    && |states| == |events| + 1 && Valid(states[0])
    && forall i :: 0 <= i < |events| ==> Valid(states[i]) ==> Step(states[i], events[i], states[i + 1])
  }

  /** Every state of a run satisfies the invariant. */
  lemma {:induction false} RunIsSafe(states: seq<State>, events: seq<Event>, n: nat)
    requires Run(states, events) && n <= |events|
    ensures Valid(states[n])
    decreases n
  {
    hide Get32, Step, Inv;
    if n > 0 {
      var m := n - 1;
      RunIsSafe(states, events, m);
      assert Step(states[m], events[m], states[m + 1]);
      AnyStep(states[m], events[m], states[n]);
    }
  }

  /** One step of a run, between valid states. */
  lemma RunStep(states: seq<State>, events: seq<Event>, m: nat)
    requires Run(states, events) && m < |events|
    ensures Valid(states[m]) && Valid(states[m + 1]) && LiveStep(states[m], events[m], states[m + 1])
  {
    hide Get32, Step, LiveStep, Inv;
    RunIsSafe(states, events, m);
    AnyStep(states[m], events[m], states[m + 1]);
  }

  /** The ledger after one more event. */
  ghost function Entered(held: map<nat, nat>, e: Event): map<nat, nat> {
    match e
    case Allocated(size, _, p) => held[p := size]
    case Released(p) => held - {p}
    case Wrote(_) => held
    case Elsewhere => held
  }

  /** The addresses handed out and not yet taken back, with the bytes asked for, after the first n events. */
  ghost function Ledger(held: map<nat, nat>, events: seq<Event>, n: nat): map<nat, nat>
    requires n <= |events|
  {
    if n == 0 then held else Entered(Ledger(held, events, n - 1), events[n - 1])
  }

  /** The live blocks are those of the ledger, and each has room for what was asked. */
  ghost predicate Accounted(s: State, held: map<nat, nat>)
    requires Valid(s)
  {
    && (forall p :: p in held ==> p >= HEADER && p - HEADER in LiveOf(s) && held[p] + OVERHEAD <= LiveOf(s)[p - HEADER])
    && (forall a :: a in LiveOf(s) ==> a + HEADER in held)
  }

  lemma AccountedStep(s: State, e: Event, t: State, held: map<nat, nat>)
    requires Valid(s) && Valid(t) && LiveStep(s, e, t) && Accounted(s, held)
    ensures Accounted(t, Entered(held, e))
  {
    hide Get32, Inv;
  }

  /** After every run, from a heap whose blocks are accounted for, the live blocks are exactly the blocks handed
      out and not taken back, each with room for its request. */
  lemma {:induction false} RunIsAccounted(states: seq<State>, events: seq<Event>, held: map<nat, nat>, n: nat)
    requires Run(states, events) && n <= |events| && Accounted(states[0], held)
    ensures Valid(states[n]) && Accounted(states[n], Ledger(held, events, n))
    decreases n
  {
    hide Get32, Step, Inv, LiveStep, Accounted;
    RunIsSafe(states, events, n);
    if n > 0 {
      RunIsAccounted(states, events, held, n - 1);
      RunStep(states, events, n - 1);
      AccountedStep(states[n - 1], events[n - 1], states[n], Ledger(held, events, n - 1));
    }
  }

  /** Two live blocks do not overlap, and each lies inside the heap. */
  lemma LiveDisjoint(s: State, a: nat, b: nat)
    requires Valid(s) && a in LiveOf(s) && b in LiveOf(s)
    ensures a == b || a + LiveOf(s)[a] <= b || b + LiveOf(s)[b] <= a
    ensures s.start <= a && a + LiveOf(s)[a] <= s.end
  {
    hide Get32, Extents, Holds;
    StartsApart(s, Reading(s), false, a, false, b);
    var k := Find(s, Reading(s), false, a);
  }

  lemma UntouchedStep(s: State, e: Event, t: State, a: nat)
    requires Valid(s) && Valid(t) && LiveStep(s, e, t) && a in LiveOf(s)
    requires e != Released(a + HEADER) && e != Wrote(a + HEADER)
    ensures a in LiveOf(t) && LiveOf(t)[a] == LiveOf(s)[a] && SameWithin(s.mem, t.mem, a, a + LiveOf(s)[a])
  {
    hide Inv;
    var live :=
      match e
      case Allocated(_, _, _) => LiveOf(s)
      case Released(_) => LiveOf(t)
      case Wrote(p) => LiveOf(s) - {p - HEADER}
      case Elsewhere => LiveOf(s);
    assert a in live && live[a] == LiveOf(s)[a];
    assert BytesKept(s.mem, t.mem, live);
  }

  /** A block that is neither freed nor written to by its program keeps its place, its size and all its bytes. */
  lemma {:induction false} BlockUntouched(states: seq<State>, events: seq<Event>, i: nat, j: nat, a: nat)
    requires Run(states, events) && i <= j <= |events|
    requires Valid(states[i]) && a in LiveOf(states[i])
    requires forall m :: i <= m < j ==> events[m] != Released(a + HEADER) && events[m] != Wrote(a + HEADER)
    ensures Valid(states[j]) && a in LiveOf(states[j]) && LiveOf(states[j])[a] == LiveOf(states[i])[a]
    ensures SameWithin(states[i].mem, states[j].mem, a, a + LiveOf(states[i])[a])
    decreases j
  {
    hide Get32, Step, Inv;
    RunIsSafe(states, events, j);
    if i < j {
      BlockUntouched(states, events, i, j - 1, a);
      RunStep(states, events, j - 1);
      UntouchedStep(states[j - 1], events[j - 1], states[j], a);
    }
  }

  // ---- Runs, safe or not ----

  /** What a program that holds `held` can make happen, in any state: it frees what it was handed, and writes the bytes
      it asked for. */
  ghost predicate AsWritten(s: State, e: Event, t: State, held: map<nat, nat>) {
    match e
    case Allocated(size, align, p) => NoWrap(s, size) && Alloc(s, size, align) == Next(t, p)
    case Released(p) => p in held && Free(s, p) == Next(t, 0)
    case Wrote(p) => p in held && t == s.(mem := t.mem) && SameOutside(s.mem, t.mem, p, p + held[p])
    case Elsewhere => OutsideStore(s, t)
  }

  ghost predicate RunAsWritten(states: seq<State>, events: seq<Event>, held: map<nat, nat>) {
    && |states| == |events| + 1
    && forall i :: 0 <= i < |events| ==> AsWritten(states[i], events[i], states[i + 1], Ledger(held, events, i))
  }

  /** What is asked of the event at position i: if its state is valid, it is safe. */
  ghost predicate SafeAt(states: seq<State>, events: seq<Event>, i: nat)
    requires |states| == |events| + 1 && i < |events|
  {
    Valid(states[i]) ==> Safe(states[i], events[i])
  }

  /** What the event at position i should come to. */
  ghost predicate SoundAt(states: seq<State>, events: seq<Event>, i: nat)
    requires |states| == |events| + 1 && i < |events|
  {
    Valid(states[i]) && Valid(states[i + 1]) && LiveStep(states[i], events[i], states[i + 1])
  }

  ghost predicate AllSafe(states: seq<State>, events: seq<Event>, n: nat)
    requires |states| == |events| + 1 && n <= |events|
  {
    forall i :: 0 <= i < n ==> SafeAt(states, events, i)
  }

  ghost predicate AllSound(states: seq<State>, events: seq<Event>, n: nat)
    requires |states| == |events| + 1 && n <= |events|
  {
    forall i :: 0 <= i < n ==> SoundAt(states, events, i)
  }

  lemma HeldMoves(s: State, e: Event, t: State, held: map<nat, nat>)
    requires Valid(s) && Accounted(s, held) && AsWritten(s, e, t, held)
    ensures Moves(s, e, t)
  {
    hide Get32, Inv, Alloc, Free;
  }

  /** While every event so far was sound, the ledger is that of the live blocks. */
  lemma {:induction false} SoundIsAccounted(states: seq<State>, events: seq<Event>, held: map<nat, nat>, n: nat)
    requires |states| == |events| + 1 && n <= |events| && Valid(states[0]) && Accounted(states[0], held)
    requires AllSound(states, events, n)
    ensures Valid(states[n]) && Accounted(states[n], Ledger(held, events, n))
    decreases n
  {
    hide Get32, Inv, LiveStep, Accounted;
    if n > 0 {
      SoundIsAccounted(states, events, held, n - 1);
      assert SoundAt(states, events, n - 1);
      AccountedStep(states[n - 1], events[n - 1], states[n], Ledger(held, events, n - 1));
    }
  }

  /** Of every run, whatever its programs do with what they hold: up to n every event is sound exactly if up to n every
      event is safe, and then the live blocks are those of the ledger. */
  lemma {:induction false} RunExact(states: seq<State>, events: seq<Event>, held: map<nat, nat>, n: nat)
    requires RunAsWritten(states, events, held) && n <= |events| && Valid(states[0]) && Accounted(states[0], held)
    ensures AllSafe(states, events, n) <==> AllSound(states, events, n)
    ensures AllSafe(states, events, n) ==> Valid(states[n]) && Accounted(states[n], Ledger(held, events, n))
    decreases n
  {
    hide Get32, Inv, LiveStep, Accounted, AsWritten, Safe, Moves;
    if n > 0 {
      var m := n - 1;
      RunExact(states, events, held, m);
      if AllSound(states, events, m) {
        SoundIsAccounted(states, events, held, m);
        assert AsWritten(states[m], events[m], states[n], Ledger(held, events, m));
        HeldMoves(states[m], events[m], states[n], Ledger(held, events, m));
        StepExact(states[m], events[m], states[n]);
        assert SafeAt(states, events, m) <==> SoundAt(states, events, m);
        if SoundAt(states, events, m) {
          SoundIsAccounted(states, events, held, n);
        }
      }
    }
  }
}
