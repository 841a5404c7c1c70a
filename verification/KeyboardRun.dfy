/** Runs of the keyboard driver: interrupts and readers in any order, against the scancodes seen so far. */
module KeyboardRuns {
  import opened Memory
  import opened Keyboards

  // ---- What the scancodes say, without a status word ----

  /** Of the scancodes that concern the given keys, the last is a make code. */
  predicate Held(history: seq<Byte>, keys: set<int>) {
    if history == [] then false
    else
      var last := history[|history| - 1];
      if last % 0x80 in keys then last < 0x80 else Held(history[..|history| - 1], keys)
  }

  /** How often a key was pressed. */
  function Presses(history: seq<Byte>, key: int): nat {
    if history == [] then 0
    else Presses(history[..|history| - 1], key) + if history[|history| - 1] == key then 1 else 0
  }

  const SHIFT_KEYS := {RAW1_LEFT_SHIFT, RAW1_RIGHT_SHIFT}

  /** What a scancode types after the ones before it. */
  function Typed(history: seq<Byte>, scancode: Byte): seq<Byte> {
    if scancode >= 0x80 || IsModifier(scancode) then [] else Queued(Held(history, SHIFT_KEYS), scancode)
  }

  // ---- Runs ----

  datatype Event = Scan(code: Byte) | Read

  /** The driver, the scancodes so far, the keys the queue took, and the answers of kbd_get_key. */
  datatype Trace = Trace(driver: Driver, history: seq<Byte>, accepted: seq<Byte>, answers: seq<Byte>)

  function Start(): Trace {
    Trace(Driver({}, false, []), [], [], [])
  }

  function Step(t: Trace, e: Event): Trace {
    match e
    case Scan(code) =>
      Trace(Interrupt(t.driver, code), t.history + [code],
            if |t.driver.queue| < CAPACITY then t.accepted + Typed(t.history, code) else t.accepted, t.answers)
    case Read =>
      Trace(AfterRead(t.driver), t.history, t.accepted, t.answers + [Answer(t.driver)])
  }

  function Run(events: seq<Event>): Trace {
    if events == [] then Start() else Step(Run(events[..|events| - 1]), events[|events| - 1])
  }

  /** The answers that are keys. */
  function Keys(answers: seq<Byte>): seq<Byte> {
    if answers == [] then []
    else Keys(answers[..|answers| - 1]) + if answers[|answers| - 1] == 0 then [] else [answers[|answers| - 1]]
  }

  predicate Odd(n: nat) {
    n % 2 == 1
  }

  /** Each bit of the status word against the scancodes. */
  predicate StatusTold(status: set<Meta>, history: seq<Byte>) {
    && (Alt in status <==> Held(history, {RAW1_ALT}))
    && (Ctrl in status <==> Held(history, {RAW1_CTRL}))
    && (Shift in status <==> Held(history, SHIFT_KEYS))
    && (Caps in status <==> Odd(Presses(history, RAW1_CAPS_LOCK)))
    && (Num in status <==> Odd(Presses(history, RAW1_NUM_LOCK)))
    && (Scrl in status <==> Odd(Presses(history, RAW1_SCROLL_LOCK)))
  }

  predicate Inv(t: Trace) {
    && StatusTold(t.driver.status, t.history)
    && !t.driver.sawBreakCode
    && |t.driver.queue| <= CAPACITY
    && 0 !in t.driver.queue
    && t.accepted == Keys(t.answers) + t.driver.queue
  }

  lemma HeldAppend(history: seq<Byte>, scancode: Byte, keys: set<int>)
    ensures Held(history + [scancode], keys) == if scancode % 0x80 in keys then scancode < 0x80 else Held(history, keys)
  {
    assert (history + [scancode])[..|history|] == history;
  }

  lemma PressesAppend(history: seq<Byte>, scancode: Byte, key: int)
    ensures Presses(history + [scancode], key) == Presses(history, key) + if scancode == key then 1 else 0
    ensures Odd(Presses(history + [scancode], key)) <==> Odd(Presses(history, key)) != (scancode == key)
  {
    assert (history + [scancode])[..|history|] == history;
  }

  /** An interrupt keeps every status bit equal to what the scancodes say. */
  lemma InterruptStatus(d: Driver, history: seq<Byte>, scancode: Byte)
    requires !d.sawBreakCode && StatusTold(d.status, history)
    ensures StatusTold(Interrupt(d, scancode).status, history + [scancode])
    ensures !Interrupt(d, scancode).sawBreakCode
  {
    HeldAppend(history, scancode, {RAW1_ALT});
    HeldAppend(history, scancode, {RAW1_CTRL});
    HeldAppend(history, scancode, SHIFT_KEYS);
    PressesAppend(history, scancode, RAW1_CAPS_LOCK);
    PressesAppend(history, scancode, RAW1_NUM_LOCK);
    PressesAppend(history, scancode, RAW1_SCROLL_LOCK);
    hide Queued, Enqueue, Held, Presses, Odd;
  }

  /** An interrupt queues what the scancodes say, if there is room. */
  lemma InterruptQueue(d: Driver, history: seq<Byte>, scancode: Byte)
    requires !d.sawBreakCode && StatusTold(d.status, history)
    ensures Interrupt(d, scancode).queue == Enqueue(d.queue, Typed(history, scancode))
    ensures |Typed(history, scancode)| <= 1 && 0 !in Typed(history, scancode)
  {
    assert Shift in d.status <==> Held(history, SHIFT_KEYS);
    assert scancode < 0x80 ==> scancode % 0x80 == scancode;
    hide StatusTold, Pressed, Released, Held, Entry, IsModifier;
  }

  lemma KeysAppend(answers: seq<Byte>, key: Byte)
    ensures Keys(answers + [key]) == Keys(answers) + if key == 0 then [] else [key]
  {
    assert (answers + [key])[..|answers|] == answers;
  }

  lemma ScanKeepsInv(t: Trace, code: Byte)
    requires Inv(t)
    ensures Inv(Step(t, Scan(code)))
  {
    InterruptStatus(t.driver, t.history, code);
    InterruptQueue(t.driver, t.history, code);
    hide StatusTold, Interrupt, Typed, Keys;
    var typed, queue := Typed(t.history, code), t.driver.queue;
    assert (Keys(t.answers) + queue) + typed == Keys(t.answers) + (queue + typed);
  }

  lemma ReadKeepsInv(t: Trace)
    requires Inv(t)
    ensures Inv(Step(t, Read))
  {
    KeysAppend(t.answers, Answer(t.driver));
    hide StatusTold, Keys;
    var queue := t.driver.queue;
    if queue != [] {
      assert queue[0] != 0 && queue == [queue[0]] + queue[1..];
      assert Keys(t.answers) + queue == (Keys(t.answers) + [queue[0]]) + queue[1..];
    } else {
      assert Keys(t.answers) + [] == Keys(t.answers);
    }
  }

  /** After any interleaving of interrupts and reads: the status bits are what the scancodes say, the keys taken are
      the keys given out followed by the keys in the queue, in order, and at most 63 wait. */
  lemma {:induction false} RunKeepsInv(events: seq<Event>)
    ensures Inv(Run(events))
  {
    if events == [] {
      hide Pressed;
    } else {
      RunKeepsInv(events[..|events| - 1]);
      hide Inv, Step;
      match events[|events| - 1]
      case Scan(code) => ScanKeepsInv(Run(events[..|events| - 1]), code);
      case Read => ReadKeepsInv(Run(events[..|events| - 1]));
    }
  }

  /** kbd_get_key answers 0 exactly when no key waits. */
  lemma ZeroMeansEmpty(events: seq<Event>)
    ensures Answer(Run(events).driver) == 0 <==> Run(events).driver.queue == []
  {
    RunKeepsInv(events);
  }

  // ---- Scancodes that do not matter ----

  /** Scancodes of Ctrl, Alt and the locks, and break codes other than those of Shift. */
  predicate Inert(e: Event) {
    e.Scan? && e.code % 0x80 !in SHIFT_KEYS && (e.code >= 0x80 || IsModifier(e.code))
  }

  function WithoutInert(events: seq<Event>): seq<Event> {
    if events == [] then []
    else
      var n := |events| - 1;
      WithoutInert(events[..n]) + if Inert(events[n]) then [] else [events[n]]
  }

  /** The two runs differ in the other status bits and in the scancodes at most. */
  predicate Alike(t: Trace, u: Trace) {
    && t.driver.queue == u.driver.queue
    && t.accepted == u.accepted
    && t.answers == u.answers
    && Held(t.history, SHIFT_KEYS) == Held(u.history, SHIFT_KEYS)
  }

  lemma InertStep(t: Trace, u: Trace, e: Event)
    requires Inv(t) && Alike(t, u) && Inert(e)
    ensures Alike(Step(t, e), u)
  {
    HeldAppend(t.history, e.code, SHIFT_KEYS);
    InterruptQueue(t.driver, t.history, e.code);
    assert Typed(t.history, e.code) == [];
    assert t.accepted + [] == t.accepted;
    hide Interrupt, Typed, Inv, Held, Inert;
  }

  lemma AlikeStep(t: Trace, u: Trace, e: Event)
    requires Inv(t) && Inv(u) && Alike(t, u)
    ensures Alike(Step(t, e), Step(u, e))
  {
    if e.Scan? {
      HeldAppend(t.history, e.code, SHIFT_KEYS);
      HeldAppend(u.history, e.code, SHIFT_KEYS);
      assert Shift in t.driver.status <==> Shift in u.driver.status;
      hide Released, Pressed, Queued, StatusTold, Held, Presses;
    }
  }

  /** Ctrl, Alt, CapsLock, NumLock, ScrollLock and the release of ordinary keys never change what a reader gets: with
      those scancodes left out of a run, every answer is the same. */
  lemma {:induction false} InertScancodes(events: seq<Event>)
    ensures Alike(Run(events), Run(WithoutInert(events)))
  {
    if events != [] {
      var n := |events| - 1;
      var t, u := Run(events[..n]), Run(WithoutInert(events[..n]));
      InertScancodes(events[..n]);
      RunKeepsInv(events[..n]);
      RunKeepsInv(WithoutInert(events[..n]));
      var fewer := WithoutInert(events[..n]) + [events[n]];
      assert fewer[..|fewer| - 1] == WithoutInert(events[..n]);
      hide Alike, Inv, Step;
      if Inert(events[n]) {
        assert WithoutInert(events) == WithoutInert(events[..n]);
        InertStep(t, u, events[n]);
      } else {
        AlikeStep(t, u, events[n]);
      }
    }
  }

  // ---- The modifier keys ----

  /** The two Shift keys act alike; Ctrl and Alt hold their bits while pressed. */
  lemma HeldKeys(d: Driver)
    requires !d.sawBreakCode
    ensures Interrupt(d, 0x36) == Interrupt(d, 0x2A) == d.(status := d.status + {Shift})
    ensures Interrupt(d, 0xB6) == Interrupt(d, 0xAA) == d.(status := d.status - {Shift})
    ensures Interrupt(d, 0x1D) == d.(status := d.status + {Ctrl}) && Interrupt(d, 0x9D) == d.(status := d.status - {Ctrl})
    ensures Interrupt(d, 0x38) == d.(status := d.status + {Alt}) && Interrupt(d, 0xB8) == d.(status := d.status - {Alt})
  {
  }

  /** Pressing a lock key changes its bit and nothing else, and letting it go nothing at all. */
  lemma LockKeys(d: Driver)
    requires !d.sawBreakCode
    ensures var caps, num, scroll := Interrupt(d, 0x3A), Interrupt(d, 0x45), Interrupt(d, 0x46);
            && caps == d.(status := if Caps in d.status then d.status - {Caps} else d.status + {Caps})
            && num == d.(status := if Num in d.status then d.status - {Num} else d.status + {Num})
            && scroll == d.(status := if Scrl in d.status then d.status - {Scrl} else d.status + {Scrl})
            && Interrupt(d, 0xBA) == Interrupt(d, 0xC5) == Interrupt(d, 0xC6) == d
  {
  }

  // ---- The two tables ----

  /** Escape, Backspace, Tab and Enter queue their control characters, with Shift too. */
  lemma ControlKeys(shift: bool)
    ensures Queued(shift, 0x01) == [27] && Queued(shift, 0x0E) == [8]
    ensures Queued(shift, 0x0F) == [9] && Queued(shift, 0x1C) == [10]
  {
  }

  /** Without Shift the keypad queues Home, Up, PgUp, -, Left, 5, Right, +, End, Down, PgDn, Ins and Del. */
  lemma KeypadKeys(i: nat)
    requires i < 13
    ensures Queued(false, 0x47 + i)
            == [[0x8E, 0x93, 0x90, 45, 0x92, 53, 0x95, 43, 0x8F, 0x94, 0x91, 0x8C, 0x8D][i]]
  {
  }

  /** F1 to F11 and the codes without a key queue nothing, F12 its code, and the key beside the left Shift a backslash. */
  lemma FunctionKeys(shift: bool, code: int)
    requires 0x3B <= code <= 0x44
    ensures Queued(shift, code) == [] && Queued(false, 0x57) == [] && Queued(false, 0x58) == [0x8B]
    ensures Queued(shift, 0x37) == [] && Queued(shift, 0x54) == [] && Queued(shift, 0x55) == [] && Queued(false, 0x56) == [92]
  {
  }

  /** Among the function keys and the keypad, Shift leaves the queued key as it is exactly before code 4A and at the two
      codes without a key. */
  lemma ShiftedKeypad(code: int)
    requires 0x3B <= code <= 0x58 && !IsModifier(code)
    ensures Queued(true, code) == Queued(false, code) <==> code < 0x4A || code == 0x54 || code == 0x55
  {
  }

  /** Behind the missing entry shift_map names the key to the right, but for the backslash at 56. */
  lemma ShiftedKeyToTheRight(code: int)
    requires 0x4A <= code < 0x58
    ensures Queued(true, code) == Queued(false, code + 1) <==> code != 0x55
  {
  }

  /** Ctrl and Alt with Del announce a reboot when Shift is up; with Shift down it takes the key before Del. */
  lemma RebootKey(events: seq<Event>, code: Byte)
    ensures var t := Run(events);
      Rebooting(t.driver, code) <==>
        && Held(t.history, {RAW1_CTRL})
        && Held(t.history, {RAW1_ALT})
        && code == if Held(t.history, SHIFT_KEYS) then 0x52 else 0x53
  {
    RunKeepsInv(events);
  }
}
