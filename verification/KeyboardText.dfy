/** What typing yields: texts typed on the keyboard come back from its readers. */
module KeyboardTexts {
  import opened Memory
  import opened Keyboards
  import opened KeyboardRuns

  /** The legends of the four rows of character keys and of the space bar, from the first key with a character on. */
  function Legends(row: nat, shift: bool): string {
    match (row, shift)
    case (0, false) => "1234567890-="
    case (0, true) => "!@#$%^&*()_+"
    case (1, false) => "qwertyuiop[]"
    case (1, true) => "QWERTYUIOP{}"
    case (2, false) => "asdfghjkl;'`"
    case (2, true) => "ASDFGHJKL:\"~"
    case (3, false) => "#zxcvbnm,./"
    case (3, true) => "|ZXCVBNM<>?"
    case (4, _) => " "
    case _ => ""
  }

  /** The make code of the first key of a row. */
  function FirstCode(row: nat): nat {
    match row
    case 0 => 0x02
    case 1 => 0x10
    case 2 => 0x1E
    case 3 => 0x2B
    case _ => 0x39
  }

  /** A key of one of the rows, pressed with or without Shift. */
  datatype Stroke = Stroke(row: nat, column: nat, shift: bool)

  predicate OnKeyboard(k: Stroke) {
    k.column < |Legends(k.row, k.shift)|
  }

  function Character(k: Stroke): char
    requires OnKeyboard(k)
  {
    Legends(k.row, k.shift)[k.column]
  }

  function Code(k: Stroke): nat {
    FirstCode(k.row) + k.column
  }

  /** The key queues one byte, which stands for the character. */
  predicate Queues(shift: bool, code: int, c: char) {
    |Queued(shift, code)| == 1 && Queued(shift, code)[0] as int == c as int
  }

  /** What each key queues is its legend, row by row. */
  lemma Digits(i: nat)
    requires i < |Legends(0, false)|
    ensures !IsModifier(FirstCode(0) + i) && FirstCode(0) + i < 0x40
    ensures Queues(false, FirstCode(0) + i, Legends(0, false)[i])
  {
  }

  lemma DigitsShifted(i: nat)
    requires i < |Legends(0, true)|
    ensures !IsModifier(FirstCode(0) + i) && FirstCode(0) + i < 0x40
    ensures Queues(true, FirstCode(0) + i, Legends(0, true)[i])
  {
  }

  lemma Upper(i: nat)
    requires i < |Legends(1, false)|
    ensures !IsModifier(FirstCode(1) + i) && FirstCode(1) + i < 0x40
    ensures Queues(false, FirstCode(1) + i, Legends(1, false)[i])
  {
  }

  lemma UpperShifted(i: nat)
    requires i < |Legends(1, true)|
    ensures !IsModifier(FirstCode(1) + i) && FirstCode(1) + i < 0x40
    ensures Queues(true, FirstCode(1) + i, Legends(1, true)[i])
  {
  }

  lemma Home(i: nat)
    requires i < |Legends(2, false)|
    ensures !IsModifier(FirstCode(2) + i) && FirstCode(2) + i < 0x40
    ensures Queues(false, FirstCode(2) + i, Legends(2, false)[i])
  {
  }

  lemma HomeShifted(i: nat)
    requires i < |Legends(2, true)|
    ensures !IsModifier(FirstCode(2) + i) && FirstCode(2) + i < 0x40
    ensures Queues(true, FirstCode(2) + i, Legends(2, true)[i])
  {
  }

  lemma Lower(i: nat)
    requires i < |Legends(3, false)|
    ensures !IsModifier(FirstCode(3) + i) && FirstCode(3) + i < 0x40
    ensures Queues(false, FirstCode(3) + i, Legends(3, false)[i])
  {
  }

  lemma LowerShifted(i: nat)
    requires i < |Legends(3, true)|
    ensures !IsModifier(FirstCode(3) + i) && FirstCode(3) + i < 0x40
    ensures Queues(true, FirstCode(3) + i, Legends(3, true)[i])
  {
  }

  lemma Space(i: nat)
    requires i < |Legends(4, false)|
    ensures !IsModifier(FirstCode(4) + i) && FirstCode(4) + i < 0x40
    ensures Queues(false, FirstCode(4) + i, Legends(4, false)[i])
  {
  }

  lemma SpaceShifted(i: nat)
    requires i < |Legends(4, true)|
    ensures !IsModifier(FirstCode(4) + i) && FirstCode(4) + i < 0x40
    ensures Queues(true, FirstCode(4) + i, Legends(4, true)[i])
  {
  }

  lemma NoRow(row: nat, shift: bool)
    requires row > 4
    ensures Legends(row, shift) == ""
  {
  }

  /** A key queues its legend, with Shift the upper one. */
  lemma KeyQueues(k: Stroke)
    requires OnKeyboard(k)
    ensures !IsModifier(Code(k)) && Code(k) < 0x40 && Queues(k.shift, Code(k), Character(k))
  {
    hide Queues, IsModifier, Legends, FirstCode;
    match k.row
    case 0 => if k.shift { DigitsShifted(k.column); } else { Digits(k.column); }
    case 1 => if k.shift { UpperShifted(k.column); } else { Upper(k.column); }
    case 2 => if k.shift { HomeShifted(k.column); } else { Home(k.column); }
    case 3 => if k.shift { LowerShifted(k.column); } else { Lower(k.column); }
    case 4 => if k.shift { SpaceShifted(k.column); } else { Space(k.column); }
    case _ => NoRow(k.row, k.shift);
  }

  lemma CodeInRange(k: Stroke)
    requires OnKeyboard(k)
    ensures 0 <= Code(k) < 0x40
  {
    hide Queues, Character;
    KeyQueues(k);
  }

  /** A character as the byte that stands for it. */
  function Letter(k: Stroke): (b: Byte)
    requires OnKeyboard(k)
    ensures b as int == Character(k) as int
  {
    KeyQueues(k);
    Queued(k.shift, Code(k))[0]
  }

  // ---- Texts ----

  /** The interrupts of a key pressed and let go, with Shift held around it if needed. */
  function Pressing(k: Stroke): seq<Event>
    requires OnKeyboard(k)
  {
    CodeInRange(k);
    if k.shift then [Scan(0x2A), Scan(Code(k)), Scan(Code(k) + 0x80), Scan(0xAA)]
    else [Scan(Code(k)), Scan(Code(k) + 0x80)]
  }

  predicate Typable(text: seq<Stroke>) {
    forall i :: 0 <= i < |text| ==> OnKeyboard(text[i])
  }

  function Typing(text: seq<Stroke>): seq<Event>
    requires Typable(text)
  {
    if text == [] then [] else Typing(text[..|text| - 1]) + Pressing(text[|text| - 1])
  }

  /** The characters of a text, as the bytes that stand for them. */
  function Bytes(text: seq<Stroke>): (bytes: seq<Byte>)
    requires Typable(text)
    ensures |bytes| == |text|
    ensures forall i :: 0 <= i < |text| ==> bytes[i] == Letter(text[i])
  {
    seq(|text|, i requires 0 <= i < |text| && Typable(text) => Letter(text[i]))
  }

  function Reads(n: nat): seq<Event> {
    if n == 0 then [] else Reads(n - 1) + [Read]
  }

  lemma RunMore(events: seq<Event>, e: Event)
    ensures Run(events + [e]) == Step(Run(events), e)
  {
    assert (events + [e])[..|events|] == events;
  }

  lemma ShiftKey(q: seq<Byte>)
    ensures Interrupt(Driver({}, false, q), 0x2A) == Driver({Shift}, false, q)
    ensures Interrupt(Driver({Shift}, false, q), 0xAA) == Driver({}, false, q)
  {
  }

  lemma PlainKey(d: Driver, code: int, keys: seq<Byte>)
    requires 0 <= code < 0x80 && !IsModifier(code) && !d.sawBreakCode && Queued(Shift in d.status, code) == keys
    ensures Interrupt(d, code) == d.(queue := Enqueue(d.queue, keys)) && Interrupt(d, code + 0x80) == d
  {
    hide Queued, Enqueue;
  }

  lemma CharacterKey(q: seq<Byte>, k: Stroke)
    requires OnKeyboard(k)
    ensures var d := Driver(if k.shift then {Shift} else {}, false, q);
            && 0 <= Code(k) < 0x40
            && Interrupt(d, Code(k)) == d.(queue := Enqueue(q, [Letter(k)]))
            && Interrupt(d, Code(k) + 0x80) == d
  {
    hide Queued, Character, Enqueue, Code, Interrupt, IsModifier, Letter;
    KeyQueues(k);
    PlainKey(Driver(if k.shift then {Shift} else {}, false, q), Code(k), [Letter(k)]);
  }

  lemma DriverMore(events: seq<Event>, code: Byte)
    ensures var t, u := Run(events), Run(events + [Scan(code)]);
            u.driver == Interrupt(t.driver, code) && u.answers == t.answers
  {
    RunMore(events, Scan(code));
    hide Run, Interrupt;
  }

  /** One key, from an idle keyboard. */
  lemma PressedKey(events: seq<Event>, k: Stroke)
    requires OnKeyboard(k) && Run(events).driver == Driver({}, false, Run(events).driver.queue)
    ensures var t, u := Run(events), Run(events + Pressing(k));
            u.driver == Driver({}, false, Enqueue(t.driver.queue, [Letter(k)])) && u.answers == t.answers
  {
    hide Queued, Run, Character, Enqueue, Interrupt, Code, IsModifier;
    var q := Run(events).driver.queue;
    CharacterKey(q, k);
    KeyQueues(k);
    if k.shift {
      var a := events + [Scan(0x2A)];
      var b := a + [Scan(Code(k))];
      var c := b + [Scan(Code(k) + 0x80)];
      ShiftKey(q);
      ShiftKey(Enqueue(q, [Letter(k)]));
      CharacterKey(Enqueue(q, [Letter(k)]), k);
      DriverMore(events, 0x2A);
      DriverMore(a, Code(k));
      DriverMore(b, Code(k) + 0x80);
      DriverMore(c, 0xAA);
      assert events + Pressing(k) == c + [Scan(0xAA)];
    } else {
      var a := events + [Scan(Code(k))];
      CharacterKey(Enqueue(q, [Letter(k)]), k);
      DriverMore(events, Code(k));
      DriverMore(a, Code(k) + 0x80);
      assert events + Pressing(k) == a + [Scan(Code(k) + 0x80)];
    }
  }

  lemma NothingTyped()
    ensures Run([]) == Start()
  {
  }

  /** The queue of 64 bytes keeps the first 63 characters. */
  lemma {:induction false} TypedWaits(text: seq<Stroke>)
    requires Typable(text)
    ensures Run(Typing(text)).answers == []
    ensures Run(Typing(text)).driver == Driver({}, false, Bytes(text)[..if |text| <= 63 then |text| else 63])
  {
    hide Run, Pressing, Character, Legends, Letter, Queues;
    if text == [] {
      NothingTyped();
    } else {
      var rest, k := text[..|text| - 1], text[|text| - 1];
      TypedWaits(rest);
      PressedKey(Typing(rest), k);
    }
  }

  /** What n reads give from a queue. */
  function Given(q: seq<Byte>, n: nat): (answers: seq<Byte>)
    ensures |answers| == n && forall i :: 0 <= i < n ==> answers[i] == if i < |q| then q[i] else 0
  {
    if n == 0 then [] else Given(q, n - 1) + [if n <= |q| then q[n - 1] else 0]
  }

  lemma OneRead(events: seq<Event>)
    ensures var t, u := Run(events), Run(events + [Read]);
            u.answers == t.answers + [Answer(t.driver)] && u.driver == AfterRead(t.driver)
  {
    RunMore(events, Read);
    hide Run;
  }

  lemma {:induction false} ReadsGive(events: seq<Event>, n: nat)
    ensures var t, u := Run(events), Run(events + Reads(n));
            && u.answers == t.answers + Given(t.driver.queue, n)
            && u.driver.queue == if n <= |t.driver.queue| then t.driver.queue[n..] else []
  {
    hide Run;
    if n == 0 {
      assert events + [] == events;
    } else {
      ReadsGive(events, n - 1);
      OneRead(events + Reads(n - 1));
      assert events + Reads(n) == events + Reads(n - 1) + [Read];
      var t := Run(events);
      assert t.answers + Given(t.driver.queue, n)
             == t.answers + Given(t.driver.queue, n - 1) + [Answer(Run(events + Reads(n - 1)).driver)];
    }
  }

  /** A text of at most 63 characters, typed and then read, comes back as it is; of a longer one the first 63 do. */
  lemma TypedComesBack(text: seq<Stroke>, n: nat)
    requires Typable(text)
    ensures var answers := Run(Typing(text) + Reads(n)).answers;
            && |answers| == n
            && forall i :: 0 <= i < n ==> answers[i] == if i < |text| && i < 63 then Character(text[i]) as int else 0
  {
    hide Run, Typing, Reads, Character, Bytes, Given, Legends;
    TypedWaits(text);
    ReadsGive(Typing(text), n);
  }

  /** With Shift a letter key gives the capital. */
  lemma Capitals(row: nat, column: nat)
    requires OnKeyboard(Stroke(row, column, false)) && 'a' <= Character(Stroke(row, column, false)) <= 'z'
    ensures OnKeyboard(Stroke(row, column, true))
    ensures Character(Stroke(row, column, true)) as int == Character(Stroke(row, column, false)) as int - 32
  {
  }
}
