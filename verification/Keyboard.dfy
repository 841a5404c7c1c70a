/** The keyboard driver of kernel/keyboard.c: a scancode machine that fills a byte queue, and its readers. */
module Keyboards {
  import opened Memory
  import opened Fifos

  // kernel/include/keyboard.h
  const F1: Byte := 0x80
  const F2: Byte := 0x81
  const F3: Byte := 0x82
  const F4: Byte := 0x83
  const F5: Byte := 0x84
  const F6: Byte := 0x85
  const F7: Byte := 0x86
  const F8: Byte := 0x87
  const F9: Byte := 0x88
  const F10: Byte := 0x89
  const F11: Byte := 0x8A
  const F12: Byte := 0x8B
  const INS: Byte := 0x8C
  const DEL: Byte := 0x8D
  const HOME: Byte := 0x8E
  const END: Byte := 0x8F
  const PGUP: Byte := 0x90
  const PGDN: Byte := 0x91
  const LEFT: Byte := 0x92
  const UP: Byte := 0x93
  const DOWN: Byte := 0x94
  const RT: Byte := 0x95
  const SCROL: Byte := 0x96
  const CAPS: Byte := 0x97
  const NUM: Byte := 0x98
  const SHIFT: Byte := 0x99
  const ALT: Byte := 0x9A
  const CTRL: Byte := 0x9B

  const RAW1_CTRL := 0x1D
  const RAW1_LEFT_SHIFT := 0x2A
  const RAW1_RIGHT_SHIFT := 0x36
  const RAW1_ALT := 0x38
  const RAW1_CAPS_LOCK := 0x3A
  const RAW1_NUM_LOCK := 0x45
  const RAW1_SCROLL_LOCK := 0x46

  /** The bits of kbd_status, each a mask of its own. */
  datatype Meta = Alt | Ctrl | Shift | Caps | Num | Scrl

  /** Room in the queue of 64 bytes. */
  const CAPACITY := 63

  /** normal_map, sixteen entries to a row. */
  function NormalRow(row: int): seq<Byte> {
    match row
    case 0 => [0, 0x1B, 0x31, 0x32, 0x33, 0x34, 0x35, 0x36, 0x37, 0x38, 0x39, 0x30, 0x2D, 0x3D, 0x08, 0x09]
    case 1 => [0x71, 0x77, 0x65, 0x72, 0x74, 0x79, 0x75, 0x69, 0x6F, 0x70, 0x5B, 0x5D, 0x0A, CTRL, 0x61, 0x73]
    case 2 => [0x64, 0x66, 0x67, 0x68, 0x6A, 0x6B, 0x6C, 0x3B, 0x27, 0x60, SHIFT, 0x23, 0x7A, 0x78, 0x63, 0x76]
    case 3 => [0x62, 0x6E, 0x6D, 0x2C, 0x2E, 0x2F, SHIFT, 0, ALT, 0x20, CAPS, F1, F2, F3, F4, F5]
    case 4 => [F6, F7, F8, F9, F10, NUM, SCROL, HOME, UP, PGUP, 0x2D, LEFT, 0x35, RT, 0x2B, END]
    case 5 => [DOWN, PGDN, INS, DEL, 0, 0, 0x5C, F11, F12]
    case _ => []
  }

  /** shift_map. The source's row 48 lists seven keys: it has none for the keypad's minus, so every later key stands
      one place early. */
  function ShiftRow(row: int): seq<Byte> {
    match row
    case 0 => [0, 0x1B, 0x21, 0x40, 0x23, 0x24, 0x25, 0x5E, 0x26, 0x2A, 0x28, 0x29, 0x5F, 0x2B, 0x08, 0x09]
    case 1 => [0x51, 0x57, 0x45, 0x52, 0x54, 0x59, 0x55, 0x49, 0x4F, 0x50, 0x7B, 0x7D, 0x0A, 0, 0x41, 0x53]
    case 2 => [0x44, 0x46, 0x47, 0x48, 0x4A, 0x4B, 0x4C, 0x3A, 0x22, 0x7E, 0, 0x7C, 0x5A, 0x58, 0x43, 0x56]
    case 3 => [0x42, 0x4E, 0x4D, 0x3C, 0x3E, 0x3F, 0, 0, 0, 0x20, 0, F1, F2, F3, F4, F5]
    case 4 => [F6, F7, F8, F9, F10, 0, 0, HOME, UP, PGUP, LEFT, 0x35, RT, 0x2B, END, DOWN]
    case 5 => [PGDN, INS, DEL, 0, 0, 0, F11, F12]
    case _ => []
  }

  /** The number of entries of a table: one less in shift_map. */
  function Size(shift: bool): nat {
    if shift then 0x58 else 0x59
  }

  function Entry(shift: bool, code: int): Byte
    requires 0 <= code < Size(shift)
  {
    if shift then ShiftRow(code / 16)[code % 16] else NormalRow(code / 16)[code % 16]
  }

  /** What the driver keeps between interrupts. */
  datatype Driver = Driver(status: set<Meta>, sawBreakCode: bool, queue: seq<Byte>)

  // ---- keyboard_callback as a function ----

  function Toggled(status: set<Meta>, bit: Meta): set<Meta> {
    if bit in status then status - {bit} else status + {bit}
  }

  /** The status word after a modifier is let go. */
  function Released(status: set<Meta>, code: int): set<Meta> {
    if code == RAW1_ALT then status - {Alt}
    else if code == RAW1_CTRL then status - {Ctrl}
    else if code == RAW1_LEFT_SHIFT || code == RAW1_RIGHT_SHIFT then status - {Shift}
    else status
  }

  predicate IsModifier(code: int) {
    || code == RAW1_ALT || code == RAW1_CTRL || code == RAW1_LEFT_SHIFT || code == RAW1_RIGHT_SHIFT
    || code == RAW1_SCROLL_LOCK || code == RAW1_NUM_LOCK || code == RAW1_CAPS_LOCK
  }

  /** The status word after a modifier is pressed: the locks toggle. */
  function Pressed(status: set<Meta>, code: int): set<Meta> {
    if code == RAW1_ALT then status + {Alt}
    else if code == RAW1_CTRL then status + {Ctrl}
    else if code == RAW1_LEFT_SHIFT || code == RAW1_RIGHT_SHIFT then status + {Shift}
    else if code == RAW1_SCROLL_LOCK then Toggled(status, Scrl)
    else if code == RAW1_NUM_LOCK then Toggled(status, Num)
    else if code == RAW1_CAPS_LOCK then Toggled(status, Caps)
    else status
  }

  /** What a key puts into the queue: nothing outside the tables, at a 0 in them, and for F1 to F11. */
  function Queued(shift: bool, code: int): seq<Byte> {
    if !(0 <= code < Size(shift)) then []
    else
      var key := Entry(shift, code);
      if key == 0 || F1 <= key <= F11 then [] else [key]
  }

  function Enqueue(queue: seq<Byte>, keys: seq<Byte>): seq<Byte> {
    if keys != [] && |queue| < CAPACITY then queue + keys else queue
  }

  function Interrupt(d: Driver, scancode: Byte): Driver {
    var code := scancode % 0x80;
    if d.sawBreakCode || scancode >= 0x80 then Driver(Released(d.status, code), false, d.queue)
    else if IsModifier(code) then d.(status := Pressed(d.status, code))
    else d.(queue := Enqueue(d.queue, Queued(Shift in d.status, code)))
  }

  /** The key that the tables take for Del. */
  predicate Rebooter(shift: bool, code: int) {
    code == if shift then 0x52 else 0x53
  }

  lemma NormalDel(code: int)
    requires 0 <= code < 0x59
    ensures Entry(false, code) == DEL <==> Rebooter(false, code)
  {
  }

  lemma ShiftDel(code: int)
    requires 0 <= code < 0x58
    ensures Entry(true, code) == DEL <==> Rebooter(true, code)
  {
  }

  lemma NormalLetter(code: int)
    requires 0 <= code < 0x59 && 0x61 <= Entry(false, code) <= 0x7A
    ensures code < 0x34
  {
  }

  lemma ShiftLetter(code: int)
    requires 0 <= code < 0x58 && 0x41 <= Entry(true, code) <= 0x5A
    ensures code < 0x34
  {
  }

  /** CapsLock exchanges letters only: both tables have an entry for those, and it is not Del. */
  lemma LetterKeys(code: int)
    requires 0 <= code < 0x59
    ensures code < 0x58 && 0x41 <= Entry(true, code) <= 0x5A ==> Entry(false, code) != DEL
    ensures 0x61 <= Entry(false, code) <= 0x7A ==> code < 0x58 && Entry(true, code) != DEL
  {
    if 0x61 <= Entry(false, code) <= 0x7A {
      NormalLetter(code);
      hide Entry;
      ShiftDel(code);
    } else if code < 0x58 && 0x41 <= Entry(true, code) <= 0x5A {
      ShiftLetter(code);
      hide Entry;
      NormalDel(code);
    }
  }

  /** Whether the interrupt announces a reboot. */
  predicate Rebooting(d: Driver, scancode: Byte) {
    && !d.sawBreakCode
    && Ctrl in d.status
    && Alt in d.status
    && Rebooter(Shift in d.status, scancode)
  }

  /** kbd_get_key: 0 when nothing waits. */
  function Answer(d: Driver): Byte {
    if d.queue == [] then 0 else d.queue[0]
  }

  function AfterRead(d: Driver): Driver {
    if d.queue == [] then d else d.(queue := d.queue[1..])
  }

  class Keyboard {
    const buffer: Fifo
    var status: set<Meta>
    var sawBreakCode: bool

    ghost predicate Valid()
      reads this, buffer
    {
      buffer.Valid() && buffer.size == CAPACITY + 1
    }

    ghost function View(): Driver
      requires Valid()
      reads this, buffer, buffer.buffer
    {
      Driver(status, sawBreakCode, buffer.Contents())
    }

    constructor ()
      ensures Valid() && fresh(buffer) && fresh(buffer.buffer) && View() == Driver({}, false, [])
    {
      buffer := new Fifo(64);
      status := {};
      sawBreakCode := false;
    }

    /** keyboard_callback for a make code that is no modifier: the two tables and the queue. */
    method PutKey(code: int) returns (rebooting: bool)
      requires Valid() && 0 <= code < 0x80
      modifies buffer, buffer.buffer
      ensures Valid()
      ensures buffer.Contents() == Enqueue(old(buffer.Contents()), Queued(Shift in status, code))
      ensures rebooting <==> Ctrl in status && Alt in status && Rebooter(Shift in status, code)
    {
      rebooting := false;
      var temp: Byte;
      var converted: Byte;
      var shift := Shift in status;
      if code < Size(shift) {
        if shift {
          ShiftDel(code);
        } else {
          NormalDel(code);
        }
        LetterKeys(code);
      }
      hide Entry, Size, Rebooter;
      if shift {
        if code >= Size(true) {
          return;
        }
        temp := Entry(true, code);
        if temp == 0 {
          return;
        }
        if Caps in status && 0x41 <= temp <= 0x5A {
          temp := Entry(false, code);
        }
        converted := Entry(true, code);
      } else {
        if code >= Size(false) {
          return;
        }
        temp := Entry(false, code);
        if temp == 0 {
          return;
        }
        if Caps in status && 0x61 <= temp <= 0x7A {
          temp := Entry(true, code);
        }
        converted := Entry(false, code);
      }
      if Ctrl in status && Alt in status && temp == DEL {
        rebooting := true;
      }
      if code > 0x58 {
        return;
      }
      assert Queued(shift, code) == if F1 <= converted <= F11 then [] else [converted];
      hide Queued;
      if !(F1 <= converted <= F11) {
        var result := buffer.Insert(converted);
        assert buffer.Contents() == Enqueue(old(buffer.Contents()), [converted]);
      }
    }

    /** keyboard_callback, the scancode being what the port delivers. */
    method Callback(scancode: Byte) returns (rebooting: bool)
      requires Valid()
      modifies this, buffer, buffer.buffer
      ensures Valid() && View() == Interrupt(old(View()), scancode) && rebooting == Rebooting(old(View()), scancode)
    {
      hide Queued, Enqueue;
      var code: int := scancode;
      rebooting := false;
      if code >= 0x80 {
        sawBreakCode := true;
        code := code % 0x80;
      }
      if sawBreakCode {
        if code == RAW1_ALT {
          status := status - {Alt};
        } else if code == RAW1_CTRL {
          status := status - {Ctrl};
        } else if code == RAW1_LEFT_SHIFT || code == RAW1_RIGHT_SHIFT {
          status := status - {Shift};
        }
        assert status == Released(old(status), code);
        hide Released;
        sawBreakCode := false;
        return;
      }
      hide Released;
      if code == RAW1_ALT {
        status := status + {Alt};
        return;
      }
      if code == RAW1_CTRL {
        status := status + {Ctrl};
        return;
      }
      if code == RAW1_LEFT_SHIFT || code == RAW1_RIGHT_SHIFT {
        status := status + {Shift};
        return;
      }
      if code == RAW1_SCROLL_LOCK {
        status := Toggled(status, Scrl);
        return;
      }
      if code == RAW1_NUM_LOCK {
        status := Toggled(status, Num);
        return;
      }
      if code == RAW1_CAPS_LOCK {
        status := Toggled(status, Caps);
        return;
      }
      rebooting := PutKey(code);
    }

    /** kbd_get_key. */
    method GetKey() returns (key: Byte)
      requires Valid()
      modifies buffer
      ensures Valid() && key == Answer(old(View())) && View() == AfterRead(old(View()))
    {
      var result;
      result, key := buffer.Get(0);
    }

    /** kbd_keys_available: in spite of its name it is 1 when no key waits. */
    method KeysAvailable() returns (k: int)
      requires Valid()
      ensures k == if View().queue == [] then 1 else 0
    {
      k := buffer.Empty();
    }
  }
}
