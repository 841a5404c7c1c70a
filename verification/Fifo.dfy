/** The byte queue of kernel/include/queue.h: a ring that leaves one place free. */
module Fifos {
  import opened Memory

  class Fifo {
    const buffer: array<Byte>
    const size: int
    var inPtr: int
    var outPtr: int

    ghost predicate Valid()
      reads this
    {
      size == buffer.Length && 0 <= inPtr < size && 0 <= outPtr < size
    }

    /** The bytes in the queue, oldest first. */
    ghost function Contents(): seq<Byte>
      requires Valid()
      reads this, buffer
    {
      if outPtr <= inPtr then buffer[outPtr..inPtr] else buffer[outPtr..] + buffer[..inPtr]
    }

    constructor (n: nat)
      requires 0 < n
      ensures Valid() && fresh(buffer) && size == n && Contents() == []
    {
      buffer := new Byte[n];
      size := n;
      inPtr := 0;
      outPtr := 0;
    }

    /** fifo_insert: refused with -1 exactly when size - 1 bytes wait. */
    method Insert(key: Byte) returns (result: int)
      requires Valid()
      modifies `inPtr, buffer
      ensures Valid()
      ensures result == if |old(Contents())| == size - 1 then -1 else 0
      ensures Contents() == if result == 0 then old(Contents()) + [key] else old(Contents())
    {
      var ptr := inPtr + 1;
      if ptr >= size {
        ptr := 0;
      }
      if ptr == outPtr {
        return -1;
      }
      buffer[inPtr] := key;
      inPtr := ptr;
      return 0;
    }

    /** fifo_get: the oldest byte, or -1 with the caller's variable as it was. */
    method Get(key0: Byte) returns (result: int, key: Byte)
      requires Valid()
      modifies `outPtr
      ensures Valid()
      ensures old(Contents()) == [] ==> result == -1 && key == key0 && Contents() == []
      ensures old(Contents()) != [] ==> result == 0 && [key] + Contents() == old(Contents())
    {
      if inPtr == outPtr {
        return -1, key0;
      }
      key := buffer[outPtr];
      outPtr := outPtr + 1;
      if outPtr >= size {
        outPtr := 0;
      }
      result := 0;
    }

    /** fifo_empty. */
    method Empty() returns (result: int)
      requires Valid()
      ensures result == if Contents() == [] then 1 else 0
    {
      return if inPtr == outPtr then 1 else 0;
    }
  }
}
