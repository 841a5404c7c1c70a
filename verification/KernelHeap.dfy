/** kernel/kheap.c: heap_t and its operations, working on memory and on the index in place. Each method is proved to
    do what the function of the same name in HeapText says; the main results are lemmas about those functions. */
module KernelHeaps {
  import opened Memory
  import opened HeapState
  import HeapText
  import opened OrderedArrays

  lemma PositionIs(index: seq<nat>, a: nat, i: nat)
    requires i <= |index| && (forall j :: 0 <= j < i ==> index[j] != a) && (i < |index| ==> index[i] == a)
    ensures HeapText.PositionOf(index, a) == i
  {
    if i > 0 {
      PositionIs(index[1..], a, i - 1);
    }
  }

  /** After an expansion the index has an entry. */
  lemma GrowLists(s: State, size: nat)
    requires HeapText.NoWrap(s, size) && HeapText.Grow(s, size + OVERHEAD).Next? && 0 < s.end
    ensures HeapText.Endmost(HeapText.Grow(s, size + OVERHEAD).s.index) != 0
  {
    hide Get32, PutHeader, PutFooter, Store32, SizeAt, HeapText.Endmost;
    var g := HeapText.Grow(s, size + OVERHEAD).s;
    if HeapText.Endmost(s.index) == 0 {
      InsertContents<nat>(s.index, s.end, SizeLess(g.mem));
      assert s.end in multiset(g.index);
    }
  }

  lemma FirstFitIs(m: seq<Byte>, index: seq<nat>, size: nat, align: bool, i: nat)
    requires i <= |index|
    requires forall j :: 0 <= j < i ==> !HeapText.Fits(m, index[j], size, align)
    requires i < |index| ==> HeapText.Fits(m, index[i], size, align)
    ensures HeapText.FirstFit(m, index, size, align) == i
  {
    hide HeapText.Fits;
  }

  lemma PageRounding(n: nat)
    ensures n - n % PAGE_SIZE + PAGE_SIZE == HeapText.PageAfter(n)
  {
  }

  lemma NextPage(from: nat, i: nat)
    requires from <= i && (i - from) % PAGE_SIZE == 0
    ensures (i + PAGE_SIZE - from) % PAGE_SIZE == 0
  {
  }

  lemma PageRangeEmpty(start: nat, from: nat, to: nat)
    ensures HeapText.PageRange(start, from, from) == {}
    ensures to <= from ==> HeapText.PageRange(start, from, to) == {}
  {
  }

  lemma OneMultiple(a: nat, b: nat)
    requires a % PAGE_SIZE == 0 && b % PAGE_SIZE == 0 && a <= b < a + PAGE_SIZE
    ensures a == b
  {
  }

  lemma PageRangeStep(start: nat, from: nat, i: nat, to: nat)
    requires from <= i < to && (i - from) % PAGE_SIZE == 0
    ensures var next := if i + PAGE_SIZE < to then i + PAGE_SIZE else to;
            HeapText.PageRange(start, from, next) == HeapText.PageRange(start, from, i) + {U32(start + i)}
  {
    hide U32;
    var next := if i + PAGE_SIZE < to then i + PAGE_SIZE else to;
    assert HeapText.PageAddress(start, i) == U32(start + i);
    forall j {:trigger HeapText.PageAddress(start, j)} | i <= j < next && (j - from) % PAGE_SIZE == 0
      ensures j == i
    {
      OneMultiple(i - from, j - from);
    }
  }

  /** The pages given back on the way from the last page down to, but not including, offset i. */
  function GivenDown(start: nat, length: nat, size: nat, i: int): set<nat> {
    set j | size < j <= length - PAGE_SIZE && i < j && (length - j) % PAGE_SIZE == 0 :: HeapText.PageAddress(start, j)
  }

  lemma GivenBackEmpty(start: nat, length: nat, size: nat, i: int)
    requires length - PAGE_SIZE <= i
    ensures GivenDown(start, length, size, i) == {}
    ensures GivenDown(start, length, size, length - PAGE_SIZE) == {}
  {
  }

  lemma GivenBackStep(start: nat, length: nat, size: nat, i: int)
    requires size < i <= length - PAGE_SIZE && (length - i) % PAGE_SIZE == 0
    ensures GivenDown(start, length, size, i - PAGE_SIZE) == GivenDown(start, length, size, i) + {U32(start + i)}
  {
    assert HeapText.PageAddress(start, i) == U32(start + i);
  }

  lemma GivenBackDone(start: nat, length: nat, size: nat, i: int)
    requires i <= size
    ensures GivenDown(start, length, size, i) == HeapText.GivenBack(start, length, size)
  {
  }

  /** heap_t, the memory it manages, and the pages that own a frame. A failed ASSERT stops the machine: methods
      report it as `halted`, and say nothing about the state after it. */
  class Heap {
    var mem: seq<Byte>
    const index: OrderedArray<nat>
    var startAddress: nat
    var endAddress: nat
    const maxAddress: nat
    var mapped: set<nat>

    ghost predicate Valid()
      reads this, index
    {
      index.Valid()
    }

    ghost function View(): State
      reads this, index, index.data
      requires Valid()
    {
      State(mem, index.Contents(), startAddress, endAddress, maxAddress, mapped)
    }

    /** create_heap past its ASSERTs. */
    constructor Create(mem: seq<Byte>, startAddr: nat, endAddr: nat, max: nat, mapped: set<nat>)
      requires startAddr % PAGE_SIZE == 0 && endAddr % PAGE_SIZE == 0
      ensures Valid() && fresh(index) && fresh(index.data)
      ensures index.maxSize == HeapText.HEAP_INDEX_SIZE && index.data.Length == HeapText.INDEX_ROOM
      ensures HeapText.CreateHeap(mem, startAddr, endAddr, max, mapped) == HeapText.Next(View(), 0)
    {
      hide U32, PutHeader, HeapText.PageAfter, SizeLess;
      PageRounding(U32(startAddr + 4 * HeapText.HEAP_INDEX_SIZE));
      index := new OrderedArray<nat>.Place(HeapText.HEAP_INDEX_SIZE, HeapText.INDEX_MARGIN);
      var start := U32(startAddr + 4 * HeapText.HEAP_INDEX_SIZE);
      if start >= PAGE_SIZE {
        start := start - start % PAGE_SIZE;
        start := U32(start + PAGE_SIZE);
      }
      startAddress, endAddress, maxAddress, this.mapped := start, endAddr, max, mapped;
      this.mem := PutHeader(mem, start, endAddr - start, true);
      new;
      index.Insert(start, SizeLess(this.mem));
    }

    /** find_smallest_hole */
    method FindSmallestHole(size: nat, pageAlign: bool) returns (at: nat)
      requires Valid() && index.data.Length <= HeapText.INDEX_ROOM
      ensures var i := HeapText.FirstFit(mem, index.Contents(), size, pageAlign);
              at == if i == index.size then 0xDEAD_BEEF else i
    {
      var i := 0;
      ghost var all := index.Contents();
      while i < index.size
        invariant i <= index.size
        invariant forall j :: 0 <= j < i ==> !HeapText.Fits(mem, all[j], size, pageAlign)
      {
        var header := index.Lookup(i);
        if pageAlign {
          var location := header;
          var offset := 0;
          if U32(location + HEADER) >= PAGE_SIZE {
            offset := PAGE_SIZE - U32(location + HEADER) % PAGE_SIZE;
          }
          var holeSize := SizeAt(mem, header) - offset;
          if holeSize >= size {
            break;
          }
        } else if SizeAt(mem, header) >= size {
          break;
        }
        i := i + 1;
      }
      FirstFitIs(mem, all, size, pageAlign, i);
      at := if i == index.size then HeapText.NOT_FOUND else i;
    }

    /** expand */
    method Expand(newSize0: nat) returns (halted: bool)
      requires Valid() && newSize0 < WORD_LIMIT
      modifies `endAddress, `mapped
      ensures HeapText.Expand(old(View()), newSize0) == if halted then HeapText.Halted else HeapText.Next(View(), 0)
    {
      hide HeapText.PageAfter, HeapText.PageRange, U32;
      var newSize := newSize0;
      var oldSize := U32(endAddress - startAddress);
      if !(newSize > oldSize) {
        return true;
      }
      PageRounding(newSize);
      if newSize >= PAGE_SIZE {
        newSize := newSize - newSize % PAGE_SIZE;
        newSize := U32(newSize + PAGE_SIZE);
      }
      if !(U32(startAddress + newSize) <= maxAddress) {
        return true;
      }
      var i := oldSize;
      ghost var before := mapped;
      PageRangeEmpty(startAddress, oldSize, newSize);
      while i < newSize
        invariant oldSize <= i && (i - oldSize) % PAGE_SIZE == 0
        invariant mapped == before + HeapText.PageRange(startAddress, oldSize, if i < newSize then i else newSize)
      {
        PageRangeStep(startAddress, oldSize, i, newSize);
        NextPage(oldSize, i);
        mapped := mapped + {U32(startAddress + i)};
        i := i + PAGE_SIZE;
      }
      endAddress := U32(startAddress + newSize);
      return false;
    }

    /** contract */
    method Contract(newSize0: nat) returns (halted: bool, newSize: nat)
      requires Valid() && startAddress + PAGE_SIZE <= endAddress < WORD_LIMIT
      modifies `endAddress, `mapped
      ensures HeapText.Contract(old(View()), newSize0) == if halted then HeapText.Halted else HeapText.Next(View(), newSize)
    {
      hide U32, HeapText.GivenBack, GivenDown;
      newSize := newSize0;
      var oldSize := U32(endAddress - startAddress);
      if !(newSize < oldSize) {
        return true, 0;
      }
      if newSize / PAGE_SIZE % 2 == 1 {
        newSize := PAGE_SIZE;
        newSize := newSize + PAGE_SIZE;
      }
      if newSize < HEAP_MIN_SIZE {
        newSize := HEAP_MIN_SIZE;
      }
      var i := oldSize - PAGE_SIZE;
      ghost var before := mapped;
      GivenBackEmpty(startAddress, oldSize, newSize, oldSize);
      while newSize < i
        invariant i <= oldSize - PAGE_SIZE && (oldSize - i) % PAGE_SIZE == 0
        invariant mapped == before - GivenDown(startAddress, oldSize, newSize, i)
        decreases i
      {
        GivenBackStep(startAddress, oldSize, newSize, i);
        mapped := mapped - {U32(startAddress + i)};
        i := i - PAGE_SIZE;
      }
      GivenBackDone(startAddress, oldSize, newSize, i);
      endAddress := U32(startAddress + newSize);
      return false, newSize;
    }

    /** The loop of alloc that finds the endmost header: the largest index entry, or -1 if there is none. */
    method FindEndmost() returns (idx: int)
      requires Valid()
      ensures var h := HeapText.Endmost(index.Contents());
              if h == 0 then idx == -1 else 0 <= idx < index.size && index.Contents()[idx] == h
    {
      ghost var all := index.Contents();
      var i := 0;
      idx := -1;
      var value := 0;
      while i < index.size
        invariant i <= index.size
        invariant value == HeapText.Endmost(all[..i])
        invariant if value == 0 then idx == -1 else 0 <= idx < i && all[idx] == value
      {
        var tmp := index.Lookup(i);
        assert all[..i + 1][..i] == all[..i];
        if tmp > value {
          value := tmp;
          idx := i;
        }
        i := i + 1;
      }
      assert all[..i] == all;
    }

    /** The loops of free that look for an entry of the index. */
    method PositionOf(a: nat) returns (i: nat)
      requires Valid()
      ensures i == HeapText.PositionOf(index.Contents(), a)
    {
      ghost var all := index.Contents();
      i := 0;
      while i < index.size && index.data[i] != a
        invariant i <= index.size
        invariant forall j :: 0 <= j < i ==> all[j] != a
      {
        i := i + 1;
      }
      PositionIs(all, a, i);
    }

    /** The part of alloc that runs when no hole fits, up to the recursive call. */
    method Grow(newSize: nat) returns (halted: bool)
      requires Valid() && index.size < index.data.Length && newSize < WORD_LIMIT
      modifies this, index, index.data
      ensures Valid() && index.size <= old(index.size) + 1
      ensures HeapText.Grow(old(View()), newSize) == if halted then HeapText.Halted else HeapText.Next(View(), 0)
      ensures HeapText.Endmost(old(index.Contents())) != 0 ==> index.size == old(index.size)
    {
      hide Get32, U32, PutHeader, PutFooter, Store32, SizeAt, SizeLess, InsertBefore, HeapText.Expand, HeapText.Endmost;
      var oldLength := U32(endAddress - startAddress);
      var oldEndAddress := endAddress;
      halted := Expand(U32(oldLength + newSize));
      if halted {
        return;
      }
      var newLength := U32(endAddress - startAddress);
      var idx := FindEndmost();
      if idx == -1 {
        var header := oldEndAddress;
        var size := U32(newLength - oldLength);
        mem := PutHeader(mem, header, size, true);
        mem := PutFooter(mem, oldEndAddress + size, header);
        index.Insert(header, SizeLess(mem));
      } else {
        var header := index.Lookup(idx);
        mem := Store32(mem, header + 8, SizeAt(mem, header) + U32(newLength - oldLength));
        mem := PutFooter(mem, header + SizeAt(mem, header), header);
      }
    }

    /** The part of alloc that cuts the block out of the hole at index position `at`. */
    method Carve(at: nat, size0: nat, pageAlign: bool) returns (p: nat)
      requires Valid() && at < index.size < index.data.Length
      modifies this, index, index.data
      ensures Valid()
      ensures HeapText.Carve(old(View()), at, size0, pageAlign) == HeapText.Next(View(), p)
    {
      hide Get32, U32, PutHeader, PutFooter, SizeAt, HeapText.PlaceBlock;
      var size := size0;
      var newSize := U32(size + OVERHEAD);
      var pos := index.Lookup(at);
      var holeSize := SizeAt(mem, pos);
      if U32(holeSize - newSize) < OVERHEAD {
        size := U32(size + U32(holeSize - newSize));
        newSize := holeSize;
      }
      if pageAlign && pos >= PAGE_SIZE {
        var newLocation := U32(pos + PAGE_SIZE - pos % PAGE_SIZE - HEADER);
        var front := U32(PAGE_SIZE - pos % PAGE_SIZE - HEADER);
        mem := PutHeader(mem, pos, front, true);
        mem := PutFooter(mem, newLocation, pos);
        holeSize := U32(holeSize - SizeAt(mem, pos));
        pos := newLocation;
      } else {
        index.Remove(at);
      }
      p := PlaceBlock(pos, holeSize, size, newSize);
    }

    /** The end of alloc: the block, and the rear hole if anything of the hole is left. */
    method PlaceBlock(block: nat, holeSize: nat, size: nat, newSize: nat) returns (p: nat)
      requires Valid() && index.size < index.data.Length
      modifies `mem, index, index.data
      ensures Valid()
      ensures HeapText.PlaceBlock(old(View()), block, holeSize, size, newSize) == HeapText.Next(View(), p)
    {
      hide Get32, U32, PutHeader, PutFooter, InsertBefore;
      mem := PutHeader(mem, block, newSize, false);
      mem := PutFooter(mem, block + HEADER + size + FOOTER, block);
      var rest := U32(holeSize - newSize);
      if rest > 0 {
        var rear := U32(block + HEADER + size + FOOTER);
        mem := PutHeader(mem, rear, rest, true);
        var footer := U32(rear + rest - FOOTER);
        if footer < endAddress {
          mem := PutFooter(mem, footer + FOOTER, rear);
        }
        index.Insert(rear, SizeLess(mem));
      }
      p := U32(block + HEADER);
    }

    /** alloc */
    method Alloc(size: nat, pageAlign: bool) returns (halted: bool, p: nat)
      requires Valid() && HeapText.NoWrap(View(), size)
      requires 0 < endAddress && index.data.Length <= HeapText.INDEX_ROOM
      requires index.size + (if HeapText.Endmost(index.Contents()) == 0 then 2 else 1) < index.data.Length
      modifies this, index, index.data
      ensures Valid()
      ensures HeapText.Alloc(old(View()), size, pageAlign) == if halted then HeapText.Halted else HeapText.Next(View(), p)
      decreases maxAddress - endAddress
    {
      hide Get32, HeapText.Grow, HeapText.Carve, HeapText.Endmost;
      var newSize := U32(size + OVERHEAD);
      var at := FindSmallestHole(newSize, pageAlign);
      if at == HeapText.NOT_FOUND {
        ghost var before := View();
        halted := Grow(newSize);
        if halted {
          return true, 0;
        }
        HeapText.GrowAdvances(before, size);
        GrowLists(before, size);
        halted, p := Alloc(size, pageAlign);
      } else {
        halted := false;
        p := Carve(at, size, pageAlign);
      }
    }

    /** free: unify left. */
    method MergeLeft(header0: nat, footer: nat) returns (header: nat, add: bool)
      requires Valid()
      modifies `mem
      ensures HeapText.MergeLeft(old(View()), header0, footer) == HeapText.At(View(), header, footer, add)
    {
      hide Get32, U32;
      header, add := header0, true;
      var left := Load32(mem, header - 4);
      if Load32(mem, header - 8) == HEAP_MAGIC && Load8(mem, left + 4) == 1 {
        var cacheSize := SizeAt(mem, header);
        header := left;
        mem := Store32(mem, footer + 4, header);
        mem := Store32(mem, header + 8, SizeAt(mem, header) + cacheSize);
        add := false;
      }
    }

    /** free: unify right, up to the ASSERT that the hole is in the index. */
    method MergeRight(header: nat, footer0: nat, ghost add: bool) returns (halted: bool, footer: nat)
      requires Valid() && index.size < index.data.Length
      modifies `mem, index, index.data
      ensures Valid() && index.size <= old(index.size)
      ensures HeapText.MergeRight(HeapText.At(old(View()), header, footer0, add))
              == if halted then HeapText.Stopped else HeapText.At(View(), header, footer, add)
    {
      hide Get32, U32, Store32, SizeAt, Load32, Load8, DeleteAt, HeapText.PositionOf;
      halted, footer := false, footer0;
      var right := U32(footer + FOOTER);
      if Load32(mem, right) == HEAP_MAGIC && Load8(mem, right + 4) != 0 {
        mem := Store32(mem, header + 8, SizeAt(mem, header) + SizeAt(mem, right));
        footer := U32(right + SizeAt(mem, right) - FOOTER);
        var at := PositionOf(right);
        if !(at < index.size) {
          return true, 0;
        }
        index.Remove(at);
      }
    }

    /** free: contraction when the hole ends the heap. `right` is the header position found on the right before. */
    method Shrink(header: nat, footer0: nat, right: nat, ghost add: bool) returns (halted: bool, footer: nat)
      requires Valid() && index.size < index.data.Length && startAddress + PAGE_SIZE <= endAddress < WORD_LIMIT
      modifies this, index, index.data
      ensures Valid() && index.size <= old(index.size)
      ensures HeapText.Shrink(HeapText.At(old(View()), header, footer0, add), right)
              == if halted then HeapText.Stopped else HeapText.At(View(), header, footer, add)
    {
      hide Get32, U32, Store32, SizeAt, PutFooter, HeapText.Contract;
      halted, footer := false, footer0;
      if U32(footer + FOOTER) == endAddress {
        var oldLength := U32(endAddress - startAddress);
        var newLength;
        halted, newLength := Contract(U32(header - startAddress));
        if halted {
          return;
        }
        var size := U32(SizeAt(mem, header) - U32(oldLength as int - newLength));
        if size > 0 {
          mem := Store32(mem, header + 8, size);
          var end := U32(header + SizeAt(mem, header));
          mem := PutFooter(mem, end, header);
          footer := U32(end - FOOTER);
        } else {
          var at := PositionOf(right);
          if at < index.size {
            index.Remove(at);
          }
        }
      }
    }

    /** free */
    method Free(p: nat) returns (halted: bool)
      requires Valid() && index.size < index.data.Length && startAddress + PAGE_SIZE <= endAddress < WORD_LIMIT
      modifies this, index, index.data
      ensures Valid()
      ensures HeapText.Free(old(View()), p) == if halted then HeapText.Halted else HeapText.Next(View(), 0)
    {
      hide Get32, U32, SizeAt, Load32, Store8, HeapText.MergeLeft, HeapText.MergeRight, HeapText.Shrink, InsertBefore;
      if p == 0 {
        return false;
      }
      var header := U32(p - HEADER);
      var footer := U32(header + SizeAt(mem, header) - FOOTER);
      if Load32(mem, header) != HEAP_MAGIC || Load32(mem, footer) != HEAP_MAGIC {
        return true;
      }
      var right := U32(footer + FOOTER);
      mem := Store8(mem, header + 4, 1);
      var doAdd;
      header, doAdd := MergeLeft(header, footer);
      halted, footer := MergeRight(header, footer, doAdd);
      if halted {
        return;
      }
      halted, footer := Shrink(header, footer, right, doAdd);
      if halted {
        return;
      }
      if doAdd {
        index.Insert(header, SizeLess(mem));
      }
    }
  }
}
