/** The ordered index of kernel/ordered_array.c: an array kept in order by shifting in place.
    `InsertBefore` and `DeleteAt` are the sequence operations that the two shifting loops implement. */
module OrderedArrays {

  /** The first position whose element is not below `item`: where the search loop stops. */
  function FirstNotLess<T>(s: seq<T>, item: T, less: (T, T) -> bool): (p: nat)
    ensures p <= |s|
    ensures forall i :: 0 <= i < p ==> less(s[i], item)
    ensures p < |s| ==> !less(s[p], item)
  {
    if s == [] || !less(s[0], item) then 0 else 1 + FirstNotLess(s[1..], item, less)
  }

  function InsertBefore<T>(s: seq<T>, item: T, less: (T, T) -> bool): seq<T> {
    var p := FirstNotLess(s, item, less);
    s[..p] + [item] + s[p..]
  }

  function DeleteAt<T>(s: seq<T>, i: nat): seq<T>
    requires i < |s|
  {
    s[..i] + s[i + 1..]
  }

  /** No element is below one that stands before it. */
  ghost predicate Ordered<T>(s: seq<T>, less: (T, T) -> bool) {
    forall i, j :: 0 <= i < j < |s| ==> !less(s[j], s[i])
  }

  /** The laws a comparison needs for an ordered index to make sense. */
  ghost predicate StrictWeakOrder<T(!new)>(less: (T, T) -> bool) {
    && (forall a, b :: less(a, b) ==> !less(b, a))
    && (forall a, b, c :: less(a, b) ==> less(a, c) || less(c, b))
  }

  /** The search position depends only on what the comparison says about the elements present. */
  lemma FirstNotLessUnique<T>(s: seq<T>, item: T, less: (T, T) -> bool, p: nat)
    requires p <= |s|
    requires forall i :: 0 <= i < p ==> less(s[i], item)
    requires p < |s| ==> !less(s[p], item)
    ensures FirstNotLess(s, item, less) == p
  {
  }

  lemma InsertKeepsOrder<T(!new)>(s: seq<T>, item: T, less: (T, T) -> bool)
    requires StrictWeakOrder(less)
    requires Ordered(s, less)
    ensures Ordered(InsertBefore(s, item, less), less)
    ensures multiset(InsertBefore(s, item, less)) == multiset(s) + multiset{item}
  {
    var p := FirstNotLess(s, item, less);
    var t := InsertBefore(s, item, less);
    assert s == s[..p] + s[p..];
    forall i, j | 0 <= i < j < |t|
      ensures !less(t[j], t[i])
    {
      if i == p && p < j - 1 {
        // negative transitivity through the element the search stopped at
        assert !less(s[j - 1], s[p]) && !less(s[p], item);
      }
    }
  }

  lemma DeleteKeepsOrder<T(!new)>(s: seq<T>, i: nat, less: (T, T) -> bool)
    requires i < |s|
    requires Ordered(s, less)
    ensures Ordered(DeleteAt(s, i), less)
    ensures multiset(DeleteAt(s, i)) == multiset(s) - multiset{s[i]}
  {
    assert s == s[..i] + [s[i]] + s[i + 1..];
    var t := DeleteAt(s, i);
    forall a, b | 0 <= a < b < |t|
      ensures !less(t[b], t[a])
    {
      assert t[a] == s[if a < i then a else a + 1];
      assert t[b] == s[if b < i then b else b + 1];
    }
  }

  lemma InsertContents<T>(s: seq<T>, item: T, less: (T, T) -> bool)
    ensures |InsertBefore(s, item, less)| == |s| + 1
    ensures multiset(InsertBefore(s, item, less)) == multiset(s) + multiset{item}
  {
    var p := FirstNotLess(s, item, less);
    assert s == s[..p] + s[p..];
  }

  lemma DeleteContents<T>(s: seq<T>, i: nat)
    requires i < |s|
    ensures |DeleteAt(s, i)| == |s| - 1
    ensures multiset(DeleteAt(s, i)) == multiset(s) - multiset{s[i]}
  {
    assert s == s[..i] + [s[i]] + s[i + 1..];
  }

  /** Removing what was just inserted gives the former index back. */
  lemma DeleteUndoesInsert<T>(s: seq<T>, item: T, less: (T, T) -> bool)
    ensures var p := FirstNotLess(s, item, less);
            InsertBefore(s, item, less)[p] == item && DeleteAt(InsertBefore(s, item, less), p) == s
  {
    var p := FirstNotLess(s, item, less);
    assert DeleteAt(InsertBefore(s, item, less), p) == s[..p] + s[p..] == s;
  }

  /** An array whose elements from position p on have moved up one place, with the item put in. */
  lemma ShiftedUp<T>(before: seq<T>, after: seq<T>, n: nat, p: nat, item: T, less: (T, T) -> bool)
    requires n < |before| == |after| && p <= n && FirstNotLess(before[..n], item, less) == p && after[p] == item
    requires forall j :: 0 <= j < p ==> after[j] == before[j]
    requires forall j :: p < j <= n ==> after[j] == before[j - 1]
    ensures after[..n + 1] == InsertBefore(before[..n], item, less)
  {
  }

  /** ordered_array_t. `data` is the memory from the array's address on: maxSize elements, and what lies behind them. No
      operation looks at maxSize, so a full array goes on into the memory behind it. The comparison is an argument of
      `Insert`: the one the heap stores reads memory through its arguments, so its answers are those of the moment of
      the call. */
  class OrderedArray<T(0)> {
    const data: array<T>
    const maxSize: nat
    var size: nat

    ghost predicate Valid()
      reads this
    {
      size <= data.Length && maxSize <= data.Length
    }

    ghost function Contents(): seq<T>
      reads this, data
      requires Valid()
    {
      data[..size]
    }

    /** place_ordered_array, with room for `behind` more elements behind the array. */
    constructor Place(maxSize: nat, behind: nat)
      ensures Valid() && fresh(data) && data.Length == maxSize + behind && this.maxSize == maxSize && Contents() == []
    {
      this.maxSize := maxSize;
      data := new T[maxSize + behind];
      size := 0;
    }

    /** insert_ordered_array. Both branches store at `data[size]`, in a full array the element behind it. */
    method Insert(item: T, less: (T, T) -> bool)
      requires Valid() && size < data.Length
      modifies `size, data
      ensures Valid() && size == old(size) + 1
      ensures Contents() == InsertBefore(old(Contents()), item, less)
      ensures forall j :: old(size) < j < data.Length ==> data[j] == old(data[j])
    {
      hide InsertBefore, FirstNotLess;
      ghost var s, before := Contents(), data[..];
      var at := 0;
      while at < size && less(data[at], item)
        invariant at <= size
        invariant forall i :: 0 <= i < at ==> less(s[i], item)
      {
        at := at + 1;
      }
      FirstNotLessUnique(s, item, less, at);
      ghost var p := at;
      if at == size {
        data[size] := item;
        size := size + 1;
      } else {
        var tmp := data[at];
        data[at] := item;
        while at < size
          invariant size == old(size)
          invariant p <= at <= size
          invariant tmp == before[at]
          invariant data[p] == item
          invariant forall j :: 0 <= j < p ==> data[j] == before[j]
          invariant forall j :: p < j <= at ==> data[j] == before[j - 1]
          invariant forall j :: at < j < data.Length ==> data[j] == before[j]
        {
          at := at + 1;
          var tmp2 := data[at];
          data[at] := tmp;
          tmp := tmp2;
        }
        size := size + 1;
      }
      ShiftedUp(before, data[..], size - 1, p, item, less);
    }

    /** lookup_ordered_array */
    method Lookup(i: nat) returns (item: T)
      requires Valid() && i < size
      ensures item == Contents()[i]
    {
      item := data[i];
    }

    /** remove_ordered_array. The loop reads one past the last element, in a full array behind it. An index past the end
        drops the last element. */
    method Remove(i: nat)
      requires Valid() && 0 < size < data.Length
      modifies `size, data
      ensures Valid() && size == old(size) - 1
      ensures Contents() == DeleteAt(old(Contents()), if i < old(size) then i else old(size) - 1)
      ensures forall j :: old(size) <= j < data.Length ==> data[j] == old(data[j])
    {
      ghost var before := data[..];
      var j := i;
      while j < size
        invariant size == old(size)
        invariant i <= j
        invariant i < size ==> j <= size
        invariant forall k :: 0 <= k < data.Length && (k < i || j <= k) ==> data[k] == before[k]
        invariant forall k :: size <= k < data.Length ==> data[k] == before[k]
        invariant forall k :: i <= k < j && k < size ==> data[k] == before[k + 1]
      {
        data[j] := data[j + 1];
        j := j + 1;
      }
      size := size - 1;
    }
  }
}
