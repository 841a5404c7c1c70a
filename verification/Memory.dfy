/** Byte-addressed memory, the kernel heap's range, and the two records a heap keeps in memory (kernel/include/kheap.h):
    header_t { magic at 0, is_hole at 4, size at 8 } of 12 bytes, footer_t { magic at 0, header at 4 } of 8. */
module Memory {

  type Byte = x: int | 0 <= x < 256

  const WORD_LIMIT := 0x1_0000_0000
  const PAGE_SIZE := 4096

  const HEAP_MAGIC := 0x123890AB
  const HEADER := 12
  const FOOTER := 8
  const OVERHEAD := HEADER + FOOTER

  /** The address range of the kernel's heap. */
  const KHEAP_START := 0x0100_0000
  const KHEAP_INITIAL_SIZE := 0x0010_0000
  const KHEAP_MAX := KHEAP_START + 0x00FF_F000

  /** Reduction of a 32-bit result. */
  function U32(x: int): (r: nat)
    ensures r < WORD_LIMIT
    ensures 0 <= x < WORD_LIMIT ==> r == x
    ensures -WORD_LIMIT <= x < 0 ==> r == x + WORD_LIMIT
    ensures WORD_LIMIT <= x < 2 * WORD_LIMIT ==> r == x - WORD_LIMIT
  {
    x % WORD_LIMIT
  }

  /** The two memories agree on every byte outside [lo, hi). */
  ghost predicate SameOutside(m: seq<Byte>, m': seq<Byte>, lo: int, hi: int) {
    && |m| == |m'|
    && forall x {:trigger m'[x]} :: 0 <= x < |m| && !(lo <= x < hi) ==> m'[x] == m[x]
  }

  /** The two memories agree on every byte of [lo, hi). */
  ghost predicate SameWithin(m: seq<Byte>, m': seq<Byte>, lo: int, hi: int) {
    && |m| == |m'|
    && forall x {:trigger m'[x]} :: 0 <= x < |m| && lo <= x < hi ==> m'[x] == m[x]
  }

  /** The little-endian value of the k bytes at `a`. */
  function Value(m: seq<Byte>, a: nat, k: nat): nat
    requires a + k <= |m|
    decreases |m| - a
  {
    if k == 0 then 0 else m[a] as int + 0x100 * Value(m, a + 1, k - 1)
  }

  lemma {:induction false} ValueKept(m: seq<Byte>, m': seq<Byte>, a: nat, k: nat)
    requires a + k <= |m| && SameWithin(m, m', a, a + k)
    ensures Value(m', a, k) == Value(m, a, k)
    decreases k
  {
    if k > 0 {
      ValueKept(m, m', a + 1, k - 1);
    }
  }

  lemma ValueOfWord(m: seq<Byte>, a: nat)
    requires a + 4 <= |m|
    ensures Value(m, a, 4)
            == m[a] as int + 0x100 * m[a + 1] as int + 0x1_0000 * m[a + 2] as int + 0x100_0000 * m[a + 3] as int
  {
    assert Value(m, a + 3, 1) == m[a + 3] as int;
    assert Value(m, a + 2, 2) == m[a + 2] as int + 0x100 * Value(m, a + 3, 1);
  }

  /** The little-endian word at `a`. */
  function Get32(m: seq<Byte>, a: nat): (w: nat)
    requires a + 4 <= |m|
    ensures w < WORD_LIMIT
  {
    ValueOfWord(m, a);
    Value(m, a, 4)
  }

  lemma WordKept(m: seq<Byte>, m': seq<Byte>, a: nat)
    requires a + 4 <= |m| && SameWithin(m, m', a, a + 4)
    ensures Get32(m', a) == Get32(m, a)
  {
    ValueKept(m, m', a, 4);
  }

  /** Memory after storing the word `v` at `a`. */
  function Put32(m: seq<Byte>, a: nat, v: nat): (r: seq<Byte>)
    requires a + 4 <= |m| && v < WORD_LIMIT
    ensures SameOutside(m, r, a, a + 4)
    ensures Get32(r, a) == v
  {
    var b0, b1, b2, b3 := v % 0x100, v / 0x100 % 0x100, v / 0x1_0000 % 0x100, v / 0x100_0000;
    assert v / 0x1_0000 == v / 0x100 / 0x100 && v / 0x100_0000 == v / 0x1_0000 / 0x100;
    var r := m[a := b0][a + 1 := b1][a + 2 := b2][a + 3 := b3];
    ValueOfWord(r, a);
    r
  }

  /** A load at a computed address. An access that would straddle the top of memory reads 0. */
  function Load32(m: seq<Byte>, a: int): (w: nat)
    ensures w < WORD_LIMIT
  {
    if U32(a) + 4 <= |m| then Get32(m, U32(a)) else 0
  }

  /** A store at a computed address. An access that would straddle the top of memory is dropped. */
  function Store32(m: seq<Byte>, a: int, v: int): (r: seq<Byte>)
    ensures |r| == |m|
    ensures 0 <= a && a + 4 <= |m| <= WORD_LIMIT ==> SameOutside(m, r, a, a + 4) && Get32(r, a) == U32(v)
  {
    if U32(a) + 4 <= |m| then Put32(m, U32(a), U32(v)) else m
  }

  function Load8(m: seq<Byte>, a: int): Byte {
    if U32(a) < |m| then m[U32(a)] else 0
  }

  function Store8(m: seq<Byte>, a: int, v: Byte): (r: seq<Byte>)
    ensures |r| == |m|
  {
    if U32(a) < |m| then m[U32(a) := v] else m
  }

  predicate HeaderAt(m: seq<Byte>, a: nat, size: nat, hole: bool) {
    && a + HEADER <= |m|
    && Get32(m, a) == HEAP_MAGIC
    && m[a + 4] == (if hole then 1 else 0)
    && Get32(m, a + 8) == size
  }

  /** A footer ending at `end` that points to `header`. */
  predicate FooterAt(m: seq<Byte>, end: nat, header: nat) {
    && FOOTER <= end <= |m|
    && Get32(m, end - 8) == HEAP_MAGIC
    && Get32(m, end - 4) == header
  }

  /** The three stores that make a header. */
  function PutHeader(m: seq<Byte>, a: int, size: int, hole: bool): (r: seq<Byte>)
    ensures |r| == |m|
    ensures 0 <= a && a + HEADER <= |m| <= WORD_LIMIT ==>
      SameOutside(m, r, a, a + HEADER) && HeaderAt(r, a, U32(size), hole)
  {
    var m1 := Store32(m, a, HEAP_MAGIC);
    var m2 := Store8(m1, a + 4, if hole then 1 else 0);
    var r := Store32(m2, a + 8, size);
    assert 0 <= a && a + HEADER <= |m| <= WORD_LIMIT ==> Get32(r, a) == HEAP_MAGIC by {
      if 0 <= a && a + HEADER <= |m| <= WORD_LIMIT {
        WordKept(m1, m2, a);
        WordKept(m2, r, a);
      }
    }
    r
  }

  /** The two stores that make the footer ending at `end`. */
  function PutFooter(m: seq<Byte>, end: int, header: int): (r: seq<Byte>)
    ensures |r| == |m|
    ensures FOOTER <= end <= |m| <= WORD_LIMIT ==>
      SameOutside(m, r, end - FOOTER, end) && FooterAt(r, end, U32(header))
  {
    var m1 := Store32(m, end - 8, HEAP_MAGIC);
    var r := Store32(m1, end - 4, header);
    assert FOOTER <= end <= |m| <= WORD_LIMIT ==> Get32(r, end - 8) == HEAP_MAGIC by {
      if FOOTER <= end <= |m| <= WORD_LIMIT {
        WordKept(m1, r, end - 8);
      }
    }
    r
  }

  /** A header byte by byte: the magic number, lowest byte first, the flag, and the size; the three bytes behind the
      flag are not written. */
  lemma HeaderBytes(m: seq<Byte>, a: nat, size: nat, hole: bool)
    requires a + 12 <= |m| <= WORD_LIMIT && size < WORD_LIMIT
    ensures var m' := PutHeader(m, a, size, hole);
            && m'[a] == 0xAB && m'[a + 1] == 0x90 && m'[a + 2] == 0x38 && m'[a + 3] == 0x12
            && m'[a + 4] == (if hole then 1 else 0)
            && m'[a + 5] == m[a + 5] && m'[a + 6] == m[a + 6] && m'[a + 7] == m[a + 7]
            && m'[a + 8] as int + 0x100 * m'[a + 9] as int + 0x1_0000 * m'[a + 10] as int + 0x100_0000 * m'[a + 11] as int
               == size
  {
    var m' := PutHeader(m, a, size, hole);
    ValueOfWord(m', a);
    ValueOfWord(m', a + 8);
    var m1 := Store32(m, a, HEAP_MAGIC);
    var m2 := Store8(m1, a + 4, if hole then 1 else 0);
    assert SameOutside(m1, m2, a + 4, a + 5) && SameOutside(m2, m', a + 8, a + 12);
  }

  /** And a footer: the magic number and the address of the header. */
  lemma FooterBytes(m: seq<Byte>, end: nat, header: nat)
    requires 8 <= end <= |m| <= WORD_LIMIT && header < WORD_LIMIT
    ensures var m' := PutFooter(m, end, header);
            && m'[end - 8] == 0xAB && m'[end - 7] == 0x90 && m'[end - 6] == 0x38 && m'[end - 5] == 0x12
            && m'[end - 4] as int + 0x100 * m'[end - 3] as int + 0x1_0000 * m'[end - 2] as int
               + 0x100_0000 * m'[end - 1] as int == header
  {
    var m' := PutFooter(m, end, header);
    ValueOfWord(m', end - 8);
    ValueOfWord(m', end - 4);
  }

  lemma HeaderKept(m: seq<Byte>, m': seq<Byte>, a: nat, size: nat, hole: bool)
    requires HeaderAt(m, a, size, hole) && SameWithin(m, m', a, a + HEADER)
    ensures HeaderAt(m', a, size, hole)
  {
    WordKept(m, m', a);
    WordKept(m, m', a + 8);
  }

  lemma FooterKept(m: seq<Byte>, m': seq<Byte>, end: nat, header: nat)
    requires FooterAt(m, end, header) && SameWithin(m, m', end - FOOTER, end)
    ensures FooterAt(m', end, header)
  {
    WordKept(m, m', end - 8);
    WordKept(m, m', end - 4);
  }
}
