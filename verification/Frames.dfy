/** The frame bitmap of kernel/paging.c: one bit a frame, in 32-bit words. */
module Frames {
  import opened Memory

  const ULONG_MAX := 0xFFFF_FFFF

  /** Frame numbers fit the 20 bits a page entry has for them. */
  const FRAME_LIMIT := 0x10_0000

  function Mask(offset: nat): bv32
    requires offset < 32
  {
    1 << offset
  }

  /** The lowest bit stands for the lowest frame of a word. */
  lemma LowestFirst()
    ensures Mask(0) == 1 && Mask(1) == 2 && Mask(30) == 0x4000_0000 && Mask(31) == 0x8000_0000
  {
  }

  predicate BitSet(w: bv32, offset: nat)
    requires offset < 32
  {
    w & Mask(offset) != 0
  }

  function WithBit(w: bv32, offset: nat): bv32
    requires offset < 32
  {
    w | Mask(offset)
  }

  function WithoutBit(w: bv32, offset: nat): bv32
    requires offset < 32
  {
    w & !Mask(offset)
  }

  /** The frames whose bit is set. */
  function Used(words: seq<bv32>): set<nat> {
    set f | 0 <= f < 32 * |words| && BitSet(words[f / 32], f % 32)
  }

  /** An offset in the five bits it has. */
  lemma FiveBits(a: nat) returns (x: bv5)
    requires a < 32
    ensures Mask(a) == 1 << x && x as nat == a
  {
    x := a as bv5;
  }

  lemma OneHot(x: bv5, y: bv5)
    ensures (1 as bv32) << x != 0
    ensures x != y ==> ((1 as bv32) << x) & (1 << y) == 0
  {
  }

  /** The masks of two offsets have no bit in common. */
  lemma MasksDiffer(a: nat, b: nat)
    requires a < 32 && b < 32
    ensures Mask(a) != 0
    ensures a != b ==> Mask(a) & Mask(b) == 0
  {
    var x := FiveBits(a);
    var y := FiveBits(b);
    hide Mask;
    OneHot(x, y);
  }

  lemma SameBit(w: bv32, a: nat)
    requires a < 32
    ensures BitSet(WithBit(w, a), a) && !BitSet(WithoutBit(w, a), a)
  {
    MasksDiffer(a, a);
    hide Mask;
    assert WithBit(w, a) & Mask(a) == Mask(a) && WithoutBit(w, a) & Mask(a) == 0;
  }

  lemma OtherMask(w: bv32, a: nat, b: nat)
    requires a < 32 && b < 32 && Mask(a) & Mask(b) == 0
    ensures WithBit(w, a) & Mask(b) == w & Mask(b) && WithoutBit(w, a) & Mask(b) == w & Mask(b)
  {
    hide Mask;
  }

  lemma OtherBitSet(w: bv32, a: nat, b: nat)
    requires a < 32 && b < 32 && a != b
    ensures BitSet(WithBit(w, a), b) <==> BitSet(w, b)
  {
    hide Mask, WithBit, WithoutBit;
    MasksDiffer(a, b);
    OtherMask(w, a, b);
  }

  lemma OtherBitCleared(w: bv32, a: nat, b: nat)
    requires a < 32 && b < 32 && a != b
    ensures BitSet(WithoutBit(w, a), b) <==> BitSet(w, b)
  {
    hide Mask, WithBit, WithoutBit;
    MasksDiffer(a, b);
    OtherMask(w, a, b);
  }

  /** Setting or clearing a bit changes that bit alone. */
  lemma OneBit(w: bv32, a: nat, b: nat)
    requires a < 32 && b < 32
    ensures BitSet(WithBit(w, a), b) <==> a == b || BitSet(w, b)
    ensures BitSet(WithoutBit(w, a), b) <==> a != b && BitSet(w, b)
  {
    hide BitSet, WithBit, WithoutBit;
    if a == b {
      SameBit(w, a);
    } else {
      OtherBitSet(w, a, b);
      OtherBitCleared(w, a, b);
    }
  }

  lemma EveryBit(w: bv32)
    requires forall offset: nat :: offset < 32 ==> BitSet(w, offset)
    ensures w == 0xFFFF_FFFF
  {
    assert BitSet(w, 0) && BitSet(w, 1) && BitSet(w, 2) && BitSet(w, 3) && BitSet(w, 4) && BitSet(w, 5) && BitSet(w, 6)
      && BitSet(w, 7) && BitSet(w, 8) && BitSet(w, 9) && BitSet(w, 10) && BitSet(w, 11) && BitSet(w, 12)
      && BitSet(w, 13) && BitSet(w, 14) && BitSet(w, 15) && BitSet(w, 16) && BitSet(w, 17) && BitSet(w, 18)
      && BitSet(w, 19) && BitSet(w, 20) && BitSet(w, 21) && BitSet(w, 22) && BitSet(w, 23) && BitSet(w, 24)
      && BitSet(w, 25) && BitSet(w, 26) && BitSet(w, 27) && BitSet(w, 28) && BitSet(w, 29) && BitSet(w, 30)
      && BitSet(w, 31);
  }

  lemma OnesSet(offset: nat)
    requires offset < 32
    ensures BitSet(0xFFFF_FFFF, offset)
  {
  }

  /** A word equals all ones exactly when every bit is set: the test that lets the search skip a word. */
  lemma AllOnes(w: bv32)
    ensures w == 0xFFFF_FFFF <==> forall offset: nat :: offset < 32 ==> BitSet(w, offset)
  {
    if w == 0xFFFF_FFFF {
      forall offset: nat | offset < 32
        ensures BitSet(w, offset)
      {
        OnesSet(offset);
      }
    } else if forall offset: nat :: offset < 32 ==> BitSet(w, offset) {
      EveryBit(w);
    }
  }

  /** Setting a bit of a word adds exactly its frame to the used frames. */
  lemma UsedAfterSet(words: seq<bv32>, i: nat, o: nat, w: bv32)
    requires i < |words| && o < 32
    requires forall b: nat :: b < 32 ==> (BitSet(w, b) <==> b == o || BitSet(words[i], b))
    ensures Used(words[i := w]) == Used(words) + {32 * i + o}
  {
    hide BitSet;
  }

  /** Clearing a bit of a word takes exactly its frame out. */
  lemma UsedAfterClear(words: seq<bv32>, i: nat, o: nat, w: bv32)
    requires i < |words| && o < 32
    requires forall b: nat :: b < 32 ==> (BitSet(w, b) <==> b != o && BitSet(words[i], b))
    ensures Used(words[i := w]) == Used(words) - {32 * i + o}
  {
    hide BitSet;
  }

  lemma SettingBits(w: bv32, o: nat)
    requires o < 32
    ensures forall b: nat :: b < 32 ==> (BitSet(WithBit(w, o), b) <==> b == o || BitSet(w, b))
    ensures forall b: nat :: b < 32 ==> (BitSet(WithoutBit(w, o), b) <==> b != o && BitSet(w, b))
  {
    hide BitSet, WithBit, WithoutBit;
    forall b: nat | b < 32
      ensures BitSet(WithBit(w, o), b) <==> b == o || BitSet(w, b)
      ensures BitSet(WithoutBit(w, o), b) <==> b != o && BitSet(w, b)
    {
      OneBit(w, o, b);
      OneBit(w, o, b);
    }
  }

  /** The least free frame of a scan in order, or ULONG_MAX when none is free. */
  ghost predicate IsFirstFree(words: seq<bv32>, frame: nat) {
    if frame == ULONG_MAX then forall f :: 0 <= f < 32 * |words| ==> f in Used(words)
    else frame < 32 * |words| && frame !in Used(words) && forall f :: 0 <= f < frame ==> f in Used(words)
  }

  lemma FirstFreeUnique(words: seq<bv32>, f: nat, g: nat)
    requires 32 * |words| <= FRAME_LIMIT && IsFirstFree(words, f) && IsFirstFree(words, g)
    ensures f == g
  {
  }

  /** set_frame */
  method SetFrame(frames: array<bv32>, frameAddr: nat)
    requires frameAddr / PAGE_SIZE < 32 * frames.Length
    modifies frames
    ensures Used(frames[..]) == old(Used(frames[..])) + {frameAddr / PAGE_SIZE}
  {
    var frame := frameAddr / PAGE_SIZE;
    var index, offset := frame / 32, frame % 32;
    SettingBits(frames[index], offset);
    hide BitSet, Used, WithBit, WithoutBit;
    var w := WithBit(frames[index], offset);
    UsedAfterSet(frames[..], index, offset, w);
    frames[index] := w;
    assert frames[..] == old(frames[..])[index := w];
  }

  /** clear_frame */
  method ClearFrame(frames: array<bv32>, frameAddr: nat)
    requires frameAddr / PAGE_SIZE < 32 * frames.Length
    modifies frames
    ensures Used(frames[..]) == old(Used(frames[..])) - {frameAddr / PAGE_SIZE}
  {
    var frame := frameAddr / PAGE_SIZE;
    var index, offset := frame / 32, frame % 32;
    SettingBits(frames[index], offset);
    hide BitSet, Used, WithBit, WithoutBit;
    var w := WithoutBit(frames[index], offset);
    UsedAfterClear(frames[..], index, offset, w);
    frames[index] := w;
    assert frames[..] == old(frames[..])[index := w];
  }

  lemma WordUsed(words: seq<bv32>, i: nat)
    requires i < |words| && (forall o: nat :: o < 32 ==> BitSet(words[i], o)) && forall f: nat :: f < 32 * i ==> f in Used(words)
    ensures forall f: nat :: f < 32 * (i + 1) ==> f in Used(words)
  {
    hide BitSet;
  }

  lemma BitIsFree(words: seq<bv32>, i: nat, o: nat)
    requires i < |words| && o < 32 && !BitSet(words[i], o) && forall b: nat :: b < o ==> BitSet(words[i], b)
    requires forall f: nat :: f < 32 * i ==> f in Used(words)
    ensures 32 * i + o !in Used(words) && forall f: nat :: f < 32 * i + o ==> f in Used(words)
  {
    hide BitSet;
  }

  lemma FullWord(w: bv32)
    requires w == 0xFFFF_FFFF
    ensures forall o: nat :: o < 32 ==> BitSet(w, o)
  {
    AllOnes(w);
  }

  /** first_free_frame */
  method FirstFreeFrame(frames: array<bv32>) returns (frame: nat)
    requires 32 * frames.Length <= FRAME_LIMIT
    ensures IsFirstFree(frames[..], frame)
  {
    hide Mask, Used, BitSet;
    var index := 0;
    while index < frames.Length
      invariant index <= frames.Length
      invariant forall f: nat :: f < 32 * index ==> f in Used(frames[..])
    {
      if frames[index] != 0xFFFF_FFFF {
        var offset := 0;
        while offset < 32
          invariant offset <= 32
          invariant forall o: nat :: o < offset ==> BitSet(frames[index], o)
        {
          if !BitSet(frames[index], offset) {
            BitIsFree(frames[..], index, offset);
            return index * 32 + offset;
          }
          offset := offset + 1;
        }
      } else {
        FullWord(frames[index]);
      }
      WordUsed(frames[..], index);
      index := index + 1;
    }
    return ULONG_MAX;
  }
}
