/** itoa of libc/stdlib.c: digits from the low end, sign and prefix, then an in-place reversal. */
module Itoa {

  const INT_MIN := -0x8000_0000
  const INT_LIMIT := 0x8000_0000

  datatype Option<T> = None | Some(value: T)

  function DigitChar(r: nat): char
    requires r < 16
  {
    if r < 10 then '0' + r as char else 'a' + (r - 10) as char
  }

  /** The digits of v, lowest first, as the loop produces them. No digit at all for 0 and below. */
  function LowFirst(v: int, divisor: nat): seq<char>
    requires divisor == 10 || divisor == 16
    decreases if v > 0 then v else 0
  {
    if v <= 0 then [] else [DigitChar(v % divisor)] + LowFirst(v / divisor, divisor)
  }

  function Reversed<T>(s: seq<T>): (r: seq<T>)
    ensures |r| == |s| && forall k :: 0 <= k < |s| ==> r[k] == s[|s| - 1 - k]
  {
    if s == [] then [] else Reversed(s[1..]) + [s[0]]
  }

  predicate KnownBase(base: int) {
    base == 2 || base == 10 || base == 16
  }

  /** The divisor is 16 for base 16 and 10 for the others, base 2 included. */
  function Divisor(base: int): nat {
    if base == 16 then 16 else 10
  }

  /** Negation of a 32-bit int: the least one stays as it is. */
  function Negated(value: int): int {
    if value == INT_MIN then INT_MIN else -value
  }

  /** The characters before the reversal. */
  function Raw(value: int, base: int): seq<char>
    requires KnownBase(base)
  {
    (if value == 0 then ['0'] else [])
    + LowFirst(if base == 10 && value < 0 then Negated(value) else value, Divisor(base))
    + (if base == 10 && value < 0 then ['-'] else [])
    + (if base == 16 then ['x', '0'] else [])
  }

  /** The string that itoa leaves. */
  function Text(value: int, base: int): seq<char> {
    if KnownBase(base) then Reversed(Raw(value, base)) else []
  }

  function Pow(b: nat, e: nat): nat {
    if e == 0 then 1 else b * Pow(b, e - 1)
  }

  lemma {:induction false} LowFirstLength(v: int, divisor: nat, e: nat)
    requires (divisor == 10 || divisor == 16) && v < Pow(divisor, e)
    ensures |LowFirst(v, divisor)| <= e
    decreases e
  {
    if v > 0 && e > 0 {
      LowFirstLength(v / divisor, divisor, e - 1);
    }
  }

  lemma PowersReach()
    ensures INT_LIMIT <= Pow(10, 10) && INT_LIMIT <= Pow(16, 8)
  {
    assert Pow(10, 3) == 1000 && Pow(10, 6) == 1000 * Pow(10, 3) && Pow(10, 9) == 1000 * Pow(10, 6);
    assert Pow(10, 10) == 10 * Pow(10, 9);
    assert Pow(16, 2) == 256 && Pow(16, 4) == 256 * Pow(16, 2) && Pow(16, 6) == 256 * Pow(16, 4) && Pow(16, 8) == 256 * Pow(16, 6);
  }

  /** With the terminator the string takes at most 12 bytes. */
  lemma TextFits(value: int, base: int)
    requires INT_MIN <= value < INT_LIMIT
    ensures |Text(value, base)| + 1 <= 12
  {
    PowersReach();
    if KnownBase(base) {
      var v := if base == 10 && value < 0 then Negated(value) else value;
      LowFirstLength(v, Divisor(base), if base == 16 then 8 else 10);
    }
  }

  /** It leaves no character exactly for other bases, and in base 2 for a negative value. */
  lemma TextEmpty(value: int, base: int)
    ensures Text(value, base) == [] <==> (base != 2 && base != 10 && base != 16) || (base == 2 && value < 0)
  {
  }

  /** The digit loop, from index `start`. */
  method PutDigits(value0: int, str: array<char>, start: nat, divisor: nat) returns (i: nat)
    requires (divisor == 10 || divisor == 16) && start + |LowFirst(value0, divisor)| <= str.Length
    modifies str
    ensures i == start + |LowFirst(value0, divisor)|
    ensures str[..i] == old(str[..start]) + LowFirst(value0, divisor)
    ensures forall k :: i <= k < str.Length ==> str[k] == old(str[k])
  {
    var value := value0;
    i := start;
    ghost var done: seq<char> := [];
    while value > 0
      invariant i == start + |done| && done + LowFirst(value, divisor) == LowFirst(value0, divisor)
      invariant str[..i] == old(str[..start]) + done
      invariant forall k :: i <= k < str.Length ==> str[k] == old(str[k])
      decreases value
    {
      var remainder := value % divisor;
      assert done + LowFirst(value, divisor) == (done + [DigitChar(remainder)]) + LowFirst(value / divisor, divisor);
      hide LowFirst, DigitChar;
      str[i] := DigitChar(remainder);
      done := done + [DigitChar(remainder)];
      i := i + 1;
      value := value / divisor;
    }
  }

  /** itoa up to the terminator: what is written, and how much. */
  method PutRaw(value0: int, str: array<char>, base: int) returns (i: nat)
    requires INT_MIN <= value0 < INT_LIMIT && KnownBase(base) && |Raw(value0, base)| < str.Length
    modifies str
    ensures i == |Raw(value0, base)| && str[..i] == Raw(value0, base)
    ensures forall k :: i <= k < str.Length ==> str[k] == old(str[k])
  {
    var value := value0;
    var divisor := 10;
    var isNegative := false;
    i := 0;
    if value == 0 {
      str[i] := '0';
      i := i + 1;
    }
    ghost var zero := str[..i];
    if base == 10 && value < 0 {
      isNegative := true;
      value := Negated(value);
    } else if base == 16 {
      divisor := 16;
    }
    i := PutDigits(value, str, i, divisor);
    ghost var digits := str[..i];
    if base == 10 && isNegative {
      str[i] := '-';
      i := i + 1;
      assert str[..i] == digits + ['-'];
    }
    if base == 16 {
      str[i] := 'x';
      i := i + 1;
      str[i] := '0';
      i := i + 1;
      assert str[..i] == digits + ['x', '0'];
    }
  }

  lemma RawEmpty(value: int, base: int)
    requires KnownBase(base)
    ensures Raw(value, base) == [] <==> base == 2 && value < 0
  {
  }

  /** The reversal loop, from the last index given. */
  method ReverseRange(str: array<char>, last: nat)
    requires last < str.Length
    modifies str
    ensures str[..last + 1] == Reversed(old(str[..last + 1]))
    ensures forall k :: last < k < str.Length ==> str[k] == old(str[k])
  {
    var i: nat, j: nat := last, 0;
    while j < i
      invariant i + j == last
      invariant forall k :: 0 <= k < j ==> str[k] == old(str[last - k]) && str[last - k] == old(str[k])
      invariant forall k :: j <= k <= last - j ==> str[k] == old(str[k])
      invariant forall k :: last < k < str.Length ==> str[k] == old(str[k])
    {
      var tmp := str[j];
      str[j] := str[i];
      str[i] := tmp;
      i := i - 1;
      j := j + 1;
    }
  }

  lemma TextIsRaw(value: int, base: int)
    requires INT_MIN <= value < INT_LIMIT && KnownBase(base)
    ensures Text(value, base) == Reversed(Raw(value, base)) && |Raw(value, base)| < 12
  {
    TextFits(value, base);
  }

  /** itoa. For a negative value in base 2 nothing is written before the terminator, and the reversal starts from
      index 0 - 1, which is 255 in 8 bits. */
  method Itoa(value: int, str: array<char>, base: int)
    requires INT_MIN <= value < INT_LIMIT && 12 <= str.Length
    requires base == 2 && value < 0 ==> 256 <= str.Length
    modifies str
    ensures base == 2 && value < 0 ==>
      str[..256] == Reversed(['\0'] + old(str[1..256])) && forall k :: 256 <= k < str.Length ==> str[k] == old(str[k])
    ensures !(base == 2 && value < 0) ==>
      var n := |Text(value, base)|;
      n < 12 && str[..n] == Text(value, base) && str[n] == '\0' && forall k :: n < k < str.Length ==> str[k] == old(str[k])
  {
    hide Raw, Text, Reversed;
    TextEmpty(value, base);
    if base != 2 && base != 10 && base != 16 {
      str[0] := '\0';
      return;
    }
    RawEmpty(value, base);
    TextIsRaw(value, base);
    ghost var raw := Raw(value, base);
    var i := PutRaw(value, str, base);
    str[i] := '\0';
    ghost var ended := str[..];
    if i == 0 {
      ReverseRange(str, 255);
      assert ended[..256] == ['\0'] + old(str[1..256]);
    } else {
      ReverseRange(str, i - 1);
      assert ended[..i] == raw;
    }
  }

  // ---- Reading the string back ----

  function DigitValue(c: char, radix: nat): Option<nat> {
    if '0' <= c <= '9' && (c - '0') as nat < radix then Some((c - '0') as nat)
    else if 'a' <= c <= 'f' && (c - 'a') as nat + 10 < radix then Some((c - 'a') as nat + 10)
    else None
  }

  /** The number that a string of digits, highest first, stands for. */
  function ParseNat(s: seq<char>, radix: nat): Option<nat> {
    if s == [] then None
    else
      var n := |s| - 1;
      match DigitValue(s[n], radix)
      case None => None
      case Some(low) =>
        if n == 0 then Some(low)
        else
          match ParseNat(s[..n], radix)
          case None => None
          case Some(high) => Some(high * radix + low)
  }

  function Signed(n: Option<nat>, sign: int): Option<int> {
    match n
    case None => None
    case Some(v) => Some(sign * v)
  }

  /** The number that a string stands for: an optional sign in base 10, a prefix 0x in base 16. */
  function Parse(s: seq<char>, base: int): Option<int> {
    if base == 16 then
      if |s| >= 2 && s[0] == '0' && s[1] == 'x' then Signed(ParseNat(s[2..], 16), 1) else None
    else if base == 10 && s != [] && s[0] == '-' then Signed(ParseNat(s[1..], 10), -1)
    else if base == 10 || base == 2 then Signed(ParseNat(s, base), 1)
    else None
  }

  lemma {:induction false} ReversedAppend<T>(a: seq<T>, b: seq<T>)
    ensures Reversed(a + b) == Reversed(b) + Reversed(a)
  {
  }

  lemma DigitReadsBack(r: nat, radix: nat)
    requires r < radix <= 16
    ensures DigitValue(DigitChar(r), radix) == Some(r)
  {
  }

  lemma ParseAppend(s: seq<char>, high: nat, low: nat, radix: nat)
    requires s != [] && ParseNat(s, radix) == Some(high) && low < radix <= 16
    ensures ParseNat(s + [DigitChar(low)], radix) == Some(high * radix + low)
  {
    DigitReadsBack(low, radix);
    assert (s + [DigitChar(low)])[..|s|] == s;
  }

  /** One turn of the digit loop, after the reversal: the low digit comes last. */
  lemma LowFirstStep(v: int, divisor: nat)
    requires 0 < v && (divisor == 10 || divisor == 16)
    ensures Reversed(LowFirst(v, divisor)) == Reversed(LowFirst(v / divisor, divisor)) + [DigitChar(v % divisor)]
    ensures v < divisor ==> Reversed(LowFirst(v, divisor)) == [DigitChar(v)] && v % divisor == v
  {
    var low, rest := LowFirst(v, divisor), LowFirst(v / divisor, divisor);
    assert low == [DigitChar(v % divisor)] + rest && low[1..] == rest;
  }

  /** The digits of a positive number, reversed, read back as that number, and do not start with a zero. */
  lemma {:induction false} DigitsReadBack(v: int, divisor: nat)
    requires 0 < v && (divisor == 10 || divisor == 16)
    ensures var s := Reversed(LowFirst(v, divisor));
            s != [] && ParseNat(s, divisor) == Some(v) && DigitValue(s[0], divisor).Some? && s[0] != '0'
    decreases v
  {
    DigitReadsBack(v % divisor, divisor);
    LowFirstStep(v, divisor);
    if v < divisor {
      assert Reversed(LowFirst(v, divisor)) == [DigitChar(v)];
    } else {
      hide LowFirst, Reversed, ParseNat;
      DigitsReadBack(v / divisor, divisor);
      ParseAppend(Reversed(LowFirst(v / divisor, divisor)), v / divisor, v % divisor, divisor);
    }
  }

  /** What itoa leaves, base by base, for the values it renders. */
  lemma TextShape(value: int, base: int)
    requires KnownBase(base)
    ensures value > 0 && base != 16 ==> Text(value, base) == Reversed(LowFirst(value, 10))
    ensures value > 0 && base == 16 ==> Text(value, base) == ['0', 'x'] + Reversed(LowFirst(value, 16))
    ensures value == 0 ==> Text(value, base) == if base == 16 then ['0', 'x', '0'] else ['0']
    ensures value < 0 && base == 10 ==> Text(value, base) == ['-'] + Reversed(LowFirst(Negated(value), 10))
    ensures value == INT_MIN && base == 10 ==> Text(value, base) == ['-']
    ensures value < 0 && base == 16 ==> Text(value, base) == ['0', 'x']
  {
    if value > 0 && base != 16 {
      assert Raw(value, base) == LowFirst(value, 10);
    } else if value > 0 {
      assert Raw(value, base) == LowFirst(value, 16) + ['x', '0'];
      ReversedAppend(LowFirst(value, 16), ['x', '0']);
      assert Reversed(['x', '0']) == ['0', 'x'];
    } else if value < 0 && base == 10 {
      assert Raw(value, base) == LowFirst(Negated(value), 10) + ['-'];
      ReversedAppend(LowFirst(Negated(value), 10), ['-']);
      assert Reversed(['-']) == ['-'];
    }
  }

  /** In base 10 the string reads back as the value exactly for every int but the least. */
  lemma DecimalRoundTrip(value: int)
    requires INT_MIN <= value < INT_LIMIT
    ensures Parse(Text(value, 10), 10) == Some(value) <==> value != INT_MIN
  {
    hide LowFirst, Reversed, Text, DigitChar;
    TextShape(value, 10);
    if value > 0 {
      DigitsReadBack(value, 10);
    } else if value < 0 && value != INT_MIN {
      DigitsReadBack(-value, 10);
      assert Text(value, 10)[1..] == Reversed(LowFirst(-value, 10));
    } else if value == INT_MIN {
      assert Text(value, 10)[1..] == [];
    }
  }

  /** In base 16 it does so exactly for the values that are not negative. */
  lemma HexRoundTrip(value: int)
    ensures Parse(Text(value, 16), 16) == Some(value) <==> value >= 0
  {
    TextShape(value, 16);
    if value > 0 {
      DigitsReadBack(value, 16);
      assert Text(value, 16)[2..] == Reversed(LowFirst(value, 16));
    } else if value == 0 {
      assert Text(value, 16)[2..] == ['0'];
    } else {
      assert Text(value, 16)[2..] == [];
    }
  }

  /** Decimal digits read in base 2, where they can be, stand for less. */
  lemma {:induction false} BinaryIsSmaller(v: int)
    requires 0 < v
    ensures var b := ParseNat(Reversed(LowFirst(v, 10)), 2); b.Some? ==> b.value <= v && (v >= 2 ==> b.value < v)
    decreases v
  {
    LowFirstStep(v, 10);
    var s, rest := Reversed(LowFirst(v, 10)), Reversed(LowFirst(v / 10, 10));
    if v < 10 {
      assert s == [DigitChar(v)];
    } else {
      BinaryIsSmaller(v / 10);
      assert s[..|s| - 1] == rest;
    }
  }

  lemma BinaryNotNegative(s: seq<char>)
    ensures Parse(s, 2).Some? ==> Parse(s, 2).value >= 0
  {
    hide ParseNat;
  }

  lemma OneInBinary()
    ensures Parse(Reversed(LowFirst(1, 10)), 2) == Some(1)
  {
    LowFirstStep(1, 10);
  }

  /** Base 2 gives decimal digits: it reads back only for 0 and 1. For a negative value it leaves what the buffer held,
      and no string whatever reads back as such a value. */
  lemma BinaryRoundTrip(value: int)
    ensures 0 <= value ==> Text(value, 2) == Text(value, 10)
    ensures Parse(Text(value, 2), 2) == Some(value) <==> 0 <= value <= 1
    ensures value < 0 ==> forall s :: Parse(s, 2) != Some(value)
  {
    hide LowFirst, Reversed, Text, DigitChar;
    TextShape(value, 2);
    TextShape(value, 10);
    if value < 0 {
      forall s
        ensures Parse(s, 2) != Some(value)
      {
        BinaryNotNegative(s);
      }
    } else if value > 0 {
      BinaryIsSmaller(value);
      OneInBinary();
    }
  }

  /** No superfluous zero in front, after the sign or prefix. */
  lemma NoLeadingZero(value: int, base: int)
    requires KnownBase(base) && INT_MIN < value < INT_LIMIT && value != 0 && (base == 10 || value > 0)
    ensures var s := Text(value, base);
            var digits := if base == 16 then 2 else if value < 0 then 1 else 0;
            digits < |s| && s[digits] != '0'
  {
    TextShape(value, base);
    DigitsReadBack(if value < 0 then -value else value, Divisor(base));
  }
}
