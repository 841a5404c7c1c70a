/** VBE_DrawLine and VBE_DrawPixel of kernel/vbe.c: a line by integer steps and an error accumulator. */
module Line {
  import opened Memory

  const SCREEN_WIDTH := 800
  const SCREEN_HEIGHT := 600

  function Abs(d: int): nat {
    if d < 0 then -d else d
  }

  function Sign(d: int): int {
    if d > 0 then 1 else if d < 0 then -1 else 0
  }

  /** The extent along the major axis, the one of greater extent, and along the other. */
  function Major(sx: int, sy: int): nat {
    if Abs(sx) < Abs(sy) then Abs(sy) else Abs(sx)
  }

  function Minor(sx: int, sy: int): nat {
    if Abs(sx) < Abs(sy) then Abs(sx) else Abs(sy)
  }

  /** How far the line has moved along the minor axis after j steps: j * n / m rounded down. */
  function MinorOffset(j: nat, m: nat, n: nat): nat {
    if m == 0 then 0 else j * n / m
  }

  datatype Point = Point(x: int, y: int)

  /** The ideal line rounded toward its start: the point after j steps. */
  function LinePoint(x1: int, y1: int, x2: int, y2: int, j: nat): Point {
    var sx, sy := x2 - x1, y2 - y1;
    var q := MinorOffset(j, Major(sx, sy), Minor(sx, sy));
    if Abs(sx) < Abs(sy) then Point(x1 + Sign(sx) * q, y1 + Sign(sy) * j)
    else Point(x1 + Sign(sx) * j, y1 + Sign(sy) * q)
  }

  /** Where a pixel lies behind the start of the frame buffer, in words. */
  function Position(p: Point): nat {
    U32(p.y * SCREEN_WIDTH + p.x)
  }

  predicate OnScreen(p: Point) {
    0 <= p.x < SCREEN_WIDTH && 0 <= p.y < SCREEN_HEIGHT
  }

  /** The words behind the frame buffer after the first `count` points are painted. */
  function Painted(pixels: map<nat, nat>, x1: int, y1: int, x2: int, y2: int, color: nat, count: nat): map<nat, nat> {
    if count == 0 then pixels
    else Painted(pixels, x1, y1, x2, y2, color, count - 1)[Position(LinePoint(x1, y1, x2, y2, count - 1)) := color]
  }

  /** The accumulator of the drawing loop after j steps is what rounding down leaves. */
  function Remainder(j: nat, m: nat, n: nat): int {
    j * n - m * MinorOffset(j, m, n)
  }

  lemma DivBounds(a: nat, m: nat)
    requires m > 0
    ensures 0 <= a - m * (a / m) < m
  {
  }

  lemma Multiples(m: nat, p: nat, q: nat)
    ensures p < q ==> m * p + m <= m * q
  {
    if p < q {
      assert m * q == m * (p + 1) + m * (q - p - 1);
    }
  }

  lemma DivUnique(a: nat, m: nat, q: nat)
    requires m > 0 && 0 <= a - m * q < m
    ensures a / m == q
  {
    DivBounds(a, m);
    var p := a / m;
    Multiples(m, p, q);
    Multiples(m, q, p);
  }

  /** One step: the accumulator gains n; when that reaches m, it loses m and the line moves along the minor axis. */
  lemma StepRemainder(j: nat, m: nat, n: nat)
    requires n <= m && 0 < m
    ensures 0 <= Remainder(j, m, n) < m
    ensures var k := Remainder(j, m, n) + n;
            if k < m then Remainder(j + 1, m, n) == k && MinorOffset(j + 1, m, n) == MinorOffset(j, m, n)
            else Remainder(j + 1, m, n) == k - m && MinorOffset(j + 1, m, n) == MinorOffset(j, m, n) + 1
  {
    var q := MinorOffset(j, m, n);
    DivBounds(j * n, m);
    assert (j + 1) * n == j * n + n;
    if Remainder(j, m, n) + n < m {
      DivUnique((j + 1) * n, m, q);
    } else {
      assert m * (q + 1) == m * q + m;
      DivUnique((j + 1) * n, m, q + 1);
    }
  }

  lemma RemainderAtStart(m: nat, n: nat)
    ensures Remainder(0, m, n) == 0
  {
    if m > 0 {
      DivUnique(0 * n, m, 0);
    }
  }

  /** The two moves of the loop, straight and diagonal, lead from each point of the line to the next. */
  lemma LineStep(x1: int, y1: int, x2: int, y2: int, j: nat)
    requires 0 < Major(x2 - x1, y2 - y1)
    ensures var sx, sy := x2 - x1, y2 - y1;
            var m, n := Major(sx, sy), Minor(sx, sy);
            var p, q, k := LinePoint(x1, y1, x2, y2, j), LinePoint(x1, y1, x2, y2, j + 1), Remainder(j, m, n) + n;
            if k < m then
              Remainder(j + 1, m, n) == k
              && q == (if Abs(sx) < Abs(sy) then Point(p.x, p.y + Sign(sy)) else Point(p.x + Sign(sx), p.y))
            else
              Remainder(j + 1, m, n) == k - m && q == Point(p.x + Sign(sx), p.y + Sign(sy))
  {
    StepRemainder(j, Major(x2 - x1, y2 - y1), Minor(x2 - x1, y2 - y1));
  }

  /** The line starts and ends at its end points. */
  lemma LineEnds(x1: int, y1: int, x2: int, y2: int)
    ensures LinePoint(x1, y1, x2, y2, 0) == Point(x1, y1)
    ensures LinePoint(x1, y1, x2, y2, Major(x2 - x1, y2 - y1)) == Point(x2, y2)
  {
    var m, n := Major(x2 - x1, y2 - y1), Minor(x2 - x1, y2 - y1);
    if m > 0 {
      DivUnique(0 * n, m, 0);
      DivUnique(m * n, m, n);
    }
  }

  class Screen {
    /** The words behind the start of the frame buffer that were written. */
    var pixels: map<nat, nat>

    /** VBE_DrawPixel */
    method DrawPixel(x: int, y: int, color: nat)
      modifies this
      ensures pixels == old(pixels)[Position(Point(x, y)) := color]
    {
      pixels := pixels[U32(y * SCREEN_WIDTH + x) := color];
    }

    /** VBE_DrawLine, for coordinates whose sums fit an int. */
    method DrawLine(x1: nat, y1: nat, x2: nat, y2: nat, color: nat)
      requires x1 < 0x4000_0000 && y1 < 0x4000_0000 && x2 < 0x4000_0000 && y2 < 0x4000_0000
      modifies this
      ensures pixels == Painted(old(pixels), x1, y1, x2, y2, color, Major(x2 - x1, y2 - y1) + 1)
    {
      hide Remainder, LinePoint, Position, U32;
      var sx, sy := x2 - x1, y2 - y1;
      LineEnds(x1, y1, x2, y2);
      assert Remainder(0, Major(sx, sy), Minor(sx, sy)) == 0 by { RemainderAtStart(Major(sx, sy), Minor(sx, sy)); }
      var dx1: int, dy1: int := 0, 0;
      if sx > 0 {
        dx1 := 1;
      } else if sx < 0 {
        dx1 := -1;
      } else {
        dy1 := 0;
      }
      if sy > 0 {
        dy1 := 1;
      } else if sy < 0 {
        dy1 := -1;
      } else {
        dy1 := 0;
      }
      var m, n := Abs(sx), Abs(sy);
      var dx2: int, dy2: int := dx1, 0;
      if m < n {
        m := Abs(sy);
        n := Abs(sx);
        dx2 := 0;
        dy2 := dy1;
      }
      var x, y, k: int := x1, y1, 0;
      var cnt := m + 1;
      ghost var j := 0;
      while cnt > 0
        invariant 0 <= cnt && j + cnt == m + 1
        invariant m > 0 ==> k == Remainder(j, m, n)
        invariant m > 0 || j == 0 ==> Point(x, y) == LinePoint(x1, y1, x2, y2, j)
        invariant pixels == Painted(old(pixels), x1, y1, x2, y2, color, j)
      {
        cnt := cnt - 1;
        DrawPixel(x, y, color);
        if m > 0 {
          LineStep(x1, y1, x2, y2, j);
        }
        k := k + n;
        if k < m {
          x := x + dx2;
          y := y + dy2;
        } else {
          k := k - m;
          x := x + dx1;
          y := y + dy1;
        }
        j := j + 1;
      }
    }
  }

  /** Each step moves to one of the eight neighbours, by exactly one along the major axis. */
  lemma LineConnected(x1: int, y1: int, x2: int, y2: int, j: nat)
    requires j < Major(x2 - x1, y2 - y1)
    ensures var p, q := LinePoint(x1, y1, x2, y2, j), LinePoint(x1, y1, x2, y2, j + 1);
            && Abs(q.x - p.x) <= 1 && Abs(q.y - p.y) <= 1
            && (if Abs(x2 - x1) < Abs(y2 - y1) then Abs(q.y - p.y) == 1 else Abs(q.x - p.x) == 1)
  {
    StepRemainder(j, Major(x2 - x1, y2 - y1), Minor(x2 - x1, y2 - y1));
  }

  /** The minor coordinate is the ideal one rounded down, measured from the start: off by less than a pixel. */
  lemma LineAccurate(x1: int, y1: int, x2: int, y2: int, j: nat)
    requires 0 < Major(x2 - x1, y2 - y1)
    ensures var m, n := Major(x2 - x1, y2 - y1), Minor(x2 - x1, y2 - y1);
            var p := LinePoint(x1, y1, x2, y2, j);
            var offset := if Abs(x2 - x1) < Abs(y2 - y1) then Abs(p.x - x1) else Abs(p.y - y1);
            0 <= j * n - m * offset < m
  {
    StepRemainder(j, Major(x2 - x1, y2 - y1), Minor(x2 - x1, y2 - y1));
  }

  lemma MinorInRange(j: nat, m: nat, n: nat)
    requires n <= m && j <= m
    ensures MinorOffset(j, m, n) <= n
  {
    if m > 0 {
      DivBounds(j * n, m);
      var q := MinorOffset(j, m, n);
      assert j * n <= m * n;
      Multiples(m, n, q);
    }
  }

  /** Every point lies in the box of the end points. */
  lemma LineInBox(x1: int, y1: int, x2: int, y2: int, j: nat)
    requires j <= Major(x2 - x1, y2 - y1)
    ensures var p := LinePoint(x1, y1, x2, y2, j);
            (x1 <= p.x <= x2 || x2 <= p.x <= x1) && (y1 <= p.y <= y2 || y2 <= p.y <= y1)
  {
    MinorInRange(j, Major(x2 - x1, y2 - y1), Minor(x2 - x1, y2 - y1));
  }

  /** Different points have different places in the frame buffer, when both are on the screen. */
  lemma PositionInjective(p: Point, q: Point)
    requires OnScreen(p) && OnScreen(q)
    ensures Position(p) < SCREEN_WIDTH * SCREEN_HEIGHT
    ensures Position(p) == Position(q) ==> p == q
  {
  }

  /** The frame buffer is stored row by row: it starts with the top left pixel, the right neighbour follows, and the
      pixel below is a row of 800 further on. */
  lemma PixelOrder(x: int, y: int)
    requires OnScreen(Point(x, y))
    ensures Position(Point(0, 0)) == 0
    ensures x + 1 < 800 ==> OnScreen(Point(x + 1, y)) && Position(Point(x + 1, y)) == Position(Point(x, y)) + 1
    ensures y + 1 < 600 ==> OnScreen(Point(x, y + 1)) && Position(Point(x, y + 1)) == Position(Point(x, y)) + 800
    ensures Position(Point(x, y)) == 800 * y + x
  {
  }

  lemma LineDistinct(x1: int, y1: int, x2: int, y2: int, i: nat, j: nat)
    requires i < j <= Major(x2 - x1, y2 - y1)
    ensures LinePoint(x1, y1, x2, y2, i) != LinePoint(x1, y1, x2, y2, j)
  {
  }

  /** Points of a line between points on the screen take different words of the frame buffer. */
  lemma LineOnScreen(x1: int, y1: int, x2: int, y2: int, i: nat, j: nat)
    requires OnScreen(Point(x1, y1)) && OnScreen(Point(x2, y2)) && i <= j <= Major(x2 - x1, y2 - y1)
    ensures var a, b := Position(LinePoint(x1, y1, x2, y2, i)), Position(LinePoint(x1, y1, x2, y2, j));
            a < SCREEN_WIDTH * SCREEN_HEIGHT && b < SCREEN_WIDTH * SCREEN_HEIGHT && (i < j ==> a != b)
  {
    hide LinePoint, Position, Major;
    LineInBox(x1, y1, x2, y2, i);
    LineInBox(x1, y1, x2, y2, j);
    PositionInjective(LinePoint(x1, y1, x2, y2, i), LinePoint(x1, y1, x2, y2, j));
    PositionInjective(LinePoint(x1, y1, x2, y2, j), LinePoint(x1, y1, x2, y2, i));
    if i < j {
      LineDistinct(x1, y1, x2, y2, i, j);
    }
  }

  /** A line between points on the screen paints exactly one word more than its major extent, all of them in the
      frame buffer, and changes no other. */
  lemma {:induction false} LinePaints(x1: int, y1: int, x2: int, y2: int, color: nat, count: nat)
    requires OnScreen(Point(x1, y1)) && OnScreen(Point(x2, y2)) && count <= Major(x2 - x1, y2 - y1) + 1
    ensures var painted := Painted(map[], x1, y1, x2, y2, color, count);
            && |painted.Keys| == count
            && (forall a :: a in painted ==> a < SCREEN_WIDTH * SCREEN_HEIGHT && painted[a] == color)
            && (forall a :: a in painted <==> exists j :: 0 <= j < count && a == Position(LinePoint(x1, y1, x2, y2, j)))
    decreases count
  {
    hide LinePoint, Position, OnScreen, Major;
    if count > 0 {
      var j := count - 1;
      var before := Painted(map[], x1, y1, x2, y2, color, j);
      LinePaints(x1, y1, x2, y2, color, j);
      var a := Position(LinePoint(x1, y1, x2, y2, j));
      LineOnScreen(x1, y1, x2, y2, j, j);
      if a in before {
        var i :| 0 <= i < j && a == Position(LinePoint(x1, y1, x2, y2, i));
        LineOnScreen(x1, y1, x2, y2, i, j);
        assert false;
      }
      assert before[a := color].Keys == before.Keys + {a};
    }
  }

  /** Painting over other pixels leaves those the line does not meet. */
  lemma {:induction false} PaintedOver(pixels: map<nat, nat>, x1: int, y1: int, x2: int, y2: int, color: nat, count: nat)
    ensures Painted(pixels, x1, y1, x2, y2, color, count) == pixels + Painted(map[], x1, y1, x2, y2, color, count)
    decreases count
  {
    if count > 0 {
      PaintedOver(pixels, x1, y1, x2, y2, color, count - 1);
    }
  }

  /** What a line leaves of the frame buffer: its colour at the words of its points, every other word as it was. */
  lemma LineLeaves(pixels: map<nat, nat>, x1: int, y1: int, x2: int, y2: int, color: nat, a: nat)
    requires OnScreen(Point(x1, y1)) && OnScreen(Point(x2, y2))
    ensures var m := Major(x2 - x1, y2 - y1);
            var painted := Painted(pixels, x1, y1, x2, y2, color, m + 1);
            if exists j :: 0 <= j <= m && a == Position(LinePoint(x1, y1, x2, y2, j)) then a in painted && painted[a] == color
            else (a in painted <==> a in pixels) && (a in pixels ==> painted[a] == pixels[a])
  {
    hide LinePoint, Position, OnScreen, Major, Painted;
    var m := Major(x2 - x1, y2 - y1);
    PaintedOver(pixels, x1, y1, x2, y2, color, m + 1);
    LinePaints(x1, y1, x2, y2, color, m + 1);
  }

  lemma StraightPoint(x1: int, y1: int, x2: int, y2: int, j: nat)
    requires j <= Major(x2 - x1, y2 - y1)
    ensures y1 == y2 && x1 <= x2 ==> LinePoint(x1, y1, x2, y2, j) == Point(x1 + j, y1)
    ensures x1 == x2 && y1 <= y2 ==> LinePoint(x1, y1, x2, y2, j) == Point(x1, y1 + j)
  {
    var m := Major(x2 - x1, y2 - y1);
    if m > 0 && (x1 == x2 || y1 == y2) {
      DivUnique(j * 0, m, 0);
    }
  }

  /** A horizontal line paints consecutive words. */
  lemma HorizontalLine(pixels: map<nat, nat>, x1: int, x2: int, y: int, color: nat, a: nat)
    requires 0 <= x1 <= x2 < 800 && 0 <= y < 600
    ensures var painted := Painted(pixels, x1, y, x2, y, color, x2 - x1 + 1);
            if 800 * y + x1 <= a <= 800 * y + x2 then a in painted && painted[a] == color
            else (a in painted <==> a in pixels) && (a in pixels ==> painted[a] == pixels[a])
  {
    hide LinePoint, Position, Painted;
    LineLeaves(pixels, x1, y, x2, y, color, a);
    forall j | 0 <= j <= x2 - x1
      ensures Position(LinePoint(x1, y, x2, y, j)) == 800 * y + x1 + j
    {
      StraightPoint(x1, y, x2, y, j);
      PixelOrder(x1 + j, y);
    }
    if 800 * y + x1 <= a <= 800 * y + x2 {
      assert a == Position(LinePoint(x1, y, x2, y, a - 800 * y - x1));
    }
  }

  /** A vertical line paints every 800th word. */
  lemma VerticalLine(pixels: map<nat, nat>, x: int, y1: int, y2: int, color: nat, a: nat)
    requires 0 <= x < 800 && 0 <= y1 <= y2 < 600
    ensures var painted := Painted(pixels, x, y1, x, y2, color, y2 - y1 + 1);
            if a % 800 == x && y1 <= a / 800 <= y2 then a in painted && painted[a] == color
            else (a in painted <==> a in pixels) && (a in pixels ==> painted[a] == pixels[a])
  {
    hide LinePoint, Position, Painted;
    LineLeaves(pixels, x, y1, x, y2, color, a);
    forall j | 0 <= j <= y2 - y1
      ensures Position(LinePoint(x, y1, x, y2, j)) == 800 * (y1 + j) + x
    {
      StraightPoint(x, y1, x, y2, j);
      PixelOrder(x, y1 + j);
    }
    if a % 800 == x && y1 <= a / 800 <= y2 {
      assert a == Position(LinePoint(x, y1, x, y2, a / 800 - y1));
    }
  }
}
