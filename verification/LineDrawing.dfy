/** Lines on a 128 x 128 display with 16 shades; two pixels share a byte of the frame buffer. */
module LineDrawing {
  import opened Bytes

  const WIDTH: nat := 128
  const HEIGHT: nat := 128
  const FRAME_SIZE: nat := 8192

  type Frame = b: seq<bv8> | |b| == FRAME_SIZE witness seq(FRAME_SIZE, _ => 0)
  type Point = (int, int)

  predicate OnScreen(p: Point) {
    0 <= p.0 < WIDTH && 0 <= p.1 < HEIGHT
  }

  function Index(p: Point): (i: nat)
    requires OnScreen(p)
    ensures i < FRAME_SIZE && i == p.1 * 64 + p.0 / 2
  {
    (p.1 * WIDTH + p.0) / 2
  }

  /** The shade of a pixel: the high half of its byte in even columns, the low half in odd ones. */
  function Pixel(b: Frame, p: Point): bv8
    requires OnScreen(p)
  {
    if p.0 % 2 == 0 then b[Index(p)] >> 4 else b[Index(p)] & 0x0F
  }

  function PaintedByte(was: bv8, even: bool, color: bv8): bv8 {
    if even then (was & 0x0F) | (color << 4) else (was & 0xF0) | color
  }

  function Painted(b: Frame, p: Point, color: bv8): Frame {
    if OnScreen(p) then b[Index(p) := PaintedByte(b[Index(p)], p.0 % 2 == 0, color)] else b
  }

  lemma PaintedBits(was: bv8, even: bool, color: bv8)
    ensures var w := PaintedByte(was, even, color);
      && (even ==> w >> 4 == color & 0x0F && w & 0x0F == was & 0x0F)
      && (!even ==> w & 0x0F == color & 0x0F)
      && (!even ==> (w >> 4 == was >> 4 <==> color & 0xF0 & !was == 0))
  {
  }

  lemma SameByte(p: Point, q: Point)
    requires OnScreen(p) && OnScreen(q)
    ensures Index(p) == Index(q) <==> p.1 == q.1 && p.0 / 2 == q.0 / 2
  {
  }

  /** The pixel itself always gets the lower half of the colour. All others keep theirs exactly if the column is even,
      or the upper half of the colour brings no new bits to the pixel's left neighbour. */
  lemma PaintsOnePixel(b: Frame, p: Point, color: bv8)
    requires OnScreen(p)
    ensures Pixel(Painted(b, p, color), p) == color & 0x0F
    ensures (forall q :: OnScreen(q) && q != p ==> Pixel(Painted(b, p, color), q) == Pixel(b, q))
      <==> (p.0 % 2 == 0 || color & 0xF0 & !b[Index(p)] == 0)
  {
    PaintsItself(b, p, color);
    var spares := p.0 % 2 == 0 || color & 0xF0 & !b[Index(p)] == 0;
    hide Pixel, Painted;
    if spares {
      forall q | OnScreen(q) && q != p
        ensures Pixel(Painted(b, p, color), q) == Pixel(b, q)
      {
        SparesOthers(b, p, color, q);
      }
    } else {
      HurtsNeighbour(b, p, color);
      assert OnScreen((p.0 - 1, p.1));
    }
  }

  lemma PaintsItself(b: Frame, p: Point, color: bv8)
    requires OnScreen(p)
    ensures Pixel(Painted(b, p, color), p) == color & 0x0F
  {
    PaintedBits(b[Index(p)], p.0 % 2 == 0, color);
    hide PaintedByte;
  }

  lemma SparesOthers(b: Frame, p: Point, color: bv8, q: Point)
    requires OnScreen(p) && OnScreen(q) && q != p && (p.0 % 2 == 0 || color & 0xF0 & !b[Index(p)] == 0)
    ensures Pixel(Painted(b, p, color), q) == Pixel(b, q)
  {
    SameByte(p, q);
    PaintedBits(b[Index(p)], p.0 % 2 == 0, color);
    hide PaintedByte;
  }

  lemma HurtsNeighbour(b: Frame, p: Point, color: bv8)
    requires OnScreen(p) && p.0 % 2 != 0 && color & 0xF0 & !b[Index(p)] != 0
    ensures Pixel(Painted(b, p, color), (p.0 - 1, p.1)) != Pixel(b, (p.0 - 1, p.1))
  {
    SameByte(p, (p.0 - 1, p.1));
    PaintedBits(b[Index(p)], false, color);
    hide PaintedByte;
  }

  lemma SmallColor(color: bv8, was: bv8)
    requires color <= 15
    ensures color & 0x0F == color && color & 0xF0 & !was == 0
  {
  }

  function PaintedAll(b: Frame, points: seq<Point>, color: bv8): Frame {
    if points == [] then b
    else Painted(PaintedAll(b, points[..|points| - 1], color), points[|points| - 1], color)
  }

  /** With one of the sixteen shades, exactly the listed pixels that are on the screen change. */
  lemma {:induction false} PaintsExactly(b: Frame, points: seq<Point>, color: bv8)
    requires color <= 15
    ensures forall q :: OnScreen(q) ==>
      Pixel(PaintedAll(b, points, color), q) == if q in points then color else Pixel(b, q)
  {
    if points != [] {
      var front, p := points[..|points| - 1], points[|points| - 1];
      PaintsExactly(b, front, color);
      var mid := PaintedAll(b, front, color);
      if OnScreen(p) {
        SmallColor(color, mid[Index(p)]);
        PaintsOnePixel(mid, p, color);
      }
      forall q | OnScreen(q)
        ensures Pixel(PaintedAll(b, points, color), q) == if q in points then color else Pixel(b, q)
      {
        assert q in points <==> q in front || q == p;
      }
    }
  }

  /** How far the offset (a, b) lies off the line through (0, 0) and (dx, dy), times the line's length. */
  function Deviation(dx: nat, dy: nat, a: nat, b: nat): int {
    b * dx - a * dy
  }

  /** Half a pixel at most, along the minor axis; of two places that are half a pixel off, the one nearer to the start
      counts. */
  predicate Near(dx: nat, dy: nat, a: nat, b: nat) {
    && a <= dx && b <= dy
    && if dx >= dy then 0 - dx <= 2 * Deviation(dx, dy, a, b) < Max(dx, 1)
       else 0 - dy < 2 * Deviation(dx, dy, a, b) <= dy
  }

  /** There is one such offset for each place along the major axis. */
  lemma NearIsUnique(dx: nat, dy: nat, a: nat, b: nat, a': nat, b': nat)
    requires Near(dx, dy, a, b) && Near(dx, dy, a', b') && (if dx >= dy then a == a' else b == b')
    ensures a == a' && b == b'
  {
    if dx == 0 && dy == 0 {
    } else if dx >= dy {
      SameMultiple(b, b', dx);
    } else {
      SameMultiple(a, a', dy);
    }
  }

  lemma SameMultiple(k: nat, m: nat, d: nat)
    requires 0 - d < k * d - m * d < d
    ensures k == m
  {
    if k < m {
      MulMono(k + 1, m, d);
      MulStep(d, d, k, k);
    } else if m < k {
      MulMono(m + 1, k, d);
      MulStep(d, d, m, m);
    }
  }

  /** The error term that the loop keeps. */
  function Err(dx: nat, dy: nat, a: nat, b: nat): int {
    dx - dy + Deviation(dx, dy, a, b)
  }

  function StepX(dx: nat, dy: nat, a: nat, b: nat): nat {
    if 2 * Err(dx, dy, a, b) + dy > 0 then a + 1 else a
  }

  function StepY(dx: nat, dy: nat, a: nat, b: nat): nat {
    if 2 * Err(dx, dy, a, b) < dx then b + 1 else b
  }

  lemma MulStep(dx: nat, dy: nat, a: nat, b: nat)
    ensures (b + 1) * dx == b * dx + dx && (a + 1) * dy == a * dy + dy
  {
  }

  lemma MulBound(k: nat, n: nat, d: nat)
    requires d > 0 && 2 * (k * d) <= 2 * (n * d) + d
    ensures k <= n
  {
    if k > n {
      MulMono(n + 1, k, d);
      MulStep(d, d, n, n);
    }
  }

  lemma DeviationSteps(dx: nat, dy: nat, a: nat, b: nat)
    ensures Deviation(dx, dy, a + 1, b) == Deviation(dx, dy, a, b) - dy
    ensures Deviation(dx, dy, a, b + 1) == Deviation(dx, dy, a, b) + dx
    ensures Deviation(dx, dy, a + 1, b + 1) == Deviation(dx, dy, a, b) - dy + dx
  {
    MulStep(dx, dy, a, b);
  }

  lemma StepAlongX(dx: nat, dy: nat, a: nat, b: nat)
    requires Near(dx, dy, a, b) && a != dx && dx >= dy
    ensures var a', b' := StepX(dx, dy, a, b), StepY(dx, dy, a, b);
      && a' == a + 1 && b <= b' <= b + 1
      && 0 - dx <= 2 * Deviation(dx, dy, a', b') < dx
  {
    if dx == dy {
      NoDeviation(dx, a, b);
    }
    DeviationSteps(dx, dy, a, b);
    hide Deviation;
  }

  lemma StepAlongY(dx: nat, dy: nat, a: nat, b: nat)
    requires Near(dx, dy, a, b) && b != dy && dx < dy
    ensures var a', b' := StepX(dx, dy, a, b), StepY(dx, dy, a, b);
      && b' == b + 1 && a <= a' <= a + 1
      && 0 - dy < 2 * Deviation(dx, dy, a', b') <= dy
  {
    DeviationSteps(dx, dy, a, b);
    hide Deviation;
  }

  lemma NoDeviation(d: nat, a: nat, b: nat)
    requires Near(d, d, a, b)
    ensures Deviation(d, d, a, b) == 0
  {
    EqualSlopes(d, a, b);
  }

  /** Where an offset is within half a pixel of the line, it does not pass its end. */
  lemma StaysInside(dx: nat, dy: nat, a: nat, b: nat)
    requires dx >= dy && a <= dx && dx > 0 && 2 * Deviation(dx, dy, a, b) <= dx
    ensures b <= dy
  {
    MulMono(a, dx, dy);
    MulBound(b, dy, dx);
  }

  lemma StaysBelow(dx: nat, dy: nat, a: nat, b: nat)
    requires dx < dy && b <= dy && 0 - dy <= 2 * Deviation(dx, dy, a, b)
    ensures a <= dx
  {
    MulMono(b, dy, dx);
    MulBound(a, dx, dy);
  }

  /** A step from a point near the line leads to a point near the line, one further along the major axis. */
  lemma StepStaysNear(dx: nat, dy: nat, a: nat, b: nat)
    requires Near(dx, dy, a, b) && (a != dx || b != dy)
    ensures var a', b' := StepX(dx, dy, a, b), StepY(dx, dy, a, b);
      && Near(dx, dy, a', b')
      && (if dx >= dy then a' == a + 1 else b' == b + 1)
      && a <= a' <= a + 1 && b <= b' <= b + 1 && a' <= dx && b' <= dy
  {
    NotYetThere(dx, dy, a, b);
    hide StepX, StepY, Deviation;
    if dx >= dy {
      StepAlongX(dx, dy, a, b);
      StaysInside(dx, dy, StepX(dx, dy, a, b), StepY(dx, dy, a, b));
    } else {
      StepAlongY(dx, dy, a, b);
      StaysBelow(dx, dy, StepX(dx, dy, a, b), StepY(dx, dy, a, b));
    }
  }

  lemma NotYetThere(dx: nat, dy: nat, a: nat, b: nat)
    requires Near(dx, dy, a, b) && (a != dx || b != dy)
    ensures if dx >= dy then a != dx else b != dy
  {
    if dx >= dy && a == dx {
      EndsTogether(dx, dy, b);
    } else if dx < dy && b == dy {
      EndsTogether(dy, dx, a);
    }
  }

  lemma MulMono(k: nat, n: nat, d: nat)
    requires k <= n
    ensures k * d <= n * d
  {
  }

  /** On a diagonal there is no deviation at all. */
  lemma EqualSlopes(d: nat, a: nat, b: nat)
    requires 2 * (b * d) <= 2 * (a * d) + d && 2 * (a * d) <= 2 * (b * d) + d
    ensures a == b || d == 0
  {
    if d > 0 {
      MulBound(a, b, d);
      MulBound(b, a, d);
    }
  }

  /** Where the major offset is complete, so is the minor one. */
  lemma EndsTogether(d: nat, e: nat, k: nat)
    requires k <= e && 2 * (e * d) <= 2 * (k * d) + d
    ensures k == e || d == 0
  {
    if d > 0 {
      MulBound(e, k, d);
    }
  }

  /** The offsets from (a, b) on to the end of the line. */
  function Trail(dx: nat, dy: nat, a: nat, b: nat): (t: seq<(nat, nat)>)
    requires Near(dx, dy, a, b)
    decreases dx + dy - a - b
  {
    if a == dx && b == dy then [(a, b)]
    else
      StepStaysNear(dx, dy, a, b);
      [(a, b)] + Trail(dx, dy, StepX(dx, dy, a, b), StepY(dx, dy, a, b))
  }

  lemma {:induction false} TrailIsStraight(dx: nat, dy: nat, a: nat, b: nat)
    requires Near(dx, dy, a, b)
    ensures var t := Trail(dx, dy, a, b); var major := if dx >= dy then a else b;
      && |t| == Max(dx, dy) - major + 1
      && t[0] == (a, b) && t[|t| - 1] == (dx, dy)
      && (forall k :: 0 <= k < |t| ==> Near(dx, dy, t[k].0, t[k].1))
      && (forall k :: 0 <= k < |t| ==> (if dx >= dy then t[k].0 else t[k].1) == major + k)
    decreases dx + dy - a - b
  {
    hide StepX, StepY, Near;
    if a == dx && b == dy {
    } else {
      StepStaysNear(dx, dy, a, b);
      TrailIsStraight(dx, dy, StepX(dx, dy, a, b), StepY(dx, dy, a, b));
    }
  }

  function Distance(p: int, q: int): nat {
    if p < q then q - p else p - q
  }

  /** All points of the line from p to q, in drawing order. */
  function LinePoints(p: Point, q: Point): (points: seq<Point>)
    ensures |points| == |Trail(Distance(p.0, q.0), Distance(p.1, q.1), 0, 0)|
  {
    var sx: int, sy: int := if p.0 < q.0 then 1 else -1, if p.1 < q.1 then 1 else -1;
    var t := Trail(Distance(p.0, q.0), Distance(p.1, q.1), 0, 0);
    seq(|t|, k requires 0 <= k < |t| => (p.0 + sx * t[k].0, p.1 + sy * t[k].1))
  }

  /** The k-th point lies at the k-th offset. */
  lemma PointIsOffset(p: Point, q: Point, k: nat)
    requires k < |LinePoints(p, q)|
    ensures var dx, dy := Distance(p.0, q.0), Distance(p.1, q.1);
      var t := Trail(dx, dy, 0, 0);
      Distance(p.0, LinePoints(p, q)[k].0) == t[k].0 && Distance(p.1, LinePoints(p, q)[k].1) == t[k].1
  {
    hide Near, Trail;
  }

  /** A line starts and ends where it should, has one point for each step along the major axis, and none of its points
      is more than half a pixel off. */
  lemma LineIsStraight(p: Point, q: Point)
    ensures
      var dx, dy := Distance(p.0, q.0), Distance(p.1, q.1);
      var points := LinePoints(p, q);
      && |points| == Max(dx, dy) + 1 && points[0] == p && points[|points| - 1] == q
      && (forall k :: 0 <= k < |points| ==>
        Near(dx, dy, Distance(p.0, points[k].0), Distance(p.1, points[k].1)))
      && (forall k :: 0 <= k < |points| ==>
        (if dx >= dy then Distance(p.0, points[k].0) else Distance(p.1, points[k].1)) == k)
  {
    var dx, dy := Distance(p.0, q.0), Distance(p.1, q.1);
    StartIsNear(dx, dy);
    TrailIsStraight(dx, dy, 0, 0);
    LineEnds(p, q);
    hide Near, Trail, LinePoints, Distance;
    var points := LinePoints(p, q);
    forall k | 0 <= k < |points|
      ensures Near(dx, dy, Distance(p.0, points[k].0), Distance(p.1, points[k].1))
      ensures (if dx >= dy then Distance(p.0, points[k].0) else Distance(p.1, points[k].1)) == k
    {
      PointIsOffset(p, q, k);
    }
  }

  lemma LineEnds(p: Point, q: Point)
    ensures var points := LinePoints(p, q);
      points != [] && points[0] == p && points[|points| - 1] == q
  {
    var dx, dy := Distance(p.0, q.0), Distance(p.1, q.1);
    StartIsNear(dx, dy);
    TrailIsStraight(dx, dy, 0, 0);
    hide Near, Trail;
  }

  /** It stays inside the rectangle that its ends span. */
  lemma LineStaysInside(p: Point, q: Point, k: nat)
    requires k < |LinePoints(p, q)|
    ensures var x, y := LinePoints(p, q)[k].0, LinePoints(p, q)[k].1;
      Min(p.0, q.0) <= x <= Max(p.0, q.0) && Min(p.1, q.1) <= y <= Max(p.1, q.1)
  {
    var dx, dy := Distance(p.0, q.0), Distance(p.1, q.1);
    StartIsNear(dx, dy);
    TrailIsStraight(dx, dy, 0, 0);
    var t := Trail(dx, dy, 0, 0);
    NearIsInside(dx, dy, t[k].0, t[k].1);
    hide Near, Trail;
  }

  lemma NearIsInside(dx: nat, dy: nat, a: nat, b: nat)
    requires Near(dx, dy, a, b)
    ensures a <= dx && b <= dy
  {
  }

  class Display {
    const frame: array<bv8>

    constructor (frame: array<bv8>)
      requires frame.Length == FRAME_SIZE
      ensures this.frame == frame
    {
      this.frame := frame;
    }

    method DrawPixel(x: byte, y: byte, color: bv8)
      requires frame.Length == FRAME_SIZE
      modifies frame
      ensures frame[..] == Painted(old(frame[..]), (x, y), color)
    {
      if x >= WIDTH || y >= HEIGHT {
        return;
      }
      var row: nat, column: nat := y, x;
      var index := (row * WIDTH + column) / 2;
      assert index == Index((x, y));
      if column % 2 == 0 {
        frame[index] := frame[index] & 0x0F;
        frame[index] := frame[index] | (color << 4);
      } else {
        frame[index] := frame[index] & 0xF0;
        frame[index] := frame[index] | color;
      }
    }

    method DrawLine(x0: byte, y0: byte, x1: byte, y1: byte, color: bv8)
      requires frame.Length == FRAME_SIZE
      modifies frame
      ensures frame[..] == PaintedAll(old(frame[..]), LinePoints((x0, y0), (x1, y1)), color)
    {
      hide Painted, PaintedAll, Trail, StepX, StepY, Near, Err, LinePoints, Toward, ToI16;
      var dx: nat, dy: nat := Distance(x0, x1), Distance(y0, y1);
      var sx: int, sy: int := if x0 < x1 then 1 else -1, if y0 < y1 then 1 else -1;
      SmallIsI16(dx - dy);
      var err := ToI16(dx - dy);
      var x, y := x0, y0;
      ghost var p: Point, q: Point := (x0, y0), (x1, y1);
      ghost var was := frame[..];
      ghost var a: nat, b: nat, k: nat := 0, 0, 0;
      LineStarts(p, q, was, color);
      var more := true;
      while more
        invariant more ==> OnTheWay(p, q, a, b, k)
        invariant more ==> x == Toward(x0, x1, a) && y == Toward(y0, y1, b) && err == Err(dx, dy, a, b)
        invariant frame[..] == PaintedAll(was, if more then LinePoints(p, q)[..k] else LinePoints(p, q), color)
        decreases more, |LinePoints(p, q)| - k
      {
        PointAt(p, q, a, b, k, was, color);
        CoordinateSteps(x0, x1, a);
        CoordinateSteps(y0, y1, b);
        DrawPixel(x, y, color);
        if x == x1 && y == y1 {
          more := false;
        } else {
          ErrFits(dx, dy, a, b);
          ghost var a', b' := StepX(dx, dy, a, b), StepY(dx, dy, a, b);
          var e := ToI16(err * 2);
          if e > 0 - dy {
            err := ToI16(err - dy);
            x := (x + sx) % 0x100;
          }
          if e < dx {
            err := ToI16(err + dx);
            y := (y + sy) % 0x100;
          }
          a, b, k := a', b', k + 1;
        }
      }
    }
  }

  /** The coordinate `k` steps from `from` in the direction of `to`. */
  function Toward(from: int, to: int, k: nat): int {
    if from < to then from + k else from - k
  }

  /** The loop is at the k-th point of the line, the one with offset (a, b). */
  ghost predicate OnTheWay(p: Point, q: Point, a: nat, b: nat, k: nat) {
    var dx, dy := Distance(p.0, q.0), Distance(p.1, q.1);
    && Near(dx, dy, a, b) && Near(dx, dy, 0, 0) && a <= dx && b <= dy
    && k < |LinePoints(p, q)| && Trail(dx, dy, 0, 0)[k..] == Trail(dx, dy, a, b)
  }

  lemma LineStarts(p: Point, q: Point, was: Frame, color: bv8)
    ensures OnTheWay(p, q, 0, 0, 0) && PaintedAll(was, LinePoints(p, q)[..0], color) == was
    ensures Err(Distance(p.0, q.0), Distance(p.1, q.1), 0, 0) == Distance(p.0, q.0) - Distance(p.1, q.1)
    ensures Toward(p.0, q.0, 0) == p.0 && Toward(p.1, q.1, 0) == p.1
  {
    var dx, dy := Distance(p.0, q.0), Distance(p.1, q.1);
    TrailIsStraight(dx, dy, 0, 0);
    assert Trail(dx, dy, 0, 0)[0..] == Trail(dx, dy, 0, 0);
  }

  /** What drawing the k-th point leads to: the end of the line, or the next point. */
  lemma PointAt(p: Point, q: Point, a: nat, b: nat, k: nat, was: Frame, color: bv8)
    requires OnTheWay(p, q, a, b, k)
    ensures var x, y := Toward(p.0, q.0, a), Toward(p.1, q.1, b);
      var points := LinePoints(p, q);
      var dx, dy := Distance(p.0, q.0), Distance(p.1, q.1);
      var a', b' := StepX(dx, dy, a, b), StepY(dx, dy, a, b);
      && PaintedAll(was, points[..k + 1], color) == Painted(PaintedAll(was, points[..k], color), (x, y), color)
      && ((x, y) == q <==> a == dx && b == dy)
      && if (x, y) == q then points[..k + 1] == points
         else OnTheWay(p, q, a', b', k + 1) && a <= a' <= a + 1 && b <= b' <= b + 1
  {
    hide Near, Painted, StepX, StepY, Trail;
    var dx, dy := Distance(p.0, q.0), Distance(p.1, q.1);
    var t := Trail(dx, dy, 0, 0);
    var points := LinePoints(p, q);
    TrailIsStraight(dx, dy, a, b);
    assert t[k] == t[k..][0] == (a, b);
    assert points[k] == (Toward(p.0, q.0, a), Toward(p.1, q.1, b));
    assert points[..k + 1][..k] == points[..k];
    if a == dx && b == dy {
      TrailEnds(dx, dy, k, a, b);
    } else {
      StepStaysNear(dx, dy, a, b);
      TrailGoesOn(dx, dy, k, a, b);
    }
  }

  lemma CoordinateSteps(from: byte, to: byte, k: nat)
    ensures k < Distance(from, to) ==>
      (Toward(from, to, k) + if from < to then 1 else -1) % 0x100 == Toward(from, to, k + 1)
    ensures k <= Distance(from, to) ==> 0 <= Toward(from, to, k) < 0x100
  {
  }

  lemma SmallIsI16(v: int)
    requires -0x8000 <= v < 0x8000
    ensures ToI16(v) == v
  {
  }

  /** Conversion to a signed 16-bit number. */
  function ToI16(v: int): int {
    (v + 0x8000) % 0x1_0000 - 0x8000
  }

  lemma StartIsNear(dx: nat, dy: nat)
    ensures Near(dx, dy, 0, 0) && Err(dx, dy, 0, 0) == dx - dy
  {
  }

  lemma ErrIsSmall(dx: nat, dy: nat, a: nat, b: nat)
    requires Near(dx, dy, a, b) && dx < 0x100 && dy < 0x100
    ensures -0x300 <= Err(dx, dy, a, b) <= 0x300
    ensures StepX(dx, dy, a, b) == (if 2 * Err(dx, dy, a, b) > 0 - dy then a + 1 else a)
    ensures StepY(dx, dy, a, b) == (if 2 * Err(dx, dy, a, b) < dx then b + 1 else b)
  {
    hide Deviation;
  }

  lemma ErrSteps(dx: nat, dy: nat, a: nat, b: nat, a': nat, b': nat)
    requires a <= a' <= a + 1 && b <= b' <= b + 1
    ensures Err(dx, dy, a', b') == Err(dx, dy, a, b) - (if a' == a then 0 else dy) + (if b' == b then 0 else dx)
  {
    MulStep(dx, dy, a, b);
  }

  /** Nothing overflows: all values of the error term, and twice these, fit 16 bits. */
  lemma ErrFits(dx: nat, dy: nat, a: nat, b: nat)
    requires Near(dx, dy, a, b) && dx < 0x100 && dy < 0x100
    ensures var e := Err(dx, dy, a, b);
      -0x300 <= e <= 0x300 && ToI16(2 * e) == 2 * e
      && ToI16(e - dy) == e - dy && ToI16(e + dx) == e + dx && ToI16(e - dy + dx) == e - dy + dx
    ensures StepX(dx, dy, a, b) == (if 2 * Err(dx, dy, a, b) > 0 - dy then a + 1 else a)
    ensures StepY(dx, dy, a, b) == (if 2 * Err(dx, dy, a, b) < dx then b + 1 else b)
    ensures Err(dx, dy, StepX(dx, dy, a, b), StepY(dx, dy, a, b)) == Err(dx, dy, a, b)
      - (if StepX(dx, dy, a, b) == a then 0 else dy) + (if StepY(dx, dy, a, b) == b then 0 else dx)
  {
    ErrIsSmall(dx, dy, a, b);
    hide Err, StepX, StepY, Near, ToI16, Deviation;
    SmallErrFits(Err(dx, dy, a, b), dx, dy);
    ErrSteps(dx, dy, a, b, StepX(dx, dy, a, b), StepY(dx, dy, a, b));
  }

  lemma SmallErrFits(e: int, dx: nat, dy: nat)
    requires -0x300 <= e <= 0x300 && dx < 0x100 && dy < 0x100
    ensures ToI16(2 * e) == 2 * e
    ensures ToI16(e - dy) == e - dy && ToI16(e + dx) == e + dx && ToI16(e - dy + dx) == e - dy + dx
  {
    hide ToI16;
    SmallIsI16(2 * e);
    SmallIsI16(e - dy);
    SmallIsI16(e + dx);
    SmallIsI16(e - dy + dx);
  }

  lemma TrailEnds(dx: nat, dy: nat, k: nat, a: nat, b: nat)
    requires Near(dx, dy, a, b) && a == dx && b == dy && k <= |Trail(dx, dy, 0, 0)|
    requires Near(dx, dy, 0, 0) && Trail(dx, dy, 0, 0)[k..] == Trail(dx, dy, a, b)
    ensures k + 1 == |Trail(dx, dy, 0, 0)|
  {
  }

  lemma TrailGoesOn(dx: nat, dy: nat, k: nat, a: nat, b: nat)
    requires Near(dx, dy, 0, 0) && Near(dx, dy, a, b) && (a != dx || b != dy) && k < |Trail(dx, dy, 0, 0)|
    requires Trail(dx, dy, 0, 0)[k..] == Trail(dx, dy, a, b)
    ensures var a', b' := StepX(dx, dy, a, b), StepY(dx, dy, a, b);
      && Near(dx, dy, a', b') && a' <= dx && b' <= dy && k + 1 < |Trail(dx, dy, 0, 0)|
      && Trail(dx, dy, 0, 0)[k + 1..] == Trail(dx, dy, a', b')
  {
    StepStaysNear(dx, dy, a, b);
    var t := Trail(dx, dy, 0, 0);
    assert t[k + 1..] == t[k..][1..];
    TrailIsStraight(dx, dy, StepX(dx, dy, a, b), StepY(dx, dy, a, b));
  }
}
