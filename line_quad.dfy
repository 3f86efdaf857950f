/**
 * render_line_to_quad: turning a line of some width into the two short
 * edges of the rectangle that draws it. The square root the source takes
 * is a parameter: the caller passes the line's length.
 */
module LineQuad {
  import opened Geometry

  /** The length of the unit vector (1, 1) scaled down to one, as the source spells it. */
  const UnitLength: real := 0.70710678

  /** The line has no direction: both ends coincide. */
  predicate IsPoint(b: Bounds)
  {
    b.x1 - b.x0 == 0.0 && b.y1 - b.y0 == 0.0
  }

  /** length can be divided by: a line that is not a point has a positive length. */
  predicate HasLength(b: Bounds, length: real)
  {
    IsPoint(b) || 0.0 < length
  }

  /** length is the Euclidean length of the line (what sqrtf returns, taken as exact). */
  predicate IsLength(b: Bounds, length: real)
  {
    0.0 < length && length * length == Square(b.x1 - b.x0) + Square(b.y1 - b.y0)
  }

  function Square(a: real): real { a * a }

  /** The midpoint of an edge (x0, y0)-(x1, y1). */
  function MidX(e: Bounds): real { (e.x0 + e.x1) / 2.0 }
  function MidY(e: Bounds): real { (e.y0 + e.y1) / 2.0 }

  /** The ends of a point pushed apart diagonally by k, so the quad comes out as a diamond. */
  function Spread(b: Bounds, k: real): Bounds
  {
    Bounds(b.x0 - k, b.y0 - k, b.x1 + k, b.y1 + k)
  }

  /** The ends of a line pushed out along its direction (ux, uy) / length by half each. */
  function Extend(b: Bounds, half: real, length: real): Bounds
    requires length != 0.0
  {
    var dx, dy := (b.x1 - b.x0) / length, (b.y1 - b.y0) / length;
    Bounds(b.x0 - dx * half, b.y0 - dy * half, b.x1 + dx * half, b.y1 + dy * half)
  }

  /** The edges through the two ends of m along (vx, vy) turned by 90 and -90 degrees. */
  function Across(m: Bounds, vx: real, vy: real): (Bounds, Bounds)
  {
    (Bounds(m.x0 - vy, m.y0 + vx, m.x0 + vy, m.y0 - vx),
     Bounds(m.x1 - vy, m.y1 + vx, m.x1 + vy, m.y1 - vx))
  }

  /** The ends of a line, pushed out by half of lengthExtension each when it is positive. */
  function LineEnds(bounds: Bounds, lengthExtension: real, length: real): Bounds
    requires length != 0.0
  {
    if lengthExtension > 0.0 then Extend(bounds, lengthExtension * 0.5, length) else bounds
  }

  /** The half-width vector along the line: (ux, uy) scaled by halfWidth / length. */
  function HalfX(bounds: Bounds, halfWidth: real, length: real): real
    requires length != 0.0
  {
    (bounds.x1 - bounds.x0) * (halfWidth / length)
  }

  function HalfY(bounds: Bounds, halfWidth: real, length: real): real
    requires length != 0.0
  {
    (bounds.y1 - bounds.y0) * (halfWidth / length)
  }

  /**
   * The two short edges of the quad: the first crosses the start of the
   * line, the second its end. A point becomes a diamond around it; a
   * line, optionally lengthened at both ends by half of lengthExtension
   * each, becomes a rectangle width wide.
   */
  function LineToQuad(bounds: Bounds, width: real, lengthExtension: real, length: real): (r: (Bounds, Bounds))
    requires HasLength(bounds, length)
    ensures r.1.x1 - r.1.x0 == r.0.x1 - r.0.x0 && r.1.y1 - r.1.y0 == r.0.y1 - r.0.y0
    ensures MidX(r.0) + MidX(r.1) == bounds.x0 + bounds.x1 && MidY(r.0) + MidY(r.1) == bounds.y0 + bounds.y1
  {
    var halfWidth := width * 0.5;
    if IsPoint(bounds) then
      var k := UnitLength * halfWidth;
      Across(Spread(bounds, k), k, k)
    else
      Across(LineEnds(bounds, lengthExtension, length), HalfX(bounds, halfWidth, length), HalfY(bounds, halfWidth, length))
  }

  /** A point becomes a diamond whose corners lie 0.70710678 * width left, above, below and right of it. */
  lemma PointDiamond(bounds: Bounds, width: real, lengthExtension: real, length: real)
    requires IsPoint(bounds)
    ensures var r, d := LineToQuad(bounds, width, lengthExtension, length), UnitLength * width;
      r.0 == Bounds(bounds.x0 - d, bounds.y0, bounds.x0, bounds.y0 - d) &&
      r.1 == Bounds(bounds.x0, bounds.y0 + d, bounds.x0 + d, bounds.y0)
  {
  }

  /** The edges Across builds are centred on m's ends and offset by (vy, -vx) from them. */
  lemma AcrossShape(m: Bounds, vx: real, vy: real)
    ensures var r := Across(m, vx, vy);
      r.0.x1 - r.0.x0 == 2.0 * vy && r.0.y1 - r.0.y0 == -2.0 * vx &&
      MidX(r.1) - MidX(r.0) == m.x1 - m.x0 && MidY(r.1) - MidY(r.0) == m.y1 - m.y0
  {
  }

  /** Equal differences have equal squared lengths. */
  lemma SquaresOf(a: real, b: real, c: real, d: real)
    requires a == c && b == d
    ensures Square(a) + Square(b) == Square(c) + Square(d)
  {
  }

  /** For a line, each short edge is perpendicular to the line. */
  lemma EdgesPerpendicular(bounds: Bounds, width: real, lengthExtension: real, length: real)
    requires 0.0 < length && !IsPoint(bounds)
    ensures var r := LineToQuad(bounds, width, lengthExtension, length);
      (r.0.x1 - r.0.x0) * (bounds.x1 - bounds.x0) + (r.0.y1 - r.0.y0) * (bounds.y1 - bounds.y0) == 0.0
  {
    var i := width * 0.5 / length;
    AcrossShape(LineEnds(bounds, lengthExtension, length), HalfX(bounds, width * 0.5, length), HalfY(bounds, width * 0.5, length));
    Perpendicular(bounds.x1 - bounds.x0, bounds.y1 - bounds.y0, i);
  }

  lemma Perpendicular(ux: real, uy: real, i: real)
    ensures 2.0 * (uy * i) * ux + -2.0 * (ux * i) * uy == 0.0
  {
  }

  /** For a line, each short edge is exactly width long. */
  lemma EdgesWidth(bounds: Bounds, width: real, lengthExtension: real, length: real)
    requires !IsPoint(bounds) && IsLength(bounds, length)
    ensures var r := LineToQuad(bounds, width, lengthExtension, length);
      Square(r.0.x1 - r.0.x0) + Square(r.0.y1 - r.0.y0) == Square(width)
  {
    var m, vx, vy := LineEnds(bounds, lengthExtension, length), HalfX(bounds, width * 0.5, length), HalfY(bounds, width * 0.5, length);
    assert LineToQuad(bounds, width, lengthExtension, length) == Across(m, vx, vy);
    AcrossEdgeLength(m, vx, vy);
    HalfLength(bounds, width, length);
  }

  /** Each edge Across builds is twice as long as (vx, vy). */
  lemma AcrossEdgeLength(m: Bounds, vx: real, vy: real)
    ensures var r := Across(m, vx, vy);
      Square(r.0.x1 - r.0.x0) + Square(r.0.y1 - r.0.y0) == Square(2.0 * vy) + Square(-2.0 * vx)
  {
    var r := Across(m, vx, vy);
    SquaresOf(r.0.x1 - r.0.x0, r.0.y1 - r.0.y0, 2.0 * vy, -2.0 * vx);
  }

  /** The half-width vector is half of width long. */
  lemma HalfLength(bounds: Bounds, width: real, length: real)
    requires IsLength(bounds, length)
    ensures Square(2.0 * HalfY(bounds, width * 0.5, length)) + Square(-2.0 * HalfX(bounds, width * 0.5, length)) == Square(width)
  {
    DivMul(width * 0.5, length);
    ScaledLength(bounds.x1 - bounds.x0, bounds.y1 - bounds.y0, length, width * 0.5 / length, width);
  }

  /** (uy, -ux) * i * 2 is w long when i * length == w / 2 and (ux, uy) is length long. */
  lemma ScaledLength(ux: real, uy: real, length: real, i: real, w: real)
    requires length * length == Square(ux) + Square(uy) && i * length == w * 0.5
    ensures Square(2.0 * (uy * i)) + Square(-2.0 * (ux * i)) == Square(w)
  {
    assert Square(2.0 * (uy * i)) + Square(-2.0 * (ux * i)) == 4.0 * (i * i) * (ux * ux + uy * uy);
    assert 4.0 * (i * i) * (length * length) == 4.0 * ((i * length) * (i * length));
    assert 4.0 * ((w * 0.5) * (w * 0.5)) == w * w;
  }

  /** For a line, the centre line of the quad runs along the line. */
  lemma CentreLineAlong(bounds: Bounds, width: real, lengthExtension: real, length: real)
    requires 0.0 < length && !IsPoint(bounds)
    ensures var r := LineToQuad(bounds, width, lengthExtension, length);
      (MidX(r.1) - MidX(r.0)) * (bounds.y1 - bounds.y0) == (MidY(r.1) - MidY(r.0)) * (bounds.x1 - bounds.x0)
  {
    var m := LineEnds(bounds, lengthExtension, length);
    AcrossShape(m, HalfX(bounds, width * 0.5, length), HalfY(bounds, width * 0.5, length));
    LineEndsStretch(bounds, lengthExtension, length);
    Parallel(bounds.x1 - bounds.x0, bounds.y1 - bounds.y0, (length + Max(lengthExtension, 0.0)) / length);
  }

  lemma Parallel(ux: real, uy: real, g: real)
    ensures (ux * g) * uy == (uy * g) * ux
  {
  }

  /** For a line, the centre line of the quad is lengthExtension longer than the line when that is positive. */
  lemma CentreLineLength(bounds: Bounds, width: real, lengthExtension: real, length: real)
    requires !IsPoint(bounds) && IsLength(bounds, length)
    ensures var r := LineToQuad(bounds, width, lengthExtension, length);
      Square(MidX(r.1) - MidX(r.0)) + Square(MidY(r.1) - MidY(r.0)) == Square(length + Max(lengthExtension, 0.0))
  {
    var m, vx, vy := LineEnds(bounds, lengthExtension, length), HalfX(bounds, width * 0.5, length), HalfY(bounds, width * 0.5, length);
    assert LineToQuad(bounds, width, lengthExtension, length) == Across(m, vx, vy);
    AcrossCentreLength(m, vx, vy);
    LineEndsLength(bounds, lengthExtension, length);
  }

  /** The centre line of what Across builds is m. */
  lemma AcrossCentreLength(m: Bounds, vx: real, vy: real)
    ensures var r := Across(m, vx, vy);
      Square(MidX(r.1) - MidX(r.0)) + Square(MidY(r.1) - MidY(r.0)) == Square(m.x1 - m.x0) + Square(m.y1 - m.y0)
  {
    var r := Across(m, vx, vy);
    SquaresOf(MidX(r.1) - MidX(r.0), MidY(r.1) - MidY(r.0), m.x1 - m.x0, m.y1 - m.y0);
  }

  /** The extended line is length + lengthExtension long. */
  lemma LineEndsLength(bounds: Bounds, lengthExtension: real, length: real)
    requires IsLength(bounds, length)
    ensures var m := LineEnds(bounds, lengthExtension, length);
      Square(m.x1 - m.x0) + Square(m.y1 - m.y0) == Square(length + Max(lengthExtension, 0.0))
  {
    StretchSquares(bounds, lengthExtension, length);
    LineScaled(bounds, length, length + Max(lengthExtension, 0.0));
  }

  lemma StretchSquares(bounds: Bounds, lengthExtension: real, length: real)
    requires 0.0 < length
    ensures var m, g := LineEnds(bounds, lengthExtension, length), (length + Max(lengthExtension, 0.0)) / length;
      Square(m.x1 - m.x0) + Square(m.y1 - m.y0) == Square((bounds.x1 - bounds.x0) * g) + Square((bounds.y1 - bounds.y0) * g)
  {
    var m, g := LineEnds(bounds, lengthExtension, length), (length + Max(lengthExtension, 0.0)) / length;
    LineEndsStretch(bounds, lengthExtension, length);
    SquaresOf(m.x1 - m.x0, m.y1 - m.y0, (bounds.x1 - bounds.x0) * g, (bounds.y1 - bounds.y0) * g);
  }

  /** The line scaled by l / length is l long. */
  lemma LineScaled(bounds: Bounds, length: real, l: real)
    requires IsLength(bounds, length)
    ensures Square((bounds.x1 - bounds.x0) * (l / length)) + Square((bounds.y1 - bounds.y0) * (l / length)) == Square(l)
  {
    DivMul(l, length);
    StretchedLength(bounds.x1 - bounds.x0, bounds.y1 - bounds.y0, length, l / length, l);
  }

  /** Extending the line stretches it by (length + lengthExtension) / length, in its own direction. */
  lemma LineEndsStretch(bounds: Bounds, lengthExtension: real, length: real)
    requires 0.0 < length
    ensures var m, g := LineEnds(bounds, lengthExtension, length), (length + Max(lengthExtension, 0.0)) / length;
      m.x1 - m.x0 == (bounds.x1 - bounds.x0) * g && m.y1 - m.y0 == (bounds.y1 - bounds.y0) * g
  {
    Stretch(bounds.x1 - bounds.x0, length, Max(lengthExtension, 0.0), lengthExtension > 0.0);
    Stretch(bounds.y1 - bounds.y0, length, Max(lengthExtension, 0.0), lengthExtension > 0.0);
  }

  /** Pushing both ends out by e / 2 along u / length stretches u by (length + e) / length. */
  lemma Stretch(u: real, length: real, e: real, extended: bool)
    requires 0.0 < length && 0.0 <= e && (!extended ==> e == 0.0)
    ensures (if extended then u + 2.0 * ((u / length) * (e * 0.5)) else u) == u * ((length + e) / length)
  {
    var g := (length + e) / length;
    assert g * length == length + e;
    assert (u / length) * length == u;
    var w := if extended then u + 2.0 * ((u / length) * (e * 0.5)) else u;
    assert w * length == u * (length + e);
    assert (u * g) * length == u * (length + e);
    MulCancel(w, u * g, length);
  }

  /** (ux, uy) * g is g * length long when (ux, uy) is length long. */
  lemma StretchedLength(ux: real, uy: real, length: real, g: real, l: real)
    requires length * length == Square(ux) + Square(uy) && g * length == l
    ensures Square(ux * g) + Square(uy * g) == Square(l)
  {
    assert Square(ux * g) + Square(uy * g) == (ux * ux + uy * uy) * (g * g);
    assert (length * length) * (g * g) == (g * length) * (g * length);
  }

  lemma DivMul(n: real, d: real)
    requires d != 0.0
    ensures (n / d) * d == n
  {
  }

  lemma MulCancel(a: real, b: real, d: real)
    requires d != 0.0 && a * d == b * d
    ensures a == b
  {
    assert (a - b) * d == 0.0;
  }
}
