/**
 * render_clip_line: Cohen-Sutherland clipping of a line against a
 * rectangle. Each round computes both endpoints' outcodes, accepts when both
 * are zero, rejects when they share a bit, and otherwise moves one outside
 * endpoint onto the edge its code names.
 */
module LineClip {
  import opened Geometry

  /** Outcode bits; render space grows downward, so "bottom" is beyond clip.y1. */
  const Bottom: bv8 := 1
  const Top: bv8 := 2
  const Right: bv8 := 4
  const Left: bv8 := 8

  /** The Cohen-Sutherland code of (x, y): one bit per clip edge the point lies beyond. */
  function Outcode(x: real, y: real, clip: Bounds): (code: bv8)
    ensures code & Bottom != 0 <==> y > clip.y1
    ensures code & Top != 0 <==> y < clip.y0
    ensures code & Right != 0 <==> x > clip.x1
    ensures code & Left != 0 <==> x < clip.x0
    ensures code & 0xf0 == 0
    ensures code == 0 <==> Inside(x, y, clip)
  {
    (if y > clip.y1 then Bottom else 0) | (if y < clip.y0 then Top else 0)
    | (if x > clip.x1 then Right else 0) | (if x < clip.x0 then Left else 0)
  }

  /** Both endpoints of b lie beyond the same edge of clip, so none of the line is visible. */
  predicate SameSide(b: Bounds, clip: Bounds)
  {
    (b.y0 > clip.y1 && b.y1 > clip.y1) || (b.y0 < clip.y0 && b.y1 < clip.y0)
    || (b.x0 > clip.x1 && b.x1 > clip.x1) || (b.x0 < clip.x0 && b.x1 < clip.x0)
  }

  /** The trivial-reject test on outcodes is exactly SameSide. */
  lemma SharedBit(b: Bounds, clip: Bounds)
    ensures Outcode(b.x0, b.y0, clip) & Outcode(b.x1, b.y1, clip) != 0 <==> SameSide(b, clip)
  {
  }

  /** The loop stops at b: trivially accepted or trivially rejected. */
  predicate Settled(b: Bounds, clip: Bounds)
  {
    (Inside(b.x0, b.y0, clip) && Inside(b.x1, b.y1, clip)) || SameSide(b, clip)
  }

  /** The edge a round moves an endpoint onto. */
  datatype Edge = BottomEdge | TopEdge | RightEdge | LeftEdge

  /** The first edge a nonzero code names, testing bottom, top, right, then left. */
  function ChosenEdge(code: bv8): Edge
  {
    if code & Bottom != 0 then BottomEdge
    else if code & Top != 0 then TopEdge
    else if code & Right != 0 then RightEdge
    else LeftEdge
  }

  /**
   * The geometric situation when endpoint "first" (else the second) is moved
   * onto edge e: it lies beyond e, the other endpoint does not, and it lies
   * beyond none of the edges tested before e.
   */
  predicate Crosses(b: Bounds, clip: Bounds, e: Edge, first: bool)
  {
    var mx, my, ox, oy := if first then b.x0 else b.x1, if first then b.y0 else b.y1,
                          if first then b.x1 else b.x0, if first then b.y1 else b.y0;
    match e
    case BottomEdge => my > clip.y1 && oy <= clip.y1
    case TopEdge => my <= clip.y1 && my < clip.y0 && oy >= clip.y0
    case RightEdge => clip.y0 <= my <= clip.y1 && mx > clip.x1 && ox <= clip.x1
    case LeftEdge => clip.y0 <= my <= clip.y1 && mx <= clip.x1 && mx < clip.x0 && ox >= clip.x0
  }

  /**
   * On a line that is not settled the loop moves the first endpoint when
   * its code is nonzero, else the second, onto the first edge that code names.
   */
  lemma Choice(b: Bounds, clip: Bounds)
    requires !Settled(b, clip)
    ensures var code0, code1 := Outcode(b.x0, b.y0, clip), Outcode(b.x1, b.y1, clip);
      Crosses(b, clip, ChosenEdge(if code0 != 0 then code0 else code1), code0 != 0)
  {
    var code0, code1 := Outcode(b.x0, b.y0, clip), Outcode(b.x1, b.y1, clip);
    SharedBit(b, clip);
    var thiscode := if code0 != 0 then code0 else code1;
    assert thiscode != 0 && thiscode & 0xf0 == 0;
    assert thiscode & Bottom == 0 && thiscode & Top == 0 && thiscode & Right == 0 ==> thiscode & Left != 0;
  }

  /**
   * The coordinate o at which the line from (a0, o0) to (a1, o1) reaches
   * a = c, computed as o0 + (o1 - o0) * (c - a0) / (a1 - a0).
   */
  function Interp(o0: real, o1: real, a0: real, a1: real, c: real): real
    requires a0 != a1
  {
    o0 + (o1 - o0) * (c - a0) / (a1 - a0)
  }

  /**
   * Where the line meets edge e: the coordinate along the edge is
   * interpolated from the first endpoint, as the source computes it.
   */
  function Cross(b: Bounds, clip: Bounds, e: Edge): (p: (real, real))
    requires e.BottomEdge? || e.TopEdge? ==> b.y1 != b.y0
    requires e.RightEdge? || e.LeftEdge? ==> b.x1 != b.x0
  {
    match e
    case BottomEdge => (Interp(b.x0, b.x1, b.y0, b.y1, clip.y1), clip.y1)
    case TopEdge => (Interp(b.x0, b.x1, b.y0, b.y1, clip.y0), clip.y0)
    case RightEdge => (clip.x1, Interp(b.y0, b.y1, b.x0, b.x1, clip.x1))
    case LeftEdge => (clip.x0, Interp(b.y0, b.y1, b.x0, b.x1, clip.x0))
  }

  /** Moving the chosen endpoint to where the line meets edge e. */
  function Move(b: Bounds, clip: Bounds, e: Edge, first: bool): (n: Bounds)
    requires Crosses(b, clip, e, first)
    ensures first ==> n.x1 == b.x1 && n.y1 == b.y1
    ensures !first ==> n.x0 == b.x0 && n.y0 == b.y0
  {
    var p := Cross(b, clip, e);
    if first then b.(x0 := p.0, y0 := p.1) else b.(x1 := p.0, y1 := p.1)
  }

  /** One round of the loop on a line that is not settled. */
  function ClipStep(b: Bounds, clip: Bounds): (n: Bounds)
    requires !Settled(b, clip)
    ensures !Inside(b.x0, b.y0, clip) ==> n.x1 == b.x1 && n.y1 == b.y1
    ensures Inside(b.x0, b.y0, clip) ==> n.x0 == b.x0 && n.y0 == b.y0
  {
    var code0, code1 := Outcode(b.x0, b.y0, clip), Outcode(b.x1, b.y1, clip);
    Choice(b, clip);
    Move(b, clip, ChosenEdge(if code0 != 0 then code0 else code1), code0 != 0)
  }

  /** The number of clip edges (x, y) lies beyond. */
  function Outside(x: real, y: real, clip: Bounds): nat
  {
    (if y > clip.y1 then 1 else 0) + (if y < clip.y0 then 1 else 0)
    + (if x > clip.x1 then 1 else 0) + (if x < clip.x0 then 1 else 0)
  }

  /** The loop's measure: 0 once rejected, else one more than the edges the endpoints lie beyond. */
  function Pending(b: Bounds, clip: Bounds): nat
  {
    if SameSide(b, clip) then 0 else Outside(b.x0, b.y0, clip) + Outside(b.x1, b.y1, clip) + 1
  }

  /** (x, y) lies on the infinite line through the endpoints of l. */
  predicate OnLine(x: real, y: real, l: Bounds)
  {
    (x - l.x0) * (l.y1 - l.y0) == (y - l.y0) * (l.x1 - l.x0)
  }

  /** The interpolated coordinate at a crossing between a0 and a1 lies between o0 and o1. */
  lemma InterpBetween(o0: real, o1: real, a0: real, a1: real, c: real)
    requires a0 != a1 && Min(a0, a1) <= c <= Max(a0, a1)
    ensures Min(o0, o1) <= Interp(o0, o1, a0, a1, c) <= Max(o0, o1)
  {
    var t := (c - a0) / (a1 - a0);
    Fraction(c - a0, a1 - a0);
    MulDiv(o1 - o0, c - a0, a1 - a0);
    assert Interp(o0, o1, a0, a1, c) == o0 + (o1 - o0) * t;
    Between(o0, o1, t);
  }

  /** The crossing with the horizontal line y = c lies between the endpoints. */
  lemma CrossRowInBox(b: Bounds, c: real)
    requires b.y0 != b.y1 && Min(b.y0, b.y1) <= c <= Max(b.y0, b.y1)
    ensures InBox(Interp(b.x0, b.x1, b.y0, b.y1, c), c, b)
  {
    InterpBetween(b.x0, b.x1, b.y0, b.y1, c);
  }

  /** The crossing with the vertical line x = c lies between the endpoints. */
  lemma CrossColumnInBox(b: Bounds, c: real)
    requires b.x0 != b.x1 && Min(b.x0, b.x1) <= c <= Max(b.x0, b.x1)
    ensures InBox(c, Interp(b.y0, b.y1, b.x0, b.x1, c), b)
  {
    InterpBetween(b.y0, b.y1, b.x0, b.x1, c);
  }

  /** The crossing with y = c lies on any line both endpoints lie on. */
  lemma CrossRowOnLine(b: Bounds, c: real, l: Bounds)
    requires b.y0 != b.y1
    requires OnLine(b.x0, b.y0, l) && OnLine(b.x1, b.y1, l)
    ensures OnLine(Interp(b.x0, b.x1, b.y0, b.y1, c), c, l)
  {
    var t := (c - b.y0) / (b.y1 - b.y0);
    MulDiv(b.x1 - b.x0, c - b.y0, b.y1 - b.y0);
    assert c == b.y0 + (b.y1 - b.y0) * t;
    OnLineLerp(b.x0, b.y0, b.x1, b.y1, t, l);
  }

  /** The crossing with x = c lies on any line both endpoints lie on. */
  lemma CrossColumnOnLine(b: Bounds, c: real, l: Bounds)
    requires b.x0 != b.x1
    requires OnLine(b.x0, b.y0, l) && OnLine(b.x1, b.y1, l)
    ensures OnLine(c, Interp(b.y0, b.y1, b.x0, b.x1, c), l)
  {
    var t := (c - b.x0) / (b.x1 - b.x0);
    MulDiv(b.y1 - b.y0, c - b.x0, b.x1 - b.x0);
    assert c == b.x0 + (b.x1 - b.x0) * t;
    OnLineLerp(b.x0, b.y0, b.x1, b.y1, t, l);
  }

  /** A point between two points of a line is on the line. */
  lemma OnLineLerp(x0: real, y0: real, x1: real, y1: real, t: real, l: Bounds)
    requires OnLine(x0, y0, l) && OnLine(x1, y1, l)
    ensures OnLine(x0 + (x1 - x0) * t, y0 + (y1 - y0) * t, l)
  {
    var dx, dy := l.x1 - l.x0, l.y1 - l.y0;
    calc {
      (x0 + (x1 - x0) * t - l.x0) * dy;
      (x0 - l.x0) * dy + t * ((x1 - l.x0) * dy - (x0 - l.x0) * dy);
      (y0 - l.y0) * dx + t * ((y1 - l.y0) * dx - (y0 - l.y0) * dx);
      (y0 + (y1 - y0) * t - l.y0) * dx;
    }
  }

  /** The crossing lies between the two current endpoints. */
  lemma CrossInBox(b: Bounds, clip: Bounds, e: Edge, first: bool)
    requires Crosses(b, clip, e, first)
    ensures InBox(Cross(b, clip, e).0, Cross(b, clip, e).1, b)
  {
    match e
    case BottomEdge => CrossRowInBox(b, clip.y1);
    case TopEdge => CrossRowInBox(b, clip.y0);
    case RightEdge => CrossColumnInBox(b, clip.x1);
    case LeftEdge => CrossColumnInBox(b, clip.x0);
  }

  /** The crossing lies on any line both current endpoints lie on. */
  lemma CrossOnLine(b: Bounds, clip: Bounds, e: Edge, first: bool, l: Bounds)
    requires Crosses(b, clip, e, first)
    requires OnLine(b.x0, b.y0, l) && OnLine(b.x1, b.y1, l)
    ensures OnLine(Cross(b, clip, e).0, Cross(b, clip, e).1, l)
  {
    match e
    case BottomEdge => CrossRowOnLine(b, clip.y1, l);
    case TopEdge => CrossRowOnLine(b, clip.y0, l);
    case RightEdge => CrossColumnOnLine(b, clip.x1, l);
    case LeftEdge => CrossColumnOnLine(b, clip.x0, l);
  }

  /**
   * Termination: the moved endpoint is no longer beyond the edge it was
   * moved onto, and it is beyond another edge only when the other endpoint
   * is too, so a round either sets up a rejection or lowers the count.
   */
  lemma MoveProgress(b: Bounds, clip: Bounds, e: Edge, first: bool)
    requires Crosses(b, clip, e, first) && !SameSide(b, clip)
    ensures Pending(Move(b, clip, e, first), clip) < Pending(b, clip)
  {
    CrossInBox(b, clip, e, first);
  }

  /** ClipStep stays in the box of, and on the line through, the current endpoints, and makes progress. */
  lemma ClipStepFacts(b: Bounds, clip: Bounds, l: Bounds)
    requires !Settled(b, clip)
    requires OnLine(b.x0, b.y0, l) && OnLine(b.x1, b.y1, l)
    ensures var n := ClipStep(b, clip);
      InBox(n.x0, n.y0, b) && InBox(n.x1, n.y1, b)
      && OnLine(n.x0, n.y0, l) && OnLine(n.x1, n.y1, l)
      && Pending(n, clip) < Pending(b, clip)
  {
    var code0, code1 := Outcode(b.x0, b.y0, clip), Outcode(b.x1, b.y1, clip);
    Choice(b, clip);
    var e, first := ChosenEdge(if code0 != 0 then code0 else code1), code0 != 0;
    CrossInBox(b, clip, e, first);
    CrossOnLine(b, clip, e, first, l);
    MoveProgress(b, clip, e, first);
  }

  /** Within the bounding box of c, which lies within the bounding box of b. */
  lemma InBoxTrans(x: real, y: real, c: Bounds, b: Bounds)
    requires InBox(x, y, c) && InBox(c.x0, c.y0, b) && InBox(c.x1, c.y1, b)
    ensures InBox(x, y, b)
  {
  }

  method ClipLine(bounds: Bounds, clip: Bounds) returns (rejected: bool, clipped: Bounds)
    ensures !rejected <==> Inside(clipped.x0, clipped.y0, clip) && Inside(clipped.x1, clipped.y1, clip)
    ensures rejected <==> SameSide(clipped, clip)
    ensures InBox(clipped.x0, clipped.y0, bounds) && InBox(clipped.x1, clipped.y1, bounds)
    ensures OnLine(clipped.x0, clipped.y0, bounds) && OnLine(clipped.x1, clipped.y1, bounds)
    ensures Settled(bounds, clip) ==> clipped == bounds
  {
    clipped := bounds;
    assert OnLine(bounds.x1, bounds.y1, bounds);
    while true
      invariant InBox(clipped.x0, clipped.y0, bounds) && InBox(clipped.x1, clipped.y1, bounds)
      invariant OnLine(clipped.x0, clipped.y0, bounds) && OnLine(clipped.x1, clipped.y1, bounds)
      invariant Settled(bounds, clip) ==> clipped == bounds
      decreases Pending(clipped, clip)
    {
      var code0 := Outcode(clipped.x0, clipped.y0, clip);
      var code1 := Outcode(clipped.x1, clipped.y1, clip);

      // trivial accept
      if code0 | code1 == 0 {
        return false, clipped;
      }

      // trivial reject
      SharedBit(clipped, clip);
      if code0 & code1 != 0 {
        return true, clipped;
      }

      // move one outside endpoint onto the edge its code names
      ClipStepFacts(clipped, clip, bounds);
      var next := ClipStep(clipped, clip);
      InBoxTrans(next.x0, next.y0, clipped, bounds);
      InBoxTrans(next.x1, next.y1, clipped, bounds);
      clipped := next;
    }
  }
}
