/**
 * render_clip_quad: clipping an axis-aligned quad to a rectangle, and
 * cutting its texture coordinates down to the part that survives.
 */
module QuadClip {
  import opened Wrappers
  import opened Geometry

  /** The fraction of the way from lo to hi at which v lies. */
  function Frac(v: real, lo: real, hi: real): real
    requires lo != hi
  {
    (v - lo) / (hi - lo)
  }

  /**
   * Where v lies across the original extent lo..hi; an extent of zero
   * length is never cut, and then its edge keeps the default position.
   */
  function Param(v: real, lo: real, hi: real, default: real): real
  {
    if lo == hi then default else Frac(v, lo, hi)
  }

  /** The quad lies wholly above, below, left or right of the clip. */
  predicate Disjoint(b: Bounds, clip: Bounds)
  {
    b.y1 < clip.y0 || b.y0 > clip.y1 || b.x1 < clip.x0 || b.x0 > clip.x1
  }

  /** The overlap of the quad with the clip rectangle. */
  function Intersection(b: Bounds, clip: Bounds): Bounds
  {
    Bounds(Max(b.x0, clip.x0), Max(b.y0, clip.y0), Min(b.x1, clip.x1), Min(b.y1, clip.y1))
  }

  /**
   * Clips bounds to clip. A disjoint quad is rejected and left as it is;
   * otherwise the quad becomes its overlap with clip, and texture
   * coordinates, when given, become those of the original quad's texture
   * at the corners of that overlap.
   */
  method ClipQuad(bounds: Bounds, clip: Bounds, texcoords: Option<QuadUv>)
    returns (rejected: bool, clipped: Bounds, uv: Option<QuadUv>)
    requires bounds.x0 <= bounds.x1 && bounds.y0 <= bounds.y1
    requires clip.x0 <= clip.x1 && clip.y0 <= clip.y1
    ensures rejected <==> Disjoint(bounds, clip)
    ensures rejected ==> clipped == bounds && uv == texcoords
    ensures !rejected ==> clipped == Intersection(bounds, clip)
    ensures !rejected ==> Inside(clipped.x0, clipped.y0, clip) && Inside(clipped.x1, clipped.y1, clip)
    ensures texcoords.None? ==> uv.None?
    ensures !rejected && texcoords.Some? ==>
      uv == Some(Window(texcoords.value,
        Param(clipped.x0, bounds.x0, bounds.x1, 0.0), Param(clipped.x1, bounds.x0, bounds.x1, 1.0),
        Param(clipped.y0, bounds.y0, bounds.y1, 0.0), Param(clipped.y1, bounds.y0, bounds.y1, 1.0)))
  {
    clipped, uv := bounds, texcoords;
    // trivial reject: wholly above, below, left or right of the clip
    if Disjoint(bounds, clip) {
      return true, clipped, uv;
    }
    rejected := false;

    // The part of the original texture the current corners stand for.
    ghost var s0, s1, t0, t1 := 0.0, 1.0, 0.0, 1.0;
    ParamEnds(bounds.x0, bounds.x1);
    ParamEnds(bounds.y0, bounds.y1);
    if texcoords.Some? { WindowWhole(texcoords.value); }

    // clip top: tl and tr move toward bl and br
    if clipped.y0 < clip.y0 {
      var frac := (clip.y0 - clipped.y0) / (clipped.y1 - clipped.y0);
      clipped := clipped.(y0 := clip.y0);
      if uv.Some? {
        var q := uv.value;
        ClipTopWindow(texcoords.value, s0, s1, t0, t1, frac);
        uv := Some(q.(tl := Lerp(q.tl, q.bl, frac), tr := Lerp(q.tr, q.br, frac)));
      }
      t0 := Mix(t0, t1, frac);
    }
    assert t0 == Param(clipped.y0, bounds.y0, bounds.y1, 0.0);

    // clip bottom: bl and br move back toward the (new) tl and tr
    if clipped.y1 > clip.y1 {
      var frac := (clipped.y1 - clip.y1) / (clipped.y1 - clipped.y0);
      FracBack(bounds.y0, bounds.y1, clipped.y0, clip.y1);
      clipped := clipped.(y1 := clip.y1);
      if uv.Some? {
        var q := uv.value;
        ClipBottomWindow(texcoords.value, s0, s1, t0, t1, frac);
        uv := Some(q.(bl := Lerp(q.bl, q.tl, frac), br := Lerp(q.br, q.tr, frac)));
      }
      t1 := Mix(t1, t0, frac);
    }
    assert t1 == Param(clipped.y1, bounds.y0, bounds.y1, 1.0);

    // clip left: tl and bl move toward tr and br
    if clipped.x0 < clip.x0 {
      var frac := (clip.x0 - clipped.x0) / (clipped.x1 - clipped.x0);
      clipped := clipped.(x0 := clip.x0);
      if uv.Some? {
        var q := uv.value;
        ClipLeftWindow(texcoords.value, s0, s1, t0, t1, frac);
        uv := Some(q.(tl := Lerp(q.tl, q.tr, frac), bl := Lerp(q.bl, q.br, frac)));
      }
      s0 := Mix(s0, s1, frac);
    }
    assert s0 == Param(clipped.x0, bounds.x0, bounds.x1, 0.0);

    // clip right: tr and br move back toward the (new) tl and bl
    if clipped.x1 > clip.x1 {
      var frac := (clipped.x1 - clip.x1) / (clipped.x1 - clipped.x0);
      FracBack(bounds.x0, bounds.x1, clipped.x0, clip.x1);
      clipped := clipped.(x1 := clip.x1);
      if uv.Some? {
        var q := uv.value;
        ClipRightWindow(texcoords.value, s0, s1, t0, t1, frac);
        uv := Some(q.(tr := Lerp(q.tr, q.tl, frac), br := Lerp(q.br, q.bl, frac)));
      }
      s1 := Mix(s1, s0, frac);
    }
    assert s1 == Param(clipped.x1, bounds.x0, bounds.x1, 1.0);
  }

  /** Moving the top corners down by f cuts the window's top edge down by f. */
  lemma ClipTopWindow(q: QuadUv, s0: real, s1: real, t0: real, t1: real, f: real)
    ensures var w := Window(q, s0, s1, t0, t1);
      w.(tl := Lerp(w.tl, w.bl, f), tr := Lerp(w.tr, w.br, f)) == Window(q, s0, s1, Mix(t0, t1, f), t1)
  {
    BilerpDown(q, s0, t0, t1, f);
    BilerpDown(q, s1, t0, t1, f);
  }

  /** Moving the bottom corners up by f cuts the window's bottom edge up by f. */
  lemma ClipBottomWindow(q: QuadUv, s0: real, s1: real, t0: real, t1: real, f: real)
    ensures var w := Window(q, s0, s1, t0, t1);
      w.(bl := Lerp(w.bl, w.tl, f), br := Lerp(w.br, w.tr, f)) == Window(q, s0, s1, t0, Mix(t1, t0, f))
  {
    BilerpDown(q, s0, t1, t0, f);
    BilerpDown(q, s1, t1, t0, f);
  }

  /** Moving the left corners right by f cuts the window's left edge by f. */
  lemma ClipLeftWindow(q: QuadUv, s0: real, s1: real, t0: real, t1: real, f: real)
    ensures var w := Window(q, s0, s1, t0, t1);
      w.(tl := Lerp(w.tl, w.tr, f), bl := Lerp(w.bl, w.br, f)) == Window(q, Mix(s0, s1, f), s1, t0, t1)
  {
    BilerpAcross(q, t0, s0, s1, f);
    BilerpAcross(q, t1, s0, s1, f);
  }

  /** Moving the right corners left by f cuts the window's right edge by f. */
  lemma ClipRightWindow(q: QuadUv, s0: real, s1: real, t0: real, t1: real, f: real)
    ensures var w := Window(q, s0, s1, t0, t1);
      w.(tr := Lerp(w.tr, w.tl, f), br := Lerp(w.br, w.bl, f)) == Window(q, s0, Mix(s1, s0, f), t0, t1)
  {
    BilerpAcross(q, t0, s1, s0, f);
    BilerpAcross(q, t1, s1, s0, f);
  }

  /**
   * The second cut on an axis is measured against the extent left by the
   * first (from m to hi); in terms of the original extent lo..hi it lands
   * where c lies.
   */
  lemma FracBack(lo: real, hi: real, m: real, c: real)
    requires lo <= m < hi
    ensures Mix(1.0, Param(m, lo, hi, 0.0), (hi - c) / (hi - m)) == Frac(c, lo, hi)
  {
    var d, e := hi - lo, hi - m;
    var a := (m - lo) / d;
    assert a == Param(m, lo, hi, 0.0);
    assert a - 1.0 == -(e / d) by {
      assert a * d == m - lo;
      assert (a - 1.0) * d == -e;
      assert (-(e / d)) * d == -e;
      MulCancel(a - 1.0, -(e / d), d);
    }
    var g := (hi - c) / e;
    assert (e / d) * g == (hi - c) / d by {
      assert g * e == hi - c;
      assert ((e / d) * g) * d == (e / d * d) * g;
      assert ((e / d) * g) * d == hi - c;
      assert ((hi - c) / d) * d == hi - c;
      MulCancel((e / d) * g, (hi - c) / d, d);
    }
    assert 1.0 - (hi - c) / d == (c - lo) / d by {
      assert (1.0 - (hi - c) / d) * d == c - lo;
      assert ((c - lo) / d) * d == c - lo;
      MulCancel(1.0 - (hi - c) / d, (c - lo) / d, d);
    }
  }

  /** An uncut extent's edges keep their positions 0 and 1. */
  lemma ParamEnds(lo: real, hi: real)
    ensures Param(lo, lo, hi, 0.0) == 0.0
    ensures Param(hi, lo, hi, 1.0) == 1.0
  {
    if lo != hi {
      var d := hi - lo;
      assert (d / d) * d == d;
      MulCancel(d / d, 1.0, d);
    }
  }

  lemma MulCancel(a: real, b: real, d: real)
    requires d != 0.0 && a * d == b * d
    ensures a == b
  {
    assert (a - b) * d == 0.0;
  }
}
