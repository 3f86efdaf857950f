/**
 * The render-space value types the clippers work on, with single-precision
 * floats taken as exact reals, and the interpolation facts they rely on.
 */
module Geometry {
  /** render_bounds: a rectangle, or a line from (x0, y0) to (x1, y1). */
  datatype Bounds = Bounds(x0: real, y0: real, x1: real, y1: real)

  /** One texture coordinate pair. */
  datatype Uv = Uv(u: real, v: real)

  /** render_quad_texuv: the texture coordinates at the four corners of a quad. */
  datatype QuadUv = QuadUv(tl: Uv, tr: Uv, bl: Uv, br: Uv)

  function Min(a: real, b: real): real { if a <= b then a else b }
  function Max(a: real, b: real): real { if a <= b then b else a }

  /** (x, y) lies inside the closed rectangle r. */
  predicate Inside(x: real, y: real, r: Bounds)
  {
    r.x0 <= x <= r.x1 && r.y0 <= y <= r.y1
  }

  /** (x, y) lies inside the bounding box of the segment b. */
  predicate InBox(x: real, y: real, b: Bounds)
  {
    Min(b.x0, b.x1) <= x <= Max(b.x0, b.x1) && Min(b.y0, b.y1) <= y <= Max(b.y0, b.y1)
  }

  /** p + (q - p) * f: the point a fraction f of the way from p to q. */
  function Mix(p: real, q: real, f: real): real
  {
    p + (q - p) * f
  }

  /** Mix, componentwise. */
  function Lerp(p: Uv, q: Uv, f: real): Uv
  {
    Uv(Mix(p.u, q.u, f), Mix(p.v, q.v, f))
  }

  /**
   * The texture coordinate at the fractional position (s, t) of the quad:
   * s runs from the left edge to the right edge, t from top to bottom.
   */
  function Bilerp(q: QuadUv, s: real, t: real): Uv
  {
    Lerp(Lerp(q.tl, q.bl, t), Lerp(q.tr, q.br, t), s)
  }

  /** The corners of the part of q between s0 and s1 across and t0 and t1 down. */
  function Window(q: QuadUv, s0: real, s1: real, t0: real, t1: real): QuadUv
  {
    QuadUv(Bilerp(q, s0, t0), Bilerp(q, s1, t0), Bilerp(q, s0, t1), Bilerp(q, s1, t1))
  }

  /** The whole quad is its own window. */
  lemma WindowWhole(q: QuadUv)
    ensures Window(q, 0.0, 1.0, 0.0, 1.0) == q
  {
  }

  /** Interpolating between two points of one interpolation stays on it. */
  lemma LerpCompose(p: Uv, q: Uv, a: real, b: real, f: real)
    ensures Lerp(Lerp(p, q, a), Lerp(p, q, b), f) == Lerp(p, q, Mix(a, b, f))
  {
    LerpCompose1(p.u, q.u, a, b, f);
    LerpCompose1(p.v, q.v, a, b, f);
  }

  lemma LerpCompose1(p: real, q: real, a: real, b: real, f: real)
    ensures Mix(Mix(p, q, a), Mix(p, q, b), f) == Mix(p, q, Mix(a, b, f))
  {
    var d := q - p;
    assert (p + d * b) - (p + d * a) == d * (b - a);
    assert d * (b - a) * f == d * ((b - a) * f);
    assert d * a + d * ((b - a) * f) == d * (a + (b - a) * f);
  }

  /** Bilerp is affine in t for a fixed s. */
  lemma BilerpDown(q: QuadUv, s: real, a: real, b: real, f: real)
    ensures Lerp(Bilerp(q, s, a), Bilerp(q, s, b), f) == Bilerp(q, s, Mix(a, b, f))
  {
    LerpCompose(q.tl, q.bl, a, b, f);
    LerpCompose(q.tr, q.br, a, b, f);
    LerpSwap(Lerp(q.tl, q.bl, a), Lerp(q.tr, q.br, a), Lerp(q.tl, q.bl, b), Lerp(q.tr, q.br, b), s, f);
  }

  /** Interpolating first across then down equals interpolating first down then across. */
  lemma LerpSwap(a: Uv, b: Uv, c: Uv, d: Uv, s: real, f: real)
    ensures Lerp(Lerp(a, b, s), Lerp(c, d, s), f) == Lerp(Lerp(a, c, f), Lerp(b, d, f), s)
  {
    LerpSwap1(a.u, b.u, c.u, d.u, s, f);
    LerpSwap1(a.v, b.v, c.v, d.v, s, f);
  }

  lemma LerpSwap1(a: real, b: real, c: real, d: real, s: real, f: real)
    ensures Mix(Mix(a, b, s), Mix(c, d, s), f) == Mix(Mix(a, c, f), Mix(b, d, f), s)
  {
    var ab, cd := a + (b - a) * s, c + (d - c) * s;
    var ac, bd := a + (c - a) * f, b + (d - b) * f;
    assert cd - ab == (c - a) + ((d - c) - (b - a)) * s;
    assert bd - ac == (b - a) + ((d - b) - (c - a)) * f;
    assert ((c - a) + ((d - c) - (b - a)) * s) * f == (c - a) * f + ((d - c) - (b - a)) * s * f;
    assert ((b - a) + ((d - b) - (c - a)) * f) * s == (b - a) * s + ((d - b) - (c - a)) * f * s;
    assert ((d - c) - (b - a)) * s * f == ((d - b) - (c - a)) * f * s;
  }

  /** Bilerp is affine in s for a fixed t. */
  lemma BilerpAcross(q: QuadUv, t: real, a: real, b: real, f: real)
    ensures Lerp(Bilerp(q, a, t), Bilerp(q, b, t), f) == Bilerp(q, Mix(a, b, f), t)
  {
    LerpCompose(Lerp(q.tl, q.bl, t), Lerp(q.tr, q.br, t), a, b, f);
  }

  /** a + (b - a) * t for t in [0, 1] lies between a and b. */
  lemma Between(a: real, b: real, t: real)
    requires 0.0 <= t <= 1.0
    ensures Min(a, b) <= a + (b - a) * t <= Max(a, b)
  {
    if a <= b {
      MulNonneg(b - a, t);
      MulNonneg(b - a, 1.0 - t);
    } else {
      MulNonneg(a - b, t);
      MulNonneg(a - b, 1.0 - t);
    }
  }

  lemma MulPos(a: real, b: real)
    requires 0.0 < a && 0.0 < b
    ensures 0.0 < a * b
  {
  }

  lemma MulNonneg(a: real, b: real)
    requires 0.0 <= a && 0.0 <= b
    ensures 0.0 <= a * b
  {
  }

  /** n / d lies in [0, 1] when n lies between 0 and d. */
  lemma Fraction(n: real, d: real)
    requires d != 0.0
    requires 0.0 <= n <= d || d <= n <= 0.0
    ensures 0.0 <= n / d <= 1.0
  {
    var t := n / d;
    assert t * d == n;
    if d > 0.0 {
      assert t >= 0.0 by {
        if t < 0.0 { MulNonneg(-t, d); }
      }
      assert t <= 1.0 by {
        if t > 1.0 { MulPos(t - 1.0, d); }
      }
    } else {
      assert t >= 0.0 by {
        if t < 0.0 { MulNonneg(-t, -d); }
      }
      assert t <= 1.0 by {
        if t > 1.0 { MulPos(t - 1.0, -d); }
      }
    }
  }

  /** (a * n) / d == a * (n / d). */
  lemma MulDiv(a: real, n: real, d: real)
    requires d != 0.0
    ensures a * n / d == a * (n / d)
  {
    assert (a * (n / d)) * d == a * n;
  }
}
