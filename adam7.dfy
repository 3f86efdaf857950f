/**
 * The pixel layout copy_png_alpha_to_bitmap walks: one pass over the image
 * when it is not interlaced, otherwise the seven passes of the Adam7
 * interlace (section 8.2 of ISO/IEC 15948:2003, the PNG standard), each
 * pass a sub-image whose pixel (x, y) lands at (XTrans(x), YTrans(y)).
 */
module Adam7 {
  import opened Pixels

  /** The interlace tables, as the source spells them. */
  const XBias: seq<nat> := [7, 3, 3, 1, 1, 0, 0]
  const YBias: seq<nat> := [7, 7, 3, 3, 1, 1, 0]
  const XShift: seq<nat> := [3, 3, 2, 2, 1, 1, 0]
  const YShift: seq<nat> := [3, 3, 3, 2, 2, 1, 1]

  /** 1 << s. */
  function Pow2(s: nat): (r: nat)
    ensures r >= 1
  {
    if s == 0 then 1 else 2 * Pow2(s - 1)
  }

  /** pass_count: seven passes when interlaced, one otherwise. */
  function PassCount(interlaced: bool): nat
  {
    if interlaced then 7 else 1
  }

  /** The distance between the columns (rows) of one pass, and the first column (row) it covers. */
  function XStep(p: nat): nat requires p < 7 { Pow2(XShift[p]) }
  function YStep(p: nat): nat requires p < 7 { Pow2(YShift[p]) }
  function XOffset(p: nat): int requires p < 7 { XStep(p) - XBias[p] - 1 }
  function YOffset(p: nat): int requires p < 7 { YStep(p) - YBias[p] - 1 }

  /** The width and height of pass p: (W + x_bias) >> x_shift, or the image's own size without interlace. */
  function PassWidth(interlaced: bool, p: nat, width: nat): nat
    requires p < PassCount(interlaced)
  {
    if interlaced then (width + XBias[p]) / XStep(p) else width
  }

  function PassHeight(interlaced: bool, p: nat, height: nat): nat
    requires p < PassCount(interlaced)
  {
    if interlaced then (height + YBias[p]) / YStep(p) else height
  }

  /** x_trans and y_trans: (x << shift) + ((1 << shift) - bias - 1), or x itself without interlace. */
  function XTrans(interlaced: bool, p: nat, x: nat): int
    requires p < PassCount(interlaced)
  {
    if interlaced then x * XStep(p) + XOffset(p) else x
  }

  function YTrans(interlaced: bool, p: nat, y: nat): int
    requires p < PassCount(interlaced)
  {
    if interlaced then y * YStep(p) + YOffset(p) else y
  }

  /** The Adam7 pass that covers image pixel (X, Y), from the 8 x 8 pattern of the standard. */
  function PassOf(X: nat, Y: nat): (p: nat)
    ensures p < 7
  {
    if Y % 2 == 1 then 6
    else if X % 2 == 1 then 5
    else if Y % 4 == 2 then 4
    else if X % 4 == 2 then 3
    else if Y % 8 == 4 then 2
    else if X % 8 == 4 then 1
    else 0
  }

  /** The pass that writes image pixel (X, Y), and its column and row within that pass. */
  function Pass(interlaced: bool, X: nat, Y: nat): (p: nat)
    ensures p < PassCount(interlaced)
  {
    if interlaced then PassOf(X, Y) else 0
  }

  function Column(interlaced: bool, X: nat, Y: nat): nat
  {
    if interlaced then X / XStep(PassOf(X, Y)) else X
  }

  function Row(interlaced: bool, X: nat, Y: nat): nat
  {
    if interlaced then Y / YStep(PassOf(X, Y)) else Y
  }

  /** The offsets are the standard's starting columns and rows, and lie inside one step. */
  lemma PassTables(p: nat)
    requires p < 7
    ensures XStep(p) == [8, 8, 4, 4, 2, 2, 1][p] && XOffset(p) == [0, 4, 0, 2, 0, 1, 0][p]
    ensures YStep(p) == [8, 8, 8, 4, 4, 2, 2][p] && YOffset(p) == [0, 0, 4, 0, 2, 0, 1][p]
    ensures 0 <= XOffset(p) < XStep(p) && 0 <= YOffset(p) < YStep(p)
  {
  }

  /** A pass column is inside the pass exactly when its image column is inside the image. */
  lemma ColumnInRange(interlaced: bool, p: nat, x: nat, width: nat)
    requires p < PassCount(interlaced)
    ensures 0 <= XTrans(interlaced, p, x)
    ensures x < PassWidth(interlaced, p, width) <==> XTrans(interlaced, p, x) < width
  {
    if interlaced {
      PassTables(p);
      StepRange(x, XStep(p), XOffset(p), XBias[p], width);
    }
  }

  lemma RowInRange(interlaced: bool, p: nat, y: nat, height: nat)
    requires p < PassCount(interlaced)
    ensures 0 <= YTrans(interlaced, p, y)
    ensures y < PassHeight(interlaced, p, height) <==> YTrans(interlaced, p, y) < height
  {
    if interlaced {
      PassTables(p);
      StepRange(y, YStep(p), YOffset(p), YBias[p], height);
    }
  }

  /** x < (n + bias) / step iff x * step + (step - bias - 1) < n. */
  lemma StepRange(x: nat, step: nat, offset: int, bias: nat, n: nat)
    requires 0 < step && offset == step - bias - 1 && 0 <= offset
    ensures x < (n + bias) / step <==> x * step + offset < n
  {
    var q := (n + bias) / step;
    assert q * step <= n + bias < q * step + step;
    if x < q {
      assert x + 1 <= q;
      assert (x + 1) * step <= q * step by { MulMono(x + 1, q, step); }
    } else {
      assert q * step <= x * step by { MulMono(q, x, step); }
    }
  }

  /** Pixel (x, y) of pass p lands on an image pixel that pass p covers, at that column and row. */
  lemma TransCovered(interlaced: bool, p: nat, x: nat, y: nat)
    requires p < PassCount(interlaced)
    ensures var X, Y := XTrans(interlaced, p, x), YTrans(interlaced, p, y);
      0 <= X && 0 <= Y &&
      Pass(interlaced, X, Y) == p && Column(interlaced, X, Y) == x && Row(interlaced, X, Y) == y
  {
    if interlaced {
      PassTables(p);
      var X, Y := XTrans(interlaced, p, x), YTrans(interlaced, p, y);
      assert X == x * XStep(p) + XOffset(p) && Y == y * YStep(p) + YOffset(p);
      TransPattern(p, x, y);
      assert PassOf(X, Y) == p;
      DivExact(x, XStep(p), XOffset(p));
      DivExact(y, YStep(p), YOffset(p));
    }
  }

  /** The translated pixels of pass p fall on the cells of the pattern marked p. */
  lemma TransPattern(p: nat, x: nat, y: nat)
    requires p < 7
    ensures PassOf(x * XStep(p) + XOffset(p), y * YStep(p) + YOffset(p)) == p
  {
    PassTables(p);
    StepResidues(x, XStep(p), XOffset(p));
    StepResidues(y, YStep(p), YOffset(p));
  }

  /** The residues modulo 2, 4 and 8 of n * s + o, for each of those moduli that divides s. */
  lemma StepResidues(n: nat, s: nat, o: int)
    requires s == 1 || s == 2 || s == 4 || s == 8
    requires 0 <= o < s
    ensures s % 2 == 0 ==> (n * s + o) % 2 == o % 2
    ensures s % 4 == 0 ==> (n * s + o) % 4 == o % 4
    ensures s % 8 == 0 ==> (n * s + o) % 8 == o % 8
  {
    if s % 2 == 0 {
      StepMod(n, s / 2, 2, o);
    }
    if s % 4 == 0 {
      StepMod(n, s / 4, 4, o);
    }
    if s % 8 == 0 {
      StepMod(n, 1, 8, o);
    }
  }

  lemma StepMod(n: nat, k: nat, m: nat, o: nat)
    requires 0 < m
    ensures (n * (k * m) + o) % m == o % m
  {
    assert n * (k * m) + o == (n * k + o / m) * m + o % m;
    DivModUnique(n * (k * m) + o, m, n * k + o / m, o % m);
  }

  lemma DivExact(x: nat, step: nat, offset: int)
    requires 0 <= offset < step
    ensures (x * step + offset) / step == x
  {
    DivModUnique(x * step + offset, step, x, offset);
  }

  /** Every image pixel is the translation of its own column and row in its own pass. */
  lemma PixelCovered(interlaced: bool, X: nat, Y: nat)
    ensures var p := Pass(interlaced, X, Y);
      XTrans(interlaced, p, Column(interlaced, X, Y)) == X && YTrans(interlaced, p, Row(interlaced, X, Y)) == Y
  {
    if interlaced {
      var p := PassOf(X, Y);
      PassTables(p);
      PatternResidue(X, Y);
      SplitMod(X, XStep(p), XOffset(p));
      SplitMod(Y, YStep(p), YOffset(p));
    }
  }

  /** The cell of pattern p is at offset XOffset(p), YOffset(p) modulo that pass's steps. */
  lemma PatternResidue(X: nat, Y: nat)
    ensures var p := PassOf(X, Y);
      p < 7 && X % XStep(p) == XOffset(p) && Y % YStep(p) == YOffset(p)
  {
    var p := PassOf(X, Y);
    PassTables(p);
    Residues(X);
    Residues(Y);
  }

  /** The residues modulo 2 and 4 are those of the residue modulo 8. */
  lemma Residues(n: nat)
    ensures n % 4 == (n % 8) % 4 && n % 2 == (n % 8) % 2
  {
    var q, r := n / 8, n % 8;
    assert n == q * 8 + r;
    DivModUnique(n, 4, 2 * q + r / 4, r % 4);
    DivModUnique(n, 2, 4 * q + r / 2, r % 2);
  }

  lemma SplitMod(n: nat, d: nat, r: int)
    requires 0 < d && n % d == r
    ensures (n / d) * d + r == n
  {
  }

  /**
   * Adam7 writes every image pixel exactly once and nothing outside the
   * image: the pixels of the passes, inside their pass sizes, correspond
   * one to one with the image pixels through the translation.
   */
  lemma ExactlyOnce(interlaced: bool, width: nat, height: nat, X: nat, Y: nat)
    requires X < width && Y < height
    ensures var p, x, y := Pass(interlaced, X, Y), Column(interlaced, X, Y), Row(interlaced, X, Y);
      x < PassWidth(interlaced, p, width) && y < PassHeight(interlaced, p, height) &&
      XTrans(interlaced, p, x) == X && YTrans(interlaced, p, y) == Y
    ensures forall p: nat, x: nat, y: nat {:trigger XTrans(interlaced, p, x), YTrans(interlaced, p, y)} ::
      p < PassCount(interlaced) && XTrans(interlaced, p, x) == X && YTrans(interlaced, p, y) == Y ==>
        p == Pass(interlaced, X, Y) && x == Column(interlaced, X, Y) && y == Row(interlaced, X, Y)
  {
    var p := Pass(interlaced, X, Y);
    PixelCovered(interlaced, X, Y);
    ColumnInRange(interlaced, p, Column(interlaced, X, Y), width);
    RowInRange(interlaced, p, Row(interlaced, X, Y), height);
    forall p': nat, x: nat, y: nat | p' < PassCount(interlaced) && XTrans(interlaced, p', x) == X && YTrans(interlaced, p', y) == Y
      ensures p' == Pass(interlaced, X, Y) && x == Column(interlaced, X, Y) && y == Row(interlaced, X, Y)
    {
      TransCovered(interlaced, p', x, y);
    }
  }
}
