/**
 * resample_argb_bitmap_average: every destination pixel is the weighted
 * average of the source area it covers. Destination pixel (x, y) covers the
 * 12-bit fixed-point rectangle [x * dx, x * dx + dx) x [y * dy, y * dy + dy);
 * each source pixel contributes its channels times the area of its overlap
 * with that rectangle, and the sums are divided by dx * dy.
 */
module AverageKernel {
  import opened Pixels
  import opened ResampleCommon

  /**
   * The part of the remaining extent that falls in the source pixel holding
   * position cur: up to the next multiple of 0x1000, clamped to remaining.
   */
  function Chunk(cur: nat, remaining: nat): (chunk: nat)
    ensures remaining > 0 ==> 0 < chunk <= remaining
    ensures chunk <= 0x1000
    ensures chunk < remaining ==> (cur + chunk) % 0x1000 == 0
  {
    var toEdge := 0x1000 - cur % 0x1000;
    if toEdge > remaining then remaining else toEdge
  }

  /**
   * Channel c of the source row under position cur_y, summed over the
   * positions [cur_x, cur_x + xremaining), each source pixel weighted by its
   * horizontal overlap times the vertical overlap ychunk.
   */
  function RowSum(src: seq<u32>, srowpixels: nat, swidth: nat, sheight: nat,
                  cury: nat, curx: nat, xremaining: nat, ychunk: nat, c: Channel): nat
    requires Fits(|src|, srowpixels, swidth, sheight)
    requires cury / 0x1000 < sheight && curx + xremaining <= swidth * 0x1000
    decreases xremaining
  {
    if xremaining == 0 then 0
    else
      var xchunk := Chunk(curx, xremaining);
      IdxInBounds(srowpixels, swidth, sheight, cury / 0x1000, curx / 0x1000);
      var pix := src[Idx(srowpixels, cury / 0x1000, curx / 0x1000)];
      MulNat(xchunk, ychunk);
      MulNat(xchunk * ychunk, Chan(pix, c));
      (xchunk * ychunk) * Chan(pix, c)
        + RowSum(src, srowpixels, swidth, sheight, cury, curx + xchunk, xremaining - xchunk, ychunk, c)
  }

  /** RowSum over every source row the positions [cur_y, cur_y + yremaining) touch. */
  function AreaSum(src: seq<u32>, srowpixels: nat, swidth: nat, sheight: nat,
                   cury: nat, yremaining: nat, startx: nat, dx: nat, c: Channel): nat
    requires Fits(|src|, srowpixels, swidth, sheight)
    requires cury + yremaining <= sheight * 0x1000 && startx + dx <= swidth * 0x1000
    decreases yremaining
  {
    if yremaining == 0 then 0
    else
      var ychunk := Chunk(cury, yremaining);
      RowSum(src, srowpixels, swidth, sheight, cury, startx, dx, ychunk, c)
        + AreaSum(src, srowpixels, swidth, sheight, cury + ychunk, yremaining - ychunk, startx, dx, c)
  }

  /**
   * Along one axis the step is positive and the extent every destination
   * pixel covers stays inside the source, within 32 bits.
   */
  predicate Covers(dsize: nat, d: nat, ssize: nat)
  {
    0 < d && ssize * 0x1000 < 0x1_0000_0000 &&
    forall i :: 0 <= i < dsize ==> i * d + d <= ssize * 0x1000
  }

  /** The step (ssize << 12) / dsize covers the axis whenever it is positive. */
  lemma CoverStep(dsize: nat, ssize: nat)
    requires 0 < dsize <= ssize * 0x1000 < 0x1_0000_0000
    ensures Covers(dsize, ssize * 0x1000 / dsize, ssize)
  {
    var d := ssize * 0x1000 / dsize;
    DivSplit(ssize * 0x1000, dsize);
    assert d > 0;
    forall i | 0 <= i < dsize
      ensures i * d + d <= ssize * 0x1000
    {
      MulMono(i + 1, dsize, d);
      Distrib(i, 1, d);
      assert dsize * d == d * dsize;
    }
  }

  /** The averaged channel c of destination pixel (x, y). */
  function AverageChannel(src: seq<u32>, srowpixels: nat, swidth: nat, sheight: nat,
                          x: nat, y: nat, dx: nat, dy: nat, c: Channel): nat
    requires Fits(|src|, srowpixels, swidth, sheight)
    requires 0 < dx && 0 < dy
    requires y * dy + dy <= sheight * 0x1000 && x * dx + dx <= swidth * 0x1000
  {
    AreaSum(src, srowpixels, swidth, sheight, y * dy, dy, x * dx, dx, c) / (dx * dy)
  }

  /** The value the kernel stores at destination pixel (x, y) over dpix. */
  function AveragePixel(src: seq<u32>, srowpixels: nat, swidth: nat, sheight: nat,
                        x: nat, y: nat, dx: nat, dy: nat, t: Tint, dpix: u32): u32
    requires Fits(|src|, srowpixels, swidth, sheight) && ValidTint(t)
    requires 0 < dx && 0 < dy
    requires y * dy + dy <= sheight * 0x1000 && x * dx + dx <= swidth * 0x1000
  {
    Blend(AverageChannel(src, srowpixels, swidth, sheight, x, y, dx, dy, AlphaChannel),
          AverageChannel(src, srowpixels, swidth, sheight, x, y, dx, dy, RedChannel),
          AverageChannel(src, srowpixels, swidth, sheight, x, y, dx, dy, GreenChannel),
          AverageChannel(src, srowpixels, swidth, sheight, x, y, dx, dy, BlueChannel),
          t, dpix)
  }

  /** Every source pixel has value v in channel c. */
  predicate Uniform(src: seq<u32>, c: Channel, v: nat)
  {
    forall i :: 0 <= i < |src| ==> Chan(src[i], c) == v
  }

  /** The horizontal weights of a row add up to the extent covered: a uniform row sums to v times its area. */
  lemma {:induction false} RowSumUniform(src: seq<u32>, srowpixels: nat, swidth: nat, sheight: nat,
                                         cury: nat, curx: nat, xremaining: nat, ychunk: nat,
                                         c: Channel, v: nat)
    requires Fits(|src|, srowpixels, swidth, sheight)
    requires cury / 0x1000 < sheight && curx + xremaining <= swidth * 0x1000
    requires Uniform(src, c, v)
    ensures RowSum(src, srowpixels, swidth, sheight, cury, curx, xremaining, ychunk, c)
            == (ychunk * xremaining) * v
    decreases xremaining
  {
    if xremaining > 0 {
      var xchunk := Chunk(curx, xremaining);
      RowSumUniform(src, srowpixels, swidth, sheight, cury, curx + xchunk, xremaining - xchunk, ychunk, c, v);
      IdxInBounds(srowpixels, swidth, sheight, cury / 0x1000, curx / 0x1000);
      var pix := src[Idx(srowpixels, cury / 0x1000, curx / 0x1000)];
      var rest := RowSum(src, srowpixels, swidth, sheight, cury, curx + xchunk, xremaining - xchunk, ychunk, c);
      assert Chan(pix, c) == v;
      assert RowSum(src, srowpixels, swidth, sheight, cury, curx, xremaining, ychunk, c)
             == (xchunk * ychunk) * v + rest;
      WeightStep(xchunk, ychunk, xremaining, v, rest);
    }
  }

  /** One chunk's weight plus the rest of the row's weight is the whole row's weight. */
  lemma WeightStep(xchunk: int, ychunk: int, xremaining: int, v: int, rest: int)
    requires rest == (ychunk * (xremaining - xchunk)) * v
    ensures (xchunk * ychunk) * v + rest == (ychunk * xremaining) * v
  {
    var a, b := ychunk * xchunk, ychunk * (xremaining - xchunk);
    assert xchunk * ychunk == a;
    DistribLeft(ychunk, xchunk, xremaining - xchunk);
    Distrib(a, b, v);
  }

  /** The weights of the whole area add up to dx times the rows covered. */
  lemma {:induction false} AreaSumUniform(src: seq<u32>, srowpixels: nat, swidth: nat, sheight: nat,
                                          cury: nat, yremaining: nat, startx: nat, dx: nat,
                                          c: Channel, v: nat)
    requires Fits(|src|, srowpixels, swidth, sheight)
    requires cury + yremaining <= sheight * 0x1000 && startx + dx <= swidth * 0x1000
    requires Uniform(src, c, v)
    ensures AreaSum(src, srowpixels, swidth, sheight, cury, yremaining, startx, dx, c)
            == (yremaining * dx) * v
    decreases yremaining
  {
    if yremaining > 0 {
      var ychunk := Chunk(cury, yremaining);
      RowSumUniform(src, srowpixels, swidth, sheight, cury, startx, dx, ychunk, c, v);
      AreaSumUniform(src, srowpixels, swidth, sheight, cury + ychunk, yremaining - ychunk, startx, dx, c, v);
      Distrib(ychunk, yremaining - ychunk, dx);
      Distrib(ychunk * dx, (yremaining - ychunk) * dx, v);
    }
  }

  /** Averaging a source of one value in channel c gives back that value. */
  lemma AverageUniform(src: seq<u32>, srowpixels: nat, swidth: nat, sheight: nat,
                       x: nat, y: nat, dx: nat, dy: nat, c: Channel, v: nat)
    requires Fits(|src|, srowpixels, swidth, sheight)
    requires 0 < dx && 0 < dy
    requires y * dy + dy <= sheight * 0x1000 && x * dx + dx <= swidth * 0x1000
    requires Uniform(src, c, v)
    ensures AverageChannel(src, srowpixels, swidth, sheight, x, y, dx, dy, c) == v
  {
    AreaSumUniform(src, srowpixels, swidth, sheight, y * dy, dy, x * dx, dx, c, v);
    MulSwap(dy, dx, v);
    DivModUnique((dy * dx) * v, dx * dy, v, 0);
  }

  /**
   * A source made of one pixel value p, averaged with the opaque tint,
   * reproduces p exactly, whatever the destination held.
   */
  lemma AverageSolidOpaque(src: seq<u32>, srowpixels: nat, swidth: nat, sheight: nat,
                           x: nat, y: nat, dx: nat, dy: nat, p: u32, dpix: u32)
    requires Fits(|src|, srowpixels, swidth, sheight)
    requires 0 < dx && 0 < dy
    requires y * dy + dy <= sheight * 0x1000 && x * dx + dx <= swidth * 0x1000
    requires forall i :: 0 <= i < |src| ==> src[i] == p
    ensures AveragePixel(src, srowpixels, swidth, sheight, x, y, dx, dy, Opaque, dpix) == p
  {
    AverageUniform(src, srowpixels, swidth, sheight, x, y, dx, dy, AlphaChannel, Alpha(p));
    AverageUniform(src, srowpixels, swidth, sheight, x, y, dx, dy, RedChannel, Red(p));
    AverageUniform(src, srowpixels, swidth, sheight, x, y, dx, dy, GreenChannel, Green(p));
    AverageUniform(src, srowpixels, swidth, sheight, x, y, dx, dy, BlueChannel, Blue(p));
    BlendOpaque(p, dpix);
  }

  lemma {:induction false} RowSumBound(src: seq<u32>, srowpixels: nat, swidth: nat, sheight: nat,
                                       cury: nat, curx: nat, xremaining: nat, ychunk: nat, c: Channel)
    requires Fits(|src|, srowpixels, swidth, sheight)
    requires cury / 0x1000 < sheight && curx + xremaining <= swidth * 0x1000
    ensures RowSum(src, srowpixels, swidth, sheight, cury, curx, xremaining, ychunk, c)
            <= (ychunk * xremaining) * 0xff
    decreases xremaining
  {
    if xremaining > 0 {
      var xchunk := Chunk(curx, xremaining);
      RowSumBound(src, srowpixels, swidth, sheight, cury, curx + xchunk, xremaining - xchunk, ychunk, c);
      IdxInBounds(srowpixels, swidth, sheight, cury / 0x1000, curx / 0x1000);
      var pix := src[Idx(srowpixels, cury / 0x1000, curx / 0x1000)];
      assert xchunk * ychunk == ychunk * xchunk;
      MulMonoLeft(ychunk * xchunk, Chan(pix, c), 0xff);
      DistribLeft(ychunk, xchunk, xremaining - xchunk);
      Distrib(ychunk * xchunk, ychunk * (xremaining - xchunk), 0xff);
    }
  }

  lemma {:induction false} AreaSumBound(src: seq<u32>, srowpixels: nat, swidth: nat, sheight: nat,
                                        cury: nat, yremaining: nat, startx: nat, dx: nat, c: Channel)
    requires Fits(|src|, srowpixels, swidth, sheight)
    requires cury + yremaining <= sheight * 0x1000 && startx + dx <= swidth * 0x1000
    ensures AreaSum(src, srowpixels, swidth, sheight, cury, yremaining, startx, dx, c)
            <= (yremaining * dx) * 0xff
    decreases yremaining
  {
    if yremaining > 0 {
      var ychunk := Chunk(cury, yremaining);
      RowSumBound(src, srowpixels, swidth, sheight, cury, startx, dx, ychunk, c);
      AreaSumBound(src, srowpixels, swidth, sheight, cury + ychunk, yremaining - ychunk, startx, dx, c);
      Distrib(ychunk, yremaining - ychunk, dx);
      Distrib(ychunk * dx, (yremaining - ychunk) * dx, 0xff);
    }
  }

  /** An averaged channel is again an eight-bit value, so rgb_t's narrowing loses nothing for it. */
  lemma AverageChannelBound(src: seq<u32>, srowpixels: nat, swidth: nat, sheight: nat,
                            x: nat, y: nat, dx: nat, dy: nat, c: Channel)
    requires Fits(|src|, srowpixels, swidth, sheight)
    requires 0 < dx && 0 < dy
    requires y * dy + dy <= sheight * 0x1000 && x * dx + dx <= swidth * 0x1000
    ensures AverageChannel(src, srowpixels, swidth, sheight, x, y, dx, dy, c) <= 0xff
  {
    var s := AreaSum(src, srowpixels, swidth, sheight, y * dy, dy, x * dx, dx, c);
    AreaSumBound(src, srowpixels, swidth, sheight, y * dy, dy, x * dx, dx, c);
    MulSwap(dy, dx, 0xff);
    if s / (dx * dy) > 0xff {
      DivSplit(s, dx * dy);
      MulMono(0x100, s / (dx * dy), dx * dy);
      assert false;
    }
  }

  /** The inner loop over one source row: the four weighted channel sums. */
  method AccumulateRow(source: array<u32>, srowpixels: nat, swidth: nat, sheight: nat,
                       cury: nat, startx: nat, dx: nat, ychunk: nat)
    returns (suma: int, sumr: int, sumg: int, sumb: int)
    requires Fits(source.Length, srowpixels, swidth, sheight)
    requires cury / 0x1000 < sheight && startx + dx <= swidth * 0x1000
    ensures suma == RowSum(source[..], srowpixels, swidth, sheight, cury, startx, dx, ychunk, AlphaChannel)
    ensures sumr == RowSum(source[..], srowpixels, swidth, sheight, cury, startx, dx, ychunk, RedChannel)
    ensures sumg == RowSum(source[..], srowpixels, swidth, sheight, cury, startx, dx, ychunk, GreenChannel)
    ensures sumb == RowSum(source[..], srowpixels, swidth, sheight, cury, startx, dx, ychunk, BlueChannel)
  {
    ghost var src := source[..];
    suma, sumr, sumg, sumb := 0, 0, 0, 0;
    var xremaining: nat := dx;
    var curx: nat := startx;
    while xremaining > 0
      invariant curx + xremaining == startx + dx
      invariant suma + RowSum(src, srowpixels, swidth, sheight, cury, curx, xremaining, ychunk, AlphaChannel)
                == RowSum(src, srowpixels, swidth, sheight, cury, startx, dx, ychunk, AlphaChannel)
      invariant sumr + RowSum(src, srowpixels, swidth, sheight, cury, curx, xremaining, ychunk, RedChannel)
                == RowSum(src, srowpixels, swidth, sheight, cury, startx, dx, ychunk, RedChannel)
      invariant sumg + RowSum(src, srowpixels, swidth, sheight, cury, curx, xremaining, ychunk, GreenChannel)
                == RowSum(src, srowpixels, swidth, sheight, cury, startx, dx, ychunk, GreenChannel)
      invariant sumb + RowSum(src, srowpixels, swidth, sheight, cury, curx, xremaining, ychunk, BlueChannel)
                == RowSum(src, srowpixels, swidth, sheight, cury, startx, dx, ychunk, BlueChannel)
    {
      // determine the X contribution, clamping to the amount remaining
      var xchunk: nat := 0x1000 - curx % 0x1000;
      if xchunk > xremaining {
        xchunk := xremaining;
      }
      xremaining := xremaining - xchunk;

      // total contribution = x * y
      var factor := xchunk * ychunk;

      // fetch the source pixel and accumulate the RGBA values
      IdxInBounds(srowpixels, swidth, sheight, cury / 0x1000, curx / 0x1000);
      var pix := source[(cury / 0x1000) * srowpixels + curx / 0x1000];
      sumr := sumr + factor * Red(pix);
      sumg := sumg + factor * Green(pix);
      sumb := sumb + factor * Blue(pix);
      suma := suma + factor * Alpha(pix);
      curx := curx + xchunk;
    }
  }

  /** The loop over the source rows the destination pixel covers. */
  method AccumulateArea(source: array<u32>, srowpixels: nat, swidth: nat, sheight: nat,
                        starty: nat, dy: nat, startx: nat, dx: nat)
    returns (suma: nat, sumr: nat, sumg: nat, sumb: nat)
    requires Fits(source.Length, srowpixels, swidth, sheight)
    requires starty + dy <= sheight * 0x1000 && startx + dx <= swidth * 0x1000
    ensures suma == AreaSum(source[..], srowpixels, swidth, sheight, starty, dy, startx, dx, AlphaChannel)
    ensures sumr == AreaSum(source[..], srowpixels, swidth, sheight, starty, dy, startx, dx, RedChannel)
    ensures sumg == AreaSum(source[..], srowpixels, swidth, sheight, starty, dy, startx, dx, GreenChannel)
    ensures sumb == AreaSum(source[..], srowpixels, swidth, sheight, starty, dy, startx, dx, BlueChannel)
  {
    ghost var src := source[..];
    suma, sumr, sumg, sumb := 0, 0, 0, 0;
    var yremaining: nat := dy;
    var cury: nat := starty;
    while yremaining > 0
      invariant cury + yremaining == starty + dy
      invariant suma + AreaSum(src, srowpixels, swidth, sheight, cury, yremaining, startx, dx, AlphaChannel)
                == AreaSum(src, srowpixels, swidth, sheight, starty, dy, startx, dx, AlphaChannel)
      invariant sumr + AreaSum(src, srowpixels, swidth, sheight, cury, yremaining, startx, dx, RedChannel)
                == AreaSum(src, srowpixels, swidth, sheight, starty, dy, startx, dx, RedChannel)
      invariant sumg + AreaSum(src, srowpixels, swidth, sheight, cury, yremaining, startx, dx, GreenChannel)
                == AreaSum(src, srowpixels, swidth, sheight, starty, dy, startx, dx, GreenChannel)
      invariant sumb + AreaSum(src, srowpixels, swidth, sheight, cury, yremaining, startx, dx, BlueChannel)
                == AreaSum(src, srowpixels, swidth, sheight, starty, dy, startx, dx, BlueChannel)
    {
      // determine the Y contribution, clamping to the amount remaining
      var ychunk: nat := 0x1000 - cury % 0x1000;
      if ychunk > yremaining {
        ychunk := yremaining;
      }
      yremaining := yremaining - ychunk;

      // loop over all source pixels in the X direction
      var ra, rr, rg, rb := AccumulateRow(source, srowpixels, swidth, sheight, cury, startx, dx, ychunk);
      suma, sumr, sumg, sumb := suma + ra, sumr + rr, sumg + rg, sumb + rb;
      cury := cury + ychunk;
    }
  }

  /** AveragePixel over the whole destination buffer, leaving indices outside the region as they were. */
  ghost function AverageTarget(src: seq<u32>, srowpixels: nat, swidth: nat, sheight: nat,
                               orig: seq<u32>, drowpixels: nat, dwidth: nat, dheight: nat,
                               t: Tint, dx: nat, dy: nat): (want: seq<u32>)
    requires Fits(|src|, srowpixels, swidth, sheight) && ValidTint(t)
    requires Covers(dwidth, dx, swidth) && Covers(dheight, dy, sheight)
    ensures |want| == |orig|
    ensures forall i :: 0 <= i < |orig| ==>
      want[i] == if InRegion(i, drowpixels, dwidth, dheight)
                 then AveragePixel(src, srowpixels, swidth, sheight,
                                   i % drowpixels, i / drowpixels, dx, dy, t, orig[i])
                 else orig[i]
  {
    seq(|orig|, i requires 0 <= i < |orig| =>
      if InRegion(i, drowpixels, dwidth, dheight)
      then
        AveragePixel(src, srowpixels, swidth, sheight,
                     i % drowpixels, i / drowpixels, dx, dy, t, orig[i])
      else orig[i])
  }

  method ResampleAverage(dest: array<u32>, drowpixels: nat, dwidth: nat, dheight: nat,
                         source: array<u32>, srowpixels: nat, swidth: nat, sheight: nat,
                         t: Tint, dx: nat, dy: nat)
    requires dest != source
    requires Fits(dest.Length, drowpixels, dwidth, dheight)
    requires Fits(source.Length, srowpixels, swidth, sheight)
    requires ValidTint(t)
    requires Covers(dwidth, dx, swidth) && Covers(dheight, dy, sheight)
    modifies dest
    ensures forall i :: 0 <= i < dest.Length ==>
      dest[i] == if InRegion(i, drowpixels, dwidth, dheight)
                 then AveragePixel(source[..], srowpixels, swidth, sheight,
                                   i % drowpixels, i / drowpixels, dx, dy, t, old(dest[i]))
                 else old(dest[i])
  {
    ghost var orig := dest[..];
    ghost var want := AverageTarget(source[..], srowpixels, swidth, sheight,
                                    orig, drowpixels, dwidth, dheight, t, dx, dy);
    var sumscale := dx * dy;
    WrittenStart(orig, want, drowpixels, dwidth, dheight);
    var y := 0;
    while y < dheight
      invariant 0 <= y <= dheight
      invariant Written(dest[..], orig, want, drowpixels, dwidth, dheight, y, 0)
    {
      var starty := y * dy;
      var x := 0;
      while x < dwidth
        invariant 0 <= x <= dwidth
        invariant Written(dest[..], orig, want, drowpixels, dwidth, dheight, y, x)
      {
        WrittenNext(dest[..], orig, want, drowpixels, dwidth, dheight, y, x);
        var d := y * drowpixels + x;
        var startx := x * dx;

        // accumulate all source pixels that contribute to this pixel
        var suma, sumr, sumg, sumb := AccumulateArea(source, srowpixels, swidth, sheight, starty, dy, startx, dx);

        // normalise, apply scaling and blend over the destination
        dest[d] := Blend(suma / sumscale, sumr / sumscale, sumg / sumscale, sumb / sumscale, t, dest[d]);
        x := x + 1;
      }
      WrittenRow(dest[..], orig, want, drowpixels, dwidth, dheight, y);
      y := y + 1;
    }
    WrittenEnd(dest[..], orig, want, drowpixels, dwidth, dheight);
  }
}
