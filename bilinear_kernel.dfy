/**
 * resample_argb_bitmap_bilinear: destination pixel (x, y) samples the source
 * at the centre of the extent it covers, shifted back by half a source pixel,
 * and mixes the four source pixels around that point with bilinear weights
 * taken from the 12 fractional bits. Neighbours outside the source count as
 * transparent black. All position arithmetic is 32-bit unsigned.
 */
module BilinearKernel {
  import opened Pixels
  import opened ResampleCommon

  /** maxx = swidth << 12 (and maxy likewise), in 32 bits. */
  function Limit(size: nat): u32
  {
    Wrap32(size * 0x1000)
  }

  /** curx = x * dx + dx / 2 - 0x800, in 32 bits: the sample point, one half pixel back. */
  function Centre(i: nat, d: nat): u32
  {
    Wrap32(Wrap32(i * d) + d / 2 - 0x800)
  }

  /** nextx = curx + 0x1000, in 32 bits. */
  function Next(c: u32): u32
  {
    Wrap32(c + 0x1000)
  }

  /** A position below the limit names a pixel inside the axis. */
  lemma LimitBound(c: u32, size: nat)
    requires c < Limit(size)
    ensures c / 0x1000 < size
  {
  }

  /** A coordinate is usable when it is non-negative as a signed 32-bit value and below the limit. */
  predicate InAxis(c: u32, limit: u32)
  {
    c < 0x8000_0000 && c < limit
  }

  /** The source pixel under (cx, cy), or 0 when either coordinate is unusable. */
  function Fetch(src: seq<u32>, srowpixels: nat, swidth: nat, sheight: nat, cx: u32, cy: u32): (p: u32)
    requires Fits(|src|, srowpixels, swidth, sheight)
    ensures !InAxis(cx, Limit(swidth)) || !InAxis(cy, Limit(sheight)) ==> p == 0
    ensures InAxis(cx, Limit(swidth)) && InAxis(cy, Limit(sheight)) ==>
      cx / 0x1000 < swidth && cy / 0x1000 < sheight &&
      Idx(srowpixels, cy / 0x1000, cx / 0x1000) < |src| &&
      p == src[Idx(srowpixels, cy / 0x1000, cx / 0x1000)]
  {
    if InAxis(cy, Limit(sheight)) && InAxis(cx, Limit(swidth)) then
      LimitBound(cx, swidth);
      LimitBound(cy, sheight);
      IdxInBounds(srowpixels, swidth, sheight, cy / 0x1000, cx / 0x1000);
      src[Idx(srowpixels, cy / 0x1000, cx / 0x1000)]
    else
      0
  }

  /**
   * Channel c of the four neighbours weighted by the fractional position
   * (fx, fy): top-left by (0x1000 - fx) * (0x1000 - fy), top-right by
   * fx * (0x1000 - fy), bottom-left by (0x1000 - fx) * fy, bottom-right by fx * fy.
   */
  function Mix(p0: u32, p1: u32, p2: u32, p3: u32, fx: nat, fy: nat, c: Channel): int
    requires fx < 0x1000 && fy < 0x1000
  {
    ((0x1000 - fx) * (0x1000 - fy)) * Chan(p0, c)
      + (fx * (0x1000 - fy)) * Chan(p1, c)
      + ((0x1000 - fx) * fy) * Chan(p2, c)
      + (fx * fy) * Chan(p3, c)
  }

  /** The four bilinear weights always add up to one, that is 0x100_0000 in 24 fractional bits. */
  lemma WeightsSum(fx: nat, fy: nat)
    requires fx < 0x1000 && fy < 0x1000
    ensures (0x1000 - fx) * (0x1000 - fy) + fx * (0x1000 - fy) + (0x1000 - fx) * fy + fx * fy
            == 0x100_0000
  {
    Distrib(0x1000 - fx, fx, 0x1000 - fy);
    Distrib(0x1000 - fx, fx, fy);
    DistribLeft(0x1000, 0x1000 - fy, fy);
  }

  /** The mix lies between 0 and 0xff * 0x100_0000, so the 32-bit channel sums never wrap. */
  lemma MixBound(p0: u32, p1: u32, p2: u32, p3: u32, fx: nat, fy: nat, c: Channel)
    requires fx < 0x1000 && fy < 0x1000
    ensures 0 <= Mix(p0, p1, p2, p3, fx, fy, c) <= 0xff * 0x100_0000 < 0x1_0000_0000
  {
    var w0, w1, w2, w3 := (0x1000 - fx) * (0x1000 - fy), fx * (0x1000 - fy), (0x1000 - fx) * fy, fx * fy;
    WeightsSum(fx, fy);
    MulNat(0x1000 - fx, 0x1000 - fy);
    MulNat(fx, 0x1000 - fy);
    MulNat(0x1000 - fx, fy);
    MulNat(fx, fy);
    MulMonoLeft(w0, 0, Chan(p0, c));
    MulMonoLeft(w1, 0, Chan(p1, c));
    MulMonoLeft(w2, 0, Chan(p2, c));
    MulMonoLeft(w3, 0, Chan(p3, c));
    MulMonoLeft(w0, Chan(p0, c), 0xff);
    MulMonoLeft(w1, Chan(p1, c), 0xff);
    MulMonoLeft(w2, Chan(p2, c), 0xff);
    MulMonoLeft(w3, Chan(p3, c), 0xff);
    Distrib(w0, w1, 0xff);
    Distrib(w0 + w1, w2, 0xff);
    Distrib(w0 + w1 + w2, w3, 0xff);
  }

  /** Four neighbours that agree in channel c mix to that value, whatever the fractional position. */
  lemma MixUniform(p0: u32, p1: u32, p2: u32, p3: u32, fx: nat, fy: nat, c: Channel)
    requires fx < 0x1000 && fy < 0x1000
    requires Chan(p1, c) == Chan(p0, c) && Chan(p2, c) == Chan(p0, c) && Chan(p3, c) == Chan(p0, c)
    ensures Mix(p0, p1, p2, p3, fx, fy, c) / 0x100_0000 == Chan(p0, c)
  {
    var w0, w1, w2, w3 := (0x1000 - fx) * (0x1000 - fy), fx * (0x1000 - fy), (0x1000 - fx) * fy, fx * fy;
    var v: int := Chan(p0, c);
    WeightsSum(fx, fy);
    Distrib(w0, w1, v);
    Distrib(w0 + w1, w2, v);
    Distrib(w0 + w1 + w2, w3, v);
    DivModUnique(0x100_0000 * v, 0x100_0000, v, 0);
  }

  /** On the source grid (no fractional part) the mix is the top-left neighbour alone. */
  lemma MixOnGrid(p0: u32, p1: u32, p2: u32, p3: u32, c: Channel)
    ensures Mix(p0, p1, p2, p3, 0, 0, c) / 0x100_0000 == Chan(p0, c)
  {
    DivModUnique(0x100_0000 * Chan(p0, c), 0x100_0000, Chan(p0, c), 0);
  }

  /** Channel c mixed from the four neighbours of the sample point (curx, cury). */
  function Sample(src: seq<u32>, srowpixels: nat, swidth: nat, sheight: nat,
                  curx: u32, cury: u32, c: Channel): int
    requires Fits(|src|, srowpixels, swidth, sheight)
  {
    Mix(Fetch(src, srowpixels, swidth, sheight, curx, cury),
        Fetch(src, srowpixels, swidth, sheight, Next(curx), cury),
        Fetch(src, srowpixels, swidth, sheight, curx, Next(cury)),
        Fetch(src, srowpixels, swidth, sheight, Next(curx), Next(cury)),
        curx % 0x1000, cury % 0x1000, c)
  }

  /** Channel c of destination pixel (x, y) before tinting: the mix shifted right by 24. */
  function BilinearChannel(src: seq<u32>, srowpixels: nat, swidth: nat, sheight: nat,
                           x: nat, y: nat, dx: nat, dy: nat, c: Channel): nat
    requires Fits(|src|, srowpixels, swidth, sheight)
  {
    var curx, cury := Centre(x, dx), Centre(y, dy);
    MixBound(Fetch(src, srowpixels, swidth, sheight, curx, cury),
             Fetch(src, srowpixels, swidth, sheight, Next(curx), cury),
             Fetch(src, srowpixels, swidth, sheight, curx, Next(cury)),
             Fetch(src, srowpixels, swidth, sheight, Next(curx), Next(cury)),
             curx % 0x1000, cury % 0x1000, c);
    Sample(src, srowpixels, swidth, sheight, curx, cury, c) / 0x100_0000
  }

  /** The value the kernel stores at destination pixel (x, y) over dpix. */
  function BilinearPixel(src: seq<u32>, srowpixels: nat, swidth: nat, sheight: nat,
                         x: nat, y: nat, dx: nat, dy: nat, t: Tint, dpix: u32): u32
    requires Fits(|src|, srowpixels, swidth, sheight) && ValidTint(t)
  {
    Blend(BilinearChannel(src, srowpixels, swidth, sheight, x, y, dx, dy, AlphaChannel),
          BilinearChannel(src, srowpixels, swidth, sheight, x, y, dx, dy, RedChannel),
          BilinearChannel(src, srowpixels, swidth, sheight, x, y, dx, dy, GreenChannel),
          BilinearChannel(src, srowpixels, swidth, sheight, x, y, dx, dy, BlueChannel),
          t, dpix)
  }

  /** Every channel the kernel produces is an eight-bit value before tinting. */
  lemma BilinearChannelBound(src: seq<u32>, srowpixels: nat, swidth: nat, sheight: nat,
                             x: nat, y: nat, dx: nat, dy: nat, c: Channel)
    requires Fits(|src|, srowpixels, swidth, sheight)
    ensures BilinearChannel(src, srowpixels, swidth, sheight, x, y, dx, dy, c) <= 0xff
  {
    var curx, cury := Centre(x, dx), Centre(y, dy);
    var nextx, nexty := Next(curx), Next(cury);
    MixBound(Fetch(src, srowpixels, swidth, sheight, curx, cury),
             Fetch(src, srowpixels, swidth, sheight, nextx, cury),
             Fetch(src, srowpixels, swidth, sheight, curx, nexty),
             Fetch(src, srowpixels, swidth, sheight, nextx, nexty),
             curx % 0x1000, cury % 0x1000, c);
  }

  /**
   * Where all four neighbours lie inside a source of the single value p, the
   * opaque tint reproduces p exactly.
   */
  lemma BilinearSolidInterior(src: seq<u32>, srowpixels: nat, swidth: nat, sheight: nat,
                              x: nat, y: nat, dx: nat, dy: nat, p: u32, dpix: u32)
    requires Fits(|src|, srowpixels, swidth, sheight)
    requires forall i :: 0 <= i < |src| ==> src[i] == p
    requires InAxis(Centre(x, dx), Limit(swidth)) && InAxis(Next(Centre(x, dx)), Limit(swidth))
    requires InAxis(Centre(y, dy), Limit(sheight)) && InAxis(Next(Centre(y, dy)), Limit(sheight))
    ensures BilinearPixel(src, srowpixels, swidth, sheight, x, y, dx, dy, Opaque, dpix) == p
  {
    var curx, cury := Centre(x, dx), Centre(y, dy);
    var nextx, nexty := Next(curx), Next(cury);
    var p0 := Fetch(src, srowpixels, swidth, sheight, curx, cury);
    var p1 := Fetch(src, srowpixels, swidth, sheight, nextx, cury);
    var p2 := Fetch(src, srowpixels, swidth, sheight, curx, nexty);
    var p3 := Fetch(src, srowpixels, swidth, sheight, nextx, nexty);
    IdxInBounds(srowpixels, swidth, sheight, cury / 0x1000, curx / 0x1000);
    IdxInBounds(srowpixels, swidth, sheight, cury / 0x1000, nextx / 0x1000);
    IdxInBounds(srowpixels, swidth, sheight, nexty / 0x1000, curx / 0x1000);
    IdxInBounds(srowpixels, swidth, sheight, nexty / 0x1000, nextx / 0x1000);
    assert p0 == p && p1 == p && p2 == p && p3 == p;
    MixUniform(p0, p1, p2, p3, curx % 0x1000, cury % 0x1000, AlphaChannel);
    MixUniform(p0, p1, p2, p3, curx % 0x1000, cury % 0x1000, RedChannel);
    MixUniform(p0, p1, p2, p3, curx % 0x1000, cury % 0x1000, GreenChannel);
    MixUniform(p0, p1, p2, p3, curx % 0x1000, cury % 0x1000, BlueChannel);
    BlendOpaque(p, dpix);
  }

  /**
   * When magnifying two times (step 0x800) the first pixel of a row samples
   * a quarter pixel before the source: the sample point wraps to 0xffff_fc00,
   * which fails the signed test, so the left neighbours read as 0 and the
   * edge pixel mixes a quarter of transparent black into the first column.
   */
  lemma FirstPixelReadsOutside(swidth: nat)
    ensures Centre(0, 0x800) == 0xffff_fc00
    ensures !InAxis(Centre(0, 0x800), Limit(swidth))
    ensures Next(Centre(0, 0x800)) == 0xc00
  {
  }

  /** One neighbour: the pixel under (cx, cy) when both pass the signed and the limit test, else 0. */
  method FetchPixel(source: array<u32>, srowpixels: nat, swidth: nat, sheight: nat,
                    cx: u32, cy: u32, maxx: u32, maxy: u32) returns (pix: u32)
    requires Fits(source.Length, srowpixels, swidth, sheight)
    requires maxx == Limit(swidth) && maxy == Limit(sheight)
    ensures pix == Fetch(source[..], srowpixels, swidth, sheight, cx, cy)
  {
    pix := 0;
    if cy < 0x8000_0000 && cy < maxy && cx < 0x8000_0000 && cx < maxx {
      LimitBound(cx, swidth);
      LimitBound(cy, sheight);
      IdxInBounds(srowpixels, swidth, sheight, cy / 0x1000, cx / 0x1000);
      pix := source[(cy / 0x1000) * srowpixels + cx / 0x1000];
    }
  }

  /** The four neighbours of the sample point (curx, cury); those outside the source read as 0. */
  method FetchNeighbours(source: array<u32>, srowpixels: nat, swidth: nat, sheight: nat,
                         curx: u32, cury: u32)
    returns (pix0: u32, pix1: u32, pix2: u32, pix3: u32)
    requires Fits(source.Length, srowpixels, swidth, sheight)
    ensures pix0 == Fetch(source[..], srowpixels, swidth, sheight, curx, cury)
    ensures pix1 == Fetch(source[..], srowpixels, swidth, sheight, Next(curx), cury)
    ensures pix2 == Fetch(source[..], srowpixels, swidth, sheight, curx, Next(cury))
    ensures pix3 == Fetch(source[..], srowpixels, swidth, sheight, Next(curx), Next(cury))
  {
    var maxx, maxy := (swidth * 0x1000) % 0x1_0000_0000, (sheight * 0x1000) % 0x1_0000_0000;

    // compute the neighboring pixel
    var nextx := (curx + 0x1000) % 0x1_0000_0000;
    var nexty := (cury + 0x1000) % 0x1_0000_0000;

    // fetch the four relevant pixels
    pix0 := FetchPixel(source, srowpixels, swidth, sheight, curx, cury, maxx, maxy);
    pix1 := FetchPixel(source, srowpixels, swidth, sheight, nextx, cury, maxx, maxy);
    pix2 := FetchPixel(source, srowpixels, swidth, sheight, curx, nexty, maxx, maxy);
    pix3 := FetchPixel(source, srowpixels, swidth, sheight, nextx, nexty, maxx, maxy);
  }

  /**
   * The weighted channel sums of one destination pixel. The sums are the
   * source's 32-bit accumulators; MixBound shows they never wrap.
   */
  method MixNeighbours(source: array<u32>, srowpixels: nat, swidth: nat, sheight: nat,
                       curx: u32, cury: u32)
    returns (suma: int, sumr: int, sumg: int, sumb: int)
    requires Fits(source.Length, srowpixels, swidth, sheight)
    ensures suma == Sample(source[..], srowpixels, swidth, sheight, curx, cury, AlphaChannel)
    ensures sumr == Sample(source[..], srowpixels, swidth, sheight, curx, cury, RedChannel)
    ensures sumg == Sample(source[..], srowpixels, swidth, sheight, curx, cury, GreenChannel)
    ensures sumb == Sample(source[..], srowpixels, swidth, sheight, curx, cury, BlueChannel)
  {
    var pix0, pix1, pix2, pix3 := FetchNeighbours(source, srowpixels, swidth, sheight, curx, cury);

    // compute the x/y scaling factors
    var fx, fy := curx % 0x1000, cury % 0x1000;

    // contributions from pixel 0 (top, left)
    var factor := (0x1000 - fx) * (0x1000 - fy);
    sumr, sumg, sumb, suma := factor * Red(pix0), factor * Green(pix0), factor * Blue(pix0), factor * Alpha(pix0);

    // contributions from pixel 1 (top, right)
    factor := fx * (0x1000 - fy);
    sumr, sumg := sumr + factor * Red(pix1), sumg + factor * Green(pix1);
    sumb, suma := sumb + factor * Blue(pix1), suma + factor * Alpha(pix1);

    // contributions from pixel 2 (bottom, left)
    factor := (0x1000 - fx) * fy;
    sumr, sumg := sumr + factor * Red(pix2), sumg + factor * Green(pix2);
    sumb, suma := sumb + factor * Blue(pix2), suma + factor * Alpha(pix2);

    // contributions from pixel 3 (bottom, right)
    factor := fx * fy;
    sumr, sumg := sumr + factor * Red(pix3), sumg + factor * Green(pix3);
    sumb, suma := sumb + factor * Blue(pix3), suma + factor * Alpha(pix3);
    assert suma == Mix(pix0, pix1, pix2, pix3, fx, fy, AlphaChannel);
    assert sumr == Mix(pix0, pix1, pix2, pix3, fx, fy, RedChannel);
    assert sumg == Mix(pix0, pix1, pix2, pix3, fx, fy, GreenChannel);
    assert sumb == Mix(pix0, pix1, pix2, pix3, fx, fy, BlueChannel);
  }

  /** BilinearPixel over the whole destination buffer, leaving indices outside the region as they were. */
  ghost function BilinearTarget(src: seq<u32>, srowpixels: nat, swidth: nat, sheight: nat,
                                orig: seq<u32>, drowpixels: nat, dwidth: nat, dheight: nat,
                                t: Tint, dx: nat, dy: nat): (want: seq<u32>)
    requires Fits(|src|, srowpixels, swidth, sheight) && ValidTint(t)
    ensures |want| == |orig|
    ensures forall i :: 0 <= i < |orig| ==>
      want[i] == if InRegion(i, drowpixels, dwidth, dheight)
                 then BilinearPixel(src, srowpixels, swidth, sheight,
                                    i % drowpixels, i / drowpixels, dx, dy, t, orig[i])
                 else orig[i]
  {
    seq(|orig|, i requires 0 <= i < |orig| =>
      if InRegion(i, drowpixels, dwidth, dheight)
      then BilinearPixel(src, srowpixels, swidth, sheight,
                         i % drowpixels, i / drowpixels, dx, dy, t, orig[i])
      else orig[i])
  }

  method ResampleBilinear(dest: array<u32>, drowpixels: nat, dwidth: nat, dheight: nat,
                          source: array<u32>, srowpixels: nat, swidth: nat, sheight: nat,
                          t: Tint, dx: u32, dy: u32)
    requires dest != source
    requires Fits(dest.Length, drowpixels, dwidth, dheight)
    requires Fits(source.Length, srowpixels, swidth, sheight)
    requires ValidTint(t)
    modifies dest
    ensures forall i :: 0 <= i < dest.Length ==>
      dest[i] == if InRegion(i, drowpixels, dwidth, dheight)
                 then BilinearPixel(source[..], srowpixels, swidth, sheight,
                                    i % drowpixels, i / drowpixels, dx, dy, t, old(dest[i]))
                 else old(dest[i])
  {
    ghost var orig := dest[..];
    ghost var want := BilinearTarget(source[..], srowpixels, swidth, sheight,
                                     orig, drowpixels, dwidth, dheight, t, dx, dy);
    WrittenStart(orig, want, drowpixels, dwidth, dheight);
    var y := 0;
    while y < dheight
      invariant 0 <= y <= dheight
      invariant Written(dest[..], orig, want, drowpixels, dwidth, dheight, y, 0)
    {
      var starty := (y * dy) % 0x1_0000_0000;
      var x := 0;
      while x < dwidth
        invariant 0 <= x <= dwidth
        invariant Written(dest[..], orig, want, drowpixels, dwidth, dheight, y, x)
      {
        WrittenNext(dest[..], orig, want, drowpixels, dwidth, dheight, y, x);
        var d := y * drowpixels + x;
        var startx := (x * dx) % 0x1_0000_0000;

        // adjust start to the center
        var curx := (startx + dx / 2 - 0x800) % 0x1_0000_0000;
        var cury := (starty + dy / 2 - 0x800) % 0x1_0000_0000;
        var suma, sumr, sumg, sumb := MixNeighbours(source, srowpixels, swidth, sheight, curx, cury);

        // apply scaling and blend over the destination
        dest[d] := Blend(suma / 0x100_0000, sumr / 0x100_0000, sumg / 0x100_0000, sumb / 0x100_0000,
                         t, dest[d]);
        x := x + 1;
      }
      WrittenRow(dest[..], orig, want, drowpixels, dwidth, dheight, y);
      y := y + 1;
    }
    WrittenEnd(dest[..], orig, want, drowpixels, dwidth, dheight);
  }
}
