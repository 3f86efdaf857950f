/**
 * resample_argb_bitmap_integer: block replication. Destination pixel (x, y)
 * copies the source pixel at fixed-point position (x * dx, y * dy), where the
 * steps carry 12 fractional bits, then goes through the shared tint and
 * blend step.
 */
module IntegerKernel {
  import opened Pixels
  import opened ResampleCommon

  /** Integer part of the 12-bit fixed-point position i * d, computed in 32 bits. */
  function Step(i: nat, d: nat): nat
  {
    Wrap32(i * d) / 0x1000
  }

  /** Every one of the n destination positions along an axis samples inside limit. */
  predicate StepsInSource(n: nat, d: nat, limit: nat)
  {
    forall i :: 0 <= i < n ==> Step(i, d) < limit
  }

  /**
   * The sample position with the overshoot past the last source pixel
   * clamped back onto it (see CeilingStepOvershoots for why it is needed).
   */
  function ClampedStep(i: nat, d: nat, limit: nat): (s: nat)
    requires 0 < limit
    ensures s < limit
    ensures Step(i, d) < limit ==> s == Step(i, d)
    ensures Step(i, d) >= limit ==> s == limit - 1
  {
    if Step(i, d) < limit then Step(i, d) else limit - 1
  }

  /** The source pixel destination pixel (x, y) replicates. */
  function IntegerSample(src: seq<u32>, srowpixels: nat, swidth: nat, sheight: nat,
                         x: nat, y: nat, dx: nat, dy: nat): u32
    requires Fits(|src|, srowpixels, swidth, sheight) && 0 < swidth && 0 < sheight
  {
    var sy, sx := ClampedStep(y, dy, sheight), ClampedStep(x, dx, swidth);
    IdxInBounds(srowpixels, swidth, sheight, sy, sx);
    src[Idx(srowpixels, sy, sx)]
  }

  /** The value the kernel stores at destination pixel (x, y) over dpix. */
  function IntegerPixel(src: seq<u32>, srowpixels: nat, swidth: nat, sheight: nat,
                        x: nat, y: nat, dx: nat, dy: nat, t: Tint, dpix: u32): u32
    requires Fits(|src|, srowpixels, swidth, sheight) && 0 < swidth && 0 < sheight
    requires ValidTint(t)
  {
    var p := IntegerSample(src, srowpixels, swidth, sheight, x, y, dx, dy);
    Blend(Alpha(p), Red(p), Green(p), Blue(p), t, dpix)
  }

  /**
   * A unit step (0x1000, the step of equal source and destination sizes)
   * samples position i itself and stays inside an axis of n pixels.
   */
  lemma {:induction false} UnitStep(n: nat)
    requires n < 0x10_0000
    ensures StepsInSource(n, 0x1000, n)
    ensures forall i :: 0 <= i < n ==> Step(i, 0x1000) == i
  {
    forall i | 0 <= i < n
      ensures Step(i, 0x1000) == i
    {
      assert i * 0x1000 < 0x1_0000_0000;
      assert Wrap32(i * 0x1000) == i * 0x1000;
    }
  }

  /**
   * Identity: at equal sizes (unit steps) with the opaque tint every
   * destination pixel equals the source pixel at the same (x, y).
   */
  lemma IntegerIdentity(src: seq<u32>, srowpixels: nat, width: nat, height: nat,
                        x: nat, y: nat, dpix: u32)
    requires Fits(|src|, srowpixels, width, height)
    requires width < 0x10_0000 && height < 0x10_0000 && x < width && y < height
    ensures ClampedStep(x, 0x1000, width) == x && ClampedStep(y, 0x1000, height) == y
    ensures Idx(srowpixels, y, x) < |src|
    ensures IntegerPixel(src, srowpixels, width, height, x, y, 0x1000, 0x1000, Opaque, dpix)
            == src[Idx(srowpixels, y, x)]
  {
    UnitStep(width);
    UnitStep(height);
    IdxInBounds(srowpixels, width, height, y, x);
    var p := src[Idx(srowpixels, y, x)];
    assert IntegerSample(src, srowpixels, width, height, x, y, 0x1000, 0x1000) == p;
    BlendOpaque(p, dpix);
  }

  /**
   * The ceiling step can overshoot: a 683-row source replicated onto 2049
   * rows (three times) has step ceil(683 * 4096 / 2049) = 1366, and the
   * last destination row samples source row 683, one past the end.
   */
  lemma CeilingStepOvershoots()
    ensures (683 * 0x1000 + 2049 - 1) / 2049 == 1366
    ensures 2049 % 683 == 0 && Step(2048, 1366) == 683
    ensures !StepsInSource(2049, 1366, 683)
  {
    assert Step(2048, 1366) == 683;
  }


  /** IntegerPixel over the whole destination buffer, leaving indices outside the region as they were. */
  ghost function IntegerTarget(src: seq<u32>, srowpixels: nat, swidth: nat, sheight: nat,
                               orig: seq<u32>, drowpixels: nat, dwidth: nat, dheight: nat,
                               t: Tint, dx: nat, dy: nat): (want: seq<u32>)
    requires Fits(|src|, srowpixels, swidth, sheight) && 0 < swidth && 0 < sheight
    requires ValidTint(t)
    ensures |want| == |orig|
    ensures forall i :: 0 <= i < |orig| ==>
      want[i] == if InRegion(i, drowpixels, dwidth, dheight)
                 then IntegerPixel(src, srowpixels, swidth, sheight,
                                   i % drowpixels, i / drowpixels, dx, dy, t, orig[i])
                 else orig[i]
  {
    seq(|orig|, i requires 0 <= i < |orig| =>
      if InRegion(i, drowpixels, dwidth, dheight)
      then IntegerPixel(src, srowpixels, swidth, sheight,
                        i % drowpixels, i / drowpixels, dx, dy, t, orig[i])
      else orig[i])
  }

  method ResampleInteger(dest: array<u32>, drowpixels: nat, dwidth: nat, dheight: nat,
                         source: array<u32>, srowpixels: nat, swidth: nat, sheight: nat,
                         t: Tint, dx: nat, dy: nat)
    requires dest != source
    requires Fits(dest.Length, drowpixels, dwidth, dheight)
    requires Fits(source.Length, srowpixels, swidth, sheight)
    requires 0 < swidth && 0 < sheight && ValidTint(t)
    modifies dest
    ensures forall i :: 0 <= i < dest.Length ==>
      dest[i] == if InRegion(i, drowpixels, dwidth, dheight)
                 then IntegerPixel(source[..], srowpixels, swidth, sheight,
                                   i % drowpixels, i / drowpixels, dx, dy, t, old(dest[i]))
                 else old(dest[i])
  {
    ghost var orig := dest[..];
    ghost var want := IntegerTarget(source[..], srowpixels, swidth, sheight,
                                    orig, drowpixels, dwidth, dheight, t, dx, dy);
    WrittenStart(orig, want, drowpixels, dwidth, dheight);
    var y := 0;
    while y < dheight
      invariant 0 <= y <= dheight
      invariant Written(dest[..], orig, want, drowpixels, dwidth, dheight, y, 0)
    {
      var cury := (y * dy) % 0x1_0000_0000;
      var sy := cury / 0x1000;
      if sy >= sheight {
        sy := sheight - 1;
      }
      var x := 0;
      while x < dwidth
        invariant 0 <= x <= dwidth
        invariant Written(dest[..], orig, want, drowpixels, dwidth, dheight, y, x)
      {
        WrittenNext(dest[..], orig, want, drowpixels, dwidth, dheight, y, x);
        var d := y * drowpixels + x;
        var curx := (x * dx) % 0x1_0000_0000;
        var sx := curx / 0x1000;
        if sx >= swidth {
          sx := swidth - 1;
        }
        IdxInBounds(srowpixels, swidth, sheight, sy, sx);

        // fetch the source pixel, scale it and blend it over the destination
        var pix := source[sy * srowpixels + sx];
        dest[d] := Blend(Alpha(pix), Red(pix), Green(pix), Blue(pix), t, dest[d]);
        x := x + 1;
      }
      WrittenRow(dest[..], orig, want, drowpixels, dwidth, dheight, y);
      y := y + 1;
    }
    WrittenEnd(dest[..], orig, want, drowpixels, dwidth, dheight);
  }
}
