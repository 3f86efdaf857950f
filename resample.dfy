/**
 * render_resample_argb_bitmap_hq: chooses one of the three kernels from the
 * 12-bit fixed-point steppings between source and destination and runs it
 * over the destination bitmap.
 */
module Resample {
  import opened Pixels
  import opened ResampleCommon
  import IntegerKernel
  import AverageKernel
  import BilinearKernel

  /** The kernel the dispatcher runs, with the steppings it hands to it. */
  datatype Kernel =
    | Untouched
    | Average(dx: nat, dy: nat)
    | Integer(dx: nat, dy: nat)
    | Bilinear(dx: nat, dy: nat)

  /** (size << 12) / dsize in 32 bits: the source extent one destination pixel covers. */
  function FloorStep(size: nat, dsize: nat): nat
    requires 0 < dsize
  {
    Wrap32(size * 0x1000) / dsize
  }

  /**
   * ceil((size << 12) / dsize), the stepping used when magnifying, taken as
   * the exact ceiling of the quotient.
   */
  function CeilStep(size: nat, dsize: nat): (d: nat)
    requires 0 < dsize
    ensures d * dsize >= Wrap32(size * 0x1000)
    ensures d > 0 ==> (d - 1) * dsize < Wrap32(size * 0x1000)
  {
    var n := Wrap32(size * 0x1000);
    DivSplit(n + dsize - 1, dsize);
    assert (n + dsize - 1) / dsize * dsize == ((n + dsize - 1) / dsize - 1) * dsize + dsize;
    (n + dsize - 1) / dsize
  }

  /**
   * The dispatch: nothing for an empty destination; full averaging when the
   * source is coarser than the destination on either axis or averaging is
   * forced; otherwise block replication when both destination sizes are
   * multiples of the source sizes, else bilinear filtering.
   */
  function ChooseKernel(swidth: nat, sheight: nat, dwidth: nat, dheight: nat, force: bool): Kernel
    requires dwidth > 0 && dheight > 0 ==> swidth > 0 && sheight > 0
  {
    if dwidth == 0 || dheight == 0 then Untouched
    else
      var dx, dy := FloorStep(swidth, dwidth), FloorStep(sheight, dheight);
      if dx > 0x1000 || dy > 0x1000 || force then Average(dx, dy)
      else
        var cx, cy := CeilStep(swidth, dwidth), CeilStep(sheight, dheight);
        if dwidth % swidth == 0 && dheight % sheight == 0 then Integer(cx, cy)
        else Bilinear(cx, cy)
  }

  /** The ceiling step exceeds the floor step by at most one. */
  lemma CeilAtMostFloorPlusOne(size: nat, dsize: nat)
    requires 0 < dsize
    ensures CeilStep(size, dsize) <= FloorStep(size, dsize) + 1
  {
    var n, q, c := Wrap32(size * 0x1000), FloorStep(size, dsize), CeilStep(size, dsize);
    DivSplit(n, dsize);
    assert n < (q + 1) * dsize;
    if c > q + 1 {
      MulMono(q + 1, c - 1, dsize);
    }
  }

  /** Bitmap sizes for which swidth << 12 and sheight << 12 fit in 32 bits. */
  predicate SmallSource(swidth: nat, sheight: nat)
  {
    swidth < 0x10_0000 && sheight < 0x10_0000
  }

  /** Shrinking to at most half the size on either axis always averages. */
  lemma HalvingAverages(swidth: nat, sheight: nat, dwidth: nat, dheight: nat, force: bool)
    requires SmallSource(swidth, sheight)
    requires 0 < dwidth && 0 < dheight && 0 < swidth && 0 < sheight
    requires dwidth * 2 <= swidth || dheight * 2 <= sheight
    ensures ChooseKernel(swidth, sheight, dwidth, dheight, force).Average?
  {
    if dwidth * 2 <= swidth {
      DivSplit(swidth * 0x1000, dwidth);
      assert FloorStep(swidth, dwidth) > 0x1000 by {
        if swidth * 0x1000 / dwidth <= 0x1000 {
          MulMono(swidth * 0x1000 / dwidth, 0x1000, dwidth);
        }
      }
    } else {
      DivSplit(sheight * 0x1000, dheight);
      assert FloorStep(sheight, dheight) > 0x1000 by {
        if sheight * 0x1000 / dheight <= 0x1000 {
          MulMono(sheight * 0x1000 / dheight, 0x1000, dheight);
        }
      }
    }
  }

  /** A destination at least as large as the source on both axes is never averaged unless forced. */
  lemma MagnifyingDoesNotAverage(swidth: nat, sheight: nat, dwidth: nat, dheight: nat)
    requires SmallSource(swidth, sheight)
    requires 0 < swidth <= dwidth && 0 < sheight <= dheight
    ensures !ChooseKernel(swidth, sheight, dwidth, dheight, false).Average?
  {
    StepAtMostUnit(swidth, dwidth);
    StepAtMostUnit(sheight, dheight);
  }

  lemma StepAtMostUnit(size: nat, dsize: nat)
    requires size < 0x10_0000 && 0 < size <= dsize
    ensures FloorStep(size, dsize) <= 0x1000
  {
    var q := size * 0x1000 / dsize;
    DivSplit(size * 0x1000, dsize);
    if q > 0x1000 {
      MulMono(0x1001, q, dsize);
    }
  }

  /**
   * Equal sizes pick block replication with unit steps, so (by
   * IntegerKernel.IntegerIdentity) an opaque resample copies the source.
   */
  lemma SameSizeCopies(width: nat, height: nat)
    requires SmallSource(width, height) && 0 < width && 0 < height
    ensures ChooseKernel(width, height, width, height, false) == Integer(0x1000, 0x1000)
  {
    DivModUnique(width * 0x1000, width, 0x1000, 0);
    DivModUnique(height * 0x1000, height, 0x1000, 0);
    DivModUnique(width * 0x1000 + width - 1, width, 0x1000, width - 1);
    DivModUnique(height * 0x1000 + height - 1, height, 0x1000, height - 1);
  }

  /**
   * The ceiling step overshoots the source: magnifying 683 rows exactly three
   * times to 2049 picks block replication with step 1366, and the last
   * destination row samples source row 683, one past the end.
   */
  lemma CeilingStepOvershoots()
    ensures ChooseKernel(683, 683, 2049, 2049, false) == Integer(1366, 1366)
    ensures IntegerKernel.Step(2048, 1366) == 683
    ensures !IntegerKernel.StepsInSource(2049, 1366, 683)
  {
    assert FloorStep(683, 2049) == 1365;
    assert CeilStep(683, 2049) == 1366;
    assert IntegerKernel.Step(2048, 1366) == 683;
  }

  /** Every pixel of dest.pix is what the kernel computes from the source and its old value. */
  ghost predicate Resampled(k: Kernel, dest: seq<u32>, old_dest: seq<u32>,
                            drowpixels: nat, dwidth: nat, dheight: nat,
                            src: seq<u32>, srowpixels: nat, swidth: nat, sheight: nat, t: Tint)
    requires |dest| == |old_dest| && ValidTint(t)
    requires Fits(|src|, srowpixels, swidth, sheight)
    requires k.Average? ==> AverageKernel.Covers(dwidth, k.dx, swidth) && AverageKernel.Covers(dheight, k.dy, sheight)
    requires k.Integer? ==> 0 < swidth && 0 < sheight
  {
    forall i :: 0 <= i < |dest| ==>
      dest[i] == if !InRegion(i, drowpixels, dwidth, dheight) || k.Untouched? then old_dest[i]
                 else match k
                   case Average(dx, dy) =>
                     AverageKernel.AveragePixel(src, srowpixels, swidth, sheight,
                                                i % drowpixels, i / drowpixels, dx, dy, t, old_dest[i])
                   case Integer(dx, dy) =>
                     IntegerKernel.IntegerPixel(src, srowpixels, swidth, sheight,
                                                i % drowpixels, i / drowpixels, dx, dy, t, old_dest[i])
                   case Bilinear(dx, dy) =>
                     BilinearKernel.BilinearPixel(src, srowpixels, swidth, sheight,
                                                  i % drowpixels, i / drowpixels, dx, dy, t, old_dest[i])
  }

  /** The precondition of the averaging kernel: a positive step on both axes. */
  predicate AverageSafe(swidth: nat, sheight: nat, dwidth: nat, dheight: nat, force: bool)
    requires dwidth > 0 && dheight > 0 ==> swidth > 0 && sheight > 0
  {
    ChooseKernel(swidth, sheight, dwidth, dheight, force).Average? ==>
      dwidth <= swidth * 0x1000 && dheight <= sheight * 0x1000
  }

  method ResampleHq(dest: Bitmap, source: Bitmap, t: Tint, force: bool)
    requires dest.Valid() && source.Valid() && dest.pix != source.pix
    requires SmallSource(source.width, source.height) && ValidTint(t)
    requires dest.width > 0 && dest.height > 0 ==> source.width > 0 && source.height > 0
    requires AverageSafe(source.width, source.height, dest.width, dest.height, force)
    modifies dest.pix
    ensures ChooseKernel(source.width, source.height, dest.width, dest.height, force).Average? ==>
      AverageKernel.Covers(dest.width, ChooseKernel(source.width, source.height, dest.width, dest.height, force).dx, source.width) &&
      AverageKernel.Covers(dest.height, ChooseKernel(source.width, source.height, dest.width, dest.height, force).dy, source.height)
    ensures Resampled(ChooseKernel(source.width, source.height, dest.width, dest.height, force),
                      dest.pix[..], old(dest.pix[..]), dest.rowpixels, dest.width, dest.height,
                      source.pix[..], source.rowpixels, source.width, source.height, t)
  {
    ghost var k := ChooseKernel(source.width, source.height, dest.width, dest.height, force);
    if dest.width == 0 || dest.height == 0 {
      return;
    }

    // determine the steppings
    var swidth, sheight := source.width, source.height;
    var dwidth, dheight := dest.width, dest.height;
    var dx := FloorStep(swidth, dwidth);
    var dy := FloorStep(sheight, dheight);

    // if the source is higher res than the target, use full averaging
    if dx > 0x1000 || dy > 0x1000 || force {
      assert k == Average(dx, dy);
      AverageKernel.CoverStep(dwidth, swidth);
      AverageKernel.CoverStep(dheight, sheight);
      AverageKernel.ResampleAverage(dest.pix, dest.rowpixels, dwidth, dheight,
                                    source.pix, source.rowpixels, swidth, sheight, t, dx, dy);
      assert Resampled(k, dest.pix[..], old(dest.pix[..]), dest.rowpixels, dwidth, dheight,
                       source.pix[..], source.rowpixels, swidth, sheight, t);
    } else {
      CeilAtMostFloorPlusOne(swidth, dwidth);
      CeilAtMostFloorPlusOne(sheight, dheight);
      dx := CeilStep(swidth, dwidth);
      dy := CeilStep(sheight, dheight);
      if dwidth % swidth == 0 && dheight % sheight == 0 {
        assert k == Integer(dx, dy);
        IntegerKernel.ResampleInteger(dest.pix, dest.rowpixels, dwidth, dheight,
                                      source.pix, source.rowpixels, swidth, sheight, t, dx, dy);
        assert Resampled(k, dest.pix[..], old(dest.pix[..]), dest.rowpixels, dwidth, dheight,
                         source.pix[..], source.rowpixels, swidth, sheight, t);
      } else {
        assert k == Bilinear(dx, dy);
        BilinearKernel.ResampleBilinear(dest.pix, dest.rowpixels, dwidth, dheight,
                                        source.pix, source.rowpixels, swidth, sheight, t, dx, dy);
        assert Resampled(k, dest.pix[..], old(dest.pix[..]), dest.rowpixels, dwidth, dheight,
                         source.pix[..], source.rowpixels, swidth, sheight, t);
      }
    }
  }
}
