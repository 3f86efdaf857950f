/**
 * copy_png_alpha_to_bitmap: laying the samples of a decoded PNG over the
 * alpha channel of an existing bitmap of the same size, keeping each
 * pixel's red, green and blue, and reporting whether any written alpha is
 * below 0xff.
 */
module PngAlpha {
  import opened Pixels
  import opened Adam7

  /**
   * The decoded image as util::png_info hands it over: after decoding,
   * the passes' rows lie one after another in image, each pass starting
   * at its pass_offset; the palette holds three bytes per entry.
   */
  datatype PngInfo = PngInfo(width: nat, height: nat, bitDepth: nat, colorType: nat,
                             interlaced: bool, image: seq<u8>, palette: seq<u8>)

  /** Samples per pixel by colour type (the source's samples table). */
  const Samples: seq<nat> := [1, 0, 3, 1, 2, 0, 4]

  /** The colour types of the PNG standard: gray, truecolour, palette, gray + alpha, truecolour + alpha. */
  predicate KnownColorType(colorType: nat)
  {
    colorType == 0 || colorType == 2 || colorType == 3 || colorType == 4 || colorType == 6
  }

  /** How far the walk advances per pixel in each of the source's five colour-type loops. */
  function Stride(colorType: nat): (r: nat)
    ensures 1 <= r <= 4
  {
    if colorType == 3 || colorType == 0 then 1
    else if colorType == 4 then 2
    else if colorType == 2 then 3
    else 4
  }

  /** Bytes per row of pass p: (width * samples * bit_depth + 7) >> 3, before the row's filter byte. */
  function RowBytes(png: PngInfo, p: nat): nat
    requires KnownColorType(png.colorType) && p < PassCount(png.interlaced)
  {
    (PassWidth(png.interlaced, p, png.width) * Samples[png.colorType] * png.bitDepth + 7) / 8
  }

  /** pass_offset[p]: each earlier pass takes height * (rowbytes + 1) bytes. */
  function PassOffset(png: PngInfo, p: nat): nat
    requires KnownColorType(png.colorType) && p <= PassCount(png.interlaced)
  {
    if p == 0 then 0
    else PassOffset(png, p - 1) + PassHeight(png.interlaced, p - 1, png.height) * (RowBytes(png, p - 1) + 1)
  }

  /** Where the sample of pixel (x, y) of pass p starts. */
  function SampleAt(png: PngInfo, p: nat, x: nat, y: nat): nat
    requires KnownColorType(png.colorType) && p < PassCount(png.interlaced)
  {
    PassOffset(png, p) + (y * PassWidth(png.interlaced, p, png.width) + x) * Stride(png.colorType)
  }

  /** The sample of pixel (x, y) of pass p lies in the image and names an entry of the palette. */
  predicate PaletteIndexed(png: PngInfo, p: nat, x: nat, y: nat)
    requires KnownColorType(png.colorType) && p < PassCount(png.interlaced)
  {
    SampleAt(png, p, x, y) < |png.image| && 3 * (png.image[SampleAt(png, p, x, y)] as int) + 2 < |png.palette|
  }

  /** Every palette sample the walk reads names an entry of the palette. */
  predicate PaletteCovers(png: PngInfo)
    requires KnownColorType(png.colorType)
  {
    png.colorType == 3 ==>
      forall p: nat, x: nat, y: nat {:trigger PaletteIndexed(png, p, x, y)} ::
        p < PassCount(png.interlaced) && x < PassWidth(png.interlaced, p, png.width) &&
        y < PassHeight(png.interlaced, p, png.height)
        ==> PaletteIndexed(png, p, x, y)
  }

  /**
   * What the overlay demands of the decoder's output: samples of eight
   * bits (expand_buffer_8bit widens smaller ones, the loader refuses
   * larger), a standard colour type, image data for every pass, and a
   * palette entry for every index.
   */
  predicate WellFormed(png: PngInfo)
  {
    png.bitDepth == 8 && KnownColorType(png.colorType) &&
    PassOffset(png, PassCount(png.interlaced)) <= |png.image| && PaletteCovers(png)
  }

  /**
   * The alpha the source derives from the sample at offset o: the
   * brightness of the palette entry, the gray sample itself (also for
   * gray + alpha), or the brightness of the red, green and blue samples
   * (also for truecolour + alpha).
   */
  function SampleAlpha(png: PngInfo, brightness: (u8, u8, u8) -> u8, o: nat): u8
    requires KnownColorType(png.colorType) && o + Stride(png.colorType) <= |png.image|
    requires png.colorType == 3 ==> 3 * (png.image[o] as int) + 2 < |png.palette|
  {
    if png.colorType == 3 then
      var e := 3 * (png.image[o] as int);
      brightness(png.palette[e], png.palette[e + 1], png.palette[e + 2])
    else if png.colorType == 0 || png.colorType == 4 then png.image[o]
    else brightness(png.image[o], png.image[o + 1], png.image[o + 2])
  }

  /** With eight-bit samples a row holds exactly width * stride bytes. */
  lemma RowBytesExact(png: PngInfo, p: nat)
    requires png.bitDepth == 8 && KnownColorType(png.colorType) && p < PassCount(png.interlaced)
    ensures RowBytes(png, p) == PassWidth(png.interlaced, p, png.width) * Stride(png.colorType)
  {
    var w, s := PassWidth(png.interlaced, p, png.width), Stride(png.colorType);
    assert Samples[png.colorType] == s;
    assert w * s * 8 + 7 == (w * s) * 8 + 7;
    DivModUnique(w * s * 8 + 7, 8, w * s, 7);
  }

  /** Each pixel of a pass, and its whole sample, lies inside that pass's share of the image. */
  lemma SampleInPass(png: PngInfo, p: nat, x: nat, y: nat)
    requires png.bitDepth == 8 && KnownColorType(png.colorType) && p < PassCount(png.interlaced)
    requires x < PassWidth(png.interlaced, p, png.width) && y < PassHeight(png.interlaced, p, png.height)
    ensures SampleAt(png, p, x, y) + Stride(png.colorType) <= PassOffset(png, p + 1)
  {
    var w, h, s := PassWidth(png.interlaced, p, png.width), PassHeight(png.interlaced, p, png.height), Stride(png.colorType);
    RowBytesExact(png, p);
    assert PassOffset(png, p + 1) == PassOffset(png, p) + h * (w * s + 1);
    CellInGrid(w, h, s, x, y);
  }

  /** Cell (x, y) of an h x w grid of s-byte cells ends within h rows of w * s + 1 bytes. */
  lemma CellInGrid(w: nat, h: nat, s: nat, x: nat, y: nat)
    requires x < w && y < h
    ensures (y * w + x) * s + s <= h * (w * s + 1)
  {
    assert (y * w + x) * s + s == (y * w + x + 1) * s;
    MulMono(y * w + x + 1, (y + 1) * w, s);
    assert (y + 1) * w * s == (y + 1) * (w * s);
    MulMono(y + 1, h, w * s);
    assert h * (w * s) <= h * (w * s + 1);
  }

  /** Later passes start no earlier. */
  lemma OffsetMono(png: PngInfo, p: nat, q: nat)
    requires KnownColorType(png.colorType) && p <= q <= PassCount(png.interlaced)
    ensures PassOffset(png, p) <= PassOffset(png, q)
    decreases q - p
  {
    if p < q {
      OffsetMono(png, p, q - 1);
    }
  }

  /** Every pixel of every pass can be read. */
  lemma SampleReadable(png: PngInfo, p: nat, x: nat, y: nat)
    requires WellFormed(png) && p < PassCount(png.interlaced)
    requires x < PassWidth(png.interlaced, p, png.width) && y < PassHeight(png.interlaced, p, png.height)
    ensures SampleAt(png, p, x, y) + Stride(png.colorType) <= |png.image|
    ensures png.colorType == 3 ==> 3 * (png.image[SampleAt(png, p, x, y)] as int) + 2 < |png.palette|
  {
    SampleInPass(png, p, x, y);
    OffsetMono(png, p + 1, PassCount(png.interlaced));
    if png.colorType == 3 {
      assert PaletteIndexed(png, p, x, y);
    }
  }

  /** The alpha written to image pixel (X, Y): that of the sample its pass holds for it. */
  function PixelAlpha(png: PngInfo, brightness: (u8, u8, u8) -> u8, X: nat, Y: nat): u8
    requires WellFormed(png) && X < png.width && Y < png.height
  {
    var p, x, y := Pass(png.interlaced, X, Y), Column(png.interlaced, X, Y), Row(png.interlaced, X, Y);
    ExactlyOnce(png.interlaced, png.width, png.height, X, Y);
    SampleReadable(png, p, x, y);
    SampleAlpha(png, brightness, SampleAt(png, p, x, y))
  }

  /** The walk has reached pixel (X, Y) before pixel (x, y) of pass pass. */
  predicate Done(interlaced: bool, X: nat, Y: nat, pass: nat, y: nat, x: nat)
  {
    var p := Pass(interlaced, X, Y);
    p < pass || (p == pass && (Row(interlaced, X, Y) < y || (Row(interlaced, X, Y) == y && Column(interlaced, X, Y) < x)))
  }

  /** The pixel at index i of a bitmap whose rows are rowpixels apart, with its alpha replaced. */
  function Overlaid(pixel: u32, alpha: u8): u32
  {
    Pack(alpha, Red(pixel), Green(pixel), Blue(pixel))
  }

  /** The overlay rewrites the alpha channel only. */
  lemma OverlaidChannels(pixel: u32, alpha: u8)
    ensures Alpha(Overlaid(pixel, alpha)) == alpha
    ensures Red(Overlaid(pixel, alpha)) == Red(pixel) && Green(Overlaid(pixel, alpha)) == Green(pixel)
    ensures Blue(Overlaid(pixel, alpha)) == Blue(pixel)
  {
    PackUnpack(alpha, Red(pixel), Green(pixel), Blue(pixel));
  }

  /** Pixel i of the bitmap once the overlay is complete: in the image area its alpha is replaced. */
  function Target(pixel: u32, i: nat, rowpixels: nat, png: PngInfo, brightness: (u8, u8, u8) -> u8): u32
    requires WellFormed(png)
  {
    if InRegion(i, rowpixels, png.width, png.height)
    then Overlaid(pixel, PixelAlpha(png, brightness, i % rowpixels, i / rowpixels))
    else pixel
  }

  /** Bitmap index i lies in the image and the walk has reached it before pixel (x, y) of pass pass. */
  predicate Reached(i: nat, rowpixels: nat, png: PngInfo, pass: nat, y: nat, x: nat)
  {
    InRegion(i, rowpixels, png.width, png.height) && Done(png.interlaced, i % rowpixels, i / rowpixels, pass, y, x)
  }

  /** The bitmap part-way through the walk: pixels already reached carry their new alpha. */
  ghost predicate Progress(cur: seq<u32>, orig: seq<u32>, rowpixels: nat, png: PngInfo,
                           brightness: (u8, u8, u8) -> u8, pass: nat, y: nat, x: nat)
    requires WellFormed(png)
  {
    |cur| == |orig| &&
    forall i :: 0 <= i < |cur| ==> Agrees(cur, orig, i, rowpixels, png, brightness, pass, y, x)
  }

  /** Index i holds its new pixel if the walk has reached it, and its old pixel otherwise. */
  ghost predicate Agrees(cur: seq<u32>, orig: seq<u32>, i: nat, rowpixels: nat, png: PngInfo,
                         brightness: (u8, u8, u8) -> u8, pass: nat, y: nat, x: nat)
    requires WellFormed(png) && i < |cur| == |orig|
  {
    cur[i] == if Reached(i, rowpixels, png, pass, y, x) then Target(orig[i], i, rowpixels, png, brightness) else orig[i]
  }

  /** Every pixel reached so far is opaque. */
  ghost predicate OpaqueSoFar(png: PngInfo, brightness: (u8, u8, u8) -> u8, pass: nat, y: nat, x: nat)
    requires WellFormed(png)
  {
    forall X: nat, Y: nat {:trigger PixelAlpha(png, brightness, X, Y)} ::
      X < png.width && Y < png.height && Done(png.interlaced, X, Y, pass, y, x) ==>
        PixelAlpha(png, brightness, X, Y) == 0xff
  }

  /** One step of the walk reaches exactly the image pixel the pass pixel (x, y) translates to. */
  lemma DoneNext(png: PngInfo, pass: nat, y: nat, x: nat, X: nat, Y: nat)
    requires pass < PassCount(png.interlaced)
    requires x < PassWidth(png.interlaced, pass, png.width) && y < PassHeight(png.interlaced, pass, png.height)
    ensures Done(png.interlaced, X, Y, pass, y, x + 1) <==>
      Done(png.interlaced, X, Y, pass, y, x) ||
      (X == XTrans(png.interlaced, pass, x) && Y == YTrans(png.interlaced, pass, y))
  {
    PixelCovered(png.interlaced, X, Y);
    TransCovered(png.interlaced, pass, x, y);
  }

  /** Finishing a row, and finishing a pass, reach nothing new. */
  lemma DoneRow(png: PngInfo, pass: nat, y: nat, X: nat, Y: nat)
    requires pass < PassCount(png.interlaced) && X < png.width && Y < png.height
    ensures Done(png.interlaced, X, Y, pass, y, PassWidth(png.interlaced, pass, png.width)) <==>
      Done(png.interlaced, X, Y, pass, y + 1, 0)
  {
    ExactlyOnce(png.interlaced, png.width, png.height, X, Y);
  }

  lemma DonePass(png: PngInfo, pass: nat, X: nat, Y: nat)
    requires pass < PassCount(png.interlaced) && X < png.width && Y < png.height
    ensures Done(png.interlaced, X, Y, pass, PassHeight(png.interlaced, pass, png.height), 0) <==>
      Done(png.interlaced, X, Y, pass + 1, 0, 0)
  {
    ExactlyOnce(png.interlaced, png.width, png.height, X, Y);
  }

  /** After the last pass every image pixel has been reached. */
  lemma DoneAll(png: PngInfo, X: nat, Y: nat)
    ensures Done(png.interlaced, X, Y, PassCount(png.interlaced), 0, 0)
  {
  }

  /** One step of the walk reaches exactly the bitmap index the pass pixel (x, y) translates to. */
  lemma ReachedNext(rowpixels: nat, png: PngInfo, pass: nat, y: nat, x: nat)
    requires png.width <= rowpixels && pass < PassCount(png.interlaced)
    requires x < PassWidth(png.interlaced, pass, png.width) && y < PassHeight(png.interlaced, pass, png.height)
    ensures 0 <= XTrans(png.interlaced, pass, x) < png.width && 0 <= YTrans(png.interlaced, pass, y) < png.height
    ensures var i := Idx(rowpixels, YTrans(png.interlaced, pass, y), XTrans(png.interlaced, pass, x));
      i < png.height * rowpixels &&
      InRegion(i, rowpixels, png.width, png.height) &&
      i % rowpixels == XTrans(png.interlaced, pass, x) && i / rowpixels == YTrans(png.interlaced, pass, y) &&
      !Reached(i, rowpixels, png, pass, y, x) && Reached(i, rowpixels, png, pass, y, x + 1) &&
      forall j: nat :: j != i ==> Reached(j, rowpixels, png, pass, y, x + 1) == Reached(j, rowpixels, png, pass, y, x)
  {
    ColumnInRange(png.interlaced, pass, x, png.width);
    RowInRange(png.interlaced, pass, y, png.height);
    var X, Y := XTrans(png.interlaced, pass, x), YTrans(png.interlaced, pass, y);
    var i := Idx(rowpixels, Y, X);
    IdxInBounds(rowpixels, png.width, png.height, Y, X);
    IdxInRegion(rowpixels, png.width, png.height, Y, X);
    IdxDivMod(rowpixels, Y, X);
    TransCovered(png.interlaced, pass, x, y);
    DoneNext(png, pass, y, x, X, Y);
    ReachedOthers(rowpixels, png, pass, y, x, X, Y);
  }

  /** One step of the walk reaches no bitmap index other than that of the translated pixel (X, Y). */
  lemma ReachedOthers(rowpixels: nat, png: PngInfo, pass: nat, y: nat, x: nat, X: nat, Y: nat)
    requires pass < PassCount(png.interlaced)
    requires x < PassWidth(png.interlaced, pass, png.width) && y < PassHeight(png.interlaced, pass, png.height)
    requires X == XTrans(png.interlaced, pass, x) && Y == YTrans(png.interlaced, pass, y)
    ensures forall j: nat :: j != Idx(rowpixels, Y, X) ==>
      Reached(j, rowpixels, png, pass, y, x + 1) == Reached(j, rowpixels, png, pass, y, x)
  {
    forall j: nat | j != Idx(rowpixels, Y, X) && InRegion(j, rowpixels, png.width, png.height)
      ensures Reached(j, rowpixels, png, pass, y, x + 1) == Reached(j, rowpixels, png, pass, y, x)
    {
      DoneNext(png, pass, y, x, j % rowpixels, j / rowpixels);
      RegionIdx(j, rowpixels, png.width, png.height);
    }
  }

  /** Storing the overlaid pixel (x, y) of pass pass advances the walk by one pixel. */
  lemma ProgressNext(cur: seq<u32>, orig: seq<u32>, rowpixels: nat, png: PngInfo,
                     brightness: (u8, u8, u8) -> u8, pass: nat, y: nat, x: nat)
    requires WellFormed(png) && png.width <= rowpixels && |cur| == png.height * rowpixels
    requires pass < PassCount(png.interlaced)
    requires x < PassWidth(png.interlaced, pass, png.width) && y < PassHeight(png.interlaced, pass, png.height)
    requires Progress(cur, orig, rowpixels, png, brightness, pass, y, x)
    ensures 0 <= XTrans(png.interlaced, pass, x) < png.width && 0 <= YTrans(png.interlaced, pass, y) < png.height
    ensures SampleAt(png, pass, x, y) + Stride(png.colorType) <= |png.image|
    ensures png.colorType == 3 ==> 3 * (png.image[SampleAt(png, pass, x, y)] as int) + 2 < |png.palette|
    ensures var i := Idx(rowpixels, YTrans(png.interlaced, pass, y), XTrans(png.interlaced, pass, x));
      i < |cur| &&
      Progress(cur[i := Overlaid(cur[i], SampleAlpha(png, brightness, SampleAt(png, pass, x, y)))],
               orig, rowpixels, png, brightness, pass, y, x + 1)
  {
    SampleReadable(png, pass, x, y);
    ReachedNext(rowpixels, png, pass, y, x);
    TransCovered(png.interlaced, pass, x, y);
    var X, Y := XTrans(png.interlaced, pass, x), YTrans(png.interlaced, pass, y);
    assert PixelAlpha(png, brightness, X, Y) == SampleAlpha(png, brightness, SampleAt(png, pass, x, y));
    var i := Idx(rowpixels, Y, X);
    var next := cur[i := Overlaid(cur[i], SampleAlpha(png, brightness, SampleAt(png, pass, x, y)))];
    var x' := x + 1;
    forall j | 0 <= j < |next|
      ensures Agrees(next, orig, j, rowpixels, png, brightness, pass, y, x')
    {
      assert Agrees(cur, orig, j, rowpixels, png, brightness, pass, y, x);
    }
  }

  /** Finishing a row, and finishing a pass, reach no new bitmap index. */
  lemma ReachedRow(rowpixels: nat, png: PngInfo, pass: nat, y: nat)
    requires pass < PassCount(png.interlaced)
    ensures forall j: nat :: Reached(j, rowpixels, png, pass, y, PassWidth(png.interlaced, pass, png.width)) ==
              Reached(j, rowpixels, png, pass, y + 1, 0)
  {
    forall j: nat | InRegion(j, rowpixels, png.width, png.height)
      ensures Reached(j, rowpixels, png, pass, y, PassWidth(png.interlaced, pass, png.width)) ==
              Reached(j, rowpixels, png, pass, y + 1, 0)
    {
      DoneRow(png, pass, y, j % rowpixels, j / rowpixels);
    }
  }

  lemma ReachedPass(rowpixels: nat, png: PngInfo, pass: nat)
    requires pass < PassCount(png.interlaced)
    ensures forall j: nat :: Reached(j, rowpixels, png, pass, PassHeight(png.interlaced, pass, png.height), 0) ==
              Reached(j, rowpixels, png, pass + 1, 0, 0)
  {
    forall j: nat | InRegion(j, rowpixels, png.width, png.height)
      ensures Reached(j, rowpixels, png, pass, PassHeight(png.interlaced, pass, png.height), 0) ==
              Reached(j, rowpixels, png, pass + 1, 0, 0)
    {
      DonePass(png, pass, j % rowpixels, j / rowpixels);
    }
  }

  /** After the last pass every index of the image area has been reached. */
  lemma ReachedAll(rowpixels: nat, png: PngInfo)
    ensures forall j: nat :: Reached(j, rowpixels, png, PassCount(png.interlaced), 0, 0) ==
              InRegion(j, rowpixels, png.width, png.height)
  {
    forall j: nat | InRegion(j, rowpixels, png.width, png.height)
      ensures Reached(j, rowpixels, png, PassCount(png.interlaced), 0, 0)
    {
      DoneAll(png, j % rowpixels, j / rowpixels);
    }
  }

  /** Finishing a row of a pass moves the walk to the start of the next row. */
  lemma ProgressRow(cur: seq<u32>, orig: seq<u32>, rowpixels: nat, png: PngInfo,
                    brightness: (u8, u8, u8) -> u8, pass: nat, y: nat)
    requires WellFormed(png) && pass < PassCount(png.interlaced)
    requires Progress(cur, orig, rowpixels, png, brightness, pass, y, PassWidth(png.interlaced, pass, png.width))
    ensures Progress(cur, orig, rowpixels, png, brightness, pass, y + 1, 0)
  {
    ReachedRow(rowpixels, png, pass, y);
    var y' := y + 1;
    forall i | 0 <= i < |cur|
      ensures Agrees(cur, orig, i, rowpixels, png, brightness, pass, y', 0)
    {
      assert Agrees(cur, orig, i, rowpixels, png, brightness, pass, y, PassWidth(png.interlaced, pass, png.width));
    }
  }

  /** Finishing a pass moves the walk to the start of the next pass. */
  lemma ProgressPass(cur: seq<u32>, orig: seq<u32>, rowpixels: nat, png: PngInfo,
                     brightness: (u8, u8, u8) -> u8, pass: nat)
    requires WellFormed(png) && pass < PassCount(png.interlaced)
    requires Progress(cur, orig, rowpixels, png, brightness, pass, PassHeight(png.interlaced, pass, png.height), 0)
    ensures Progress(cur, orig, rowpixels, png, brightness, pass + 1, 0, 0)
  {
    ReachedPass(rowpixels, png, pass);
    var pass' := pass + 1;
    forall i | 0 <= i < |cur|
      ensures Agrees(cur, orig, i, rowpixels, png, brightness, pass', 0, 0)
    {
      assert Agrees(cur, orig, i, rowpixels, png, brightness, pass, PassHeight(png.interlaced, pass, png.height), 0);
    }
  }

  /** After the last pass every pixel of the image area carries its new alpha. */
  lemma ProgressEnd(cur: seq<u32>, orig: seq<u32>, rowpixels: nat, png: PngInfo, brightness: (u8, u8, u8) -> u8)
    requires WellFormed(png)
    requires Progress(cur, orig, rowpixels, png, brightness, PassCount(png.interlaced), 0, 0)
    ensures forall i :: 0 <= i < |cur| ==> cur[i] == Target(orig[i], i, rowpixels, png, brightness)
  {
    ReachedAll(rowpixels, png);
    forall i | 0 <= i < |cur|
      ensures cur[i] == Target(orig[i], i, rowpixels, png, brightness)
    {
      assert Agrees(cur, orig, i, rowpixels, png, brightness, PassCount(png.interlaced), 0, 0);
    }
  }

  /** Reaching pixel (x, y) of pass pass keeps the record of opacity exact. */
  lemma OpaqueNext(png: PngInfo, brightness: (u8, u8, u8) -> u8, pass: nat, y: nat, x: nat)
    requires WellFormed(png) && pass < PassCount(png.interlaced)
    requires x < PassWidth(png.interlaced, pass, png.width) && y < PassHeight(png.interlaced, pass, png.height)
    ensures 0 <= XTrans(png.interlaced, pass, x) < png.width && 0 <= YTrans(png.interlaced, pass, y) < png.height
    ensures SampleAt(png, pass, x, y) + Stride(png.colorType) <= |png.image|
    ensures png.colorType == 3 ==> 3 * (png.image[SampleAt(png, pass, x, y)] as int) + 2 < |png.palette|
    ensures OpaqueSoFar(png, brightness, pass, y, x + 1) <==>
      OpaqueSoFar(png, brightness, pass, y, x) && SampleAlpha(png, brightness, SampleAt(png, pass, x, y)) == 0xff
  {
    ColumnInRange(png.interlaced, pass, x, png.width);
    RowInRange(png.interlaced, pass, y, png.height);
    SampleReadable(png, pass, x, y);
    var X, Y := XTrans(png.interlaced, pass, x), YTrans(png.interlaced, pass, y);
    TransCovered(png.interlaced, pass, x, y);
    assert PixelAlpha(png, brightness, X, Y) == SampleAlpha(png, brightness, SampleAt(png, pass, x, y));
    DoneNext(png, pass, y, x, X, Y);
    forall X': nat, Y': nat | X' < png.width && Y' < png.height
      ensures Done(png.interlaced, X', Y', pass, y, x + 1) <==>
        Done(png.interlaced, X', Y', pass, y, x) || (X' == X && Y' == Y)
    {
      DoneNext(png, pass, y, x, X', Y');
    }
  }

  lemma OpaqueRow(png: PngInfo, brightness: (u8, u8, u8) -> u8, pass: nat, y: nat)
    requires WellFormed(png) && pass < PassCount(png.interlaced)
    ensures OpaqueSoFar(png, brightness, pass, y, PassWidth(png.interlaced, pass, png.width)) <==>
            OpaqueSoFar(png, brightness, pass, y + 1, 0)
  {
    forall X: nat, Y: nat | X < png.width && Y < png.height
      ensures Done(png.interlaced, X, Y, pass, y, PassWidth(png.interlaced, pass, png.width)) <==>
              Done(png.interlaced, X, Y, pass, y + 1, 0)
    {
      DoneRow(png, pass, y, X, Y);
    }
  }

  lemma OpaquePass(png: PngInfo, brightness: (u8, u8, u8) -> u8, pass: nat)
    requires WellFormed(png) && pass < PassCount(png.interlaced)
    ensures OpaqueSoFar(png, brightness, pass, PassHeight(png.interlaced, pass, png.height), 0) <==>
            OpaqueSoFar(png, brightness, pass + 1, 0, 0)
  {
    forall X: nat, Y: nat | X < png.width && Y < png.height
      ensures Done(png.interlaced, X, Y, pass, PassHeight(png.interlaced, pass, png.height), 0) <==>
              Done(png.interlaced, X, Y, pass + 1, 0, 0)
    {
      DonePass(png, pass, X, Y);
    }
  }

  /** accumalpha &= alpha stays 0xff exactly while every alpha so far is 0xff. */
  lemma AndOpaque(accum: bv8, alpha: u8)
    ensures (accum & (alpha as bv8) == 0xff) <==> (accum == 0xff && alpha == 0xff)
  {
  }

  /**
   * One row of one pass of copy_png_alpha_to_bitmap: each pixel of the row
   * takes the alpha of its sample, and the running AND of the alphas
   * stays 0xff exactly while every pixel reached so far is opaque.
   */
  method OverlayRow(bitmap: Bitmap, png: PngInfo, brightness: (u8, u8, u8) -> u8, ghost orig: seq<u32>,
                    pass: nat, y: nat, src: nat, accum: bv8) returns (next: nat, accum': bv8)
    requires bitmap.Valid() && WellFormed(png)
    requires png.width == bitmap.width && png.height == bitmap.height
    requires pass < PassCount(png.interlaced) && y < PassHeight(png.interlaced, pass, png.height)
    requires src == SampleAt(png, pass, 0, y)
    requires Progress(bitmap.pix[..], orig, bitmap.rowpixels, png, brightness, pass, y, 0)
    requires (accum == 0xff) == OpaqueSoFar(png, brightness, pass, y, 0)
    modifies bitmap.pix
    ensures next == SampleAt(png, pass, 0, y + 1)
    ensures Progress(bitmap.pix[..], orig, bitmap.rowpixels, png, brightness, pass, y + 1, 0)
    ensures (accum' == 0xff) == OpaqueSoFar(png, brightness, pass, y + 1, 0)
  {
    var width := PassWidth(png.interlaced, pass, png.width);
    next, accum' := src, accum;
    var x := 0;
    while x < width
      invariant x <= width && next == SampleAt(png, pass, x, y)
      invariant Progress(bitmap.pix[..], orig, bitmap.rowpixels, png, brightness, pass, y, x)
      invariant (accum' == 0xff) == OpaqueSoFar(png, brightness, pass, y, x)
    {
      ProgressNext(bitmap.pix[..], orig, bitmap.rowpixels, png, brightness, pass, y, x);
      OpaqueNext(png, brightness, pass, y, x);
      var i := YTrans(png.interlaced, pass, y) * bitmap.rowpixels + XTrans(png.interlaced, pass, x);
      assert i == Idx(bitmap.rowpixels, YTrans(png.interlaced, pass, y), XTrans(png.interlaced, pass, x));
      ghost var before := bitmap.pix[..];
      var pixel := bitmap.pix[i];
      var alpha := SampleAlpha(png, brightness, next);
      AndOpaque(accum', alpha);
      accum' := accum' & (alpha as bv8);
      bitmap.pix[i] := Pack(alpha, Red(pixel), Green(pixel), Blue(pixel));
      assert bitmap.pix[..] == before[i := Overlaid(pixel, alpha)];
      SampleStep(png, pass, x, y);
      x := x + 1;
      next := next + Stride(png.colorType);
    }
    ProgressRow(bitmap.pix[..], orig, bitmap.rowpixels, png, brightness, pass, y);
    OpaqueRow(png, brightness, pass, y);
    RowStart(png, pass, y);
  }

  /**
   * One pass of copy_png_alpha_to_bitmap: the pass's rows in order, the
   * sample pointer starting at the pass's offset.
   */
  method OverlayPass(bitmap: Bitmap, png: PngInfo, brightness: (u8, u8, u8) -> u8, ghost orig: seq<u32>,
                     pass: nat, offset: nat, accum: bv8) returns (accum': bv8)
    requires bitmap.Valid() && WellFormed(png)
    requires png.width == bitmap.width && png.height == bitmap.height
    requires pass < PassCount(png.interlaced) && offset == PassOffset(png, pass)
    requires Progress(bitmap.pix[..], orig, bitmap.rowpixels, png, brightness, pass, 0, 0)
    requires (accum == 0xff) == OpaqueSoFar(png, brightness, pass, 0, 0)
    modifies bitmap.pix
    ensures Progress(bitmap.pix[..], orig, bitmap.rowpixels, png, brightness, pass + 1, 0, 0)
    ensures (accum' == 0xff) == OpaqueSoFar(png, brightness, pass + 1, 0, 0)
  {
    var height := PassHeight(png.interlaced, pass, png.height);
    var src := offset;
    SampleStart(png, pass);
    accum' := accum;
    var y := 0;
    while y < height
      invariant y <= height && src == SampleAt(png, pass, 0, y)
      invariant Progress(bitmap.pix[..], orig, bitmap.rowpixels, png, brightness, pass, y, 0)
      invariant (accum' == 0xff) == OpaqueSoFar(png, brightness, pass, y, 0)
    {
      src, accum' := OverlayRow(bitmap, png, brightness, orig, pass, y, src, accum');
      y := y + 1;
    }
    ProgressPass(bitmap.pix[..], orig, bitmap.rowpixels, png, brightness, pass);
    OpaquePass(png, brightness, pass);
  }

  /**
   * copy_png_alpha_to_bitmap: every pixel of the bitmap's visible area
   * takes the alpha of the PNG sample that covers it and keeps its colour;
   * nothing else changes. The result says whether any alpha is below 0xff.
   */
  method CopyPngAlpha(bitmap: Bitmap, png: PngInfo, brightness: (u8, u8, u8) -> u8) returns (hasAlpha: bool)
    requires bitmap.Valid() && WellFormed(png)
    requires png.width == bitmap.width && png.height == bitmap.height
    modifies bitmap.pix
    ensures forall i :: 0 <= i < bitmap.pix.Length ==>
      bitmap.pix[i] == Target(old(bitmap.pix[i]), i, bitmap.rowpixels, png, brightness)
    ensures hasAlpha <==> exists X: nat, Y: nat {:trigger PixelAlpha(png, brightness, X, Y)} ::
      X < png.width && Y < png.height && PixelAlpha(png, brightness, X, Y) != 0xff
  {
    ghost var orig := bitmap.pix[..];
    var accum: bv8 := 0xff;
    var offset := 0;
    var pass := 0;
    while pass < PassCount(png.interlaced)
      invariant pass <= PassCount(png.interlaced) && offset == PassOffset(png, pass)
      invariant Progress(bitmap.pix[..], orig, bitmap.rowpixels, png, brightness, pass, 0, 0)
      invariant (accum == 0xff) == OpaqueSoFar(png, brightness, pass, 0, 0)
    {
      var width := PassWidth(png.interlaced, pass, png.width);
      var height := PassHeight(png.interlaced, pass, png.height);
      var rowbytes := (width * Samples[png.colorType] * png.bitDepth + 7) / 8;
      var next := offset + height * (rowbytes + 1);
      PassStep(png, pass);
      accum := OverlayPass(bitmap, png, brightness, orig, pass, offset, accum);
      offset := next;
      pass := pass + 1;
    }
    hasAlpha := accum != 0xff;
    ProgressEnd(bitmap.pix[..], orig, bitmap.rowpixels, png, brightness);
    if !hasAlpha {
      forall X: nat, Y: nat | X < png.width && Y < png.height
        ensures PixelAlpha(png, brightness, X, Y) == 0xff
      {
        DoneAll(png, X, Y);
      }
    } else {
      assert !OpaqueSoFar(png, brightness, pass, 0, 0);
    }
  }

  /** A pass's first sample is at the pass's offset. */
  lemma SampleStart(png: PngInfo, pass: nat)
    requires KnownColorType(png.colorType) && pass < PassCount(png.interlaced)
    ensures SampleAt(png, pass, 0, 0) == PassOffset(png, pass)
  {
  }

  /** pass_offset[pass + 1] as the source computes it from pass_offset[pass]. */
  lemma PassStep(png: PngInfo, pass: nat)
    requires KnownColorType(png.colorType) && pass < PassCount(png.interlaced)
    ensures PassOffset(png, pass + 1) == PassOffset(png, pass) + PassHeight(png.interlaced, pass, png.height) *
      ((PassWidth(png.interlaced, pass, png.width) * Samples[png.colorType] * png.bitDepth + 7) / 8 + 1)
  {
  }

  /** The next pixel's sample follows the current one. */
  lemma SampleStep(png: PngInfo, pass: nat, x: nat, y: nat)
    requires KnownColorType(png.colorType) && pass < PassCount(png.interlaced)
    ensures SampleAt(png, pass, x + 1, y) == SampleAt(png, pass, x, y) + Stride(png.colorType)
  {
    var w, s := PassWidth(png.interlaced, pass, png.width), Stride(png.colorType);
    assert (y * w + x + 1) * s == (y * w + x) * s + s;
  }

  /** The end of row y of a pass is the start of row y + 1. */
  lemma RowStart(png: PngInfo, pass: nat, y: nat)
    requires KnownColorType(png.colorType) && pass < PassCount(png.interlaced)
    ensures SampleAt(png, pass, PassWidth(png.interlaced, pass, png.width), y) == SampleAt(png, pass, 0, y + 1)
  {
    var w := PassWidth(png.interlaced, pass, png.width);
    assert y * w + w == (y + 1) * w;
  }
}
