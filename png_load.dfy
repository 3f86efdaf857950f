/**
 * render_load_png and render_detect_image: the guard logic around the PNG
 * decoder and the order in which the image formats are probed. The
 * decoder itself (png_info::read_file, expand_buffer_8bit,
 * copy_to_bitmap) and the header probes are foreign; their outcomes are
 * parameters.
 */
module PngLoad {
  import opened Pixels
  import opened PngAlpha

  /** What png.read_file followed by png.expand_buffer_8bit produced. */
  datatype DecodeOutcome =
    | ReadFailed
    | UpsampleFailed
    | Decoded(png: PngInfo)

  /**
   * What png.copy_to_bitmap produced in the replacing case: a failure, or
   * the decoded image as width x height ARGB pixels, row by row, and
   * whether any of them is translucent.
   */
  datatype CopyOutcome =
    | CopyFailed
    | Copied(hasAlpha: bool, width: nat, height: nat, pixels: seq<u32>)

  /** A copy result of the decoded image's own size, with a pixel for every position. */
  predicate CopyFits(outcome: DecodeOutcome, copied: CopyOutcome)
  {
    outcome.Decoded? && copied.Copied? ==>
      copied.width == outcome.png.width && copied.height == outcome.png.height &&
      |copied.pixels| == copied.width * copied.height
  }

  /**
   * What the decoder guarantees after expand_buffer_8bit: samples of at
   * least eight bits, and, when they are exactly eight, an image the
   * overlay can walk.
   */
  predicate Expanded(png: PngInfo)
  {
    8 <= png.bitDepth && (png.bitDepth <= 8 ==> WellFormed(png))
  }

  /** The overlaying case walks the PNG only for a decoded image of the bitmap's size and at most eight bits. */
  predicate Overlays(outcome: DecodeOutcome, width: nat, height: nat)
  {
    outcome.Decoded? && outcome.png.width == width && outcome.png.height == height && outcome.png.bitDepth <= 8
  }

  /**
   * render_load_png. When not overlaying, the bitmap is reset first; a
   * successful copy then fills it with the decoded image, and the result
   * is the copy's own translucency flag. When overlaying, the
   * bitmap is left exactly as it was unless a decoded image of its size
   * and of eight-bit samples arrives; then its alpha channel is replaced
   * and the result says whether any alpha is below 0xff. Every failure
   * returns false.
   */
  method LoadPng(bitmap: Bitmap, outcome: DecodeOutcome, copied: CopyOutcome, asAlpha: bool,
                 brightness: (u8, u8, u8) -> u8) returns (hasAlpha: bool)
    requires bitmap.Valid()
    requires outcome.Decoded? ==> Expanded(outcome.png)
    requires CopyFits(outcome, copied)
    modifies bitmap, bitmap.pix
    ensures bitmap.Valid()
    ensures !asAlpha && !(outcome.Decoded? && copied.Copied?) ==> bitmap.IsEmpty() && !hasAlpha
    ensures !asAlpha && outcome.Decoded? && copied.Copied? ==>
      bitmap.width == outcome.png.width && bitmap.height == outcome.png.height &&
      bitmap.rowpixels == bitmap.width && bitmap.pix[..] == copied.pixels && hasAlpha == copied.hasAlpha
    ensures asAlpha ==> unchanged(bitmap) && bitmap.pix == old(bitmap.pix)
    ensures asAlpha && !Overlays(outcome, old(bitmap.width), old(bitmap.height)) ==>
      !hasAlpha && forall i :: 0 <= i < bitmap.pix.Length ==> bitmap.pix[i] == old(bitmap.pix[i])
    ensures asAlpha && Overlays(outcome, old(bitmap.width), old(bitmap.height)) ==>
      (forall i :: 0 <= i < bitmap.pix.Length ==>
        bitmap.pix[i] == Target(old(bitmap.pix[i]), i, bitmap.rowpixels, outcome.png, brightness)) &&
      (hasAlpha <==> exists X: nat, Y: nat {:trigger PixelAlpha(outcome.png, brightness, X, Y)} ::
        X < bitmap.width && Y < bitmap.height && PixelAlpha(outcome.png, brightness, X, Y) != 0xff)
  {
    if !asAlpha {
      bitmap.Reset();
    }
    if !outcome.Decoded? {
      return false;
    }
    var png := outcome.png;
    hasAlpha := false;
    if !asAlpha {
      if copied.CopyFailed? {
        return false;
      }
      bitmap.Allocate(copied.width, copied.height);
      CopyPixels(bitmap.pix, copied.pixels);
      hasAlpha := copied.hasAlpha;
    } else if png.width == bitmap.width && png.height == bitmap.height {
      if png.bitDepth > 8 {
        return false;
      }
      hasAlpha := CopyPngAlpha(bitmap, png, brightness);
    }
  }

  /** Storing the copied image into the bitmap's fresh storage, pixel by pixel. */
  method CopyPixels(pix: array<u32>, pixels: seq<u32>)
    requires pix.Length == |pixels|
    modifies pix
    ensures pix[..] == pixels
  {
    for i := 0 to |pixels|
      invariant pix[..i] == pixels[..i]
    {
      pix[i] := pixels[i];
    }
  }

  /** The formats render_detect_image can report. */
  datatype ImageFormat = Unknown | Png | Jpeg | MsDib

  /**
   * render_detect_image: the first probe that accepts the file decides,
   * in the order PNG signature, JPEG header, Microsoft DIB header.
   */
  function DetectImage(pngHeader: bool, jpegHeader: bool, dibHeader: bool): (r: ImageFormat)
    ensures r == Png <==> pngHeader
    ensures r == Jpeg <==> !pngHeader && jpegHeader
    ensures r == MsDib <==> !pngHeader && !jpegHeader && dibHeader
    ensures r == Unknown <==> !pngHeader && !jpegHeader && !dibHeader
  {
    if pngHeader then Png
    else if jpegHeader then Jpeg
    else if dibHeader then MsDib
    else Unknown
  }
}
