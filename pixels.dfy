/**
 * ARGB pixels and bitmaps as the renderer stores them: a pixel is a 32-bit
 * word holding alpha in bits 24..31, red in 16..23, green in 8..15 and blue
 * in 0..7; a bitmap is a row-strided buffer of such words. The unsigned
 * integer types of C that the other modules share live here too.
 */
module Pixels {

  type u8 = x: int | 0 <= x < 0x100
  type u16 = x: int | 0 <= x < 0x1_0000
  type u32 = x: int | 0 <= x < 0x1_0000_0000

  /** Reduces an integer to the 32-bit unsigned value C arithmetic gives it. */
  function Wrap32(v: int): (r: u32)
    ensures 0 <= v < 0x1_0000_0000 ==> r == v
    ensures 0 <= v ==> r <= v
    ensures (r - v) % 0x1_0000_0000 == 0
  {
    v % 0x1_0000_0000
  }

  function Alpha(p: u32): u8 { p / 0x100_0000 }
  function Red(p: u32): u8 { p / 0x1_0000 % 0x100 }
  function Green(p: u32): u8 { p / 0x100 % 0x100 }
  function Blue(p: u32): u8 { p % 0x100 }

  /**
   * The rgb_t(a, r, g, b) constructor: every argument is narrowed to its low
   * eight bits before the channels are packed.
   */
  function Pack(a: int, r: int, g: int, b: int): u32
  {
    ((a % 0x100 * 0x100 + r % 0x100) * 0x100 + g % 0x100) * 0x100 + b % 0x100
  }

  /** Each channel of a packed pixel is the low eight bits of the argument given for it. */
  lemma PackUnpack(a: int, r: int, g: int, b: int)
    ensures Alpha(Pack(a, r, g, b)) == a % 0x100 && Red(Pack(a, r, g, b)) == r % 0x100
    ensures Green(Pack(a, r, g, b)) == g % 0x100 && Blue(Pack(a, r, g, b)) == b % 0x100
  {
    var a8, r8, g8, b8 := a % 0x100, r % 0x100, g % 0x100, b % 0x100;
    var q16 := a8 * 0x100 + r8;
    var q8 := q16 * 0x100 + g8;
    var p := q8 * 0x100 + b8;
    assert p == Pack(a, r, g, b);
    DivModUnique(p, 0x100, q8, b8);
    DivModUnique(q8, 0x100, q16, g8);
    DivModUnique(q16, 0x100, a8, r8);
    DivDiv(p, 0x100, 0x100);
    DivDiv(p, 0x1_0000, 0x100);
  }

  /** Unpacking a pixel and packing its channels again gives the same word. */
  lemma PackChannels(p: u32)
    ensures Pack(Alpha(p), Red(p), Green(p), Blue(p)) == p
  {
    ChannelsDetermine(p);
  }

  /** A pixel is the base-256 number its four channels spell. */
  lemma ChannelsDetermine(p: u32)
    ensures p == ((Alpha(p) * 0x100 + Red(p)) * 0x100 + Green(p)) * 0x100 + Blue(p)
  {
    var q8, q16 := p / 0x100, p / 0x1_0000;
    DivSplit(p, 0x100);
    DivDiv(p, 0x100, 0x100);
    DivSplit(q8, 0x100);
    DivDiv(p, 0x1_0000, 0x100);
    DivSplit(q16, 0x100);
  }

  lemma DivSplit(n: nat, d: nat)
    requires d > 0
    ensures n == (n / d) * d + n % d
  {
  }

  lemma DivDiv(n: nat, d: nat, e: nat)
    requires d > 0 && e > 0
    ensures n / d / e == n / (d * e)
  {
    var q, r1 := n / d, n % d;
    var q2, r2 := q / e, q % e;
    DivSplit(n, d);
    DivSplit(q, e);
    var r := r2 * d + r1;
    assert n == q2 * (d * e) + r by {
      assert n == q * d + r1;
      assert q * d == (q2 * e + r2) * d;
      assert (q2 * e + r2) * d == q2 * (d * e) + r2 * d;
    }
    assert r < d * e by {
      MulMono(r2, e - 1, d);
      assert (e - 1) * d == d * e - d;
    }
    DivModUnique(n, d * e, q2, r);
  }

  lemma Distrib(a: int, b: int, m: int)
    ensures a * m + b * m == (a + b) * m
  {
  }

  lemma DistribLeft(m: int, a: int, b: int)
    ensures m * a + m * b == m * (a + b)
  {
  }

  lemma MulMonoLeft(m: nat, a: int, b: int)
    requires a <= b
    ensures m * a <= m * b
  {
    assert m * b == m * a + m * (b - a);
  }

  lemma MulNat(a: nat, b: nat)
    ensures a * b >= 0
  {
  }

  lemma MulSwap(a: int, b: int, v: int)
    ensures (a * b) * v == v * (b * a)
  {
  }

  lemma MulMono(a: nat, b: nat, c: nat)
    requires a <= b
    ensures a * c <= b * c
  {
    assert b * c == a * c + (b - a) * c;
  }

  lemma DivModUnique(n: int, d: int, q: int, r: int)
    requires d > 0 && 0 <= r < d && n == q * d + r
    ensures n / d == q && n % d == r
  {
    var q0, r0 := n / d, n % d;
    assert (q - q0) * d == r0 - r;
    if q > q0 {
      MulAtLeast(q - q0, d);
    } else if q < q0 {
      MulAtLeast(q0 - q, d);
    }
  }

  lemma MulAtLeast(k: int, d: int)
    requires k >= 1 && d > 0
    ensures k * d >= d
  {
    assert k * d == (k - 1) * d + d;
  }

  /** Position of pixel (y, x) in a buffer whose rows are rowpixels apart. */
  function Idx(rowpixels: nat, y: nat, x: nat): nat
  {
    y * rowpixels + x
  }

  /** Buffer index i lies inside the visible width x height area. */
  predicate InRegion(i: nat, rowpixels: nat, width: nat, height: nat)
  {
    rowpixels > 0 && i / rowpixels < height && i % rowpixels < width
  }

  /** A buffer of the given length can hold height rows of rowpixels >= width. */
  predicate Fits(length: nat, rowpixels: nat, width: nat, height: nat)
  {
    width <= rowpixels && height * rowpixels <= length
  }

  lemma IdxInBounds(rowpixels: nat, width: nat, height: nat, y: nat, x: nat)
    requires y < height && x < width <= rowpixels
    ensures Idx(rowpixels, y, x) < height * rowpixels
  {
    assert (y + 1) * rowpixels <= height * rowpixels by {
      assert y + 1 <= height;
    }
  }

  lemma IdxDivMod(rowpixels: nat, y: nat, x: nat)
    requires x < rowpixels
    ensures Idx(rowpixels, y, x) / rowpixels == y
    ensures Idx(rowpixels, y, x) % rowpixels == x
  {
    DivModUnique(Idx(rowpixels, y, x), rowpixels, y, x);
  }

  /** Writing pixel (y, x) of the region touches the region and no other pixel of it. */
  lemma IdxInRegion(rowpixels: nat, width: nat, height: nat, y: nat, x: nat)
    requires y < height && x < width <= rowpixels
    ensures InRegion(Idx(rowpixels, y, x), rowpixels, width, height)
  {
    IdxDivMod(rowpixels, y, x);
  }

  /** Every index of the region is the position of the pixel it names. */
  lemma RegionIdx(i: nat, rowpixels: nat, width: nat, height: nat)
    requires InRegion(i, rowpixels, width, height)
    ensures i == Idx(rowpixels, i / rowpixels, i % rowpixels)
  {
  }

  /**
   * Raster order over the region: index i names a pixel that comes before
   * pixel (y, x) when rows are walked top to bottom and each row left to right.
   */
  predicate Before(i: nat, rowpixels: nat, width: nat, height: nat, y: nat, x: nat)
  {
    InRegion(i, rowpixels, width, height) &&
    (i / rowpixels < y || (i / rowpixels == y && i % rowpixels < x))
  }

  lemma BeforeNext(rowpixels: nat, width: nat, height: nat, y: nat, x: nat)
    requires y < height && x < width <= rowpixels
    ensures Idx(rowpixels, y, x) < height * rowpixels
    ensures forall i: nat {:trigger Before(i, rowpixels, width, height, y, x + 1)} ::
      Before(i, rowpixels, width, height, y, x + 1) <==>
      Before(i, rowpixels, width, height, y, x) || i == Idx(rowpixels, y, x)
  {
    IdxInBounds(rowpixels, width, height, y, x);
    IdxDivMod(rowpixels, y, x);
  }

  lemma BeforeRow(rowpixels: nat, width: nat, height: nat, y: nat)
    ensures forall i: nat {:trigger Before(i, rowpixels, width, height, y + 1, 0)} ::
      Before(i, rowpixels, width, height, y, width) <==> Before(i, rowpixels, width, height, y + 1, 0)
  {
  }

  lemma BeforeEnd(rowpixels: nat, width: nat, height: nat)
    ensures forall i: nat {:trigger InRegion(i, rowpixels, width, height)} ::
      Before(i, rowpixels, width, height, height, 0) <==> InRegion(i, rowpixels, width, height)
  {
  }

  /**
   * Progress of a kernel that walks the region in raster order and stores
   * want[i] into each pixel i: the pixels before (y, x) hold their new value,
   * every other index still holds its original one.
   */
  ghost predicate Written(cur: seq<u32>, orig: seq<u32>, want: seq<u32>,
                          rowpixels: nat, width: nat, height: nat, y: nat, x: nat)
  {
    |cur| == |orig| == |want| &&
    forall i :: 0 <= i < |cur| ==>
      cur[i] == if Before(i, rowpixels, width, height, y, x) then want[i] else orig[i]
  }

  lemma WrittenStart(orig: seq<u32>, want: seq<u32>, rowpixels: nat, width: nat, height: nat)
    requires |orig| == |want|
    ensures Written(orig, orig, want, rowpixels, width, height, 0, 0)
  {
  }

  /** Storing want at pixel (y, x), which still holds its original value, advances the walk by one. */
  lemma WrittenNext(cur: seq<u32>, orig: seq<u32>, want: seq<u32>,
                    rowpixels: nat, width: nat, height: nat, y: nat, x: nat)
    requires Written(cur, orig, want, rowpixels, width, height, y, x)
    requires height * rowpixels <= |cur|
    requires y < height && x < width <= rowpixels
    ensures Idx(rowpixels, y, x) < |cur|
    ensures Idx(rowpixels, y, x) / rowpixels == y && Idx(rowpixels, y, x) % rowpixels == x
    ensures cur[Idx(rowpixels, y, x)] == orig[Idx(rowpixels, y, x)]
    ensures Written(cur[Idx(rowpixels, y, x) := want[Idx(rowpixels, y, x)]], orig, want,
                    rowpixels, width, height, y, x + 1)
  {
    BeforeNext(rowpixels, width, height, y, x);
    IdxDivMod(rowpixels, y, x);
  }

  lemma WrittenRow(cur: seq<u32>, orig: seq<u32>, want: seq<u32>,
                   rowpixels: nat, width: nat, height: nat, y: nat)
    requires Written(cur, orig, want, rowpixels, width, height, y, width)
    ensures Written(cur, orig, want, rowpixels, width, height, y + 1, 0)
  {
    BeforeRow(rowpixels, width, height, y);
  }

  /** At the end of the walk every pixel of the region holds want and every other index is untouched. */
  lemma WrittenEnd(cur: seq<u32>, orig: seq<u32>, want: seq<u32>,
                   rowpixels: nat, width: nat, height: nat)
    requires Written(cur, orig, want, rowpixels, width, height, height, 0)
    ensures forall i :: 0 <= i < |cur| ==>
      cur[i] == if InRegion(i, rowpixels, width, height) then want[i] else orig[i]
  {
    BeforeEnd(rowpixels, width, height);
  }

  /**
   * A bitmap_argb32: width x height visible pixels, each row rowpixels words
   * apart in pix. Reset leaves it empty; allocation gives it new storage.
   */
  class Bitmap {
    var width: nat
    var height: nat
    var rowpixels: nat
    var pix: array<u32>

    ghost predicate Valid()
      reads this
    {
      width <= rowpixels && pix.Length == height * rowpixels
    }

    predicate IsEmpty()
      reads this
    {
      width == 0 && height == 0
    }

    constructor Empty()
      ensures Valid() && IsEmpty()
    {
      width, height, rowpixels := 0, 0, 0;
      pix := new u32[0];
    }

    /** bitmap.reset(): release the pixels and become a 0 x 0 bitmap. */
    method Reset()
      modifies this
      ensures Valid() && IsEmpty() && rowpixels == 0 && pix.Length == 0
    {
      width, height, rowpixels := 0, 0, 0;
      pix := new u32[0];
    }

    /** bitmap.allocate(w, h): new zeroed storage of exactly w x h pixels. */
    method Allocate(w: nat, h: nat)
      modifies this
      ensures Valid() && width == w && height == h && rowpixels == w
      ensures fresh(pix) && forall i :: 0 <= i < pix.Length ==> pix[i] == 0
    {
      width, height, rowpixels := w, h, w;
      pix := new u32[w * h](_ => 0);
    }
  }
}
