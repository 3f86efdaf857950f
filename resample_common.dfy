/**
 * What the three resampling kernels share: the premultiplied tint factors
 * and the final step that scales the sampled channels, adds the destination
 * contribution when the tint is translucent, and packs the result.
 */
module ResampleCommon {
  import opened Pixels

  datatype Channel = AlphaChannel | RedChannel | GreenChannel | BlueChannel

  function Chan(p: u32, c: Channel): u8
  {
    match c
    case AlphaChannel => Alpha(p)
    case RedChannel => Red(p)
    case GreenChannel => Green(p)
    case BlueChannel => Blue(p)
  }

  /**
   * The integer tint factors the kernels precompute from the render colour:
   * r = color.r * color.a * 256, g and b likewise, a = color.a * 256.
   */
  datatype Tint = Tint(r: int, g: int, b: int, a: int)

  /** Colour components lie in [0, 1], so every factor lies in [0, 256]. */
  predicate ValidTint(t: Tint)
  {
    0 <= t.r <= 256 && 0 <= t.g <= 256 && 0 <= t.b <= 256 && 0 <= t.a <= 256
  }

  /** The factors of the colour (1, 1, 1, 1). */
  const Opaque := Tint(256, 256, 256, 256)

  /**
   * Scaling and store of one destination pixel from the normalised source
   * channels sa, sr, sg, sb: each is multiplied by its factor over 256; when
   * the alpha factor is below 256 the destination channel times (256 - a) is
   * added, and the four sums are narrowed to eight bits by rgb_t.
   */
  function Blend(sa: nat, sr: nat, sg: nat, sb: nat, t: Tint, dpix: u32): u32
    requires ValidTint(t)
  {
    var a, r, g, b := sa * t.a / 256, sr * t.r / 256, sg * t.g / 256, sb * t.b / 256;
    if t.a < 256 then
      Pack(a + Alpha(dpix) * (256 - t.a), r + Red(dpix) * (256 - t.a),
           g + Green(dpix) * (256 - t.a), b + Blue(dpix) * (256 - t.a))
    else
      Pack(a, r, g, b)
  }

  /** With the opaque tint the destination is never read and the sample is stored unchanged. */
  lemma BlendOpaque(p: u32, dpix: u32)
    ensures Blend(Alpha(p), Red(p), Green(p), Blue(p), Opaque, dpix) == p
  {
    FullScale(Alpha(p));
    FullScale(Red(p));
    FullScale(Green(p));
    FullScale(Blue(p));
    PackChannels(p);
  }

  lemma FullScale(v: nat)
    ensures v * 256 / 256 == v
  {
    DivModUnique(v * 256, 256, v, 0);
  }

  /**
   * The translucent branch adds dpix * (256 - a) without dividing by 256, so
   * a zero-alpha tint does not leave the destination alone: an opaque white
   * destination pixel becomes 0.
   */
  lemma BlendZeroAlphaClearsWhite(sa: nat, sr: nat, sg: nat, sb: nat)
    requires sa < 256 && sr < 256 && sg < 256 && sb < 256
    ensures Blend(sa, sr, sg, sb, Tint(0, 0, 0, 0), 0xffff_ffff) == 0
  {
  }
}
