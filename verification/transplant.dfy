/**
 Moving the rasterised greyscale mask into the float frame: every pixel
 becomes the text colour premultiplied by the mask byte read as alpha.
 */
module Transplant {
  import opened Variants
  import opened Raster

  /** A mask byte read as alpha in [0, 1]. */
  function Alpha(m: Byte): real {
    m as real / 255.0
  }

  /** The pixel written for mask byte `m`: colour channels scaled by its alpha; the colour's own alpha is not used. */
  function Premultiply(rgb: Color, m: Byte): (p: Color)
    ensures p.a == Alpha(m)
    ensures p.r == rgb.r * p.a && p.g == rgb.g * p.a && p.b == rgb.b * p.a
  {
    var a := Alpha(m);
    Color(rgb.r * a, rgb.g * a, rgb.b * a, a)
  }

  /** Recovers the straight colour of a premultiplied pixel with non-zero alpha. */
  function Unpremultiply(p: Color): Color
    requires p.a != 0.0
  {
    Color(p.r / p.a, p.g / p.a, p.b / p.a, p.a)
  }

  /**
   The written alpha is the mask byte normalised: it lies in [0, 1], scaling
   it back by 255 gives the byte, a zero byte writes a fully transparent
   pixel and a full byte writes the colour opaque.
   */
  lemma PremultiplyAlpha(rgb: Color, m: Byte)
    ensures var p := Premultiply(rgb, m);
      && 0.0 <= p.a <= 1.0
      && p.a * 255.0 == m as real
      && (m == 0 ==> p == TransparentBlack)
      && (m == 255 ==> p == Color(rgb.r, rgb.g, rgb.b, 1.0))
  {
  }

  /** Unpremultiplying a pixel with coverage gives back the text colour, with the mask's alpha. */
  lemma PremultiplyRoundTrip(rgb: Color, m: Byte)
    requires 0 < m
    ensures Premultiply(rgb, m).a != 0.0
    ensures Unpremultiply(Premultiply(rgb, m)) == rgb.(a := Alpha(m))
  {
    var a := Alpha(m);
    assert a != 0.0;
    assert rgb.r * a / a == rgb.r;
    assert rgb.g * a / a == rgb.g;
    assert rgb.b * a / a == rgb.b;
  }

  /** For a colour with channels in [0, 1], no premultiplied channel exceeds the alpha written beside it. */
  lemma PremultipliedChannelsWithinAlpha(rgb: Color, m: Byte)
    requires 0.0 <= rgb.r <= 1.0 && 0.0 <= rgb.g <= 1.0 && 0.0 <= rgb.b <= 1.0
    ensures var p := Premultiply(rgb, m);
      && 0.0 <= p.r <= p.a
      && 0.0 <= p.g <= p.a
      && 0.0 <= p.b <= p.a
  {
    var a := Alpha(m);
    AlphaInUnit(m);
    ScaledChannelsWithin(rgb, a);
    assert Premultiply(rgb, m) == Color(rgb.r * a, rgb.g * a, rgb.b * a, a);
  }

  lemma AlphaInUnit(m: Byte)
    ensures 0.0 <= Alpha(m) <= 1.0
  {
  }

  lemma ScaledChannelsWithin(rgb: Color, a: real)
    requires 0.0 <= rgb.r <= 1.0 && 0.0 <= rgb.g <= 1.0 && 0.0 <= rgb.b <= 1.0
    requires 0.0 <= a
    ensures 0.0 <= rgb.r * a <= a && 0.0 <= rgb.g * a <= a && 0.0 <= rgb.b * a <= a
  {
    ScaleWithin(rgb.r, a);
    ScaleWithin(rgb.g, a);
    ScaleWithin(rgb.b, a);
  }

  lemma ScaleWithin(c: real, a: real)
    requires 0.0 <= c <= 1.0 && 0.0 <= a
    ensures 0.0 <= c * a <= a
  {
    assert c * a <= 1.0 * a;
  }

  /** `rows` is `height` rows of `width` elements each. */
  predicate Shaped<T>(rows: seq<seq<T>>, width: nat, height: nat) {
    |rows| == height && forall y :: 0 <= y < height ==> |rows[y]| == width
  }

  /** The pixel the transplant owes position (x, y). */
  function Expected(mask: Mask, rgb: Color, x: int, y: int): Color
    requires Valid(mask) && InImage(mask, x, y)
  {
    Premultiply(rgb, mask.bits[Index(mask, x, y)])
  }

  /**
   Walks the frame column by column and, within a column, row by row, reading
   the mask byte at `bytesPerLine * y + x` and writing the premultiplied
   colour. `writes` counts the writes each pixel receives.
   */
  method TransplantAlpha(pixels: seq<seq<Color>>, mask: Mask, rgb: Color)
      returns (out: seq<seq<Color>>, ghost writes: seq<seq<nat>>)
    requires Valid(mask)
    requires Shaped(pixels, mask.width, mask.height)
    ensures Shaped(out, mask.width, mask.height)
    ensures forall x, y :: InImage(mask, x, y) ==> out[y][x] == Expected(mask, rgb, x, y)
    // every pixel is written exactly once
    ensures Shaped(writes, mask.width, mask.height)
    ensures forall x, y :: InImage(mask, x, y) ==> writes[y][x] == 1
  {
    var width, height := mask.width, mask.height;
    out := pixels;
    writes := seq(height, _ => seq(width, _ => 0));
    var x := 0;
    while x < width
      invariant 0 <= x <= width
      invariant Shaped(out, width, height) && Shaped(writes, width, height)
      invariant forall xx, yy :: InImage(mask, xx, yy) ==>
        out[yy][xx] == (if xx < x then Expected(mask, rgb, xx, yy) else pixels[yy][xx])
      invariant forall xx, yy :: InImage(mask, xx, yy) ==>
        writes[yy][xx] == (if xx < x then 1 else 0)
    {
      var y := 0;
      while y < height
        invariant 0 <= y <= height
        invariant Shaped(out, width, height) && Shaped(writes, width, height)
        invariant forall xx, yy :: InImage(mask, xx, yy) ==>
          out[yy][xx] == (if xx < x || (xx == x && yy < y) then Expected(mask, rgb, xx, yy) else pixels[yy][xx])
        invariant forall xx, yy :: InImage(mask, xx, yy) ==>
          writes[yy][xx] == (if xx < x || (xx == x && yy < y) then 1 else 0)
      {
        PixelIndexInBounds(mask.bytesPerLine, height, x, y);
        var srcAlpha := mask.bits[mask.bytesPerLine * y + x];
        out := out[y := out[y][x := Premultiply(rgb, srcAlpha)]];
        writes := writes[y := writes[y][x := writes[y][x] + 1]];
        y := y + 1;
      }
      x := x + 1;
    }
  }
}
