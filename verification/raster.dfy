/**
 The 8-bit greyscale image the text is rasterised into. The rasteriser
 itself is not modelled: its net effect is a sequence of strokes, each
 leaving a coverage byte at one pixel, clipped to the image.
 */
module Raster {

  type Byte = b: int | 0 <= b < 256

  /** Scanlines of an 8-bit image are padded to a whole number of 32-bit words. */
  function BytesPerLine(width: nat): (bpl: nat)
    ensures width <= bpl < width + 4
    ensures bpl % 4 == 0
  {
    (width + 3) / 4 * 4
  }

  /** A greyscale image: `height` scanlines of `bytesPerLine` bytes, of which the first `width` are pixels. */
  datatype Mask = Mask(width: nat, height: nat, bytesPerLine: nat, bits: seq<Byte>)

  predicate Valid(m: Mask) {
    m.width <= m.bytesPerLine && |m.bits| == m.bytesPerLine * m.height
  }

  predicate InImage(m: Mask, x: int, y: int) {
    0 <= x < m.width && 0 <= y < m.height
  }

  /** Reading pixel (x, y) at `bytesPerLine * y + x` stays inside the image data. */
  lemma PixelIndexInBounds(bytesPerLine: nat, height: nat, x: int, y: int)
    requires 0 <= x < bytesPerLine && 0 <= y < height
    ensures 0 <= bytesPerLine * y + x < bytesPerLine * height
  {
    assert bytesPerLine * (y + 1) <= bytesPerLine * height;
  }

  /** Distinct pixels of one image occupy distinct bytes. */
  lemma PixelIndexInjective(bytesPerLine: nat, x1: int, y1: int, x2: int, y2: int)
    requires 0 <= x1 < bytesPerLine && 0 <= x2 < bytesPerLine
    requires 0 <= y1 && 0 <= y2
    requires bytesPerLine * y1 + x1 == bytesPerLine * y2 + x2
    ensures x1 == x2 && y1 == y2
  {
    RowGap(bytesPerLine, y1, y2);
    RowGap(bytesPerLine, y2, y1);
  }

  /** A later row starts at least one whole scanline further on. */
  lemma RowGap(bytesPerLine: nat, a: int, b: int)
    ensures a < b ==> bytesPerLine * a + bytesPerLine <= bytesPerLine * b
  {
    if a < b {
      var d := b - a;
      assert bytesPerLine * b == bytesPerLine * a + bytesPerLine * d;
      assert bytesPerLine * d >= bytesPerLine * 1;
    }
  }

  /** Position of pixel (x, y) in the image data. */
  function Index(m: Mask, x: int, y: int): (k: nat)
    requires Valid(m) && InImage(m, x, y)
    ensures k < |m.bits|
  {
    PixelIndexInBounds(m.bytesPerLine, m.height, x, y);
    m.bytesPerLine * y + x
  }

  /** A freshly allocated greyscale image filled with zero. */
  function ZeroMask(width: nat, height: nat): (m: Mask)
    ensures Valid(m)
    ensures m.width == width && m.height == height
    ensures forall x, y :: InImage(m, x, y) ==> m.bits[Index(m, x, y)] == 0
  {
    var bpl := BytesPerLine(width);
    Mask(width, height, bpl, seq(bpl * height, _ => 0))
  }

  /** One unit of rasteriser output: a coverage byte left at pixel (x, y). */
  datatype Stroke = Stroke(x: int, y: int, coverage: Byte)

  /** Applies a stroke; a stroke outside the image is clipped away. */
  function PaintStroke(m: Mask, s: Stroke): (r: Mask)
    requires Valid(m)
    ensures Valid(r)
    ensures r.width == m.width && r.height == m.height && r.bytesPerLine == m.bytesPerLine
    // the stroke's pixel takes its coverage and no other pixel changes
    ensures forall x, y :: InImage(m, x, y) ==>
      r.bits[Index(m, x, y)] == if x == s.x && y == s.y then s.coverage else m.bits[Index(m, x, y)]
  {
    if InImage(m, s.x, s.y) then
      StrokeHitsOnlyItsPixel(m, s);
      m.(bits := m.bits[Index(m, s.x, s.y) := s.coverage])
    else
      m
  }

  lemma StrokeHitsOnlyItsPixel(m: Mask, s: Stroke)
    requires Valid(m) && InImage(m, s.x, s.y)
    ensures forall x, y :: InImage(m, x, y) && Index(m, x, y) == Index(m, s.x, s.y) ==> x == s.x && y == s.y
  {
    forall x, y | InImage(m, x, y) && Index(m, x, y) == Index(m, s.x, s.y)
      ensures x == s.x && y == s.y
    {
      PixelIndexInjective(m.bytesPerLine, x, y, s.x, s.y);
    }
  }

  /** What a pixel ends up holding: the coverage of the last stroke at it, otherwise `background`. */
  function LastCoverage(strokes: seq<Stroke>, x: int, y: int, background: Byte): Byte {
    if |strokes| == 0 then background
    else
      var s := strokes[|strokes| - 1];
      if s.x == x && s.y == y then s.coverage else LastCoverage(strokes[..|strokes| - 1], x, y, background)
  }

  /**
   Applies the strokes in order. Each pixel is left with the coverage of the
   last stroke that hit it, or what it held before if none did.
   */
  function Paint(m: Mask, strokes: seq<Stroke>): (r: Mask)
    requires Valid(m)
    ensures Valid(r)
    ensures r.width == m.width && r.height == m.height && r.bytesPerLine == m.bytesPerLine
    ensures forall x, y :: InImage(m, x, y) ==>
      r.bits[Index(m, x, y)] == LastCoverage(strokes, x, y, m.bits[Index(m, x, y)])
  {
    if |strokes| == 0 then m
    else
      var before := Paint(m, strokes[..|strokes| - 1]);
      var r := PaintStroke(before, strokes[|strokes| - 1]);
      assert forall x, y :: InImage(m, x, y) ==> Index(before, x, y) == Index(m, x, y);
      r
  }

  /** A pixel no stroke reaches keeps the zero it was filled with. */
  lemma UntouchedPixelStaysZero(width: nat, height: nat, strokes: seq<Stroke>, x: int, y: int)
    requires 0 <= x < width && 0 <= y < height
    requires forall k :: 0 <= k < |strokes| ==> !(strokes[k].x == x && strokes[k].y == y)
    ensures var m := ZeroMask(width, height); Paint(m, strokes).bits[Index(m, x, y)] == 0
  {
    UntouchedCoverageIsBackground(strokes, x, y, 0);
  }

  lemma {:induction false} UntouchedCoverageIsBackground(strokes: seq<Stroke>, x: int, y: int, background: Byte)
    requires forall k :: 0 <= k < |strokes| ==> !(strokes[k].x == x && strokes[k].y == y)
    ensures LastCoverage(strokes, x, y, background) == background
  {
    if |strokes| > 0 {
      UntouchedCoverageIsBackground(strokes[..|strokes| - 1], x, y, background);
    }
  }
}
