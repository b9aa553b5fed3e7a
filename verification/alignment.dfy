/**
 Vertical placement of the laid-out text inside the frame. The document is
 translated down by an offset computed in integer arithmetic from the frame
 height and the document height; the offset is never clamped.
 */
module Alignment {

  /** The values of the vertical-alignment combo, in its order. */
  const AlignTop: int := 0
  const AlignCenter: int := 1
  const AlignBottom: int := 2

  /** Integer division as C++ does it: the quotient is truncated toward zero. */
  function TruncDiv(a: int, b: int): (q: int)
    requires 0 < b
    ensures 0 <= a ==> 0 <= a - b * q < b
    ensures a < 0 ==> -b < a - b * q <= 0
  {
    if 0 <= a then a / b else -((-a) / b)
  }

  /**
   The offset of the document's top edge below the frame's top edge.
   Top leaves the document where it is; Center halves frame and document
   height separately (each truncated) and subtracts; every other value is
   handled as Bottom.
   */
  function VerticalOffset(valign: int, frameHeight: int, docHeight: int): (offset: int)
    // Top: no gap above the document
    ensures valign == AlignTop ==> offset == 0
    // Center: the gaps above and below the document differ by at most one unit
    ensures valign == AlignCenter && 0 <= frameHeight && 0 <= docHeight ==>
      -1 <= (frameHeight - (offset + docHeight)) - offset <= 1
    // anything else: the document's bottom edge is the frame's bottom edge
    ensures valign != AlignTop && valign != AlignCenter ==> offset + docHeight == frameHeight
  {
    if valign == AlignTop then 0
    else if valign == AlignCenter then TruncDiv(frameHeight, 2) - TruncDiv(docHeight, 2)
    else frameHeight - docHeight
  }

  /** The centred offset is within half a unit of the exact midpoint placement. */
  lemma CenterNearMidpoint(frameHeight: int, docHeight: int)
    requires 0 <= frameHeight && 0 <= docHeight
    ensures var offset := VerticalOffset(AlignCenter, frameHeight, docHeight);
      -0.5 <= offset as real - (frameHeight - docHeight) as real / 2.0 <= 0.5
  {
    var offset := VerticalOffset(AlignCenter, frameHeight, docHeight);
    assert -1 <= (frameHeight - docHeight) - 2 * offset <= 1;
  }

  /** Halving with truncation, and what it leaves over, never decrease as the dividend grows. */
  lemma HalfMonotone(x: int, y: int)
    requires x <= y
    ensures TruncDiv(x, 2) <= TruncDiv(y, 2)
    ensures x - TruncDiv(x, 2) <= y - TruncDiv(y, 2)
  {
    var qx, qy := TruncDiv(x, 2), TruncDiv(y, 2);
    assert 2 * qx - 1 <= x && y <= 2 * qy + 1;
  }

  /**
   When the document fits, Top, Center and Bottom move it monotonically
   down the frame; when it does not fit, monotonically up.
   */
  lemma OffsetOrdering(frameHeight: int, docHeight: int)
    ensures var top := VerticalOffset(AlignTop, frameHeight, docHeight);
      var center := VerticalOffset(AlignCenter, frameHeight, docHeight);
      var bottom := VerticalOffset(AlignBottom, frameHeight, docHeight);
      && (docHeight <= frameHeight ==> top <= center <= bottom)
      && (frameHeight <= docHeight ==> bottom <= center <= top)
  {
    if docHeight <= frameHeight {
      HalfMonotone(docHeight, frameHeight);
    } else {
      HalfMonotone(frameHeight, docHeight);
    }
  }

  /**
   The offset is not clamped: a document taller than the frame is pushed up
   past the top edge by Bottom, and by Center once it is at least two units
   taller (one unit taller can truncate to a zero offset).
   */
  lemma TallDocumentOffsetNegative(frameHeight: int, docHeight: int)
    requires 0 <= frameHeight < docHeight
    ensures VerticalOffset(AlignBottom, frameHeight, docHeight) < 0
    ensures VerticalOffset(AlignCenter, frameHeight, docHeight) <= 0
    ensures frameHeight + 2 <= docHeight ==> VerticalOffset(AlignCenter, frameHeight, docHeight) < 0
  {
    HalfMonotone(frameHeight, docHeight);
    if frameHeight + 2 <= docHeight {
      HalfMonotone(frameHeight + 2, docHeight);
      assert TruncDiv(frameHeight + 2, 2) == TruncDiv(frameHeight, 2) + 1;
    }
  }

  /** A frame two units tall and a document three units tall: the centred offset is zero. */
  lemma CenterOneUnitTallerIsZero()
    ensures VerticalOffset(AlignCenter, 2, 3) == 0
  {
  }
}
