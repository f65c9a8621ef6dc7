/**
 * Rectangles with `android.graphics.Rect` semantics, and the mapping from a
 * rectangle of the rotated (logical) image to the rectangle of the stored
 * (physical) image that BitmapRegionLoader performs before every decode.
 */
module Geometry {
  import opened JavaInt

  /** `android.graphics.Rect`: `width()` and `height()` are Java `int` subtractions. */
  datatype Rect = Rect(left: Int32, top: Int32, right: Int32, bottom: Int32) {
    function Width(): Int32 { Sub(right, left) }
    function Height(): Int32 { Sub(bottom, top) }
    predicate IsEmpty() { left >= right || top >= bottom }
  }

  /** A quarter turn that exchanges the image's width and height. */
  predicate SwapsAxes(rotation: int) { rotation == 90 || rotation == 270 }

  /** The rotations the loader maps specially; any other value is treated as no rotation. */
  predicate IsQuadrant(rotation: int) { rotation == 0 || rotation == 90 || rotation == 180 || rotation == 270 }

  /** Width of the logical image (`getWidth`), from the stored width `w` and height `h`. */
  function LogicalWidth(rotation: int, w: Int32, h: Int32): (lw: Int32)
    ensures SwapsAxes(rotation) ==> lw == h
    ensures !SwapsAxes(rotation) ==> lw == w
  {
    if SwapsAxes(rotation) then h else w
  }

  /** Height of the logical image (`getHeight`). */
  function LogicalHeight(rotation: int, w: Int32, h: Int32): (lh: Int32)
    ensures SwapsAxes(rotation) ==> lh == w
    ensures !SwapsAxes(rotation) ==> lh == h
  {
    if SwapsAxes(rotation) then w else h
  }

  /**
   * The stored-image rectangle for a logical rectangle `r`, where `w` and `h`
   * are the stored image's dimensions (`mOriginalWidth`, `mOriginalHeight`).
   * Subtractions are Java `int` subtractions.
   */
  function ToPhysical(r: Rect, rotation: Int32, w: Int32, h: Int32): (p: Rect)
    ensures !(rotation == 90 || rotation == 180 || rotation == 270) ==> p == r
  {
    match rotation
    case 90 => Rect(r.top, Sub(h, r.right), r.bottom, Sub(h, r.left))
    case 180 => Rect(Sub(w, r.right), Sub(h, r.bottom), Sub(w, r.left), Sub(h, r.top))
    case 270 => Rect(Sub(w, r.bottom), r.left, Sub(w, r.top), r.right)
    case _ => r
  }

  /** The logical rotation that undoes `rotation`: `(360 - rotation) mod 360`. */
  function Inverse(rotation: Int32): (inv: Int32)
    requires IsQuadrant(rotation)
    ensures IsQuadrant(inv) && (inv + rotation) % 360 == 0
  {
    (360 - rotation) % 360
  }

  /**
   * The mapped rectangle has the logical rectangle's shape, transposed for a
   * quarter turn: this holds for every `int` rectangle, since both sides are
   * Java `int` differences that wrap alike.
   */
  lemma {:induction false} ShapeFollowsRotation(r: Rect, rotation: Int32, w: Int32, h: Int32)
    ensures var p := ToPhysical(r, rotation, w, h);
      if SwapsAxes(rotation) then p.Width() == r.Height() && p.Height() == r.Width()
      else p.Width() == r.Width() && p.Height() == r.Height()
  {
    if rotation == 90 {
      SubOfDifferences(h, r.left, r.right);
    } else if rotation == 270 {
      SubOfDifferences(w, r.top, r.bottom);
    } else if rotation == 180 {
      SubOfDifferences(w, r.left, r.right);
      SubOfDifferences(h, r.top, r.bottom);
    }
  }

  /**
   * Mapping the logical rectangle to the stored image and mapping the result
   * back with the inverse rotation, on the image whose stored dimensions are
   * the logical ones, gives back the logical rectangle.
   */
  lemma {:induction false} RoundTrip(r: Rect, rotation: Int32, w: Int32, h: Int32)
    requires IsQuadrant(rotation)
    ensures ToPhysical(ToPhysical(r, rotation, w, h), Inverse(rotation),
                       LogicalWidth(rotation, w, h), LogicalHeight(rotation, w, h)) == r
  {
    if rotation == 90 {
      SubSubCancels(h, r.left);
      SubSubCancels(h, r.right);
    } else if rotation == 180 {
      SubSubCancels(w, r.left);
      SubSubCancels(w, r.right);
      SubSubCancels(h, r.top);
      SubSubCancels(h, r.bottom);
    } else if rotation == 270 {
      SubSubCancels(w, r.top);
      SubSubCancels(w, r.bottom);
    }
  }

  /** Every coordinate of `r` lies in `[0, w] x [0, h]`. */
  predicate Within(r: Rect, w: int, h: int) {
    0 <= r.left <= w && 0 <= r.right <= w && 0 <= r.top <= h && 0 <= r.bottom <= h
  }

  /**
   * A request inside the logical frame maps to a rectangle inside the stored
   * frame, for every rotation, and is empty exactly when the request is.
   */
  lemma BoundsPreserved(r: Rect, rotation: Int32, w: Int32, h: Int32)
    requires 0 <= w && 0 <= h
    requires Within(r, LogicalWidth(rotation, w, h), LogicalHeight(rotation, w, h))
    ensures var p := ToPhysical(r, rotation, w, h);
      Within(p, w, h) && (p.IsEmpty() <==> r.IsEmpty())
  {
  }

  /**
   * The logical dimensions are the ones whose full frame maps onto the full
   * stored frame, whatever the rotation.
   */
  lemma FullFrameMapsToStoredFrame(rotation: Int32, w: Int32, h: Int32)
    ensures ToPhysical(Rect(0, 0, LogicalWidth(rotation, w, h), LogicalHeight(rotation, w, h)), rotation, w, h)
            == Rect(0, 0, w, h)
  {
  }
}
