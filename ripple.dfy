/**
 * Ripple geometry for clicks on skill badges (`initSkillBadges`) and on
 * primary buttons (`initButtonRipples`); both handlers compute it the same
 * way from the clicked element's bounding rectangle and the click point.
 */
module Ripple {

  function Max(a: real, b: real): real
  {
    if a >= b then a else b
  }

  /** A bounding client rectangle, in viewport coordinates. */
  datatype Rect = Rect(left: real, top: real, width: real, height: real)

  /** The ripple square: its side, and its offset inside the clicked element. */
  datatype Box = Box(size: real, x: real, y: real)

  /**
   * The ripple is a square as large as the element's larger side, centred
   * on the click point.
   */
  function RippleFor(rect: Rect, clientX: real, clientY: real): (r: Box)
    ensures r.size >= rect.width && r.size >= rect.height
    ensures r.size == rect.width || r.size == rect.height
    ensures rect.left + r.x + r.size / 2.0 == clientX
    ensures rect.top + r.y + r.size / 2.0 == clientY
  {
    var size := Max(rect.width, rect.height);
    Box(size, clientX - rect.left - size / 2.0, clientY - rect.top - size / 2.0)
  }

  /** Only the click's position relative to the element matters: moving both together moves nothing. */
  lemma RippleIgnoresPagePosition(rect: Rect, clientX: real, clientY: real, dx: real, dy: real)
    ensures RippleFor(Rect(rect.left + dx, rect.top + dy, rect.width, rect.height), clientX + dx, clientY + dy)
      == RippleFor(rect, clientX, clientY)
  {
  }

  /** A click inside the element puts the ripple's centre inside the element. */
  lemma RippleCentreInside(rect: Rect, clientX: real, clientY: real)
    requires rect.left <= clientX <= rect.left + rect.width
    requires rect.top <= clientY <= rect.top + rect.height
    ensures var r := RippleFor(rect, clientX, clientY);
      0.0 <= r.x + r.size / 2.0 <= rect.width && 0.0 <= r.y + r.size / 2.0 <= rect.height
  {
  }
}
