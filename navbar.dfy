/** The navbar's `scrolled` state (`initNavbarScroll`). */
module Navbar {
  import opened Dom

  /** Vertical scroll, in pixels, beyond which the navbar counts as scrolled. */
  const ScrolledThreshold: int := 50

  /**
   * The navbar's class list after one scroll event at `scrollY`: the
   * `scrolled` class is present exactly when the page is scrolled strictly
   * past the threshold, and no other class is touched.
   */
  function NavClasses(classes: set<string>, scrollY: int): (r: set<string>)
    ensures "scrolled" in r <==> scrollY > ScrolledThreshold
    ensures r - {"scrolled"} == classes - {"scrolled"}
  {
    if scrollY > ScrolledThreshold then classes + {"scrolled"} else classes - {"scrolled"}
  }

  /** The scroll listener: add or remove `scrolled` on the navbar. */
  method OnScroll(navbar: Element, scrollY: int)
    modifies navbar`classes
    ensures navbar.classes == NavClasses(old(navbar.classes), scrollY)
  {
    if scrollY > ScrolledThreshold {
      navbar.classes := navbar.classes + {"scrolled"};
    } else {
      navbar.classes := navbar.classes - {"scrolled"};
    }
  }

  /** The threshold is strict: 50 leaves the navbar plain, 51 marks it. */
  lemma ThresholdIsStrict(classes: set<string>)
    ensures "scrolled" !in NavClasses(classes, 50)
    ensures "scrolled" in NavClasses(classes, 51)
    ensures "scrolled" !in NavClasses(classes, 49)
  {
  }

  /**
   * The listener keeps no state of its own: whatever happened before, the
   * class list after a scroll event depends only on the last position.
   */
  lemma OnlyLastScrollMatters(classes: set<string>, earlier: int, later: int)
    ensures NavClasses(NavClasses(classes, earlier), later) == NavClasses(classes, later)
  {
  }
}
