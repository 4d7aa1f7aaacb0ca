/** Clicks on in-page anchors (`initSmoothScroll`). */
module SmoothScroll {
  import opened Wrappers
  import opened Dom

  /** Height of the fixed navbar that the scroll target leaves room for. */
  const NavbarHeight: int := 80

  /** What one click handler run does: whether it cancels navigation, and where it scrolls. */
  datatype ClickOutcome = ClickOutcome(preventDefault: bool, scrollTop: Option<int>)

  /** Index of the first element in document order whose id is `id`, as `querySelector('#id')` finds it. */
  function FindById(document: seq<Placed>, id: string): (r: Option<nat>)
    ensures r.Some? ==> r.value < |document| && document[r.value].id == id
    ensures r.Some? ==> forall j :: 0 <= j < r.value ==> document[j].id != id
    ensures r.None? <==> forall j :: 0 <= j < |document| ==> document[j].id != id
  {
    if |document| == 0 then None
    else if document[0].id == id then Some(0)
    else match FindById(document[1..], id)
      case None => None
      case Some(k) => Some(k + 1)
  }

  /**
   * The click handler of an anchor whose `href` starts with `#` (only such
   * anchors get the handler). A bare `#` scrolls to the top; otherwise the
   * first element with the named id is scrolled to, 80 pixels above its
   * top; with no such element the click is left alone.
   */
  function OnAnchorClick(document: seq<Placed>, href: string): (r: ClickOutcome)
    requires |href| >= 1 && href[0] == '#'
    ensures r.preventDefault <==> r.scrollTop.Some?
    ensures href == "#" ==> r == ClickOutcome(true, Some(0))
    ensures href != "#" ==>
      (r.preventDefault <==> exists i :: 0 <= i < |document| && document[i].id == href[1..])
    ensures href != "#" && r.scrollTop.Some? ==>
      exists i :: 0 <= i < |document| && document[i].id == href[1..]
        && (forall j :: 0 <= j < i ==> document[j].id != href[1..])
        && r.scrollTop.value == document[i].offsetTop - NavbarHeight
  {
    if href == "#" then ClickOutcome(true, Some(0))
    else match FindById(document, href[1..])
      case None => ClickOutcome(false, None)
      case Some(i) => ClickOutcome(true, Some(document[i].offsetTop - NavbarHeight))
  }
}
