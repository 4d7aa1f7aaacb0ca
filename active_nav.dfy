/**
 * Active navigation link highlight (`initActiveNavLinks`): on each scroll,
 * find the section the reader is in, then emphasise the link pointing at it.
 */
module ActiveNav {
  import opened Wrappers
  import opened Dom

  /** How far above a section's top the reader already counts as inside it. */
  const SectionLead: int := 200

  /** The classes that mark the link of the current section. */
  const Emphasis: set<string> := {"text-black", "font-bold"}

  /** The reader at `pageYOffset` has reached section `s`. */
  predicate Passed(s: Placed, pageYOffset: int)
  {
    pageYOffset >= s.offsetTop - SectionLead
  }

  /**
   * The last section in document order that the reader has reached, or None
   * when no section has been reached.
   */
  function LastPassed(sections: seq<Placed>, pageYOffset: int): (r: Option<nat>)
    ensures r.Some? ==> r.value < |sections| && Passed(sections[r.value], pageYOffset)
    ensures r.Some? ==> forall j :: r.value < j < |sections| ==> !Passed(sections[j], pageYOffset)
    ensures r.None? <==> forall j :: 0 <= j < |sections| ==> !Passed(sections[j], pageYOffset)
  {
    if |sections| == 0 then None
    else if Passed(sections[|sections| - 1], pageYOffset) then Some(|sections| - 1)
    else LastPassed(sections[..|sections| - 1], pageYOffset)
  }

  /** The id the scroll handler settles on: that of the last section reached, or `''`. */
  function CurrentId(sections: seq<Placed>, pageYOffset: int): (r: string)
    ensures (forall j :: 0 <= j < |sections| ==> !Passed(sections[j], pageYOffset)) ==> r == ""
    ensures forall i :: (0 <= i < |sections| && Passed(sections[i], pageYOffset)
                          && forall j :: i < j < |sections| ==> !Passed(sections[j], pageYOffset))
                        ==> r == sections[i].id
  {
    match LastPassed(sections, pageYOffset)
    case None => ""
    case Some(i) => sections[i].id
  }

  /** A link is the current one when its href is `#` followed by the current id. */
  predicate Links(href: string, current: string)
  {
    href == "#" + current
  }

  /**
   * A link's class list after the update: both emphasis classes when it is
   * the current link, neither otherwise, and every other class as before.
   */
  function Emphasize(classes: set<string>, on: bool): (r: set<string>)
    ensures "text-black" in r <==> on
    ensures "font-bold" in r <==> on
    ensures r - Emphasis == classes - Emphasis
  {
    if on then classes - Emphasis + Emphasis else classes - Emphasis
  }

  /**
   * The scan over the sections: every section reached overwrites `current`,
   * so the last one reached wins.
   */
  method ScanCurrent(sections: seq<Placed>, pageYOffset: int) returns (current: string)
    ensures current == CurrentId(sections, pageYOffset)
  {
    current := "";
    var i := 0;
    while i < |sections|
      invariant 0 <= i <= |sections|
      invariant current == CurrentId(sections[..i], pageYOffset)
    {
      assert sections[..i + 1][..i] == sections[..i];
      if pageYOffset >= sections[i].offsetTop - SectionLead {
        current := sections[i].id;
      }
      i := i + 1;
    }
    assert sections[..i] == sections;
  }

  /**
   * The update of the link list: each link loses both emphasis classes and
   * gets them back when it links to `current`. A link listed twice ends the
   * same way, since the update of one link is idempotent.
   */
  method HighlightLinks(links: seq<Element>, current: string)
    modifies set i | 0 <= i < |links| :: links[i]`classes
    ensures forall i :: 0 <= i < |links| ==>
      links[i].classes == Emphasize(old(links[i].classes), Links(links[i].href, current))
  {
    var i := 0;
    while i < |links|
      invariant 0 <= i <= |links|
      invariant forall k :: 0 <= k < |links| ==>
        links[k].classes == if links[k] in links[..i]
          then Emphasize(old(links[k].classes), Links(links[k].href, current))
          else old(links[k].classes)
    {
      var link := links[i];
      link.classes := link.classes - Emphasis;
      if link.href == "#" + current {
        link.classes := link.classes + Emphasis;
      }
      assert links[..i + 1] == links[..i] + [link];
      i := i + 1;
    }
    assert links[..i] == links;
  }

  /** One scroll event: the scan followed by the link update. */
  method OnScroll(sections: seq<Placed>, links: seq<Element>, pageYOffset: int)
    modifies set i | 0 <= i < |links| :: links[i]`classes
    ensures forall i :: 0 <= i < |links| ==>
      links[i].classes ==
        Emphasize(old(links[i].classes), Links(links[i].href, CurrentId(sections, pageYOffset)))
  {
    var current := ScanCurrent(sections, pageYOffset);
    HighlightLinks(links, current);
  }

  /**
   * Which hrefs the update emphasises: `#id` of the last section reached,
   * and when no section has been reached, only a bare `#`.
   */
  lemma EmphasisedHref(sections: seq<Placed>, pageYOffset: int, href: string)
    ensures Links(href, CurrentId(sections, pageYOffset)) <==>
      (exists i :: 0 <= i < |sections| && Passed(sections[i], pageYOffset)
         && (forall j :: i < j < |sections| ==> !Passed(sections[j], pageYOffset))
         && href == "#" + sections[i].id)
      || ((forall j :: 0 <= j < |sections| ==> !Passed(sections[j], pageYOffset)) && href == "#")
  {
    match LastPassed(sections, pageYOffset)
    case None =>
    case Some(i) =>
      if href == "#" + sections[i].id {
        assert Passed(sections[i], pageYOffset);
      }
  }

  /** When links have distinct hrefs, at most one of them is emphasised. */
  lemma AtMostOneEmphasised(links: seq<string>, current: string, a: nat, b: nat)
    requires a < |links| && b < |links|
    requires forall i, j :: 0 <= i < j < |links| ==> links[i] != links[j]
    requires Links(links[a], current) && Links(links[b], current)
    ensures a == b
  {
  }
}
