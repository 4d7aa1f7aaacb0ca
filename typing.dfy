/**
 * The typing effect on the hero title (`initTypingEffect`): the title is
 * emptied, then each run of the timer callback `type` appends the next
 * character and schedules the next run, until the whole text is back.
 */
module Typing {

  function Min(a: int, b: int): int
  {
    if a <= b then a else b
  }

  /** The title text after `ticks` runs of `type`, each appending the next character while any is left. */
  function Typed(text: string, ticks: nat): (r: string)
    ensures r == text[..Min(ticks, |text|)]
  {
    if ticks == 0 then ""
    else
      var before := Typed(text, ticks - 1);
      if |before| < |text| then before + [text[|before|]] else before
  }

  /** Ticking past the end of the text changes nothing: the title stays the full text. */
  lemma {:induction false} TypedSettles(text: string, ticks: nat)
    requires ticks >= |text|
    ensures Typed(text, ticks) == text
  {
  }

  /** Each tick's title extends the one before. */
  lemma TypedGrows(text: string, earlier: nat, later: nat)
    requires earlier <= later
    ensures Typed(text, earlier) <= Typed(text, later)
  {
  }

  class TypingEffect {
    /** The title's original text, read once at start. */
    const text: string
    /** `index` of the source: how many characters have been typed. */
    var index: nat
    /** The title element's text content. */
    var title: string
    /** Whether a run of `type` is scheduled. */
    var scheduled: bool
    /** How many times `type` has run. */
    ghost var ticks: nat

    ghost predicate Valid()
      reads this
    {
      && index == Min(ticks, |text|)
      && title == Typed(text, ticks)
      && scheduled == (ticks <= |text|)
    }

    /** Start: remember the text, empty the title, schedule the first run. */
    constructor (original: string)
      ensures Valid()
      ensures text == original && title == "" && index == 0 && scheduled && ticks == 0
    {
      text := original;
      title := "";
      index := 0;
      scheduled := true;
      ticks := 0;
    }

    /** One run of `type`: append the next character and reschedule, or stop at the end. */
    method Type()
      requires Valid() && scheduled
      modifies this
      ensures Valid()
      ensures ticks == old(ticks) + 1
      ensures old(index) < |text| ==> title == old(title) + [text[old(index)]] && index == old(index) + 1
      ensures old(index) == |text| ==> title == old(title) && index == old(index) && !scheduled
    {
      if index < |text| {
        title := title + [text[index]];
        index := index + 1;
        scheduled := true;
      } else {
        scheduled := false;
      }
      ticks := ticks + 1;
    }
  }
}
