/**
 * The intersection-observer callbacks of the page: scroll reveal
 * (`initScrollReveal`), counters (`initCounters`), timeline items
 * (`initTimelineAnimations`) and the moto card (`initMotoAnimation`).
 *
 * The platform's visibility computation is not modelled: a callback
 * receives a batch of entries, each naming an observed element and whether
 * it intersects. Timers scheduled by a callback are kept as pending
 * `Timer`s; a separate step runs one of them.
 */
module Observers {
  import opened Wrappers
  import opened Dom

  datatype Entry = Entry(target: Element, isIntersecting: bool)

  /** A pending `setTimeout` that will reveal `target` after `delay` milliseconds. */
  datatype Timer = Timer(target: Element, delay: nat)

  /** Per-entry delay of the timeline reveal, in milliseconds. */
  const TimelineStagger: nat := 100

  /** Per-element delay of the moto card reveal, in milliseconds. */
  const MotoStagger: nat := 150

  /** The elements a batch reports on. */
  function Targets(entries: seq<Entry>): set<Element>
  {
    set i | 0 <= i < |entries| :: entries[i].target
  }

  /** The elements a batch reports as intersecting. */
  function Hits(entries: seq<Entry>): (r: set<Element>)
    ensures r <= Targets(entries)
    ensures forall i :: 0 <= i < |entries| && entries[i].isIntersecting ==> entries[i].target in r
  {
    set i | 0 <= i < |entries| && entries[i].isIntersecting :: entries[i].target
  }

  lemma HitsExtend(entries: seq<Entry>, i: nat)
    requires i < |entries|
    ensures Hits(entries[..i + 1]) ==
      Hits(entries[..i]) + (if entries[i].isIntersecting then {entries[i].target} else {})
    ensures Targets(entries[..i + 1]) == Targets(entries[..i]) + {entries[i].target}
  {
    var pre, ext := entries[..i], entries[..i + 1];
    assert forall k :: 0 <= k < i ==> ext[k] == pre[k];
    assert ext[i] == entries[i];
  }

  // ----- Trigger-once, across batches -----

  /** The platform reports only on elements that are observed when the batch is delivered. */
  predicate Deliverable(batch: seq<Entry>, observed: set<Element>)
  {
    Targets(batch) <= observed
  }

  /** Batches delivered one after another to an observer that unobserves every intersecting target. */
  predicate DeliveredInTurn(observed: set<Element>, batches: seq<seq<Entry>>)
    decreases |batches|
  {
    |batches| == 0 ||
    (Deliverable(batches[0], observed) && DeliveredInTurn(observed - Hits(batches[0]), batches[1..]))
  }

  /** In how many batches `e` is reported as intersecting. */
  function BatchesHitting(batches: seq<seq<Entry>>, e: Element): nat
    decreases |batches|
  {
    if |batches| == 0 then 0
    else (if e in Hits(batches[0]) then 1 else 0) + BatchesHitting(batches[1..], e)
  }

  /**
   * The effect of an observer that unobserves its target on the first
   * intersecting entry runs in at most one batch per element, and never for
   * an element that was not observed.
   */
  lemma {:induction false} FiresInAtMostOneBatch(observed: set<Element>, batches: seq<seq<Entry>>, e: Element)
    requires DeliveredInTurn(observed, batches)
    ensures BatchesHitting(batches, e) <= (if e in observed then 1 else 0)
    decreases |batches|
  {
    if |batches| > 0 {
      FiresInAtMostOneBatch(observed - Hits(batches[0]), batches[1..], e);
    }
  }

  // ----- Scroll reveal -----

  class RevealObserver {
    var observed: set<Element>

    /** Observe every element carrying one of the scroll-animation classes. */
    constructor (elements: seq<Element>)
      ensures observed == Members(elements)
    {
      observed := Members(elements);
    }

    /** The callback: every intersecting target gets `active` and is unobserved; other entries change nothing. */
    method OnEntries(entries: seq<Entry>)
      modifies this, Targets(entries)`classes
      ensures observed == old(observed) - Hits(entries)
      ensures forall e :: e in Targets(entries) ==>
        e.classes == if e in Hits(entries) then old(e.classes) + {"active"} else old(e.classes)
    {
      var i := 0;
      while i < |entries|
        invariant 0 <= i <= |entries|
        invariant observed == old(observed) - Hits(entries[..i])
        invariant forall e :: e in Targets(entries) ==>
          e.classes == if e in Hits(entries[..i]) then old(e.classes) + {"active"} else old(e.classes)
      {
        HitsExtend(entries, i);
        var entry := entries[i];
        if entry.isIntersecting {
          entry.target.classes := entry.target.classes + {"active"};
          observed := observed - {entry.target};
        }
        i := i + 1;
      }
      assert entries[..i] == entries;
    }
  }

  // ----- Counters -----

  /**
   * The counters a batch starts, in order: the target of each intersecting
   * entry that carries no `counted` marker yet, where `counted` holds the
   * elements marked before the batch.
   */
  function Starts(entries: seq<Entry>, counted: set<Element>): (r: seq<Element>)
    ensures |r| <= |entries|
    ensures forall k :: 0 <= k < |r| ==> r[k] !in counted
    decreases |entries|
  {
    if |entries| == 0 then []
    else
      var n := |entries| - 1;
      var before := entries[..n];
      Starts(before, counted)
        + (if entries[n].isIntersecting && entries[n].target !in counted + Hits(before)
           then [entries[n].target] else [])
  }

  predicate NoDuplicates(s: seq<Element>)
  {
    forall i, j :: 0 <= i < j < |s| ==> s[i] != s[j]
  }

  /**
   * A batch starts each intersecting, not yet counted target exactly once,
   * and nothing else.
   */
  lemma {:induction false} StartsOncePerTarget(entries: seq<Entry>, counted: set<Element>)
    ensures NoDuplicates(Starts(entries, counted))
    ensures forall e :: e in Starts(entries, counted) <==> e in Hits(entries) && e !in counted
    decreases |entries|
  {
    if |entries| > 0 {
      var n := |entries| - 1;
      StartsOncePerTarget(entries[..n], counted);
      HitsExtend(entries, n);
      assert entries[..n + 1] == entries;
    }
  }

  class CounterObserver {
    var observed: set<Element>
    /** The counters whose animation has been started, in order. */
    var started: seq<Element>

    /** Every counter started so far is marked `counted` and was started once. */
    ghost predicate Valid()
      reads this, Members(started)
    {
      NoDuplicates(started) && forall i :: 0 <= i < |started| ==> "counted" in started[i].classes
    }

    /** The counters checked by this batch that already carry the marker. */
    ghost function CountedAmong(entries: seq<Entry>): set<Element>
      reads Targets(entries)
    {
      set e | e in Targets(entries) && "counted" in e.classes
    }

    constructor (counters: seq<Element>)
      ensures Valid() && observed == Members(counters) && started == []
    {
      observed := Members(counters);
      started := [];
    }

    /**
     * One entry of the callback: an intersecting target without the
     * `counted` marker is logged as started, gets the marker and is
     * unobserved; any other entry changes nothing.
     */
    method OnEntry(entry: Entry)
      requires Valid()
      modifies this, entry.target`classes
      ensures Valid()
      ensures var starts := entry.isIntersecting && "counted" !in old(entry.target.classes);
        started == old(started) + (if starts then [entry.target] else [])
        && observed == old(observed) - (if starts then {entry.target} else {})
      ensures entry.target.classes == if entry.isIntersecting then old(entry.target.classes) + {"counted"} else old(entry.target.classes)
    {
      if entry.isIntersecting && "counted" !in entry.target.classes {
        ghost var prev := started;
        assert forall k :: 0 <= k < |prev| ==> prev[k] != entry.target;
        started := started + [entry.target];
        entry.target.classes := entry.target.classes + {"counted"};
        observed := observed - {entry.target};
        assert forall k :: 0 <= k < |prev| ==> "counted" in prev[k].classes;
      } else if entry.isIntersecting {
        assert entry.target.classes + {"counted"} == entry.target.classes;
      }
    }

    /** The callback: `OnEntry` for each entry of the batch, in order. */
    method OnEntries(entries: seq<Entry>)
      requires Valid()
      modifies this, Targets(entries)`classes
      ensures Valid()
      ensures started == old(started) + Starts(entries, old(CountedAmong(entries)))
      ensures observed == old(observed) - (Hits(entries) - old(CountedAmong(entries)))
      ensures forall e :: e in Targets(entries) ==>
        e.classes == if e in Hits(entries) then old(e.classes) + {"counted"} else old(e.classes)
    {
      ghost var counted0 := CountedAmong(entries);
      ghost var hits: set<Element> := {};
      var i := 0;
      while i < |entries|
        invariant 0 <= i <= |entries|
        invariant hits == Hits(entries[..i])
        invariant Valid()
        invariant started == old(started) + Starts(entries[..i], counted0)
        invariant observed == old(observed) - (hits - counted0)
        invariant forall e :: e in Targets(entries) ==>
          e.classes == if e in hits then old(e.classes) + {"counted"} else old(e.classes)
        invariant forall e :: e in counted0 <==> e in Targets(entries) && "counted" in old(e.classes)
      {
        HitsExtend(entries, i);
        assert entries[..i + 1][..i] == entries[..i];
        var entry := entries[i];
        assert entry.target in Targets(entries);
        ghost var starts := entry.isIntersecting && "counted" !in entry.target.classes;
        assert starts <==> entry.isIntersecting && entry.target !in counted0 + hits;
        assert Starts(entries[..i + 1], counted0) ==
          Starts(entries[..i], counted0) + (if starts then [entry.target] else []);
        OnEntry(entry);
        hits := hits + (if entry.isIntersecting then {entry.target} else {});
        i := i + 1;
      }
      assert entries[..i] == entries;
    }
  }

  // ----- Timeline -----

  /**
   * The reveals a timeline batch schedules: one per intersecting entry,
   * delayed by the entry's position in the batch times 100 ms.
   */
  function TimelineTimers(entries: seq<Entry>): (r: seq<Timer>)
    ensures |r| <= |entries|
    ensures (forall i :: 0 <= i < |entries| ==> !entries[i].isIntersecting) ==> r == []
    decreases |entries|
  {
    if |entries| == 0 then []
    else
      var n := |entries| - 1;
      TimelineTimers(entries[..n])
        + (if entries[n].isIntersecting then [Timer(entries[n].target, n * TimelineStagger)] else [])
  }

  /** Each scheduled reveal belongs to an intersecting entry, at the position its delay names. */
  lemma {:induction false} TimelineTimerHasEntry(entries: seq<Entry>, k: nat)
    requires k < |TimelineTimers(entries)|
    ensures var t := TimelineTimers(entries)[k];
      t.delay % TimelineStagger == 0 && t.delay / TimelineStagger < |entries|
      && entries[t.delay / TimelineStagger] == Entry(t.target, true)
    decreases |entries|
  {
    var n := |entries| - 1;
    var pre := TimelineTimers(entries[..n]);
    if k < |pre| {
      TimelineTimerHasEntry(entries[..n], k);
      var t := pre[k];
      assert entries[..n][t.delay / TimelineStagger] == entries[t.delay / TimelineStagger];
    }
  }

  /** Every intersecting entry of the batch has its reveal scheduled. */
  lemma {:induction false} TimelineEntryHasTimer(entries: seq<Entry>, i: nat)
    requires i < |entries| && entries[i].isIntersecting
    ensures Timer(entries[i].target, i * TimelineStagger) in TimelineTimers(entries)
    decreases |entries|
  {
    var n := |entries| - 1;
    if i < n {
      TimelineEntryHasTimer(entries[..n], i);
    }
  }

  /** The delays of one batch's reveals are below the batch length times 100 ms. */
  lemma {:induction false} TimelineDelaysBounded(entries: seq<Entry>)
    ensures forall k :: 0 <= k < |TimelineTimers(entries)| ==>
      TimelineTimers(entries)[k].delay < |entries| * TimelineStagger
    decreases |entries|
  {
    if |entries| > 0 {
      TimelineDelaysBounded(entries[..|entries| - 1]);
    }
  }

  /** The delays of one batch's reveals form a strictly increasing cascade. */
  lemma {:induction false} TimelineCascade(entries: seq<Entry>)
    ensures forall k, l :: 0 <= k < l < |TimelineTimers(entries)| ==>
      TimelineTimers(entries)[k].delay < TimelineTimers(entries)[l].delay
    decreases |entries|
  {
    if |entries| > 0 {
      var n := |entries| - 1;
      TimelineCascade(entries[..n]);
      TimelineDelaysBounded(entries[..n]);
    }
  }

  class TimelineObserver {
    var observed: set<Element>
    /** Reveals scheduled and not yet run. */
    var timers: seq<Timer>

    /** Hide every timeline item and observe it. */
    constructor (items: seq<Element>)
      modifies Members(items)`opacity, Members(items)`transform
      ensures observed == Members(items) && timers == []
      ensures forall e :: e in Members(items) ==> e.opacity == "0" && e.transform == "translateX(-20px)"
    {
      observed := Members(items);
      timers := [];
      new;
      var i := 0;
      while i < |items|
        invariant 0 <= i <= |items|
        invariant observed == Members(items) && timers == []
        invariant forall k :: 0 <= k < i ==> items[k].opacity == "0" && items[k].transform == "translateX(-20px)"
      {
        items[i].opacity := "0";
        items[i].transform := "translateX(-20px)";
        i := i + 1;
      }
    }

    /** The callback: schedule the reveal of each intersecting target and unobserve it. */
    method OnEntries(entries: seq<Entry>)
      modifies this
      ensures observed == old(observed) - Hits(entries)
      ensures timers == old(timers) + TimelineTimers(entries)
    {
      var i := 0;
      while i < |entries|
        invariant 0 <= i <= |entries|
        invariant observed == old(observed) - Hits(entries[..i])
        invariant timers == old(timers) + TimelineTimers(entries[..i])
      {
        HitsExtend(entries, i);
        assert entries[..i + 1][..i] == entries[..i];
        var entry := entries[i];
        if entry.isIntersecting {
          timers := timers + [Timer(entry.target, i * TimelineStagger)];
          observed := observed - {entry.target};
        }
        i := i + 1;
      }
      assert entries[..i] == entries;
    }

    /** One scheduled reveal runs: its item becomes visible and slides into place. */
    method Fire(k: nat)
      requires k < |timers|
      modifies this, timers[k].target`opacity, timers[k].target`transform
      ensures timers == old(timers[..k] + timers[k + 1..])
      ensures observed == old(observed)
      ensures old(timers[k].target).opacity == "1" && old(timers[k].target).transform == "translateX(0)"
    {
      var t := timers[k];
      t.target.opacity := "1";
      t.target.transform := "translateX(0)";
      timers := timers[..k] + timers[k + 1..];
    }
  }

  // ----- Moto card -----

  /** Reveals of a node list, the i-th delayed by i steps. */
  function Stagger(nodes: seq<Element>, step: nat): (r: seq<Timer>)
    ensures |r| == |nodes|
    ensures forall i :: 0 <= i < |nodes| ==> r[i].target == nodes[i] && r[i].delay == i * step
  {
    if |nodes| == 0 then []
    else Stagger(nodes[..|nodes| - 1], step) + [Timer(nodes[|nodes| - 1], (|nodes| - 1) * step)]
  }

  /** With a positive step the reveals cascade: later nodes are revealed strictly later. */
  lemma StaggerCascades(nodes: seq<Element>, step: nat, i: nat, j: nat)
    requires step > 0 && i < j < |nodes|
    ensures Stagger(nodes, step)[i].delay < Stagger(nodes, step)[j].delay
  {
    assert (j - i) * step > 0;
  }

  /** The reveals a moto batch schedules: the whole cascade, once per intersecting entry. */
  function MotoTimers(entries: seq<Entry>, nodes: seq<Element>): (r: seq<Timer>)
    ensures forall k :: 0 <= k < |r| ==> r[k] in Stagger(nodes, MotoStagger)
    ensures |r| <= |entries| * |nodes|
    decreases |entries|
  {
    if |entries| == 0 then []
    else
      var n := |entries| - 1;
      assert |entries| * |nodes| == n * |nodes| + |nodes|;
      MotoTimers(entries[..n], nodes) + (if entries[n].isIntersecting then Stagger(nodes, MotoStagger) else [])
  }

  /** A batch with one intersecting entry schedules every moto element exactly once, in cascade. */
  lemma {:induction false} MotoSingleHit(entries: seq<Entry>, nodes: seq<Element>, h: nat)
    requires h < |entries| && entries[h].isIntersecting
    requires forall i :: 0 <= i < |entries| && i != h ==> !entries[i].isIntersecting
    ensures MotoTimers(entries, nodes) == Stagger(nodes, MotoStagger)
    decreases |entries|
  {
    var n := |entries| - 1;
    if n == h {
      MotoNoHit(entries[..n], nodes);
    } else {
      MotoSingleHit(entries[..n], nodes, h);
    }
  }

  /** A batch with no intersecting entry schedules nothing. */
  lemma {:induction false} MotoNoHit(entries: seq<Entry>, nodes: seq<Element>)
    requires forall i :: 0 <= i < |entries| ==> !entries[i].isIntersecting
    ensures MotoTimers(entries, nodes) == []
    decreases |entries|
  {
    if |entries| > 0 {
      MotoNoHit(entries[..|entries| - 1], nodes);
    }
  }

  class MotoObserver {
    /** The card's text and icon nodes, in document order. */
    const nodes: seq<Element>
    var observed: set<Element>
    var timers: seq<Timer>

    /** With a card, hide its nodes and observe the card; without one, do nothing. */
    constructor (card: Option<Element>, nodes: seq<Element>)
      modifies Members(nodes)`opacity, Members(nodes)`transform
      ensures this.nodes == nodes && timers == []
      ensures card.None? ==> observed == {}
      ensures card.None? ==> forall e :: e in Members(nodes) ==> unchanged(e)
      ensures card.Some? ==> observed == {card.value}
      ensures card.Some? ==> forall e :: e in Members(nodes) ==> e.opacity == "0" && e.transform == "translateY(10px)"
    {
      this.nodes := nodes;
      timers := [];
      observed := if card.Some? then {card.value} else {};
      new;
      if card.Some? {
        var i := 0;
        while i < |nodes|
          invariant 0 <= i <= |nodes|
          invariant this.nodes == nodes && timers == [] && observed == {card.value}
          invariant forall k :: 0 <= k < i ==> nodes[k].opacity == "0" && nodes[k].transform == "translateY(10px)"
        {
          nodes[i].opacity := "0";
          nodes[i].transform := "translateY(10px)";
          i := i + 1;
        }
      }
    }

    /** The callback: each intersecting entry schedules the whole cascade and unobserves the card. */
    method OnEntries(entries: seq<Entry>)
      modifies this
      ensures observed == old(observed) - Hits(entries)
      ensures timers == old(timers) + MotoTimers(entries, nodes)
    {
      var i := 0;
      while i < |entries|
        invariant 0 <= i <= |entries|
        invariant observed == old(observed) - Hits(entries[..i])
        invariant timers == old(timers) + MotoTimers(entries[..i], nodes)
      {
        HitsExtend(entries, i);
        assert entries[..i + 1][..i] == entries[..i];
        var entry := entries[i];
        if entry.isIntersecting {
          timers := timers + Stagger(nodes, MotoStagger);
          observed := observed - {entry.target};
        }
        i := i + 1;
      }
      assert entries[..i] == entries;
    }

    /** One scheduled reveal runs: its node becomes visible and moves into place. */
    method Fire(k: nat)
      requires k < |timers|
      modifies this, timers[k].target`opacity, timers[k].target`transform
      ensures timers == old(timers[..k] + timers[k + 1..])
      ensures observed == old(observed)
      ensures old(timers[k].target).opacity == "1" && old(timers[k].target).transform == "translateY(0)"
    {
      var t := timers[k];
      t.target.opacity := "1";
      t.target.transform := "translateY(0)";
      timers := timers[..k] + timers[k + 1..];
    }
  }
}
