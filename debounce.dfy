/**
 * The `debounce` wrapper: one pending call at a time. Calling the wrapper
 * cancels the pending call and schedules a new one with the newest
 * arguments; when the wait elapses without another call, the wrapped
 * function runs once with those arguments. The wait itself is not
 * modelled: an `Elapse` event is the pending timer going off.
 */
module Debounce {
  import opened Wrappers

  datatype Event<A> = Invoke(args: A) | Elapse

  /** The pending call (the `timeout` slot) and the calls the wrapped function has received. */
  datatype State<A> = State(pending: Option<A>, calls: seq<A>)

  /**
   * One event: a call takes the slot with its own arguments and runs
   * nothing; the timer going off empties the slot and runs the wrapped
   * function once with the arguments in it, if any.
   */
  function Step<A>(s: State<A>, e: Event<A>): (r: State<A>)
    ensures e.Invoke? ==> r.pending == Some(e.args) && r.calls == s.calls
    ensures e.Elapse? ==> r.pending.None?
    ensures e.Elapse? && s.pending.Some? ==> r.calls == s.calls + [s.pending.value]
    ensures e.Elapse? && s.pending.None? ==> r.calls == s.calls
  {
    match e
    case Invoke(args) => State(Some(args), s.calls)
    case Elapse =>
      match s.pending
      case None => s
      case Some(args) => State(None, s.calls + [args])
  }

  /**
   * A history of events, in order. Whatever came before, the last event
   * decides the slot: a call leaves its arguments pending, the timer going
   * off leaves nothing pending.
   */
  function Run<A>(s: State<A>, events: seq<Event<A>>): (r: State<A>)
    ensures |events| == 0 ==> r == s
    ensures |events| > 0 && events[|events| - 1].Invoke? ==> r.pending == Some(events[|events| - 1].args)
    ensures |events| > 0 && events[|events| - 1].Elapse? ==> r.pending.None?
    decreases |events|
  {
    if |events| == 0 then s else Run(Step(s, events[0]), events[1..])
  }

  /** The events of a burst of calls to the wrapper, in order. */
  function Invocations<A>(args: seq<A>): (r: seq<Event<A>>)
    ensures |r| == |args|
    ensures forall i :: 0 <= i < |args| ==> r[i] == Invoke(args[i])
  {
    if |args| == 0 then [] else [Invoke(args[0])] + Invocations(args[1..])
  }

  /** How many times the pending timer went off. */
  function Elapses<A>(events: seq<Event<A>>): nat
  {
    if |events| == 0 then 0
    else (if events[0].Elapse? then 1 else 0) + Elapses(events[1..])
  }

  lemma {:induction false} RunAppend<A>(s: State<A>, xs: seq<Event<A>>, ys: seq<Event<A>>)
    ensures Run(s, xs + ys) == Run(Run(s, xs), ys)
    decreases |xs|
  {
    if |xs| == 0 {
      assert xs + ys == ys;
    } else {
      assert (xs + ys)[1..] == xs[1..] + ys;
      RunAppend(Step(s, xs[0]), xs[1..], ys);
    }
  }

  /** A burst of calls leaves exactly the newest one pending and runs nothing. */
  lemma {:induction false} BurstKeepsNewest<A>(s: State<A>, args: seq<A>)
    requires |args| > 0
    ensures Run(s, Invocations(args)) == State(Some(args[|args| - 1]), s.calls)
    decreases |args|
  {
    if |args| > 1 {
      var rest := Invocations(args[1..]);
      assert Invocations(args)[1..] == rest;
      BurstKeepsNewest(Step(s, Invoke(args[0])), args[1..]);
    }
  }

  /**
   * N calls within one wait: once the wait elapses, the wrapped function
   * has run exactly once more, with the arguments of the last call, and
   * nothing is pending.
   */
  lemma BurstRunsOnceWithLastArguments<A>(s: State<A>, args: seq<A>)
    requires |args| > 0
    ensures Run(s, Invocations(args) + [Elapse]) == State(None, s.calls + [args[|args| - 1]])
  {
    RunAppend(s, Invocations(args), [Elapse]);
    BurstKeepsNewest(s, args);
  }

  /** The wrapped function never runs more often than the timer goes off, and earlier runs are kept. */
  lemma {:induction false} RunsBoundedByElapses<A>(s: State<A>, events: seq<Event<A>>)
    ensures s.calls <= Run(s, events).calls
    ensures |Run(s, events).calls| <= |s.calls| + Elapses(events)
    decreases |events|
  {
    if |events| > 0 {
      RunsBoundedByElapses(Step(s, events[0]), events[1..]);
    }
  }

  /** Whatever came before, the wrapper's latest call is the one pending. */
  lemma LastCallPending<A>(s: State<A>, events: seq<Event<A>>, args: A)
    ensures Run(s, events + [Invoke(args)]) == State(Some(args), Run(s, events).calls)
  {
    RunAppend(s, events, [Invoke(args)]);
  }

  /** The closure returned by `debounce(func, wait)`: its `timeout` slot and the calls `func` has received. */
  class Debouncer<A> {
    var pending: Option<A>
    var calls: seq<A>

    constructor ()
      ensures pending == None && calls == []
    {
      pending := None;
      calls := [];
    }

    /** `executedFunction(...args)`: clear the pending timer and schedule a new one. */
    method Call(args: A)
      modifies this
      ensures State(pending, calls) == Step(old(State(pending, calls)), Invoke(args))
      ensures pending == Some(args) && calls == old(calls)
    {
      pending := Some(args);
    }

    /** The pending timer goes off: `later` runs `func` with the saved arguments. */
    method Elapse()
      modifies this
      ensures State(pending, calls) == Step(old(State(pending, calls)), Event.Elapse)
      ensures pending == None
      ensures old(pending).Some? ==> calls == old(calls) + [old(pending).value]
      ensures old(pending).None? ==> calls == old(calls)
    {
      if pending.Some? {
        calls := calls + [pending.value];
        pending := None;
      }
    }
  }
}
