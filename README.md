# Portfolio page script, modelled in Dafny

This project models the decision logic inside the event handlers of a
portfolio web page's script (`Assets/Script/Script.js`). The browser is
reduced to an abstract document. Class lists are sets of names.
Scroll positions and element offsets are integer inputs. Element
rectangles, click points and counter values are exact reals standing in
for JavaScript numbers. Timers and animation frames are explicit steps:
a scheduled `setTimeout` is a pending `Timer` value, and one animation
frame is one loop iteration.

Modules, one per behaviour of the script:

- `Navbar` (navbar.dfy): the `scrolled` class, toggled strictly above 50 px.
- `SmoothScroll` (smooth_scroll.dfy): what a click on an in-page anchor does.
  It may cancel navigation, and it scrolls to the top or to 80 px above the target.
- `ActiveNav` (active_nav.dfy): the scan that picks the current section
  (the last one reached wins), and the in-place update of the nav links'
  emphasis classes.
- `Observers` (observers.dfy): the four intersection-observer callbacks.
  Each is a class holding its set of observed elements. Scroll reveal adds
  `active`. The counter callback is guarded by the `counted` marker and logs
  the counters it starts. The timeline and moto-card callbacks schedule
  staggered reveal timers. A pure model over successive batches proves that
  unobserving on the first hit makes each effect fire in at most one batch.
- `Counter` (counter.dfy): `animateCounter` as a frame loop. It returns the
  accumulator trace and every text written. The final text is the exact target.
- `Typing` (typing.dfy): the typing effect as a class whose `Type` step is
  one timer run. `Typed` gives the title after k runs.
- `Debounce` (debounce.dfy): the `debounce` closure's one-slot `timeout`.
  It is a class together with a pure event-trace model and lemmas about bursts of calls.
- `Ripple` (ripple.dfy): the ripple square's size and offset, shared by
  skill badges and primary buttons.
- `Dom` (dom.dfy) and `Wrappers` (wrappers.dfy): the shared element class and `Option`.

Three behaviours of the code that a reader may not expect:

- The timeline reveal's delay is `index * 100`. Here `index` is the entry's
  position in the callback's batch of entries, including entries that do not
  intersect. It is not the item's position among the timeline items.
- When no section has been reached, the current id is `''`, and a link whose
  `href` is exactly `#` is still emphasised (line 163 compares the href with
  `#` followed by the empty id).
- A batch may report the same element twice. The reveal and the timeline
  handlers act again on a repeated intersecting entry. Adding `active` a
  second time changes nothing, but a second timeline timer is scheduled. The
  moto handler schedules the whole cascade once per intersecting entry. Only
  the counter handler checks a marker (`counted`) and so starts at most once
  even within one batch. Across batches, every handler fires at most once
  per element (`Observers.FiresInAtMostOneBatch`): the element is unobserved
  and the platform reports only on observed elements.

## Model

| member | source | states |
|---|---|---|
| `Navbar.NavClasses` | Assets/Script/Script.js:38-42 | `scrolled` is present exactly when scrollY > 50; every other class is kept |
| `Navbar.OnScroll` | Assets/Script/Script.js:37-43 | the navbar's class list after a scroll event is `NavClasses` of the old one |
| `Navbar.ThresholdIsStrict` | Assets/Script/Script.js:38 | 49 and 50 give no `scrolled`, 51 gives it |
| `Navbar.OnlyLastScrollMatters` | Assets/Script/Script.js:37-43 | two scroll events in a row leave the state of the second alone |
| `SmoothScroll.FindById` | Assets/Script/Script.js:59 | the first element in document order with the id, or None exactly when there is none |
| `SmoothScroll.OnAnchorClick` | Assets/Script/Script.js:50-67 | `#` cancels and scrolls to 0; otherwise it cancels exactly when a target exists, and scrolls to the first target's offsetTop - 80; no target means no cancel and no scroll |
| `ActiveNav.LastPassed` | Assets/Script/Script.js:153-159 | the last section with pageYOffset >= offsetTop - 200, or None exactly when no section qualifies |
| `ActiveNav.CurrentId` | Assets/Script/Script.js:151-159 | the id settled on is `''` when no section is reached, and otherwise the id of a reached section after which no section is reached |
| `ActiveNav.ScanCurrent` | Assets/Script/Script.js:151-159 | the overwriting loop yields the id of the last section reached, or `''` |
| `ActiveNav.Emphasize` | Assets/Script/Script.js:162-165 | `text-black` and `font-bold` are both present exactly when the link matches; other classes unchanged |
| `ActiveNav.HighlightLinks` | Assets/Script/Script.js:161-166 | after the loop every link (even one listed twice) is emphasised exactly when its href is `#` + current |
| `ActiveNav.OnScroll` | Assets/Script/Script.js:150-167 | one scroll event emphasises exactly the links whose href is `#` + the current section's id |
| `ActiveNav.EmphasisedHref` | Assets/Script/Script.js:151-166 | an href is emphasised iff it names the last section reached, or no section is reached and it is a bare `#` |
| `ActiveNav.AtMostOneEmphasised` | Assets/Script/Script.js:161-166 | with distinct hrefs at most one link is emphasised |
| `Counter.JsRemainderOne` | Assets/Script/Script.js:99 | JavaScript `x % 1` lies in (-1, 1) and has the sign of x |
| `Counter.IsDecimalIffFractional` | Assets/Script/Script.js:99 | `target % 1 !== 0` holds exactly when the target is not an integer |
| `Counter.Increment` | Assets/Script/Script.js:98 | the step times `duration / 16` equals the target |
| `Counter.Places` | Assets/Script/Script.js:107 | the final text has 2 decimal places exactly when the target is not an integer, and 0 exactly when it is |
| `Counter.Shown` | Assets/Script/Script.js:104 | an intermediate text of a decimal counter is the accumulator with 2 places; otherwise it is the largest integer not above the accumulator, with 0 places |
| `Counter.StepSign` | Assets/Script/Script.js:98 | the step has the sign of the target |
| `Counter.AccumulatedIsProduct` | Assets/Script/Script.js:102 | after n frames the accumulator is n times the step |
| `Counter.AccumulatedIncreases` | Assets/Script/Script.js:102 | with a positive step the accumulator is positive and grows every frame |
| `Counter.TraceIncreases` | Assets/Script/Script.js:102-105 | a trace of successive accumulators is positive and strictly increasing |
| `Counter.BelowTargetIffEarlyFrame` | Assets/Script/Script.js:98-103 | for a positive target, frame k is below the target exactly when k < duration / 16 |
| `Counter.FirstFrameReachesNonPositive` | Assets/Script/Script.js:98-107 | for target <= 0 and duration >= 16 the first accumulator already reaches the target |
| `Counter.FrameDecision` | Assets/Script/Script.js:101-108 | a frame writes an intermediate value only for a positive target before frame duration / 16; otherwise it is the last frame |
| `Counter.NegativeTargetShortDurationNeverStops` | Assets/Script/Script.js:101-105 | with a negative target and duration < 16 every accumulator stays below the target, so the loop never ends |
| `Counter.AnimateCounter` | Assets/Script/Script.js:96-112 | the loop ends; its last write is the exact target with 2 or 0 places; intermediate writes are the accumulators (floored for integer targets), all below the target, strictly increasing, fewer than duration / 16 and reaching it on the next frame; a target <= 0 writes only the final value |
| `Counter.AnimateWithDefault` | Assets/Script/Script.js:119 | called with the default duration (`CONFIG.counterDuration`, 2000 ms), the animation always ends with the exact target; a positive target takes exactly 124 intermediate frames, a target <= 0 writes only the final value |
| `Typing.Typed` | Assets/Script/Script.js:273-279 | after k runs of `type` the title is the prefix of the text of length min(k, \|text\|) |
| `Typing.TypedSettles` | Assets/Script/Script.js:274 | from \|text\| runs on, the title is the whole original text |
| `Typing.TypedGrows` | Assets/Script/Script.js:275 | each run's title extends the previous one |
| `Typing.TypingEffect.constructor` | Assets/Script/Script.js:266-281 | the text is saved, the title emptied, the index 0 and the first run scheduled |
| `Typing.TypingEffect.Type` | Assets/Script/Script.js:273-279 | a run appends `text[index]` and reschedules while index < \|text\|, and stops rescheduling at the end |
| `Debounce.Step` | Assets/Script/Script.js:401-407 | a call takes the `timeout` slot with its arguments and runs nothing; the timer going off empties the slot and runs `func` once with the arguments in it, or nothing when it is empty |
| `Debounce.Run` | Assets/Script/Script.js:399-409 | a history of events: with none the state is unchanged; after a call its arguments are pending, after the timer goes off nothing is |
| `Debounce.BurstKeepsNewest` | Assets/Script/Script.js:406-407 | a burst of calls leaves only the newest call pending and runs nothing |
| `Debounce.BurstRunsOnceWithLastArguments` | Assets/Script/Script.js:399-408 | N calls followed by the wait elapsing run `func` exactly once, with the last call's arguments |
| `Debounce.RunsBoundedByElapses` | Assets/Script/Script.js:402-407 | `func` runs no more often than the timer goes off, and earlier runs are kept |
| `Debounce.LastCallPending` | Assets/Script/Script.js:406-407 | after any history, the latest call is the one pending |
| `Debounce.Debouncer.constructor` | Assets/Script/Script.js:400 | a fresh wrapper has nothing pending and no runs |
| `Debounce.Debouncer.Call` | Assets/Script/Script.js:401-407 | a call replaces the pending call with its own arguments and runs nothing |
| `Debounce.Debouncer.Elapse` | Assets/Script/Script.js:402-405 | the timer going off runs `func` with the pending arguments and clears the slot |
| `Ripple.RippleFor` | Assets/Script/Script.js:217-219 | size is the larger of width and height; the square is centred on the click point (same rule at lines 333-335) |
| `Ripple.RippleIgnoresPagePosition` | Assets/Script/Script.js:333-335 | moving element and click together leaves the ripple unchanged |
| `Ripple.RippleCentreInside` | Assets/Script/Script.js:216-219 | a click inside the element centres the ripple inside it |
| `Observers.FiresInAtMostOneBatch` | Assets/Script/Script.js:80-86 | when batches report only observed elements, an element's effect fires in at most one batch, and never if it was not observed |
| `Observers.RevealObserver.constructor` | Assets/Script/Script.js:90-92 | every scroll-animation element is observed |
| `Observers.RevealObserver.OnEntries` | Assets/Script/Script.js:79-87 | intersecting targets get `active` and are unobserved; non-intersecting entries change nothing |
| `Observers.Starts` | Assets/Script/Script.js:116-122 | a batch starts at most one counter per entry, and none that carried `counted` before the batch |
| `Observers.StartsOncePerTarget` | Assets/Script/Script.js:116-122 | a batch starts exactly the intersecting, not yet counted targets, each once |
| `Observers.CounterObserver.constructor` | Assets/Script/Script.js:126-128 | every counter is observed and none started |
| `Observers.CounterObserver.OnEntry` | Assets/Script/Script.js:116-122 | an intersecting entry without `counted` starts its counter, is marked and unobserved; an intersecting one already marked keeps its classes; others change nothing |
| `Observers.CounterObserver.OnEntries` | Assets/Script/Script.js:115-123 | intersecting uncounted targets start once, get `counted` and are unobserved; the log of started counters stays free of duplicates and all marked |
| `Observers.TimelineTimers` | Assets/Script/Script.js:175-182 | a batch schedules at most one reveal per entry, and none when no entry intersects |
| `Observers.TimelineTimerHasEntry` | Assets/Script/Script.js:175-182 | every scheduled timeline reveal belongs to the intersecting entry at position delay / 100 |
| `Observers.TimelineEntryHasTimer` | Assets/Script/Script.js:175-182 | every intersecting entry at position i has a reveal scheduled after i * 100 ms |
| `Observers.TimelineDelaysBounded` | Assets/Script/Script.js:180 | delays are below the batch length times 100 |
| `Observers.TimelineCascade` | Assets/Script/Script.js:175-180 | the reveals of one batch have strictly increasing delays |
| `Observers.TimelineObserver.constructor` | Assets/Script/Script.js:186-191 | every item is hidden (opacity 0, shifted left 20 px) and observed |
| `Observers.TimelineObserver.OnEntries` | Assets/Script/Script.js:174-184 | intersecting targets are unobserved and their staggered reveals appended to the pending timers |
| `Observers.TimelineObserver.Fire` | Assets/Script/Script.js:177-180 | a pending reveal runs: opacity 1, transform reset, timer removed |
| `Observers.Stagger` | Assets/Script/Script.js:240-245 | element i of the list is revealed after i * step ms |
| `Observers.StaggerCascades` | Assets/Script/Script.js:244 | with a positive step, later elements are revealed strictly later |
| `Observers.MotoTimers` | Assets/Script/Script.js:238-247 | every reveal a batch schedules is one of the moto cascade, and at most one cascade per entry is scheduled |
| `Observers.MotoSingleHit` | Assets/Script/Script.js:238-247 | one intersecting entry schedules every moto element once, element i after i * 150 ms |
| `Observers.MotoNoHit` | Assets/Script/Script.js:238-239 | a batch with no intersecting entry schedules nothing |
| `Observers.MotoObserver.constructor` | Assets/Script/Script.js:251-259 | with a card, its nodes are hidden and the card observed; without one nothing changes |
| `Observers.MotoObserver.OnEntries` | Assets/Script/Script.js:237-249 | each intersecting entry appends the whole moto cascade and unobserves the card |
| `Observers.MotoObserver.Fire` | Assets/Script/Script.js:241-244 | a pending reveal runs: opacity 1, transform reset, timer removed |

## Left out

- Counter.AnimateCounter: requires `target >= 0 || duration >= 16`. With a negative target and a duration under 16 ms the source's frame loop never ends (`Counter.NegativeTargetShortDurationNeverStops`). The page's only call passes the default of 2000 ms, which meets the requirement for every target (`Counter.AnimateWithDefault`).
- Counter.AnimateCounter: frames run back to back in one loop. Their interleaving with other callbacks through `requestAnimationFrame` is not modelled. `Observers.CounterObserver` only logs which counters were started.
- Counter.AnimateCounter: the arithmetic is exact. IEEE-754 rounding is not modelled, and neither is the exact string output of `toFixed`/`Math.floor`: a `Text` records the value shown and its decimal places.
- Reading and parsing `data-target` (line 118) is not modelled, and neither is a value that does not parse (NaN). `Observers.CounterObserver` logs which counters start, and `Counter.AnimateWithDefault` takes the parsed target as a real.
- Observers: the platform's visibility computation (thresholds 0.1, 0.2 and 0.5, root margin) is platform behaviour. `isIntersecting` is an input.
- Observers: timers' wall-clock timing is not modelled. A `Timer` records its delay, and the caller of `Fire` chooses which pending timer runs. The same holds for the typing effect's 500 ms start and 100 ms steps.
- Observers: the `transition` style strings written at initialisation are left out with the other inline CSS.
- Page loader (lines 21-31): a load listener and two timers of class and removal bookkeeping.
- Parallax (lines 132-143) and cursor trail (lines 286-323): floating-point visual effects that the page leaves disabled. The trail also runs an endless frame loop.
- Project card hover (lines 195-207): constant transform writes.
- Ripple nodes: creating the span, its inline styles and `ripple` class, appending it, and removing it after 600 ms (lines 215-228, 332-351) are left out. Only the geometry is modelled.
- The injected `@keyframes` style, listener registration and `querySelector(All)` lookups, the initialisation order, and the console logs (lines 356-395, 411-414).
- SmoothScroll.OnAnchorClick: `querySelector(href)` is modelled as a lookup of the id after `#`. Hrefs that are not a plain id selector are not covered: they may mean something else as CSS or throw as invalid selectors.
- ActiveNav: `clientHeight` is read and never used (line 155). `window.scrollY` and `pageYOffset` are the same integer input.
- Typing: `charAt` works on UTF-16 code units; the model's characters are Dafny `char`s.
- The `scrollOffset` and `observerThreshold` entries of `CONFIG` (lines 14-18) are not used in the modelled logic.
