/**
 * The sustained-scroll detector of the reader panel, one direction at a
 * time. A wheel event while the view is not at the boundary clears the
 * count; at the boundary, when there is a chapter to load, an event more
 * than 900 ms after the previous one restarts the count, and the third
 * counted event asks for a load and clears the count again.
 *
 * The panel runs this step on its own fields (see Reader.ReaderPanel's
 * OnDownWheel and OnUpWheel); here it is stated on values so that
 * sequences of events can be reasoned about.
 */
module AutoLoad {

  /** AUTO_WHEEL_COUNT: counted events that ask for a load. */
  const AutoWheelCount := 3

  /** AUTO_WINDOW_MS: largest gap, in milliseconds, between two counted events. */
  const AutoWindowMs := 900

  /** The per-direction state: events counted so far and the time of the last one. */
  datatype Counter = Counter(count: int, lastTime: int)

  /** A wheel event in one direction, with what the panel knows when it arrives. */
  datatype WheelEvent = WheelEvent(atBoundary: bool, canLoad: bool, now: int)

  datatype Step = Step(counter: Counter, load: bool)

  /** The counter is between events: no more than two events counted. */
  predicate Settled(c: Counter) {
    0 <= c.count < AutoWheelCount
  }

  /**
   * What one event does to the counter, and whether it asks for a load: only
   * a boundary event with a chapter to load may ask for one, and it then
   * clears the count; a non-boundary event clears the count and keeps the
   * time; a boundary event with nothing to load changes nothing; every
   * counted event records its time and leaves fewer than three counted.
   */
  function WheelStep(c: Counter, e: WheelEvent): (s: Step)
    ensures s.load ==> e.atBoundary && e.canLoad && s.counter == Counter(0, e.now)
    ensures !e.atBoundary ==> !s.load && s.counter == Counter(0, c.lastTime)
    ensures e.atBoundary && !e.canLoad ==> s == Step(c, false)
    ensures e.atBoundary && e.canLoad ==> s.counter.lastTime == e.now && s.counter.count < AutoWheelCount
    ensures Settled(c) ==> Settled(s.counter)
  {
    if !e.atBoundary then Step(Counter(0, c.lastTime), false)
    else if !e.canLoad then Step(c, false)
    else
      var base := if e.now - c.lastTime > AutoWindowMs then 0 else c.count;
      if base + 1 >= AutoWheelCount then Step(Counter(0, e.now), true)
      else Step(Counter(base + 1, e.now), false)
  }

  /**
   * From a settled counter, an event asks for a load exactly when it is a
   * boundary event with a chapter to load, two events are already counted,
   * and the last of them is at most 900 ms old; the counter is then cleared.
   * Otherwise a non-boundary event clears the count, a stale boundary event
   * restarts it at one, and the counter stays settled.
   */
  lemma WheelStepSpec(c: Counter, e: WheelEvent)
    requires Settled(c)
    ensures var s := WheelStep(c, e);
      && Settled(s.counter)
      && (s.load <==> e.atBoundary && e.canLoad && c.count == AutoWheelCount - 1
                      && e.now - c.lastTime <= AutoWindowMs)
      && (s.load ==> s.counter.count == 0)
      && (!e.atBoundary ==> s.counter.count == 0)
      && (e.atBoundary && e.canLoad && e.now - c.lastTime > AutoWindowMs ==> s.counter.count == 1)
      && (e.atBoundary && e.canLoad ==> s.counter.lastTime == e.now)
  {
  }

  /** The counter after each of `events`, in turn. */
  function Run(c: Counter, events: seq<WheelEvent>): Counter
    decreases |events|
  {
    if events == [] then c else Run(WheelStep(c, events[0]).counter, events[1..])
  }

  /** Whether any of `events`, run in turn from `c`, asks for a load. */
  function AnyLoad(c: Counter, events: seq<WheelEvent>): bool
    decreases |events|
  {
    events != [] && (WheelStep(c, events[0]).load || AnyLoad(WheelStep(c, events[0]).counter, events[1..]))
  }

  /**
   * Fewer events than are still missing to reach three never ask for a load;
   * in particular, from a cleared counter, one or two events never do.
   */
  lemma {:induction false} NoLoadBeforeThreshold(c: Counter, events: seq<WheelEvent>)
    requires 0 <= c.count
    requires c.count + |events| < AutoWheelCount
    ensures !AnyLoad(c, events)
    ensures Run(c, events).count <= c.count + |events|
    decreases |events|
  {
    if events != [] {
      var s := WheelStep(c, events[0]);
      assert s.counter.count <= c.count + 1 && 0 <= s.counter.count;
      NoLoadBeforeThreshold(s.counter, events[1..]);
    }
  }

  /**
   * Conversely, three boundary events with a chapter to load, each at most
   * 900 ms after the one before, ask for a load from a cleared counter
   * whose last event is at most 900 ms before the first of them.
   */
  lemma ThreeQuickEventsLoad(c: Counter, t0: int, t1: int, t2: int)
    requires c.count == 0
    requires c.lastTime <= t0 <= t1 <= t2
    requires t1 - t0 <= AutoWindowMs && t2 - t1 <= AutoWindowMs
    ensures var events := [WheelEvent(true, true, t0), WheelEvent(true, true, t1), WheelEvent(true, true, t2)];
      AnyLoad(c, events) && !AnyLoad(c, events[..2]) && Run(c, events) == Counter(0, t2)
  {
    var events := [WheelEvent(true, true, t0), WheelEvent(true, true, t1), WheelEvent(true, true, t2)];
    var c1 := WheelStep(c, events[0]).counter;
    var c2 := WheelStep(c1, events[1]).counter;
    assert c1 == Counter(1, t0);
    assert c2 == Counter(2, t1);
    var c3 := WheelStep(c2, events[2]);
    assert c3 == Step(Counter(0, t2), true);
    assert events[1..][1..] == [events[2]];
    assert events[1..][1..][1..] == [];
    assert Run(c, events) == Run(c1, events[1..]) == Run(c2, [events[2]]) == Run(c3.counter, []);
    assert AnyLoad(c2, [events[2]]);
    assert events[..2][1..] == [events[1]];
    assert events[..2][1..][1..] == [];
    assert !AnyLoad(c2, []);
    assert !AnyLoad(c1, [events[1]]);
  }

  /** A non-boundary event anywhere in a run clears the count at that point. */
  lemma {:induction false} NonBoundaryClears(c: Counter, before: seq<WheelEvent>, e: WheelEvent)
    requires !e.atBoundary
    ensures Run(c, before + [e]).count == 0
    ensures !WheelStep(Run(c, before), e).load
    decreases |before|
  {
    if before == [] {
      assert [e][1..] == [];
    } else {
      assert (before + [e])[1..] == before[1..] + [e];
      NonBoundaryClears(WheelStep(c, before[0]).counter, before[1..], e);
    }
  }
}
