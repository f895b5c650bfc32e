/**
 The pulse counter of wb-homa-gpio: debouncing, the edge filter and the interval
 logic (sysfs_gpio.cpp, sysfs_gpio_base_counter.cpp), driven by interrupts and by
 the periodic sweep (main.cpp).

 Times are readings of a steady clock in nanoseconds. Line levels are those
 returned by GetValue: 0 or 1 after inversion, -1 when the read fails.
 */
module PulseCounter {
  import opened Common

  /** MICROSECONDS_DELAY, and the debounce limit, in microseconds. */
  const DELAY: int := 200000
  const DEBOUNCE: int := 1000

  datatype Edge = Rising | Falling | Both

  type Level = v: int | -1 <= v <= 1

  datatype Counter = Counter(firstTime: bool, cached: Level, previous: Time, interval: nat, counts: nat,
                             debouncing: bool, edge: Edge)

  /** What is published for an accepted pulse, with the time it was accepted at. */
  datatype Report = Report(time: Time, interval: nat, counts: nat)

  /** A reading of the clock: a 64-bit count of nanoseconds. */
  type Time = t: int | 0 <= t < 0x8000_0000_0000_0000

  /** A time span as a whole number of microseconds, rounded toward zero. */
  function Microseconds(from: Time, to: Time): int {
    if from <= to then (to - from) / 1000 else -((from - to) / 1000)
  }

  /** The span as GetInterval holds it, in an unsigned 64-bit integer. */
  function Unsigned(span: int): nat {
    span % 0x1_0000_0000_0000_0000
  }

  /** GetInterval: counts the pulse unless it comes too soon after the previous one. */
  function Counted(c: Counter, now: Time): Option<Counter> {
    if c.counts == 0 then Some(c.(counts := 1, previous := now))
    else
      var measured := Unsigned(Microseconds(c.previous, now));
      if measured < DELAY then None
      else Some(c.(interval := measured, counts := c.counts + 1, previous := now))
  }

  function Debounced(c: Counter, now: Time): Counter {
    if c.counts == 0 then c else c.(debouncing := Microseconds(c.previous, now) <= DEBOUNCE)
  }

  /** IsDebouncing. */
  predicate DropsAsBounce(c: Counter, now: Time) {
    c.counts != 0 && Microseconds(c.previous, now) <= DEBOUNCE
  }

  function Cached(c: Counter, level: Level): Counter {
    if level >= 0 then c.(cached := level) else c
  }

  /** The level `now`, read after `before`, shows the front that the counter does not wait for: a pulse has ended. */
  predicate EndsPulse(edge: Edge, before: Level, now: Level) {
    now != before && ((edge.Rising? && now == 0) || (edge.Falling? && now == 1))
  }

  /** GpioPublish, given what GetValue and the clock return. */
  function Published(c: Counter, level: Level, now: Time): (Counter, Option<Report>) {
    if c.firstTime then (c.(firstTime := false), None)
    else if EndsPulse(c.edge, c.cached, level) then (Cached(c, level), None)
    else
      match Counted(Cached(c, level), now)
      case None => (Cached(c, level), None)
      case Some(d) => (d, Some(NewReport(d, now)))
  }

  function NewReport(c: Counter, now: Time): Report {
    Report(now, c.interval, c.counts)
  }

  /** One entry into the handler: an interrupt, or a turn of the sweep over all channels. */
  datatype Event =
    | Interrupt(checked: Time, at: Time, level: Level)
    | Sweep(seen: Level, at: Time, level: Level)

  /** Whether the event gets as far as GpioPublish. */
  predicate Handled(c: Counter, e: Event) {
    match e
    case Interrupt(checked, _, _) => !DropsAsBounce(c, checked)
    case Sweep(seen, _, _) => seen >= 0 && (c.cached < 0 || c.cached != seen)
  }

  function Step(c: Counter, e: Event): (Counter, Option<Report>) {
    match e
    case Interrupt(checked, at, level) =>
      if Handled(c, e) then Published(Debounced(c, checked), level, at) else (Debounced(c, checked), None)
    case Sweep(seen, at, level) =>
      if Handled(c, e) then Published(c, level, at) else (Cached(c, seen), None)
  }

  function Run(c: Counter, events: seq<Event>): (Counter, seq<Report>)
    decreases |events|
  {
    if events == [] then (c, [])
    else
      var (d, r) := Step(c, events[0]);
      var (last, rs) := Run(d, events[1..]);
      (last, if r.Some? then [r.value] + rs else rs)
  }

  // ----- What a call does, whatever the functions above say -----

  /** `i` is the time from `from` to `to` in whole microseconds; one that is negative wraps around in 64 bits. */
  predicate IsSpan(from: Time, to: Time, i: nat) {
    if from <= to then 1000 * i <= to - from < 1000 * i + 1000
    else if from - to < 1000 then i == 0
    else
      var back := 0x1_0000_0000_0000_0000 - i;
      1000 * back <= from - to < 1000 * back + 1000
  }

  /** Less than 200 ms after the latest pulse, a clock that went back by less than a microsecond included. */
  predicate TooSoon(c: Counter, now: Time) {
    c.counts != 0 && -1000 < now - c.previous < 200_000_000
  }

  /** The line was read as the level that ends a pulse, and was at the other one when read last. */
  predicate ShowsEnd(c: Counter, level: Level) {
    (c.edge.Rising? && level == 0 && c.cached != 0) || (c.edge.Falling? && level == 1 && c.cached != 1)
  }

  predicate SameTally(c: Counter, d: Counter) {
    d.counts == c.counts && d.previous == c.previous && d.interval == c.interval
  }

  /** GpioPublish swallows the first call; then it counts and publishes all but ends of pulses and what is too soon. */
  predicate PublishDoes(c: Counter, level: Level, now: Time, d: Counter, out: seq<Report>) {
    && d.edge == c.edge && d.debouncing == c.debouncing && !d.firstTime
    && d.cached == (if c.firstTime || level < 0 then c.cached else level)
    && (if c.firstTime || ShowsEnd(c, level) || TooSoon(c, now) then SameTally(c, d) && out == []
        else
          && d.counts == c.counts + 1 && d.previous == now
          && (if c.counts == 0 then d.interval == c.interval else IsSpan(c.previous, now, d.interval))
          && out == [Report(now, d.interval, d.counts)])
  }

  /** An interrupt up to 1000 us after the latest pulse and a sweep that sees no change do no more than a note. */
  predicate EventDoes(c: Counter, e: Event, d: Counter, out: seq<Report>) {
    match e
    case Interrupt(checked, at, level) =>
      if c.counts == 0 then PublishDoes(c, level, at, d, out)
      else if checked - c.previous < 1_001_000 then d == c.(debouncing := true) && out == []
      else PublishDoes(c.(debouncing := false), level, at, d, out)
    case Sweep(seen, at, level) =>
      if seen < 0 || seen == c.cached then d == c && out == [] else PublishDoes(c, level, at, d, out)
  }

  lemma {:induction false} SpanIsMeasured(from: Time, to: Time)
    ensures IsSpan(from, to, Unsigned(Microseconds(from, to)))
    ensures Unsigned(Microseconds(from, to)) < DELAY <==> -1000 < to - from < 200_000_000
  {
    var back := (from - to) / 1000;
    if to < from && back > 0 {
      assert Unsigned(-back) == 0x1_0000_0000_0000_0000 - back;
    }
  }

  lemma {:induction false} PublishedDoes(c: Counter, level: Level, now: Time)
    ensures var (d, r) := Published(c, level, now); PublishDoes(c, level, now, d, Reports(r))
  {
    SpanIsMeasured(c.previous, now);
  }

  lemma {:induction false} BounceLimit(from: Time, to: Time)
    ensures Microseconds(from, to) <= DEBOUNCE <==> to - from < 1_001_000
  {
  }

  /** Every event, on any counter. */
  lemma {:induction false} StepDoes(c: Counter, e: Event)
    ensures var (d, r) := Step(c, e); EventDoes(c, e, d, Reports(r))
  {
    match e {
      case Interrupt(checked, at, level) =>
        BounceLimit(c.previous, checked);
        PublishedDoes(Debounced(c, checked), level, at);
      case Sweep(_, at, level) => PublishedDoes(c, level, at);
    }
  }

  class GpioCounter {
    const fd: int
    const edge: Edge
    var firstTime: bool
    var cachedValue: Level
    var previousInterruptTime: Time
    var interval: nat
    var counts: nat
    var debouncing: bool
    var published: seq<Report>

    constructor (fd: int, edge: Edge)
      ensures this.fd == fd && State() == Fresh(edge) && published == []
    {
      this.fd, this.edge := fd, edge;
      firstTime, cachedValue, previousInterruptTime, interval, counts := true, -1, 0, 0, 0;
      debouncing, published := true, [];
    }

    function State(): Counter
      reads this
    {
      Counter(firstTime, cachedValue, previousInterruptTime, interval, counts, debouncing, edge)
    }

    /** `level` is what the line reads as now. */
    method GetValue(level: Level) returns (value: Level)
      modifies this`cachedValue
      ensures value == level && State() == Cached(old(State()), level)
    {
      if level < 0 { return -1; }
      cachedValue := level;
      return level;
    }

    method IsDebouncing(now: Time) returns (r: bool)
      modifies this`debouncing
      ensures r == DropsAsBounce(old(State()), now) && State() == Debounced(old(State()), now)
      ensures r <==> counts != 0 && now - previousInterruptTime < 1_001_000
      ensures debouncing == if counts == 0 then old(debouncing) else r
    {
      BounceLimit(previousInterruptTime, now);
      if counts == 0 { return false; }
      var debouncingInterval := Microseconds(previousInterruptTime, now);
      debouncing := debouncingInterval <= DEBOUNCE;
      return debouncing;
    }

    method GetInterval(now: Time) returns (accepted: bool)
      modifies this`interval, this`counts, this`previousInterruptTime
      ensures accepted == Counted(old(State()), now).Some?
      ensures State() == if accepted then Counted(old(State()), now).value else old(State())
      ensures accepted <==> !TooSoon(old(State()), now)
      ensures accepted && old(counts) != 0 ==> IsSpan(old(previousInterruptTime), now, interval)
    {
      SpanIsMeasured(previousInterruptTime, now);
      if counts != 0 {
        var measured := Unsigned(Microseconds(previousInterruptTime, now));
        if measured < DELAY { return false; }
        interval := measured;
        counts := counts + 1;
        previousInterruptTime := now;
      } else {
        counts := 1;
        previousInterruptTime := now;
      }
      return true;
    }

    method GpioPublish(level: Level, now: Time)
      modifies this
      ensures State() == Published(old(State()), level, now).0
      ensures published == old(published) + Reports(Published(old(State()), level, now).1)
      ensures PublishDoes(old(State()), level, now, State(), published[|old(published)|..])
    {
      PublishedDoes(State(), level, now);
      if firstTime {
        firstTime := false;
        return;
      }
      var cached := cachedValue;
      var value := GetValue(level);
      if value != cached {
        if edge.Rising? && value == 0 { return; }
        if edge.Falling? && value == 1 { return; }
      }
      var accepted := GetInterval(now);
      if !accepted { return; }
      published := published + [Report(now, interval, counts)];
    }

    /** UpdateValue: publishes when the line differs from the cached value, which it puts back first. */
    method UpdateValue(seen: Level, at: Time, level: Level)
      modifies this
      ensures State() == Step(old(State()), Sweep(seen, at, level)).0
      ensures published == old(published) + Reports(Step(old(State()), Sweep(seen, at, level)).1)
      ensures EventDoes(old(State()), Sweep(seen, at, level), State(), published[|old(published)|..])
    {
      StepDoes(State(), Sweep(seen, at, level));
      var cached := cachedValue;
      var value := GetValue(seen);
      if value >= 0 {
        if cached < 0 || cached != value {
          cachedValue := cached;
          GpioPublish(level, at);
        }
      }
    }

    /** The inner loop of CatchInterrupts: handles the ready entries that carry this counter's descriptor. */
    method CatchInterrupts(ready: seq<(int, Event)>)
      requires forall i | 0 <= i < |ready| :: ready[i].1.Interrupt?
      modifies this
      ensures State() == Run(old(State()), Mine(ready, fd)).0
      ensures published == old(published) + Run(old(State()), Mine(ready, fd)).1
    {
      ghost var start, out := State(), published;
      ghost var done: seq<Report> := [];
      assert ready[0..] == ready;
      assert [] + Run(start, Mine(ready, fd)).1 == Run(start, Mine(ready, fd)).1;
      for i := 0 to |ready|
        invariant published == out + done
        invariant Run(start, Mine(ready, fd)) == Prepended(done, Run(State(), Mine(ready[i..], fd)))
      {
        ghost var before := State();
        MineCons(ready[i..], fd);
        assert ready[i..][0] == ready[i] && ready[i..][1..] == ready[i + 1..];
        if fd == ready[i].0 {
          ghost var r := Reports(Step(before, ready[i].1).1);
          PrependedTwice(done, r, Run(Step(before, ready[i].1).0, Mine(ready[i + 1..], fd)));
          RunCons(before, ready[i].1, Mine(ready[i + 1..], fd));
          Handle(ready[i].1);
          assert out + (done + r) == (out + done) + r;
          done := done + r;
        }
      }
      assert done + [] == done;
    }

    /** PublishValue after the debounce test, for one interrupt. */
    method Handle(e: Event)
      requires e.Interrupt?
      modifies this
      ensures State() == Step(old(State()), e).0
      ensures published == old(published) + Reports(Step(old(State()), e).1)
      ensures EventDoes(old(State()), e, State(), published[|old(published)|..])
    {
      StepDoes(State(), e);
      var bounce := IsDebouncing(e.checked);
      if !bounce {
        GpioPublish(e.level, e.at);
      }
    }
  }

  function Fresh(edge: Edge): Counter {
    Counter(true, -1, 0, 0, 0, true, edge)
  }

  function Reports(r: Option<Report>): seq<Report> {
    if r.Some? then [r.value] else []
  }

  function Mine(ready: seq<(int, Event)>, fd: int): seq<Event> {
    if ready == [] then []
    else if ready[0].0 == fd then [ready[0].1] + Mine(ready[1..], fd)
    else Mine(ready[1..], fd)
  }

  lemma {:induction false} MineCons(ready: seq<(int, Event)>, fd: int)
    requires ready != []
    ensures Mine(ready, fd) == (if ready[0].0 == fd then [ready[0].1] else []) + Mine(ready[1..], fd)
  {
  }

  /** Entries are taken in the order they came in: those of this descriptor and no others. */
  lemma {:induction false} MineInOrder(ready: seq<(int, Event)>, last: (int, Event), fd: int)
    ensures Mine([], fd) == []
    ensures Mine(ready + [last], fd) == Mine(ready, fd) + (if last.0 == fd then [last.1] else [])
    decreases |ready|
  {
    if ready == [] {
      assert ready + [last] == [last] && [last][1..] == [];
    } else {
      assert (ready + [last])[1..] == ready[1..] + [last];
      MineInOrder(ready[1..], last, fd);
    }
  }

  lemma {:induction false} RunCons(c: Counter, e: Event, rest: seq<Event>)
    ensures Run(c, [e] + rest) == Prepended(Reports(Step(c, e).1), Run(Step(c, e).0, rest))
  {
    assert ([e] + rest)[0] == e && ([e] + rest)[1..] == rest;
    assert [] + Run(Step(c, e).0, rest).1 == Run(Step(c, e).0, rest).1;
  }

  // ---------------------------------------------------------------- bound

  /** The clock does not go back between the readings of one event. */
  predicate InTime(from: Time, e: Event) {
    match e
    case Interrupt(checked, at, _) => from <= checked <= at
    case Sweep(_, at, _) => from <= at
  }

  /** Nor from one event to the next. */
  predicate Monotone(from: Time, events: seq<Event>)
    decreases |events|
  {
    events == [] || (InTime(from, events[0]) && Monotone(events[0].at, events[1..]))
  }

  function Latest(c: Counter): Option<Time> {
    if c.counts == 0 then None else Some(c.previous)
  }

  /** At least 200000 us lie between two moments. */
  predicate FarEnough(latest: Option<Time>, now: Time) {
    latest.Some? ==> now - latest.value >= 200_000_000
  }

  /** Numbered from n + 1, far enough apart, each with its interval in whole microseconds. */
  ghost predicate Spaced(latest: Option<Time>, n: nat, reports: seq<Report>)
    decreases |reports|
  {
    reports == [] ||
    (var r := reports[0];
     && r.counts == n + 1
     && FarEnough(latest, r.time)
     && (if latest.Some? then 1000 * r.interval <= r.time - latest.value < 1000 * r.interval + 1000
         else r.interval == 0)
     && Spaced(Some(r.time), n + 1, reports[1..]))
  }

  lemma {:induction false} UnsignedSpan(from: Time, to: Time)
    requires from <= to
    ensures var span := Unsigned(Microseconds(from, to));
            && 1000 * span <= to - from < 1000 * span + 1000
            && (span < DELAY <==> to - from < 200_000_000)
  {
  }

  lemma {:induction false} CountedSpacing(c: Counter, now: Time)
    requires c.counts == 0 ==> c.interval == 0
    requires c.counts != 0 ==> c.previous <= now
    ensures Counted(c, now).Some? <==> FarEnough(Latest(c), now)
    ensures Counted(c, now).Some? ==> Spaced(Latest(c), c.counts, [NewReport(Counted(c, now).value, now)])
    ensures Counted(c, now).Some? ==>
              Latest(Counted(c, now).value) == Some(now) && Counted(c, now).value.counts == c.counts + 1
    ensures Counted(c, now).Some? ==> Counted(c, now).value.firstTime == c.firstTime
  {
    if c.counts != 0 {
      UnsignedSpan(c.previous, now);
    }
  }

  /** What a step can report, and where it leaves the count and the time of the latest pulse. */
  lemma {:induction false} StepReports(c: Counter, e: Event)
    requires c.counts == 0 ==> c.interval == 0
    requires c.counts != 0 ==> c.previous <= e.at
    ensures Step(c, e).1.None? ==> Latest(Step(c, e).0) == Latest(c) && Step(c, e).0.counts == c.counts
    ensures Step(c, e).1.None? ==> Step(c, e).0.interval == c.interval
    ensures Step(c, e).1.Some? ==> Latest(Step(c, e).0) == Some(e.at) && Step(c, e).0.counts == c.counts + 1
    ensures Step(c, e).1.Some? ==> Spaced(Latest(c), c.counts, [Step(c, e).1.value])
    ensures Step(c, e).1.Some? ==> Step(c, e).1.value.time == e.at
    ensures Step(c, e).1.Some? <==>
              !c.firstTime && Handled(c, e) && !EndsPulse(c.edge, c.cached, e.level) && FarEnough(Latest(c), e.at)
  {
    match e
    case Interrupt(checked, at, level) => CountedSpacing(Cached(Debounced(c, checked), level), at);
    case Sweep(_, at, level) => CountedSpacing(Cached(c, level), at);
  }

  /** Whatever happens on the line, what is published is spaced and numbered without gaps. */
  lemma {:induction false} RunIsSpaced(c: Counter, from: Time, events: seq<Event>)
    requires c.counts == 0 ==> c.interval == 0
    requires c.counts != 0 ==> c.previous <= from
    requires Monotone(from, events)
    ensures Spaced(Latest(c), c.counts, Run(c, events).1)
    ensures Run(c, events).0.counts == c.counts + |Run(c, events).1|
    decreases |events|
  {
    if events != [] {
      var e := events[0];
      var (d, r) := Step(c, e);
      StepReports(c, e);
      RunIsSpaced(d, e.at, events[1..]);
      if r.Some? {
        assert ([r.value] + Run(d, events[1..]).1)[1..] == Run(d, events[1..]).1;
      }
    }
  }

  function Total(reports: seq<Report>): int {
    if reports == [] then 0 else reports[0].interval + Total(reports[1..])
  }

  /** Spacing and intervals add up over a whole stretch of pulses. */
  lemma {:induction false} SpacedTelescopes(first: Time, n: nat, reports: seq<Report>)
    requires Spaced(Some(first), n, reports)
    ensures var last := if reports == [] then first else Last(reports).time;
            && 200_000_000 * |reports| <= last - first
            && 1000 * Total(reports) <= last - first <= 1000 * Total(reports) + 999 * |reports|
    decreases |reports|
  {
    if reports != [] {
      SpacedTelescopes(reports[0].time, n + 1, reports[1..]);
      if |reports| > 1 {
        assert Last(reports[1..]) == Last(reports);
      }
    }
  }

  /**
   From start-up, over any run: the count is the number of pulses published, at
   most 1 + (last - first) / 200000 us of them, and the intervals add up to the
   time from the first pulse to the last, up to their rounding to microseconds.
   */
  lemma {:induction false} PulsesAreBounded(edge: Edge, from: Time, events: seq<Event>)
    requires Monotone(from, events)
    requires Run(Fresh(edge), events).1 != []
    ensures var (d, rs) := Run(Fresh(edge), events);
            var first, last := rs[0].time, Last(rs).time;
            && d.counts == |rs| == Last(rs).counts
            && rs[0].interval == 0
            && d.counts <= 1 + (last - first) / 200_000_000
            && 1000 * Total(rs) <= last - first <= 1000 * Total(rs) + 999 * (|rs| - 1)
  {
    var (d, rs) := Run(Fresh(edge), events);
    RunIsSpaced(Fresh(edge), from, events);
    SpacedTelescopes(rs[0].time, 1, rs[1..]);
    SpacedIsNumbered(None, 0, rs);
    if |rs| > 1 {
      assert Last(rs[1..]) == Last(rs);
    }
    DivideBound(Last(rs).time - rs[0].time, |rs| - 1);
  }

  lemma {:induction false} DivideBound(d: int, n: nat)
    requires 200_000_000 * n <= d
    ensures n <= d / 200_000_000
  {
  }

  lemma {:induction false} SpacedIsNumbered(latest: Option<Time>, n: nat, reports: seq<Report>)
    requires Spaced(latest, n, reports) && reports != []
    ensures Last(reports).counts == n + |reports|
    decreases |reports|
  {
    if |reports| > 1 {
      SpacedIsNumbered(Some(reports[0].time), n + 1, reports[1..]);
      assert Last(reports[1..]) == Last(reports);
    }
  }

  // ---------------------------------------------------------------- exactness

  /** The level of the line during a pulse; an edge setting of "both" fits any level. */
  predicate Active(edge: Edge, level: Level) {
    match edge
    case Rising => level == 1
    case Falling => level == 0
    case Both => true
  }

  /** The line was read, at another level than last time, and no pulse is on. */
  predicate LeavesActive(edge: Edge, before: Level, now: Level) {
    now >= 0 && now != before && !Active(edge, now)
  }

  /**
   Whether an event is noticed, judged by the level read last and the time of the
   latest pulse: an interrupt unless its check comes within 1000 us of that pulse,
   a turn of the sweep if it sees another level than the one read last.
   */
  predicate Noticed(before: Level, latest: Option<Time>, e: Event) {
    match e
    case Interrupt(checked, _, _) => latest.Some? ==> checked - latest.value >= 1_001_000
    case Sweep(seen, _, _) => seen >= 0 && seen != before
  }

  /** The level read last once an event has passed. */
  function LevelAfter(before: Level, latest: Option<Time>, e: Event): Level {
    if Noticed(before, latest, e) && e.level >= 0 then e.level else before
  }

  /** An event that marks a pulse: noticed, with the line active, at least 200000 us after the pulse before it. */
  predicate MarksPulse(edge: Edge, before: Level, latest: Option<Time>, e: Event) {
    Noticed(before, latest, e) && Active(edge, e.level) && FarEnough(latest, e.at)
  }

  /** An event besides the pulses: less than 200000 us after the latest one, or the end of a pulse, or unnoticed. */
  predicate Harmless(edge: Edge, before: Level, latest: Option<Time>, e: Event) {
    !FarEnough(latest, e.at) || LeavesActive(edge, before, e.level) || !Noticed(before, latest, e)
  }

  /** The labelled events mark the pulses and the others are harmless. This speaks of the events alone. */
  predicate TruePulses(edge: Edge, before: Level, latest: Option<Time>, events: seq<Event>, labels: seq<bool>)
    requires |labels| == |events|
    decreases |events|
  {
    events == [] ||
    (var e := events[0];
     && (if labels[0] then MarksPulse(edge, before, latest, e) else Harmless(edge, before, latest, e))
     && TruePulses(edge, LevelAfter(before, latest, e), if labels[0] then Some(e.at) else latest,
                   events[1..], labels[1..]))
  }

  /** Before any pulse: whatever is noticed shows the end of a pulse, starting from the level `before`. */
  predicate EndsOnly(edge: Edge, before: Level, events: seq<Event>)
    decreases |events|
  {
    events == [] ||
    (var e := events[0];
     && (Noticed(before, None, e) ==> LeavesActive(edge, before, e.level))
     && EndsOnly(edge, LevelAfter(before, None, e), events[1..]))
  }

  /** The level read last after events before any pulse. */
  function LevelAfterAll(before: Level, events: seq<Event>): Level
    decreases |events|
  {
    if events == [] then before else LevelAfterAll(LevelAfter(before, None, events[0]), events[1..])
  }

  /** Which events lead to a report. */
  function Reported(c: Counter, events: seq<Event>): (r: seq<bool>)
    ensures |r| == |events|
    decreases |events|
  {
    if events == [] then [] else [Step(c, events[0]).1.Some?] + Reported(Step(c, events[0]).0, events[1..])
  }

  function PulseTimes(events: seq<Event>, labels: seq<bool>): seq<int>
    requires |labels| == |events|
  {
    if events == [] then []
    else (if labels[0] then [events[0].at] else []) + PulseTimes(events[1..], labels[1..])
  }

  function Times(reports: seq<Report>): seq<int> {
    if reports == [] then [] else [reports[0].time] + Times(reports[1..])
  }

  lemma {:induction false} SameLabels(a: bool, s: seq<bool>, labels: seq<bool>)
    requires labels != []
    ensures [a] + s == labels <==> a == labels[0] && s == labels[1..]
  {
    assert labels == [labels[0]] + labels[1..];
    assert ([a] + s)[1..] == s;
  }

  /** A counter that is past its swallowed call, with the clock not behind its latest pulse. */
  predicate Running(c: Counter, from: Time) {
    && !c.firstTime
    && (c.counts == 0 ==> c.interval == 0)
    && (c.counts != 0 ==> c.previous <= from)
  }

  /** The counter's state follows the events: what it caches, what it handles, and when it reports. */
  lemma {:induction false} StepFollowsEvents(c: Counter, from: Time, e: Event)
    requires Running(c, from) && InTime(from, e)
    ensures var (d, r) := Step(c, e);
            var latest := Latest(c);
            && Running(d, e.at) && d.edge == c.edge
            && d.cached == LevelAfter(c.cached, latest, e)
            && Latest(d) == (if r.Some? then Some(e.at) else latest)
            && (r.Some? <==> Noticed(c.cached, latest, e) && !LeavesActive(c.edge, c.cached, e.level)
                             && FarEnough(latest, e.at))
  {
    StepReports(c, e);
  }

  /**
   An event is reported if and only if it is noticed, at least 200 ms after the latest
   report, and not one that reads the line as it leaves the active level.
   */
  predicate Judged(edge: Edge, before: Level, latest: Option<Time>, events: seq<Event>, reported: seq<bool>)
    requires |reported| == |events|
    decreases |events|
  {
    events == [] ||
    (var e := events[0];
     && (reported[0] <==> Noticed(before, latest, e) && FarEnough(latest, e.at)
                          && !(e.level >= 0 && e.level != before && !Active(edge, e.level)))
     && Judged(edge, LevelAfter(before, latest, e), if reported[0] then Some(e.at) else latest,
               events[1..], reported[1..]))
  }

  /** Every run, whatever happens on the line: in particular no end of a pulse is ever reported. */
  lemma {:induction false} ReportsAreJudged(c: Counter, from: Time, events: seq<Event>)
    requires Running(c, from) && Monotone(from, events)
    ensures Judged(c.edge, c.cached, Latest(c), events, Reported(c, events))
    decreases |events|
  {
    if events != [] {
      StepFollowsEvents(c, from, events[0]);
      ReportsAreJudged(Step(c, events[0]).0, events[0].at, events[1..]);
      assert Reported(c, events)[1..] == Reported(Step(c, events[0]).0, events[1..]);
    }
  }

  /** Exactly the true pulses are reported. */
  lemma {:induction false} TruePulsesAreReported(c: Counter, from: Time, events: seq<Event>, labels: seq<bool>)
    requires Running(c, from) && |labels| == |events| && Monotone(from, events)
    requires TruePulses(c.edge, c.cached, Latest(c), events, labels)
    ensures Reported(c, events) == labels
    decreases |events|
  {
    if events != [] {
      var e := events[0];
      StepFollowsEvents(c, from, e);
      TruePulsesAreReported(Step(c, e).0, e.at, events[1..], labels[1..]);
      SameLabels(Step(c, e).1.Some?, Reported(Step(c, e).0, events[1..]), labels);
    }
  }

  /**
   A line with bounces only: every event is an interrupt; the pulses, with the line
   active, are at least 200000 us apart, and every other interrupt follows a pulse sooner.
   */
  predicate PulsesWithBounces(edge: Edge, latest: Option<Time>, events: seq<Event>, labels: seq<bool>)
    requires |labels| == |events|
    decreases |events|
  {
    events == [] ||
    (var e := events[0];
     && e.Interrupt?
     && (if labels[0] then Active(edge, e.level) && FarEnough(latest, e.checked) else !FarEnough(latest, e.at))
     && PulsesWithBounces(edge, if labels[0] then Some(e.at) else latest, events[1..], labels[1..]))
  }

  /** Such a line is counted exactly: the 1000 us test drops none of its pulses, and no bounce is counted. */
  lemma {:induction false} BouncesAreNotCounted(c: Counter, from: Time, events: seq<Event>, labels: seq<bool>)
    requires Running(c, from) && |labels| == |events| && Monotone(from, events)
    requires PulsesWithBounces(c.edge, Latest(c), events, labels)
    ensures Reported(c, events) == labels
  {
    WithBouncesAreTrue(c.edge, c.cached, Latest(c), from, events, labels);
    TruePulsesAreReported(c, from, events, labels);
  }

  lemma {:induction false} WithBouncesAreTrue(edge: Edge, before: Level, latest: Option<Time>, from: Time,
          events: seq<Event>, labels: seq<bool>)
    requires |labels| == |events| && Monotone(from, events) && PulsesWithBounces(edge, latest, events, labels)
    ensures TruePulses(edge, before, latest, events, labels)
    decreases |events|
  {
    if events != [] {
      var e := events[0];
      WithBouncesAreTrue(edge, LevelAfter(before, latest, e), if labels[0] then Some(e.at) else latest, e.at,
                         events[1..], labels[1..]);
    }
  }

  function Falses(n: nat): seq<bool> {
    seq(n, _ => false)
  }

  /**
   Before the first pulse nothing but pulse ends must be noticed: events `pre`,
   followed by a stretch whose true pulses are labelled, are reported as labelled,
   and none of `pre` is, if and only if `pre` shows only ends.
   */
  lemma {:induction false} ReportedAsLabelledIff(c: Counter, from: Time, pre: seq<Event>, rest: seq<Event>,
          labels: seq<bool>)
    requires Running(c, from) && c.counts == 0 && |labels| == |rest| && Monotone(from, pre + rest)
    requires TruePulses(c.edge, LevelAfterAll(c.cached, pre), None, rest, labels)
    ensures Reported(c, pre + rest) == Falses(|pre|) + labels <==> EndsOnly(c.edge, c.cached, pre)
    decreases |pre|
  {
    if pre == [] {
      assert pre + rest == rest && Falses(0) + labels == labels;
      TruePulsesAreReported(c, from, rest, labels);
    } else {
      var e := pre[0];
      var d := Step(c, e).0;
      assert (pre + rest)[0] == e && (pre + rest)[1..] == pre[1..] + rest;
      StepFollowsEvents(c, from, e);
      SameLabels(Step(c, e).1.Some?, Reported(d, pre[1..] + rest), Falses(|pre|) + labels);
      assert (Falses(|pre|) + labels)[1..] == Falses(|pre[1..]|) + labels;
      if Step(c, e).1.None? {
        ReportedAsLabelledIff(d, e.at, pre[1..], rest, labels);
      }
    }
  }

  /** With no pulse to come, nothing is counted if and only if the events show only ends. */
  lemma {:induction false} NothingIsCountedIff(c: Counter, from: Time, pre: seq<Event>)
    requires Running(c, from) && c.counts == 0 && Monotone(from, pre)
    ensures (forall i | 0 <= i < |pre| :: !Reported(c, pre)[i]) <==> EndsOnly(c.edge, c.cached, pre)
  {
    assert pre + [] == pre && Falses(|pre|) + [] == Falses(|pre|);
    ReportedAsLabelledIff(c, from, pre, [], []);
    var r := Reported(c, pre);
    if forall i | 0 <= i < |pre| :: !r[i] { assert r == Falses(|pre|); }
    assert forall i | 0 <= i < |pre| :: !Falses(|pre|)[i];
  }

  lemma {:induction false} ReportTimes(c: Counter, from: Time, events: seq<Event>)
    requires c.counts == 0 ==> c.interval == 0
    requires c.counts != 0 ==> c.previous <= from
    requires Monotone(from, events)
    ensures Times(Run(c, events).1) == PulseTimes(events, Reported(c, events))
    decreases |events|
  {
    if events != [] {
      var e := events[0];
      var (d, r) := Step(c, e);
      StepReports(c, e);
      ReportTimes(d, e.at, events[1..]);
      assert Reported(c, events)[1..] == Reported(d, events[1..]);
      if r.Some? {
        assert ([r.value] + Run(d, events[1..]).1)[1..] == Run(d, events[1..]).1;
      }
    }
  }

  lemma {:induction false} NoPulseTimes(pre: seq<Event>, rest: seq<Event>, labels: seq<bool>)
    requires |labels| == |rest|
    ensures |Falses(|pre|) + labels| == |pre + rest|
    ensures PulseTimes(pre + rest, Falses(|pre|) + labels) == PulseTimes(rest, labels)
    decreases |pre|
  {
    if pre == [] {
      assert pre + rest == rest && Falses(0) + labels == labels;
    } else {
      NoPulseTimes(pre[1..], rest, labels);
      assert (pre + rest)[1..] == pre[1..] + rest;
      assert (Falses(|pre|) + labels)[1..] == Falses(|pre[1..]|) + labels;
    }
  }

  /**
   A whole run from start-up: a first noticed event, which is swallowed, then events
   `pre`, then a stretch whose true pulses are labelled. Exactly those pulses are
   counted, each at its own time, if and only if `pre` shows only ends of pulses.
   */
  lemma {:induction false} CountIsExact(c: Counter, from: Time, e: Event, pre: seq<Event>, rest: seq<Event>,
          labels: seq<bool>)
    requires c.firstTime && c.counts == 0 && c.interval == 0 && Noticed(c.cached, None, e)
    requires |labels| == |rest| && InTime(from, e) && Monotone(e.at, pre + rest)
    requires TruePulses(c.edge, LevelAfterAll(c.cached, pre), None, rest, labels)
    ensures var (d, rs) := Run(c, [e] + (pre + rest));
            var wanted := [false] + (Falses(|pre|) + labels);
            && (Reported(c, [e] + (pre + rest)) == wanted <==> EndsOnly(c.edge, c.cached, pre))
            && (EndsOnly(c.edge, c.cached, pre) ==>
                  Times(rs) == PulseTimes(rest, labels) && d.counts == |PulseTimes(rest, labels)|)
  {
    var swallowed := c.(firstTime := false);
    var events := pre + rest;
    assert Step(c, e) == (swallowed, None);
    assert ([e] + events)[1..] == events;
    ReportedAsLabelledIff(swallowed, e.at, pre, rest, labels);
    SameLabels(false, Reported(swallowed, events), [false] + (Falses(|pre|) + labels));
    ReportTimes(swallowed, e.at, events);
    NoPulseTimes(pre, rest, labels);
    RunIsSpaced(swallowed, e.at, events);
    TimesLength(Run(swallowed, events).1);
    RunCons(c, e, events);
    assert [] + Run(swallowed, events).1 == Run(swallowed, events).1;
  }

  lemma {:induction false} TimesLength(reports: seq<Report>)
    ensures |Times(reports)| == |reports|
  {
    if reports != [] {
      TimesLength(reports[1..]);
    }
  }

  /**
   The swallowed event starts no dead time: its own bounce 20 us later counts as a
   pulse, and the next true pulse, coming 150 ms later, is then dropped.
   */
  lemma {:induction false} BounceOfSwallowedPulseIsCounted()
    ensures var c := Fresh(Rising).(cached := 0);
            var first := Interrupt(0, 0, 1);
            var bounce := Interrupt(20_000, 20_000, 1);
            var pulse := Interrupt(150_000_000, 150_000_000, 1);
            && Run(c, [first, bounce, pulse]).1 == [Report(20_000, 0, 1)]
            && !EndsOnly(Rising, 0, [bounce])
            && TruePulses(Rising, LevelAfterAll(0, [bounce]), None, [pulse], [true])
  {
    var c := Fresh(Rising).(cached := 0);
    var first, bounce := Interrupt(0, 0, 1), Interrupt(20_000, 20_000, 1);
    var pulse := Interrupt(150_000_000, 150_000_000, 1);
    assert [first, bounce, pulse] == [first] + ([bounce] + ([pulse] + []));
    RunCons(c, first, [bounce] + ([pulse] + []));
    RunCons(Step(c, first).0, bounce, [pulse] + []);
    RunCons(Step(Step(c, first).0, bounce).0, pulse, []);
  }
}
