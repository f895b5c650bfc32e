/**
 Publishing by two threads, wb-homa-modbus/modbus_port.cpp:90-150: the MQTT thread sets
 a register and then publishes the message; the bus loop adopts a reading, reads the
 cache again and then publishes that. Neither publishes under the mutex of the cache.

 One channel with one register that has been read before. Every change of the cache
 gets a new version, so that a snapshot tells which change it shows.
 */
module PortRace {
  import opened Common

  datatype Snapshot = Snapshot(value: int, version: nat)

  /** Where the bus loop stands: between polls, about to read the cache for its callback, or about to publish. */
  datatype Loop = Idle | Noticed | Loaded(text: Snapshot)

  /** `message` is what the MQTT thread has set and not yet published; `topic` is what the broker retains. */
  datatype State = State(cache: Snapshot, dirty: bool, message: Option<Snapshot>, loop: Loop, topic: Snapshot)

  datatype Event =
    | Set(v: int) | Announce
    | Clear | Adopt(v: int) | Keep | Load | Publish

  predicate Enabled(s: State, e: Event) {
    match e
    case Set(_) => s.message.None?
    case Announce => s.message.Some?
    case Clear => s.loop.Idle?
    case Adopt(v) => s.loop.Idle? && !s.dirty
    case Keep => s.loop.Idle? && s.dirty
    case Load => s.loop.Noticed?
    case Publish => s.loop.Loaded?
  }

  function Changed(s: State, v: int): Snapshot {
    Snapshot(v, s.cache.version + 1)
  }

  /** Clear is Flush taking the dirty mark; Keep is a poll that reports a reading but finds a newer set. */
  function Next(s: State, e: Event): State
    requires Enabled(s, e)
  {
    match e
    case Set(v) => s.(cache := Changed(s, v), dirty := true, message := Some(Changed(s, v)))
    case Announce => s.(topic := s.message.value, message := None)
    case Clear => s.(dirty := false)
    case Adopt(v) => s.(cache := Changed(s, v), loop := Noticed)
    case Keep => s.(loop := Noticed)
    case Load => s.(loop := Loaded(s.cache))
    case Publish => s.(topic := s.loop.text, loop := Idle)
  }

  function Front(run: seq<Event>): seq<Event>
    requires run != []
  {
    run[..|run| - 1]
  }

  predicate Possible(s: State, run: seq<Event>)
    decreases |run|, 0
  {
    run == [] || (Possible(s, Front(run)) && Enabled(After(s, Front(run)), Last(run)))
  }

  function After(s: State, run: seq<Event>): State
    requires Possible(s, run)
    decreases |run|, 1
  {
    if run == [] then s else Next(After(s, Front(run)), Last(run))
  }

  /** Nothing is under way, and the topic shows the cache. */
  predicate Settled(s: State) {
    s.message.None? && s.loop.Idle? && s.topic == s.cache
  }

  // ----- What can be read off the order of events -----

  /** How many events there are up to and including the last change of the cache. */
  function LastChange(run: seq<Event>): (n: nat)
    ensures n <= |run|
  {
    if run == [] then 0 else if Last(run).Set? || Last(run).Adopt? then |run| else LastChange(Front(run))
  }

  function LastSet(run: seq<Event>): (n: nat)
    ensures n <= |run|
  {
    if run == [] then 0 else if Last(run).Set? then |run| else LastSet(Front(run))
  }

  function LastLoad(run: seq<Event>): (n: nat)
    ensures n <= |run|
  {
    if run == [] then 0 else if Last(run).Load? then |run| else LastLoad(Front(run))
  }

  /** How many events there are up to the one by which the thread that published last had taken its value. */
  function Shown(run: seq<Event>): (n: nat)
    ensures n <= |run|
  {
    if run == [] then 0
    else if Last(run).Announce? then LastSet(Front(run))
    else if Last(run).Publish? then LastLoad(Front(run))
    else Shown(Front(run))
  }

  // ----- The topic shows what its last publisher had taken -----

  lemma {:induction false} PrefixIsPossible(s: State, run: seq<Event>, n: nat)
    requires Possible(s, run) && n <= |run|
    ensures Possible(s, run[..n])
    decreases |run|
  {
    if n == |run| {
      assert run[..n] == run;
    } else {
      assert run[..n] == Front(run)[..n];
      PrefixIsPossible(s, Front(run), n);
    }
  }

  /** The cache after the first `n` events. */
  function CacheAt(s: State, run: seq<Event>, n: nat): Snapshot
    requires Possible(s, run) && n <= |run|
  {
    PrefixIsPossible(s, run, n);
    After(s, run[..n]).cache
  }

  lemma {:induction false} CacheAtFront(s: State, run: seq<Event>, n: nat)
    requires Possible(s, run) && run != [] && n < |run|
    ensures CacheAt(s, run, n) == CacheAt(s, Front(run), n)
  {
    assert run[..n] == Front(run)[..n];
  }

  lemma {:induction false} CacheAtEnd(s: State, run: seq<Event>)
    requires Possible(s, run)
    ensures CacheAt(s, run, |run|) == After(s, run).cache
  {
    assert run[..|run|] == run;
  }

  /** What each thread holds, and what the topic shows, is the cache as it was when it was taken. */
  predicate Taken(s: State, run: seq<Event>)
    requires Possible(s, run)
  {
    var t := After(s, run);
    && (t.message.Some? ==> t.message.value == CacheAt(s, run, LastSet(run)))
    && (t.loop.Loaded? ==> t.loop.text == CacheAt(s, run, LastLoad(run)))
    && t.topic == CacheAt(s, run, Shown(run))
  }

  lemma {:induction false} StepKeepsTaken(s: State, run: seq<Event>)
    requires Possible(s, run) && run != [] && Taken(s, Front(run))
    ensures Taken(s, run)
  {
    var f := Front(run);
    CacheAtEnd(s, run);
    CacheAtEnd(s, f);
    CacheAtFront(s, run, LastSet(f));
    CacheAtFront(s, run, LastLoad(f));
    CacheAtFront(s, run, Shown(f));
  }

  lemma {:induction false} SnapshotsAreTaken(s: State, run: seq<Event>)
    requires Settled(s) && Possible(s, run)
    ensures Taken(s, run)
    decreases |run|
  {
    if run == [] {
      CacheAtEnd(s, run);
    } else {
      SnapshotsAreTaken(s, Front(run));
      StepKeepsTaken(s, run);
    }
  }

  /** The version of the cache tells whether there was a change after the first `n` events. */
  lemma {:induction false} VersionsTellChanges(s: State, run: seq<Event>, n: nat)
    requires Possible(s, run) && n <= |run|
    ensures CacheAt(s, run, n).version <= After(s, run).cache.version
    ensures CacheAt(s, run, n) == After(s, run).cache <==> LastChange(run) <= n
    decreases |run|
  {
    CacheAtEnd(s, run);
    if n < |run| {
      CacheAtFront(s, run, n);
      VersionsTellChanges(s, Front(run), n);
    }
  }

  /**
   In every interleaving: the topic shows the cache if and only if the thread that
   published last had taken its value after the last change of the cache.
   */
  lemma {:induction false} TopicIsCurrentIff(s: State, run: seq<Event>)
    requires Settled(s) && Possible(s, run)
    ensures var t := After(s, run); t.topic == t.cache <==> LastChange(run) <= Shown(run)
  {
    SnapshotsAreTaken(s, run);
    VersionsTellChanges(s, run, Shown(run));
  }

  lemma {:induction false} Grown(s: State, run: seq<Event>, e: Event)
    requires Possible(s, run) && Enabled(After(s, run), e)
    ensures Possible(s, run + [e]) && After(s, run + [e]) == Next(After(s, run), e)
  {
    assert Front(run + [e]) == run;
  }

  /** One thread handles a change from beginning to end while the other does nothing. */
  datatype Handling = Message(v: int) | Poll(v: int) | Flush

  function Steps(h: Handling, dirty: bool): seq<Event> {
    match h
    case Message(v) => [Set(v)] + [Announce]
    case Poll(v) => (if dirty then [Keep] else [Adopt(v)]) + [Load] + [Publish]
    case Flush => [Clear]
  }

  lemma {:induction false} HandlingSettles(s: State, h: Handling)
    requires Settled(s)
    ensures Possible(s, Steps(h, s.dirty)) && Settled(After(s, Steps(h, s.dirty)))
  {
    match h {
      case Message(v) =>
        Grown(s, [], Set(v));
        assert [] + [Set(v)] == [Set(v)];
        Grown(s, [Set(v)], Announce);
      case Poll(v) =>
        var e := if s.dirty then Keep else Adopt(v);
        Grown(s, [], e);
        assert [] + [e] == [e];
        Grown(s, [e], Load);
        Grown(s, [e] + [Load], Publish);
      case Flush =>
        Grown(s, [], Clear);
        assert [] + [Clear] == [Clear];
    }
  }

  /** Any number of handlings, one after the other. */
  function AfterAll(s: State, hs: seq<Handling>): State
    requires Settled(s)
    decreases |hs|
  {
    if hs == [] then s
    else
      HandlingSettles(s, hs[0]);
      AfterAll(After(s, Steps(hs[0], s.dirty)), hs[1..])
  }

  /** Handled one at a time, changes always leave the topic showing the cache. */
  lemma {:induction false} SerialHandlingsSettle(s: State, hs: seq<Handling>)
    requires Settled(s)
    ensures Settled(AfterAll(s, hs))
    decreases |hs|
  {
    if hs != [] {
      HandlingSettles(s, hs[0]);
      SerialHandlingsSettle(After(s, Steps(hs[0], s.dirty)), hs[1..]);
    }
  }

  /**
   Two runs after which both threads are done and the topic shows an old value: a message
   comes in between reading the cache and publishing it, or a poll between set and publish.
   No later step is due that would correct it.
   */
  lemma {:induction false} OvertakenTopicIsStale(s: State)
    requires Settled(s) && !s.dirty
    ensures var run := [Adopt(1)] + [Load] + [Set(2)] + [Announce] + [Publish];
            && Possible(s, run) && After(s, run).message.None? && After(s, run).loop.Idle?
            && After(s, run).topic.value == 1 && After(s, run).cache.value == 2
    ensures var run := [Set(1)] + [Clear] + [Adopt(2)] + [Load] + [Publish] + [Announce];
            && Possible(s, run) && After(s, run).message.None? && After(s, run).loop.Idle?
            && After(s, run).topic.value == 1 && After(s, run).cache.value == 2
  {
    Grown(s, [], Adopt(1));
    assert [] + [Adopt(1)] == [Adopt(1)];
    var r := [Adopt(1)] + [Load];
    Grown(s, [Adopt(1)], Load);
    Grown(s, r, Set(2));
    Grown(s, r + [Set(2)], Announce);
    Grown(s, r + [Set(2)] + [Announce], Publish);
    Grown(s, [], Set(1));
    assert [] + [Set(1)] == [Set(1)];
    var q := [Set(1)] + [Clear];
    Grown(s, [Set(1)], Clear);
    Grown(s, q, Adopt(2));
    Grown(s, q + [Adopt(2)], Load);
    Grown(s, q + [Adopt(2)] + [Load], Publish);
    Grown(s, q + [Adopt(2)] + [Load] + [Publish], Announce);
  }
}
