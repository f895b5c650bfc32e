/**
 The register cache shared by two threads, wb-homa-modbus/modbus_client.cpp.

 The MQTT thread runs SetRawValue under a mutex; the bus loop runs Flush and
 Poll, which touch `value` and `dirty` partly inside and partly outside that
 mutex. The protocol is modelled as a transition system with one event for
 each access to shared state, under sequential consistency. The bus is free to
 fail any read or write and to answer a read with any value.
 */
module HandlerProtocol {
  import opened Common
  import opened ModbusRegisters

  datatype Holder = Free | BySetter | ByLoop

  /** Where SetRawValue stands. Several setters queue on the mutex, so one counter is enough. */
  datatype SetterPc = SetterOut | SetterLocked(arg: int) | SetterStored | SetterMarked

  /** Where the bus loop stands: between calls, inside Flush, or inside Poll. */
  datatype LoopPc =
    | Between
    | FlushLocked
    | FlushCleared
    | FlushUnlocked
    | FlushWriting(data: Word)
    | PollReading
    | PollGot(reading: int)
    | PollLocked(reading: int)
    | PollCompared

  /** An attempted bus write. */
  datatype Attempt = Attempt(data: Word, ok: bool)

  /** `sets`, `attempts` and `slave` record what happened; the driver does not read them. */
  datatype State = State(
    lock: Holder, value: int, dirty: bool, setter: SetterPc, loop: LoopPc,
    sets: seq<int>, attempts: seq<Attempt>, slave: Word)

  datatype Event =
    | SetLock(v: int) | SetStore | SetMark | SetUnlock
    | FlushLock | FlushTest | FlushUnlock | FlushLoad | FlushWrite(ok: bool)
    | PollCheck | PollRead(answer: Option<int>) | PollLock | PollCompare | PollUnlock

  function Initial(slave: Word): State {
    State(Free, 0, false, SetterOut, Between, [], [], slave)
  }

  predicate Enabled(s: State, e: Event) {
    match e
    case SetLock(_) => s.setter.SetterOut? && s.lock.Free?
    case SetStore => s.setter.SetterLocked?
    case SetMark => s.setter.SetterStored?
    case SetUnlock => s.setter.SetterMarked?
    case FlushLock => s.loop.Between? && s.lock.Free?
    case FlushTest => s.loop.FlushLocked?
    case FlushUnlock => s.loop.FlushCleared?
    case FlushLoad => s.loop.FlushUnlocked?
    case FlushWrite(_) => s.loop.FlushWriting?
    case PollCheck => s.loop.Between?
    case PollRead(_) => s.loop.PollReading?
    case PollLock => s.loop.PollGot? && s.lock.Free?
    case PollCompare => s.loop.PollLocked?
    case PollUnlock => s.loop.PollCompared?
  }

  function Apply(reg: Register, s: State, e: Event): State
    requires Enabled(s, e)
  {
    match e
    case SetLock(v) => s.(lock := BySetter, setter := SetterLocked(v))
    case SetStore => s.(value := s.setter.arg, sets := s.sets + [s.setter.arg], setter := SetterStored)
    case SetMark => s.(dirty := true, setter := SetterMarked)
    case SetUnlock => s.(lock := Free, setter := SetterOut)
    case FlushLock => s.(lock := ByLoop, loop := FlushLocked)
    case FlushTest =>
      if s.dirty then s.(dirty := false, loop := FlushCleared) else s.(lock := Free, loop := Between)
    case FlushUnlock => s.(lock := Free, loop := FlushUnlocked)
    case FlushLoad => s.(loop := FlushWriting(ToSlave(reg.format, s.value)))
    case FlushWrite(ok) =>
      s.(loop := Between, attempts := s.attempts + [Attempt(s.loop.data, ok)],
         slave := if ok then s.loop.data else s.slave)
    case PollCheck => if !reg.poll || s.dirty then s else s.(loop := PollReading)
    case PollRead(answer) => s.(loop := if answer.Some? then PollGot(answer.value) else Between)
    case PollLock => s.(lock := ByLoop, loop := PollLocked(s.loop.reading))
    case PollCompare =>
      s.(loop := PollCompared,
         value := if s.value != s.loop.reading && !s.dirty then s.loop.reading else s.value)
    case PollUnlock => s.(lock := Free, loop := Between)
  }

  /** Every event of `run` is enabled when its turn comes. */
  predicate Possible(reg: Register, s: State, run: seq<Event>)
    decreases |run|
  {
    run == [] || (Enabled(s, run[0]) && Possible(reg, Apply(reg, s, run[0]), run[1..]))
  }

  function After(reg: Register, s: State, run: seq<Event>): State
    requires Possible(reg, s, run)
    decreases |run|
  {
    if run == [] then s else After(reg, Apply(reg, s, run[0]), run[1..])
  }

  // ----- The invariant of every reachable state -----

  predicate LockConsistent(s: State) {
    && (s.lock.BySetter? <==> !s.setter.SetterOut?)
    && (s.lock.ByLoop? <==> s.loop.FlushLocked? || s.loop.FlushCleared? || s.loop.PollLocked? || s.loop.PollCompared?)
  }

  /** A set that has reached `value` and still owes the slave a write. */
  predicate Owed(s: State) {
    s.dirty || s.setter.SetterStored? || s.loop.FlushCleared? || s.loop.FlushUnlocked?
  }

  /** The last set is in `value`, or in the write under way, or was carried by the latest attempt. */
  predicate LastSetKept(reg: Register, s: State) {
    if s.sets == [] then !Owed(s) && !s.loop.FlushWriting? && s.attempts == []
    else if Owed(s) then s.value == Last(s.sets)
    else if s.loop.FlushWriting? then s.loop.data == ToSlave(reg.format, Last(s.sets))
    else s.attempts != [] && Last(s.attempts).data == ToSlave(reg.format, Last(s.sets))
  }

  predicate Inv(reg: Register, s: State) {
    && LockConsistent(s)
    && (s.setter.SetterMarked? ==> s.dirty)
    && LastSetKept(reg, s)
  }

  lemma {:induction false} StepKeepsInv(reg: Register, s: State, e: Event)
    requires Inv(reg, s) && Enabled(s, e)
    ensures Inv(reg, Apply(reg, s, e))
  {
  }

  /** No set is lost or overwritten, in any interleaving of the two threads. */
  lemma {:induction false} NoSetIsLost(reg: Register, s: State, run: seq<Event>)
    requires Inv(reg, s) && Possible(reg, s, run)
    ensures Inv(reg, After(reg, s, run))
    decreases |run|
  {
    if run != [] {
      StepKeepsInv(reg, s, run[0]);
      NoSetIsLost(reg, Apply(reg, s, run[0]), run[1..]);
    }
  }

  predicate ByTheLoop(e: Event) {
    !(e.SetLock? || e.SetStore? || e.SetMark? || e.SetUnlock?)
  }

  /** While a set is owed, nothing the bus loop does changes `value`. */
  lemma {:induction false} LoopNeverOverwritesAnOwedSet(reg: Register, slave: Word, run: seq<Event>, e: Event)
    requires Possible(reg, Initial(slave), run)
    requires var s := After(reg, Initial(slave), run); Enabled(s, e) && ByTheLoop(e) && Owed(s)
    ensures var s := After(reg, Initial(slave), run); Apply(reg, s, e).value == s.value
  {
    NoSetIsLost(reg, Initial(slave), run);
  }

  predicate NotPolling(s: State) {
    !s.loop.PollReading? && !s.loop.PollGot? && !s.loop.PollLocked? && !s.loop.PollCompared?
  }

  /** A register that is not polled is never read, and always caches the last set, or 0 before the first. */
  lemma {:induction false} UnpolledCachesLastSet(reg: Register, s: State, run: seq<Event>)
    requires !reg.poll && NotPolling(s) && s.value == (if s.sets == [] then 0 else Last(s.sets))
    requires Possible(reg, s, run)
    ensures var t := After(reg, s, run); NotPolling(t) && t.value == if t.sets == [] then 0 else Last(t.sets)
    decreases |run|
  {
    if run != [] {
      UnpolledCachesLastSet(reg, Apply(reg, s, run[0]), run[1..]);
    }
  }

  /** A set is pending or on its way to the slave, or there have been more than n writes. */
  predicate Awaits(s: State, n: nat) {
    |s.attempts| > n ||
    (|s.attempts| == n &&
     ((s.dirty && (s.loop.Between? || s.loop.FlushLocked?))
      || s.loop.FlushCleared? || s.loop.FlushUnlocked? || s.loop.FlushWriting?))
  }

  lemma {:induction false} RunAwaits(reg: Register, s: State, run: seq<Event>, n: nat)
    requires Awaits(s, n) && Possible(reg, s, run)
    ensures Awaits(After(reg, s, run), n)
    decreases |run|
  {
    if run != [] { RunAwaits(reg, Apply(reg, s, run[0]), run[1..], n); }
  }

  /** With a set pending between two calls of the loop, no poll begins before a write, in any interleaving. */
  lemma {:induction false} PendingSetIsWrittenFirst(reg: Register, s: State, run: seq<Event>)
    requires s.loop.Between? && s.dirty && Possible(reg, s, run) && !NotPolling(After(reg, s, run))
    ensures |After(reg, s, run).attempts| > |s.attempts|
  {
    RunAwaits(reg, s, run, |s.attempts|);
  }

  // ----- What the slave sees -----

  /** The writes attempted so far, including the one under way. */
  function Carried(s: State): seq<Word> {
    Datas(s.attempts) + (if s.loop.FlushWriting? then [s.loop.data] else [])
  }

  function Datas(attempts: seq<Attempt>): seq<Word> {
    seq(|attempts|, i requires 0 <= i < |attempts| => attempts[i].data)
  }

  /** `origin` says which set each write carries: sets may be skipped or repeated, never reordered. */
  predicate Explains(reg: Register, origin: seq<nat>, writes: seq<Word>, sets: seq<int>) {
    && |origin| == |writes|
    && (forall i | 0 <= i < |origin| :: origin[i] < |sets| && writes[i] == ToSlave(reg.format, sets[origin[i]]))
    && (forall i, j | 0 <= i < j < |origin| :: origin[i] <= origin[j])
  }

  lemma {:induction false} StepKeepsOrder(reg: Register, s: State, e: Event, origin: seq<nat>) returns (next: seq<nat>)
    requires Inv(reg, s) && Enabled(s, e) && Explains(reg, origin, Carried(s), s.sets)
    ensures Explains(reg, next, Carried(Apply(reg, s, e)), Apply(reg, s, e).sets)
  {
    var t := Apply(reg, s, e);
    next := origin;
    match e {
      case FlushLoad =>
        next := origin + [|s.sets| - 1];
        assert Carried(t) == Carried(s) + [t.loop.data];
      case FlushWrite(ok) =>
        assert Carried(t) == Carried(s);
      case SetStore =>
        assert Carried(t) == Carried(s);
        assert forall i | 0 <= i < |s.sets| :: t.sets[i] == s.sets[i];
      case _ =>
        assert Carried(t) == Carried(s);
    }
  }

  /** In every run the attempted writes carry sets, in the order in which they were made. */
  lemma {:induction false} WritesFollowSets(reg: Register, s: State, run: seq<Event>, origin: seq<nat>)
    returns (final: seq<nat>)
    requires Inv(reg, s) && Possible(reg, s, run) && Explains(reg, origin, Carried(s), s.sets)
    ensures Explains(reg, final, Carried(After(reg, s, run)), After(reg, s, run).sets)
    decreases |run|
  {
    if run == [] {
      final := origin;
    } else {
      StepKeepsInv(reg, s, run[0]);
      var next := StepKeepsOrder(reg, s, run[0], origin);
      final := WritesFollowSets(reg, Apply(reg, s, run[0]), run[1..], next);
    }
  }

  /** The contents of a slave register that only these writes change. */
  function SlaveAfter(slave: Word, attempts: seq<Attempt>): Word {
    if attempts == [] then slave
    else if Last(attempts).ok then Last(attempts).data
    else SlaveAfter(slave, attempts[..|attempts| - 1])
  }

  lemma {:induction false} SlaveTracksWrites(reg: Register, slave: Word, s: State, run: seq<Event>)
    requires Possible(reg, s, run) && s.slave == SlaveAfter(slave, s.attempts)
    ensures After(reg, s, run).slave == SlaveAfter(slave, After(reg, s, run).attempts)
    decreases |run|
  {
    if run != [] {
      var t := Apply(reg, s, run[0]);
      if run[0].FlushWrite? { assert t.attempts[..|t.attempts| - 1] == s.attempts; }
      SlaveTracksWrites(reg, slave, t, run[1..]);
    }
  }

  /** Both threads are between calls and nothing waits to be flushed. */
  predicate Quiescent(s: State) {
    s.setter.SetterOut? && s.loop.Between? && !s.dirty
  }

  /**
   Once everything is quiet, the latest attempt carried the last set. The slave
   holds that set if and only if the attempt succeeded, or it held it already:
   a failed write is not retried, because Flush has cleared `dirty` before it.
   */
  lemma {:induction false} QuiescentSlave(reg: Register, slave: Word, run: seq<Event>)
    requires Possible(reg, Initial(slave), run)
    requires var s := After(reg, Initial(slave), run); Quiescent(s) && s.sets != []
    ensures
      var s := After(reg, Initial(slave), run);
      var wanted := ToSlave(reg.format, Last(s.sets));
      && s.attempts != [] && Last(s.attempts).data == wanted
      && (s.slave == wanted
          <==> Last(s.attempts).ok || SlaveAfter(slave, s.attempts[..|s.attempts| - 1]) == wanted)
  {
    NoSetIsLost(reg, Initial(slave), run);
    SlaveTracksWrites(reg, slave, Initial(slave), run);
  }

  const FLUSH: seq<Event> := [FlushLock, FlushTest, FlushUnlock, FlushLoad]

  /** An undisturbed Flush brings any pending set to the bus. */
  lemma {:induction false} FlushAttemptsPendingSet(reg: Register, s: State, ok: bool)
    requires Inv(reg, s) && s.setter.SetterOut? && s.loop.Between? && s.dirty
    ensures Possible(reg, s, FLUSH + [FlushWrite(ok)])
    ensures var t := After(reg, s, FLUSH + [FlushWrite(ok)]);
            && Quiescent(t)
            && t.sets == s.sets && t.attempts == s.attempts + [Attempt(ToSlave(reg.format, Last(s.sets)), ok)]
            && t.slave == (if ok then ToSlave(reg.format, Last(s.sets)) else s.slave)
            && t.value == s.value
  {
    var s1 := Apply(reg, s, FlushLock);
    var s2 := Apply(reg, s1, FlushTest);
    var s3 := Apply(reg, s2, FlushUnlock);
    var s4 := Apply(reg, s3, FlushLoad);
    var r4: seq<Event> := [FlushWrite(ok)] + [];
    var r3 := [FlushLoad] + r4;
    var r2 := [FlushUnlock] + r3;
    var r1 := [FlushTest] + r2;
    RunCons(reg, s4, FlushWrite(ok), []);
    RunCons(reg, s3, FlushLoad, r4);
    RunCons(reg, s2, FlushUnlock, r3);
    RunCons(reg, s1, FlushTest, r2);
    RunCons(reg, s, FlushLock, r1);
    assert FLUSH + [FlushWrite(ok)] == [FlushLock] + r1;
  }

  function PollRun(reading: int): seq<Event> {
    [PollCheck, PollRead(Some(reading)), PollLock, PollCompare, PollUnlock]
  }

  /** An undisturbed Poll of a quiet register takes over what the slave answers. */
  lemma {:induction false} PollAdoptsReading(reg: Register, s: State, reading: int)
    requires Inv(reg, s) && Quiescent(s) && reg.poll
    ensures Possible(reg, s, PollRun(reading))
    ensures After(reg, s, PollRun(reading)) == s.(value := reading)
  {
    var s1 := Apply(reg, s, PollCheck);
    var s2 := Apply(reg, s1, PollRead(Some(reading)));
    var s3 := Apply(reg, s2, PollLock);
    var s4 := Apply(reg, s3, PollCompare);
    var r4: seq<Event> := [PollUnlock] + [];
    var r3 := [PollCompare] + r4;
    var r2 := [PollLock] + r3;
    var r1 := [PollRead(Some(reading))] + r2;
    RunCons(reg, s4, PollUnlock, []);
    RunCons(reg, s3, PollCompare, r4);
    RunCons(reg, s2, PollLock, r3);
    RunCons(reg, s1, PollRead(Some(reading)), r2);
    RunCons(reg, s, PollCheck, r1);
    assert PollRun(reading) == [PollCheck] + r1;
  }

  lemma {:induction false} RunAppend(reg: Register, s: State, first: seq<Event>, second: seq<Event>)
    requires Possible(reg, s, first) && Possible(reg, After(reg, s, first), second)
    ensures Possible(reg, s, first + second)
    ensures After(reg, s, first + second) == After(reg, After(reg, s, first), second)
    decreases |first|
  {
    if first == [] {
      assert first + second == second;
    } else {
      RunAppend(reg, Apply(reg, s, first[0]), first[1..], second);
      assert (first + second)[1..] == first[1..] + second;
    }
  }

  /**
   What a failed write costs: whatever was set, after the failing Flush and the
   next Poll neither the cache nor the slave holds it, and no write is owed.
   */
  lemma {:induction false} FailedWriteDropsTheSet(reg: Register, s: State)
    requires Inv(reg, s) && s.setter.SetterOut? && s.loop.Between? && s.dirty && reg.poll
    ensures
      var run := FLUSH + [FlushWrite(false)] + PollRun(FromSlave(reg.format, s.slave));
      && Possible(reg, s, run)
      && var t := After(reg, s, run);
         Quiescent(t) && t.sets == s.sets && t.slave == s.slave && t.value == FromSlave(reg.format, s.slave)
  {
    FlushAttemptsPendingSet(reg, s, false);
    NoSetIsLost(reg, s, FLUSH + [FlushWrite(false)]);
    var t := After(reg, s, FLUSH + [FlushWrite(false)]);
    PollAdoptsReading(reg, t, FromSlave(reg.format, s.slave));
    RunAppend(reg, s, FLUSH + [FlushWrite(false)], PollRun(FromSlave(reg.format, s.slave)));
  }

  lemma {:induction false} RunCons(reg: Register, s: State, e: Event, rest: seq<Event>)
    requires Enabled(s, e) && Possible(reg, Apply(reg, s, e), rest)
    ensures Possible(reg, s, [e] + rest)
    ensures After(reg, s, [e] + rest) == After(reg, Apply(reg, s, e), rest)
  {
    assert ([e] + rest)[1..] == rest;
  }
}
