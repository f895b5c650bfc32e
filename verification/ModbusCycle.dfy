/**
 What a cycle of TModbusClient achieves (wb-homa-modbus/modbus_client.cpp:363-379),
 with and without bus errors, and how the sequential handlers fit the two-thread
 protocol.
 */
module ModbusCycle {
  import opened Common
  import opened ModbusRegisters
  import opened ModbusClient
  import Protocol = HandlerProtocol

  predicate Clean(s: State) {
    forall i | 0 <= i < |s.cells| :: !s.cells[i].dirty
  }

  function Cleaned(c: Cell): Cell {
    c.(dirty := false)
  }

  // ----- Any bus, with errors and a slave that changes by itself -----

  /** A step that polls handler `i`, with an answer from the bus. */
  predicate AnswersPoll(regs: seq<Register>, s: State, step: Step, i: nat)
    requires |s.cells| == |regs| && i < |regs|
  {
    step == Poll(i) && regs[i].poll && !s.cells[i].dirty && !Fails(s.bus, regs[i].key)
  }

  /** What a step does to handler `i`: it is marked as read by an answered poll, and never otherwise. */
  lemma {:induction false} StepReads(regs: seq<Register>, s: State, step: Step, i: nat)
    requires |s.cells| == |regs| && i < |regs| && step.i < |regs|
    ensures var t := Effect(regs, s, step).0;
            t.cells[i].didRead <==> s.cells[i].didRead || AnswersPoll(regs, s, step, i)
  {
    if step == Poll(i) { PolledDoes(regs[i], s.cells[i], s.bus); }
  }

  predicate OnlyWritable(writes: seq<Write>) {
    forall k | 0 <= k < |writes| :: writes[k].key.table.Coil? || writes[k].key.table.HoldingRegister?
  }

  /** Whatever is set, no run writes to a discrete input or an input register. */
  lemma {:induction false} InputsAreNeverWritten(regs: seq<Register>, s: State, steps: seq<Step>)
    requires Fits(regs, s, steps) && OnlyWritable(s.bus.writes)
    ensures OnlyWritable(Run(regs, s, steps).0.bus.writes)
    decreases |steps|
  {
    if steps != [] {
      InputsAreNeverWritten(regs, Effect(regs, s, steps[0]).0, steps[1..]);
    }
  }

  function PollOf(step: Step): seq<nat> {
    if step.Poll? then [step.i] else []
  }

  /** The registers polled, in order. */
  function PollsOf(steps: seq<Step>): seq<nat> {
    if steps == [] then [] else PollOf(steps[0]) + PollsOf(steps[1..])
  }

  lemma {:induction false} PollsOfCons(step: Step, rest: seq<Step>)
    ensures PollsOf([step] + rest) == PollOf(step) + PollsOf(rest)
  {
    assert ([step] + rest)[1..] == rest;
  }

  lemma {:induction false} PollsOfAppend(a: seq<Step>, b: seq<Step>)
    ensures PollsOf(a + b) == PollsOf(a) + PollsOf(b)
    decreases |a|
  {
    if a == [] {
      assert a + b == b;
    } else {
      var rest := a[1..];
      PollsOfAppend(rest, b);
      PollsOfCons(a[0], rest + b);
      assert a + b == [a[0]] + (rest + b);
      Assoc(PollOf(a[0]), PollsOf(rest), PollsOf(b));
    }
  }

  lemma {:induction false} FlushesPollNothing(i: nat, n: nat)
    ensures PollsOf(FlushSteps(i, n)) == []
    decreases n - i
  {
    if i < n {
      FlushesPollNothing(i + 1, n);
      PollsOfCons(Flush(i), FlushSteps(i + 1, n));
    }
  }

  /** A cycle polls every register once, in register order. */
  lemma {:induction false} CyclePollsInOrder(p: nat, n: nat)
    requires p <= n
    ensures PollsOf(CycleSteps(p, n)) == seq(n - p, k requires 0 <= k < n - p => p + k)
    decreases n - p
  {
    if p < n {
      CyclePollsInOrder(p + 1, n);
      FlushesPollNothing(0, n);
      PollsOfAppend(FlushSteps(0, n), [Poll(p)] + CycleSteps(p + 1, n));
      PollsOfCons(Poll(p), CycleSteps(p + 1, n));
    }
  }

  /** A flush of each of `n` registers, in register order. */
  function AllFlushes(n: nat): seq<Step> {
    seq(n, j requires 0 <= j < n => Flush(j))
  }

  lemma {:induction false} FlushStepsAreAllFlushes(n: nat)
    ensures FlushSteps(0, n) == AllFlushes(n)
  {
    FlushOrder(n, 0, 0);
    forall j: nat | j < n ensures FlushSteps(0, n)[j] == Flush(j) { FlushOrder(n, 0, j); }
  }

  lemma {:induction false} LaterRound(a: seq<Step>, x: seq<Step>, b: seq<Step>, f: seq<Step>, y: seq<Step>,
          c: seq<Step>)
    ensures a + (x + (b + f + y + c)) == (a + x + b) + f + y + c
  {
  }

  /** Right before each poll of a cycle every register has been flushed, in register order. */
  lemma {:induction false} EveryPollFollowsAllFlushes(p: nat, q: nat, n: nat)
    returns (before: seq<Step>, after: seq<Step>)
    requires p <= q < n
    ensures CycleSteps(p, n) == before + AllFlushes(n) + [Poll(q)] + after
    decreases q - p
  {
    FlushStepsAreAllFlushes(n);
    if q == p {
      before, after := [], CycleSteps(p + 1, n);
      Assoc(AllFlushes(n), [Poll(p)], after);
      assert [] + AllFlushes(n) == AllFlushes(n);
    } else {
      before, after := EveryPollFollowsAllFlushes(p + 1, q, n);
      LaterRound(AllFlushes(n), [Poll(p)], before, AllFlushes(n), [Poll(q)], after);
      before := AllFlushes(n) + [Poll(p)] + before;
    }
  }

  lemma {:induction false} FlushOrder(n: nat, i: nat, j: nat)
    requires i <= n
    ensures |FlushSteps(i, n)| == n - i
    ensures i + j < n ==> FlushSteps(i, n)[j] == Flush(i + j)
    decreases n - i
  {
    if i < n {
      FlushOrder(n, i + 1, if j > 0 then j - 1 else 0);
    }
  }

  /** A set that has to go out. */
  predicate Owes(reg: Register, c: Cell) {
    c.dirty && Writable(reg)
  }

  /** The writes that a state owes to the bus from handler i on, in register order. */
  function Owed(regs: seq<Register>, cells: seq<Cell>, i: nat): seq<(Key, Word)>
    requires |cells| == |regs|
    decreases |regs| - i
  {
    if i >= |regs| then []
    else OwedBy(regs[i], cells[i]) + Owed(regs, cells, i + 1)
  }

  function Contents(writes: seq<Write>): seq<(Key, Word)> {
    seq(|writes|, i requires 0 <= i < |writes| => (writes[i].key, writes[i].data))
  }

  lemma {:induction false} FlushOne(regs: seq<Register>, s: State, i: nat)
    requires |s.cells| == |regs| && i < |regs|
    ensures var t := Effect(regs, s, Flush(i)).0;
            && t.cells == s.cells[i := Cleaned(s.cells[i])]
            && Contents(t.bus.writes) == Contents(s.bus.writes) + OwedBy(regs[i], s.cells[i])
  {
  }

  lemma {:induction false} OwedIgnores(regs: seq<Register>, a: seq<Cell>, b: seq<Cell>, i: nat)
    requires |a| == |b| == |regs| && a[Min(i, |a|)..] == b[Min(i, |b|)..]
    ensures Owed(regs, a, i) == Owed(regs, b, i)
    decreases |regs| - i
  {
    if i < |regs| {
      assert a[i] == a[i..][0] && b[i] == b[i..][0];
      assert a[i + 1..] == a[i..][1..] && b[i + 1..] == b[i..][1..];
      OwedIgnores(regs, a, b, i + 1);
    }
  }

  lemma {:induction false} OwedAfterFlush(regs: seq<Register>, s: State, i: nat)
    requires |s.cells| == |regs| && i < |regs|
    ensures Owed(regs, Effect(regs, s, Flush(i)).0.cells, i + 1) == Owed(regs, s.cells, i + 1)
  {
    FlushOne(regs, s, i);
    var t := Effect(regs, s, Flush(i)).0;
    assert t.cells[i + 1..] == s.cells[i + 1..];
    OwedIgnores(regs, s.cells, t.cells, i + 1);
  }

  function Min(a: nat, b: nat): nat {
    if a < b then a else b
  }

  lemma {:induction false} FlushesClean(regs: seq<Register>, s: State, i: nat)
    requires |s.cells| == |regs| && i <= |regs|
    ensures var t := Run(regs, s, FlushSteps(i, |regs|)).0;
            forall j | 0 <= j < |regs| :: t.cells[j] == if j < i then s.cells[j] else Cleaned(s.cells[j])
    decreases |regs| - i
  {
    if i < |regs| {
      RunCons(regs, s, Flush(i), FlushSteps(i + 1, |regs|));
      FlushOne(regs, s, i);
      FlushesClean(regs, Effect(regs, s, Flush(i)).0, i + 1);
    }
  }

  function OwedBy(reg: Register, c: Cell): seq<(Key, Word)> {
    if Owes(reg, c) then [(reg.key, Encoded(reg, c.value))] else []
  }

  /** Flushing attempts every owed write exactly once, in register order, whatever the bus does. */
  lemma {:induction false} FlushesWriteWhatIsOwed(regs: seq<Register>, s: State, i: nat)
    requires |s.cells| == |regs| && i <= |regs|
    ensures Contents(Run(regs, s, FlushSteps(i, |regs|)).0.bus.writes)
            == Contents(s.bus.writes) + Owed(regs, s.cells, i)
    decreases |regs| - i
  {
    if i < |regs| {
      var t := Effect(regs, s, Flush(i)).0;
      FlushStepsCons(regs, s, i);
      FlushOne(regs, s, i);
      FlushesWriteWhatIsOwed(regs, t, i + 1);
      OwedAfterFlush(regs, s, i);
      Assoc(Contents(s.bus.writes), OwedBy(regs[i], s.cells[i]), Owed(regs, s.cells, i + 1));
    }
  }

  lemma {:induction false} NothingOwed(regs: seq<Register>, s: State, i: nat)
    requires |s.cells| == |regs| && Clean(s)
    ensures Owed(regs, s.cells, i) == []
    ensures Run(regs, s, FlushSteps(i, |regs|)).0 == s
    decreases |regs| - i
  {
    if i < |regs| {
      RunCons(regs, s, Flush(i), FlushSteps(i + 1, |regs|));
      assert Effect(regs, s, Flush(i)).0.cells == s.cells;
      NothingOwed(regs, s, i + 1);
    }
  }

  /** The rest of a cycle, once nothing is pending. */
  lemma {:induction false} CleanCycleOnlyReads(regs: seq<Register>, s: State, p: nat)
    requires |s.cells| == |regs| && Clean(s)
    ensures var t := Run(regs, s, CycleSteps(p, |regs|)).0; Clean(t) && t.bus.writes == s.bus.writes
    decreases |regs| - p
  {
    if p < |regs| {
      VisitRunState(regs, s, p);
      NothingOwed(regs, s, 0);
      CleanCycleOnlyReads(regs, Visit(regs, s, p).0, p + 1);
    }
  }

  function AllFlushed(regs: seq<Register>, s: State): (t: State)
    requires |s.cells| == |regs|
    ensures |t.cells| == |regs|
  {
    Run(regs, s, FlushSteps(0, |regs|)).0
  }

  /** Flushing leaves nothing pending, so flushing again changes nothing. */
  lemma {:induction false} FlushedTwice(regs: seq<Register>, s: State)
    requires |s.cells| == |regs|
    ensures Clean(AllFlushed(regs, s)) && AllFlushed(regs, AllFlushed(regs, s)) == AllFlushed(regs, s)
  {
    FlushesClean(regs, s, 0);
    NothingOwed(regs, AllFlushed(regs, s), 0);
  }

  lemma {:induction false} VisitAfterFlush(regs: seq<Register>, s: State)
    requires |s.cells| == |regs| > 0
    ensures Visit(regs, AllFlushed(regs, s), 0) == Visit(regs, s, 0)
  {
    FlushedTwice(regs, s);
  }

  /** A cycle with registers starts with a full flush. */
  lemma {:induction false} CycleFlushesFirst(regs: seq<Register>, s: State)
    requires |s.cells| == |regs| > 0
    ensures Run(regs, s, CycleSteps(0, |regs|)) == Run(regs, AllFlushed(regs, s), CycleSteps(0, |regs|))
  {
    VisitAfterFlush(regs, s);
    VisitRun(regs, s, 0);
    VisitRun(regs, AllFlushed(regs, s), 0);
  }

  /**
   On any bus: a cycle leaves nothing pending, and the writes it attempts are
   exactly the pending sets of writable registers, once each, in register order.
   */
  lemma {:induction false} CycleWritesEachSetOnce(regs: seq<Register>, s: State)
    requires |s.cells| == |regs| > 0
    ensures var t := Run(regs, s, CycleSteps(0, |regs|)).0;
            && Clean(t)
            && Contents(t.bus.writes) == Contents(s.bus.writes) + Owed(regs, s.cells, 0)
  {
    CycleFlushesFirst(regs, s);
    FlushesWriteWhatIsOwed(regs, s, 0);
    FlushedTwice(regs, s);
    CleanCycleOnlyReads(regs, AllFlushed(regs, s), 0);
  }

  // ----- A slave that answers everything and changes only by writes -----

  predicate Obedient(regs: seq<Register>, b: Bus) {
    b.turns == [] && forall i | 0 <= i < |regs| :: regs[i].key in b.memory
  }

  /** The word a register has once what it owes has been written. */
  function Due(reg: Register, c: Cell, memory: map<Key, Word>): Word
    requires reg.key in memory
  {
    if Owes(reg, c) then Encoded(reg, c.value) else memory[reg.key]
  }

  /** `after` differs from `before` only where registers from i on had something to write. */
  predicate WrittenBack(regs: seq<Register>, cells: seq<Cell>, i: nat, before: map<Key, Word>, after: map<Key, Word>)
    requires |cells| == |regs| && forall j | 0 <= j < |regs| :: regs[j].key in before
  {
    && after.Keys == before.Keys
    && (forall j | i <= j < |regs| :: after[regs[j].key] == Due(regs[j], cells[j], before))
    && (forall k | k in before && (forall j | i <= j < |regs| :: regs[j].key != k) :: after[k] == before[k])
  }

  lemma {:induction false} FlushObedient(reg: Register, c: Cell, b: Bus)
    requires b.turns == [] && reg.key in b.memory
    ensures var d := Flushed(reg, c, b).1;
            d.turns == [] && d.memory == b.memory[reg.key := Due(reg, c, b.memory)]
  {
  }

  lemma {:induction false} FlushStepObedient(regs: seq<Register>, s: State, i: nat)
    requires |s.cells| == |regs| && i < |regs| && Obedient(regs, s.bus)
    ensures var t := Effect(regs, s, Flush(i)).0;
            && Obedient(regs, t.bus)
            && t.bus.memory == s.bus.memory[regs[i].key := Due(regs[i], s.cells[i], s.bus.memory)]
            && (forall j | i < j < |regs| :: t.cells[j] == s.cells[j])
  {
    FlushObedient(regs[i], s.cells[i], s.bus);
  }

  lemma {:induction false} FlushesReachObedientSlave(regs: seq<Register>, s: State, i: nat)
    requires |s.cells| == |regs| && i <= |regs| && Distinct(regs) && Obedient(regs, s.bus)
    ensures var t := Run(regs, s, FlushSteps(i, |regs|)).0;
            Obedient(regs, t.bus) && WrittenBack(regs, s.cells, i, s.bus.memory, t.bus.memory)
    decreases |regs| - i
  {
    if i < |regs| {
      var t := Effect(regs, s, Flush(i)).0;
      RunCons(regs, s, Flush(i), FlushSteps(i + 1, |regs|));
      FlushStepObedient(regs, s, i);
      FlushesReachObedientSlave(regs, t, i + 1);
      var last := Run(regs, t, FlushSteps(i + 1, |regs|)).0;
      WrittenBackCons(regs, s.cells, t.cells, i, s.bus.memory, t.bus.memory, last.bus.memory);
    }
  }

  lemma {:induction false} WrittenBackCons(regs: seq<Register>, a: seq<Cell>, b: seq<Cell>, i: nat,
                        m0: map<Key, Word>, m1: map<Key, Word>, m2: map<Key, Word>)
    requires |a| == |b| == |regs| && i < |regs| && Distinct(regs)
    requires forall j | 0 <= j < |regs| :: regs[j].key in m0
    requires forall j | i < j < |regs| :: a[j] == b[j]
    requires m1 == m0[regs[i].key := Due(regs[i], a[i], m0)]
    requires WrittenBack(regs, b, i + 1, m1, m2)
    ensures WrittenBack(regs, a, i, m0, m2)
  {
    forall j | i <= j < |regs| ensures m2[regs[j].key] == Due(regs[j], a[j], m0) {
      if j == i {
        assert forall k | i + 1 <= k < |regs| :: regs[k].key != regs[i].key;
      }
    }
  }

  /** What a register's cache holds after it has been polled on an obedient bus. */
  function Seen(reg: Register, c: Cell, memory: map<Key, Word>): Cell
    requires reg.key in memory
  {
    if reg.poll then Cell(Decoded(reg, memory[reg.key]), false, true) else c
  }

  lemma {:induction false} CleanVisitReads(regs: seq<Register>, s: State, p: nat)
    requires |s.cells| == |regs| && p < |regs| && Clean(s) && Obedient(regs, s.bus)
    ensures var t := Visit(regs, s, p).0;
            && t.cells == s.cells[p := Seen(regs[p], s.cells[p], s.bus.memory)]
            && Clean(t) && Obedient(regs, t.bus) && t.bus.memory == s.bus.memory
  {
    NothingOwed(regs, s, 0);
    PolledDoes(regs[p], s.cells[p], s.bus);
  }

  lemma {:induction false} VisitRunState(regs: seq<Register>, s: State, p: nat)
    requires |s.cells| == |regs| && p < |regs|
    ensures Run(regs, s, CycleSteps(p, |regs|)).0 == Run(regs, Visit(regs, s, p).0, CycleSteps(p + 1, |regs|)).0
  {
    VisitRun(regs, s, p);
  }

  lemma {:induction false} CleanCycleReadsAll(regs: seq<Register>, s: State, p: nat)
    requires |s.cells| == |regs| && p <= |regs| && Clean(s) && Obedient(regs, s.bus)
    ensures var t := Run(regs, s, CycleSteps(p, |regs|)).0;
            && Clean(t) && |t.cells| == |regs| && t.bus.memory == s.bus.memory
            && (forall j | 0 <= j < |regs| ::
                  t.cells[j] == if j < p then s.cells[j] else Seen(regs[j], s.cells[j], s.bus.memory))
    decreases |regs| - p
  {
    if p < |regs| {
      VisitRunState(regs, s, p);
      CleanVisitReads(regs, s, p);
      CleanCycleReadsAll(regs, Visit(regs, s, p).0, p + 1);
    }
  }

  /** A client's registers are distinct. */
  lemma {:induction false} SortedIsDistinct(regs: seq<Register>)
    requires Sorted(regs)
    ensures Distinct(regs)
  {
    forall i, j | 0 <= i < j < |regs| ensures regs[i].key != regs[j].key {
      assert Before(regs[i].key, regs[j].key);
    }
  }

  /**
   After a cycle nothing is pending, the slave holds what was set and otherwise
   what it held before, and every polled register's cache is the slave's word converted.
   */
  lemma {:induction false} CycleSettles(regs: seq<Register>, s: State)
    requires |s.cells| == |regs| > 0 && Sorted(regs) && Obedient(regs, s.bus)
    ensures var t := Run(regs, s, CycleSteps(0, |regs|)).0;
            && Clean(t) && |t.cells| == |regs|
            && WrittenBack(regs, s.cells, 0, s.bus.memory, t.bus.memory)
            && (forall j | 0 <= j < |regs| :: t.cells[j] == Seen(regs[j], Cleaned(s.cells[j]), t.bus.memory))
  {
    SortedIsDistinct(regs);
    CycleFlushesFirst(regs, s);
    FlushedTwice(regs, s);
    FlushesClean(regs, s, 0);
    FlushesReachObedientSlave(regs, s, 0);
    CleanCycleReadsAll(regs, AllFlushed(regs, s), 0);
  }

  /** After a cycle a set to a polled writable register is in the slave and has been read back. */
  lemma {:induction false} SetIsReadBack(regs: seq<Register>, s: State, i: nat, v: Int)
    requires |s.cells| == |regs| && i < |regs| && Sorted(regs) && Obedient(regs, s.bus)
    requires regs[i].poll && Writable(regs[i])
    ensures var t := Run(regs, SetAt(s, i, v), CycleSteps(0, |regs|)).0;
            && regs[i].key in t.bus.memory && t.bus.memory[regs[i].key] == Encoded(regs[i], v)
            && t.cells[i].value == Decoded(regs[i], Encoded(regs[i], v))
  {
    CycleSettles(regs, SetAt(s, i, v));
  }

  /**
   A set of any integer settles, in the slave and in the cache: a holding register at the one
   value of the format's range congruent to it, which is the integer itself exactly when it is in range.
   */
  lemma {:induction false} SetSettles(regs: seq<Register>, s: State, i: nat, v: Int)
    requires |s.cells| == |regs| && i < |regs| && Sorted(regs) && Obedient(regs, s.bus)
    requires regs[i].poll && regs[i].key.table.HoldingRegister?
    ensures var t := Run(regs, SetAt(s, i, v), CycleSteps(0, |regs|)).0;
            var f := regs[i].format;
            && regs[i].key in t.bus.memory && t.bus.memory[regs[i].key] == ToSlave(f, v)
            && InRange(f, t.cells[i].value) && Congruent(t.cells[i].value, v, Modulus(f))
            && (t.cells[i].value == v <==> InRange(f, v))
  {
    SetIsReadBack(regs, s, i, v);
    SettledIsRepresentative(regs[i].format, v);
  }

  /** A coil settles at 1 exactly when the integer has a nonzero residue. */
  lemma {:induction false} CoilSetSettles(regs: seq<Register>, s: State, i: nat, v: Int)
    requires |s.cells| == |regs| && i < |regs| && Sorted(regs) && Obedient(regs, s.bus)
    requires regs[i].poll && regs[i].key.table.Coil?
    ensures var t := Run(regs, SetAt(s, i, v), CycleSteps(0, |regs|)).0;
            && regs[i].key in t.bus.memory
            && t.cells[i].value == t.bus.memory[regs[i].key] == if v % Modulus(regs[i].format) == 0 then 0 else 1
  {
    SetIsReadBack(regs, s, i, v);
  }

  // ----- The sequential handlers are undisturbed runs of the two-thread protocol -----

  /** A protocol state between calls that holds the same cell. */
  predicate Holds(s: Protocol.State, c: Cell) {
    s.setter.SetterOut? && s.loop.Between? && s.value == c.value && s.dirty == c.dirty
  }

  lemma {:induction false} FlushIsProtocolRun(reg: Register, c: Cell, b: Bus,
          s: Protocol.State) returns (run: seq<Protocol.Event>)
    requires reg.key.table.HoldingRegister? && Protocol.Inv(reg, s) && Holds(s, c) && c.dirty
    ensures Protocol.Possible(reg, s, run)
    ensures var t := Protocol.After(reg, s, run);
            var (d, e) := Flushed(reg, c, b);
            && Holds(t, d) && |t.attempts| == |s.attempts| + 1 && |e.writes| == |b.writes| + 1
            && Last(e.writes) == Write(reg.key, Last(t.attempts).data, Last(t.attempts).ok)
  {
    var ok := !Fails(Selected(reg, b), reg.key);
    run := Protocol.FLUSH + [Protocol.FlushWrite(ok)];
    Protocol.FlushAttemptsPendingSet(reg, s, ok);
    Protocol.NoSetIsLost(reg, s, run);
  }

  lemma {:induction false} PollIsProtocolRun(reg: Register, c: Cell, b: Bus,
          s: Protocol.State) returns (run: seq<Protocol.Event>)
    requires Protocol.Inv(reg, s) && Holds(s, c)
    ensures Protocol.Possible(reg, s, run)
    ensures Holds(Protocol.After(reg, s, run), Polled(reg, c, b).0)
  {
    if !Polls(reg, c) {
      run := [];
    } else {
      match Reading(reg, b)
      case Some(v) =>
        run := Protocol.PollRun(v);
        Protocol.PollAdoptsReading(reg, s, v);
      case None =>
        run := [Protocol.PollCheck] + ([Protocol.PollRead(None)] + []);
        var s1 := Protocol.Apply(reg, s, Protocol.PollCheck);
        Protocol.RunCons(reg, s1, Protocol.PollRead(None), []);
        Protocol.RunCons(reg, s, Protocol.PollCheck, [Protocol.PollRead(None)] + []);
    }
  }
}
