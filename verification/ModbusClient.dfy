/**
 The register handlers and the polling client, wb-homa-modbus/modbus_client.cpp,
 on one thread. (HandlerProtocol has the same handlers under two threads.)

 The bus is a memory of 16-bit words with the four tables of the MODBUS data
 model. Before each bus operation the outside world takes a turn: it may change
 the memory in any way and may make the operation fail.
 */
module ModbusClient {
  import opened Common
  import opened ModbusRegisters

  /** A C++ int. */
  type Int = v: int | -0x8000_0000 <= v < 0x8000_0000

  // ----- The bus -----

  datatype Turn = Turn(fails: bool, memory: map<Key, Word>)

  datatype Write = Write(key: Key, data: Word, ok: bool)

  /** `turns` are the moves the outside world has yet to make, none once it is empty; `writes` is a record. */
  datatype Bus = Bus(slave: int, memory: map<Key, Word>, turns: seq<Turn>, writes: seq<Write>)

  function AfterTurn(b: Bus): Bus {
    if b.turns == [] then b else b.(memory := b.turns[0].memory, turns := b.turns[1..])
  }

  predicate Fails(b: Bus, key: Key) {
    (b.turns != [] && b.turns[0].fails) || key !in AfterTurn(b).memory
  }

  function Answer(b: Bus, table: Table, address: int): Option<Word> {
    var key := Key(b.slave, table, address);
    if Fails(b, key) then None else Some(AfterTurn(b).memory[key])
  }

  function Stored(b: Bus, table: Table, address: int, data: Word): Bus {
    var key := Key(b.slave, table, address);
    var c := AfterTurn(b).(writes := b.writes + [Write(key, data, !Fails(b, key))]);
    if Fails(b, key) then c else c.(memory := c.memory[key := data])
  }

  class Context {
    var slave: int
    var memory: map<Key, Word>
    var turns: seq<Turn>
    var writes: seq<Write>

    constructor (memory: map<Key, Word>, turns: seq<Turn>)
      ensures View() == Bus(0, memory, turns, [])
    {
      slave, this.memory, this.turns, writes := 0, memory, turns, [];
    }

    function View(): Bus
      reads this
    {
      Bus(slave, memory, turns, writes)
    }

    method SetSlave(slave: int)
      modifies this
      ensures View() == old(View()).(slave := slave)
    {
      this.slave := slave;
    }

    method LetWorldAct() returns (fails: bool)
      modifies this
      ensures View() == AfterTurn(old(View()))
      ensures fails == (old(turns) != [] && old(turns)[0].fails)
    {
      fails := false;
      if turns != [] {
        fails, memory, turns := turns[0].fails, turns[0].memory, turns[1..];
      }
    }

    method ReadWord(table: Table, address: int) returns (r: Option<Word>)
      modifies this
      ensures r == Answer(old(View()), table, address)
      ensures View() == AfterTurn(old(View()))
    {
      var fails := LetWorldAct();
      var key := Key(slave, table, address);
      if fails || key !in memory { return None; }
      return Some(memory[key]);
    }

    method WriteWord(table: Table, address: int, data: Word) returns (ok: bool)
      modifies this
      ensures ok == !Fails(old(View()), Key(old(slave), table, address))
      ensures View() == Stored(old(View()), table, address, data)
    {
      var fails := LetWorldAct();
      var key := Key(slave, table, address);
      ok := !fails && key in memory;
      writes := writes + [Write(key, data, ok)];
      if ok { memory := memory[key := data]; }
    }
  }

  // ----- One handler -----

  datatype Cell = Cell(value: Int, dirty: bool, didRead: bool)

  /** What Read makes of a word: coils and discrete inputs are single bits. */
  function Decoded(reg: Register, w: Word): (v: Int) {
    if reg.key.table.Coil? || reg.key.table.DiscreteInput? then w % 2
    else FromSlave(reg.format, w)
  }

  /** What reaches the slave's memory: a coil is switched on by any nonzero value. */
  function Encoded(reg: Register, v: int): Word {
    if reg.key.table.Coil? then (if ToSlave(reg.format, v) != 0 then 1 else 0)
    else ToSlave(reg.format, v)
  }

  predicate Writable(reg: Register) {
    reg.key.table.Coil? || reg.key.table.HoldingRegister?
  }

  function Selected(reg: Register, b: Bus): Bus {
    b.(slave := reg.key.slave)
  }

  function Flushed(reg: Register, c: Cell, b: Bus): (Cell, Bus) {
    if !c.dirty then (c, b)
    else if !Writable(reg) then (c.(dirty := false), Selected(reg, b))
    else (c.(dirty := false), Stored(Selected(reg, b), reg.key.table, reg.key.address, Encoded(reg, c.value)))
  }

  predicate Polls(reg: Register, c: Cell) {
    reg.poll && !c.dirty
  }

  function Reading(reg: Register, b: Bus): Option<Int> {
    match Answer(Selected(reg, b), reg.key.table, reg.key.address)
    case None => None
    case Some(w) => Some(Decoded(reg, w))
  }

  /** The new cell, the new bus, and whether the change is reported. */
  function Polled(reg: Register, c: Cell, b: Bus): (Cell, Bus, bool) {
    if !Polls(reg, c) then (c, b, false)
    else
      match Reading(reg, b)
      case None => (c, AfterTurn(Selected(reg, b)), false)
      case Some(v) => (Cell(v, false, true), AfterTurn(Selected(reg, b)), v != c.value || !c.didRead)
  }

  // ----- What one call of a handler does, whatever the functions above say -----

  /** `v` is the value of the word `w`: its lowest bit, or the value of the format's range congruent to it. */
  predicate ReadsAs(reg: Register, w: Word, v: int) {
    match reg.key.table
    case Coil | DiscreteInput => v == w % 2
    case HoldingRegister | InputRegister => InRange(reg.format, v) && Congruent(v, w, Modulus(reg.format))
  }

  /** `w` is what a set to `v` leaves in the slave: a coil is on unless v is congruent to 0, others have the residue. */
  predicate WritesAs(reg: Register, v: int, w: Word) {
    if reg.key.table.Coil? then w == if Congruent(v, 0, Modulus(reg.format)) then 0 else 1
    else w < Modulus(reg.format) && Congruent(w, v, Modulus(reg.format))
  }

  /** A poll of a dirty or unpolled register does nothing at all. */
  predicate PollIsIdle(c: Cell, b: Bus, d: Cell, e: Bus, reported: bool) {
    d == c && e == b && !reported
  }

  /** A poll that gets no answer keeps the cell and reports nothing. */
  predicate PollIsVain(c: Cell, d: Cell, reported: bool) {
    d == c && !reported
  }

  /** A poll that is answered has read the register, and reports a value that is new or the first. */
  predicate PollIsAnswered(reg: Register, c: Cell, w: Word, d: Cell, reported: bool) {
    && d.didRead && !d.dirty && ReadsAs(reg, w, d.value)
    && (reported <==> d.value != c.value || !c.didRead)
  }

  predicate PollDoes(reg: Register, c: Cell, b: Bus, d: Cell, e: Bus, reported: bool) {
    if !reg.poll || c.dirty then PollIsIdle(c, b, d, e, reported)
    else
      && e == AfterTurn(b).(slave := reg.key.slave)
      && (if Fails(b, reg.key) then PollIsVain(c, d, reported)
          else PollIsAnswered(reg, c, AfterTurn(b).memory[reg.key], d, reported))
  }

  lemma {:induction false} DecodedReads(reg: Register, w: Word)
    ensures ReadsAs(reg, w, Decoded(reg, w))
  {
    FromSlaveIsRepresentative(reg.format, w);
  }

  lemma {:induction false} EncodedWrites(reg: Register, v: int)
    ensures WritesAs(reg, v, Encoded(reg, v))
  {
    ToSlaveIsResidue(reg.format, v);
  }

  lemma {:induction false} PolledDoes(reg: Register, c: Cell, b: Bus)
    ensures var (d, e, reported) := Polled(reg, c, b); PollDoes(reg, c, b, d, e, reported)
  {
    if !Fails(b, reg.key) { DecodedReads(reg, AfterTurn(b).memory[reg.key]); }
  }

  /**
   A flush leaves the cell clean and otherwise as it was. Only a pending set of a coil
   or holding register reaches the bus: one write, which is in the slave unless it fails.
   */
  predicate FlushDoes(reg: Register, c: Cell, b: Bus, d: Cell, e: Bus) {
    && d == Cell(c.value, false, c.didRead)
    && (if c.dirty && (reg.key.table.Coil? || reg.key.table.HoldingRegister?) then
          && |e.writes| == |b.writes| + 1 && e.writes[..|b.writes|] == b.writes
          && var w := Last(e.writes);
             && w.key == reg.key && w.ok == !Fails(b, reg.key) && WritesAs(reg, c.value, w.data)
             && e.memory == if w.ok then AfterTurn(b).memory[reg.key := w.data] else AfterTurn(b).memory
        else e.writes == b.writes && e.memory == b.memory && e.turns == b.turns)
  }

  lemma {:induction false} FlushedDoes(reg: Register, c: Cell, b: Bus)
    ensures var (d, e) := Flushed(reg, c, b); FlushDoes(reg, c, b, d, e)
  {
    EncodedWrites(reg, c.value);
  }

  class RegisterHandler {
    const reg: Register
    var value: Int
    var dirty: bool
    var didRead: bool

    constructor (reg: Register)
      ensures this.reg == reg && View() == Cell(0, false, false)
    {
      this.reg, value, dirty, didRead := reg, 0, false, false;
    }

    function View(): Cell
      reads this
    {
      Cell(value, dirty, didRead)
    }

    method SetRawValue(v: Int)
      modifies this
      ensures View() == Cell(v, true, old(didRead))
    {
      value := v;
      dirty := true;
    }

    /** Read, by the kind of the register. */
    method Read(ctx: Context) returns (r: Option<Int>)
      modifies ctx
      ensures ctx.View() == AfterTurn(old(ctx.View()))
      ensures old(ctx.slave) == reg.key.slave ==> r == Reading(reg, old(ctx.View()))
    {
      var w := ctx.ReadWord(reg.key.table, reg.key.address);
      if w.None? { return None; }
      match reg.key.table
      case Coil | DiscreteInput => return Some(w.value % 2);
      case HoldingRegister | InputRegister => return Some(FromSlave(reg.format, w.value));
    }

    /** Write, by the kind of the register; the read-only kinds refuse. */
    method Write(ctx: Context, data: Word) returns (ok: bool)
      modifies ctx
      ensures !Writable(reg) ==> !ok && ctx.View() == old(ctx.View())
      ensures reg.key.table.Coil? ==>
                ctx.View() == Stored(old(ctx.View()), Coil, reg.key.address, if data != 0 then 1 else 0)
      ensures reg.key.table.HoldingRegister? ==>
                ctx.View() == Stored(old(ctx.View()), HoldingRegister, reg.key.address, data)
    {
      match reg.key.table
      case Coil => ok := ctx.WriteWord(Coil, reg.key.address, if data != 0 then 1 else 0);
      case HoldingRegister => ok := ctx.WriteWord(HoldingRegister, reg.key.address, data);
      case DiscreteInput | InputRegister => ok := false;
    }

    method Poll(ctx: Context) returns (changed: bool)
      modifies this, ctx
      ensures (View(), ctx.View(), changed) == Polled(reg, old(View()), old(ctx.View()))
      ensures PollDoes(reg, old(View()), old(ctx.View()), View(), ctx.View(), changed)
    {
      PolledDoes(reg, View(), ctx.View());
      if !reg.poll || dirty { return false; }
      var firstPoll := !didRead;
      ctx.SetSlave(reg.key.slave);
      var newValue := Read(ctx);
      if newValue.None? { return false; }
      didRead := true;
      if value != newValue.value {
        if dirty { return true; }
        value := newValue.value;
        return true;
      }
      return firstPoll;
    }

    method Flush(ctx: Context)
      modifies this, ctx
      ensures (View(), ctx.View()) == Flushed(reg, old(View()), old(ctx.View()))
      ensures FlushDoes(reg, old(View()), old(ctx.View()), View(), ctx.View())
    {
      FlushedDoes(reg, View(), ctx.View());
      if dirty {
        dirty := false;
        ctx.SetSlave(reg.key.slave);
        var ok := Write(ctx, ToSlave(reg.format, value));
      }
    }
  }

  // ----- The client -----

  /** All handlers in register order, and the bus. */
  datatype State = State(cells: seq<Cell>, bus: Bus)

  datatype Step = Flush(i: nat) | Poll(i: nat)

  predicate Fits(regs: seq<Register>, s: State, steps: seq<Step>) {
    |s.cells| == |regs| && forall k | 0 <= k < |steps| :: steps[k].i < |regs|
  }

  /** One handler call: the state after it, and the register it reports. */
  function Effect(regs: seq<Register>, s: State, step: Step): (State, seq<Key>)
    requires |s.cells| == |regs| && step.i < |regs|
  {
    var i := step.i;
    match step
    case Flush(_) =>
      var (c, b) := Flushed(regs[i], s.cells[i], s.bus);
      (State(s.cells[i := c], b), [])
    case Poll(_) =>
      var (c, b, changed) := Polled(regs[i], s.cells[i], s.bus);
      (State(s.cells[i := c], b), if changed then [regs[i].key] else [])
  }

  function Run(regs: seq<Register>, s: State, steps: seq<Step>): (r: (State, seq<Key>))
    requires Fits(regs, s, steps)
    ensures |r.0.cells| == |regs|
    decreases |steps|
  {
    if steps == [] then (s, [])
    else
      var (t, reported) := Effect(regs, s, steps[0]);
      var (last, more) := Run(regs, t, steps[1..]);
      (last, reported + more)
  }

  lemma {:induction false} RunCons(regs: seq<Register>, s: State, step: Step, rest: seq<Step>)
    requires Fits(regs, s, [step] + rest) && Fits(regs, s, rest)
    ensures Run(regs, s, [step] + rest)
            == Prepended(Effect(regs, s, step).1, Run(regs, Effect(regs, s, step).0, rest))
  {
    assert ([step] + rest)[1..] == rest;
  }

  lemma {:induction false} RunAppend(regs: seq<Register>, s: State, first: seq<Step>, second: seq<Step>)
    requires Fits(regs, s, first) && Fits(regs, s, second)
    ensures Fits(regs, s, first + second)
    ensures Run(regs, s, first + second)
            == Prepended(Run(regs, s, first).1, Run(regs, Run(regs, s, first).0, second))
    decreases |first|
  {
    if first == [] {
      assert first + second == second;
      assert [] + Run(regs, s, second).1 == Run(regs, s, second).1;
    } else {
      var t := Effect(regs, s, first[0]).0;
      RunAppend(regs, t, first[1..], second);
      assert first == [first[0]] + first[1..];
      assert first + second == [first[0]] + (first[1..] + second);
      RunCons(regs, s, first[0], first[1..]);
      RunCons(regs, s, first[0], first[1..] + second);
      PrependedTwice(Effect(regs, s, first[0]).1, Run(regs, t, first[1..]).1,
                     Run(regs, Run(regs, t, first[1..]).0, second));
    }
  }

  /** Flush for every handler from number i on. */
  function FlushSteps(i: nat, n: nat): (r: seq<Step>)
    ensures forall k | 0 <= k < |r| :: r[k].i < n
    decreases n - i
  {
    if i >= n then [] else [Flush(i)] + FlushSteps(i + 1, n)
  }

  /** What is left of a cycle when handler p is next to be polled: all flushes before every poll. */
  function CycleSteps(p: nat, n: nat): (r: seq<Step>)
    ensures forall k | 0 <= k < |r| :: r[k].i < n
    decreases n - p
  {
    if p >= n then [] else FlushSteps(0, n) + ([Poll(p)] + CycleSteps(p + 1, n))
  }

  function Ordinal(t: Table): int {
    match t case Coil => 0 case DiscreteInput => 1 case HoldingRegister => 2 case InputRegister => 3
  }

  /** operator< of a register. */
  predicate Before(a: Key, b: Key) {
    if a.slave != b.slave then a.slave < b.slave
    else if a.table != b.table then Ordinal(a.table) < Ordinal(b.table)
    else a.address < b.address
  }

  /** Registers are ordered by slave, then by table in the order of their declaration, then by address, and totally. */
  lemma {:induction false} OrderIsLexicographic(a: Key, b: Key, c: Key)
    ensures a.slave < b.slave ==> Before(a, b)
    ensures a.slave == b.slave && a.table.Coil? && !b.table.Coil? ==> Before(a, b)
    ensures a.slave == b.slave && a.table.DiscreteInput? && (b.table.HoldingRegister? || b.table.InputRegister?) ==>
              Before(a, b)
    ensures a.slave == b.slave && a.table.HoldingRegister? && b.table.InputRegister? ==> Before(a, b)
    ensures a.slave == b.slave && a.table == b.table ==> (Before(a, b) <==> a.address < b.address)
    ensures !(Before(a, b) && Before(b, a)) && (a == b || Before(a, b) || Before(b, a))
    ensures Before(a, b) && Before(b, c) ==> Before(a, c)
  {
  }

  predicate Sorted(regs: seq<Register>) {
    forall i, j | 0 <= i < j < |regs| :: Before(regs[i].key, regs[j].key)
  }

  predicate Distinct(regs: seq<Register>) {
    forall i, j | 0 <= i < j < |regs| :: regs[i].key != regs[j].key
  }

  /** The index of a register, |regs| when it is not defined. */
  function IndexOf(regs: seq<Register>, key: Key): (i: nat)
    ensures i <= |regs|
    ensures i < |regs| ==> regs[i].key == key
    ensures forall j | 0 <= j < i :: regs[j].key != key
  {
    if regs == [] || regs[0].key == key then 0 else 1 + IndexOf(regs[1..], key)
  }

  predicate Defined(regs: seq<Register>, key: Key) {
    IndexOf(regs, key) < |regs|
  }

  /** Where std::map puts a register that is not there yet. */
  function Position(regs: seq<Register>, key: Key): (p: nat)
    ensures p <= |regs|
    ensures p < |regs| ==> !Before(regs[p].key, key)
    ensures forall j | 0 <= j < p :: Before(regs[j].key, key)
  {
    if regs == [] || !Before(regs[0].key, key) then 0 else 1 + Position(regs[1..], key)
  }

  function Inserted<T>(s: seq<T>, p: nat, x: T): seq<T>
    requires p <= |s|
  {
    s[..p] + [x] + s[p..]
  }

  lemma {:induction false} InsertedIsSorted(regs: seq<Register>, reg: Register)
    requires Sorted(regs) && !Defined(regs, reg.key)
    ensures Sorted(Inserted(regs, Position(regs, reg.key), reg))
  {
    var p := Position(regs, reg.key);
    if p < |regs| { assert Before(reg.key, regs[p].key); }
    forall j | p < j < |regs| ensures Before(reg.key, regs[j].key) {
      assert Before(regs[p].key, regs[j].key);
    }
  }

  function SetAt(s: State, i: nat, v: Int): State
    requires i < |s.cells|
  {
    s.(cells := s.cells[i := Cell(v, true, s.cells[i].didRead)])
  }

  class Client {
    const ctx: Context
    var active: bool
    var handlers: seq<RegisterHandler>

    constructor (ctx: Context)
      ensures Valid() && this.ctx == ctx && !active && handlers == []
    {
      this.ctx, active, handlers := ctx, false, [];
    }

    function Regs(): (r: seq<Register>)
      reads this`handlers
      ensures |r| == |handlers|
    {
      var hs := handlers;
      seq(|hs|, i requires 0 <= i < |hs| => hs[i].reg)
    }

    ghost predicate Valid()
      reads this`handlers
    {
      Sorted(Regs())
    }

    function View(): (s: State)
      reads this`handlers, handlers, ctx
      ensures |s.cells| == |handlers|
    {
      var hs := handlers;
      State(seq(|hs|, i requires 0 <= i < |hs| reads hs => hs[i].View()), ctx.View())
    }

    method Find(key: Key) returns (i: nat)
      ensures i == IndexOf(Regs(), key)
    {
      i := 0;
      assert Regs()[0..] == Regs();
      while i < |handlers| && handlers[i].reg.key != key
        invariant i <= |handlers|
        invariant IndexOf(Regs(), key) == i + IndexOf(Regs()[i..], key)
      {
        assert Regs()[i..][1..] == Regs()[i + 1..];
        i := i + 1;
      }
    }

    lemma {:induction false} HandlersDiffer()
      requires Valid()
      ensures forall i, j | 0 <= i < j < |handlers| :: handlers[i] != handlers[j]
    {
      forall i, j | 0 <= i < j < |handlers| ensures handlers[i] != handlers[j] {
        assert Before(Regs()[i].key, Regs()[j].key);
      }
    }

    method FindPlace(key: Key) returns (k: nat)
      ensures k == Position(Regs(), key)
    {
      k := 0;
      assert Regs()[0..] == Regs();
      while k < |handlers| && Before(handlers[k].reg.key, key)
        invariant k <= |handlers|
        invariant Position(Regs(), key) == k + Position(Regs()[k..], key)
      {
        assert Regs()[k..][1..] == Regs()[k + 1..];
        k := k + 1;
      }
    }

    /** Handlers stay in register order; a second handler for the same register is refused. */
    method AddRegister(reg: Register) returns (ok: bool)
      requires Valid()
      modifies this`handlers
      ensures Valid()
      ensures ok == (!active && !Defined(old(Regs()), reg.key))
      ensures ok ==> Regs() == Inserted(old(Regs()), Position(old(Regs()), reg.key), reg)
      ensures ok ==> View() == State(Inserted(old(View().cells), Position(old(Regs()), reg.key), Cell(0, false, false)),
                                     old(ctx.View()))
      ensures forall h | h in handlers :: h in old(handlers) || fresh(h)
      ensures !ok ==> handlers == old(handlers)
    {
      var i := Find(reg.key);
      if active || i < |handlers| { return false; }
      var k := FindPlace(reg.key);
      InsertedIsSorted(Regs(), reg);
      Insert(k, reg);
      return true;
    }

    method Insert(k: nat, reg: Register)
      requires k <= |handlers|
      modifies this`handlers
      ensures Regs() == Inserted(old(Regs()), k, reg)
      ensures View().cells == Inserted(old(View().cells), k, Cell(0, false, false))
      ensures forall h | h in handlers :: h in old(handlers) || fresh(h)
    {
      var h := new RegisterHandler(reg);
      handlers := Inserted(handlers, k, h);
    }

    method SetRawValue(key: Key, v: Int) returns (found: bool)
      requires Valid()
      modifies handlers
      ensures found == Defined(Regs(), key)
      ensures !found ==> View() == old(View())
      ensures found ==> View() == SetAt(old(View()), IndexOf(Regs(), key), v)
    {
      var i := Find(key);
      if i == |handlers| { return false; }
      handlers[i].SetRawValue(v);
      HandlersDiffer();
      assert View().cells == old(View()).cells[i := handlers[i].View()];
      return true;
    }

    method FlushAt(i: nat)
      requires Valid() && i < |handlers|
      modifies handlers, ctx
      ensures View() == Effect(Regs(), old(View()), Flush(i)).0
    {
      handlers[i].Flush(ctx);
      HandlersDiffer();
      assert View().cells == old(View()).cells[i := handlers[i].View()];
    }

    method PollAt(i: nat) returns (changed: bool)
      requires Valid() && i < |handlers|
      modifies handlers, ctx
      ensures (View(), if changed then [Regs()[i].key] else []) == Effect(Regs(), old(View()), Poll(i))
    {
      changed := handlers[i].Poll(ctx);
      HandlersDiffer();
      assert View().cells == old(View()).cells[i := handlers[i].View()];
    }

    /** The inner loop of Cycle. */
    method FlushAll()
      requires Valid()
      modifies handlers, ctx
      ensures View() == Run(Regs(), old(View()), FlushSteps(0, |handlers|)).0
    {
      ghost var start := View();
      for i := 0 to |handlers|
        invariant Run(Regs(), View(), FlushSteps(i, |handlers|)).0 == Run(Regs(), start, FlushSteps(0, |handlers|)).0
      {
        FlushStepsCons(Regs(), View(), i);
        FlushAt(i);
      }
    }

    /** Reports are what the callback is called with. Not an error for a client that is connected already. */
    method Cycle(reachable: bool) returns (ok: bool, reports: seq<Key>)
      requires Valid()
      modifies this`active, handlers, ctx
      ensures ok == (old(active) || (handlers != [] && reachable))
      ensures active == ok
      ensures !ok ==> View() == old(View())
      ensures ok ==> (View(), reports) == Run(Regs(), old(View()), CycleSteps(0, |handlers|))
    {
      reports := [];
      ok := Connect(reachable);
      if ok {
        reports := PollAll();
      }
    }

    /** The loop of Cycle. */
    method PollAll() returns (reports: seq<Key>)
      requires Valid()
      modifies handlers, ctx
      ensures (View(), reports) == Run(Regs(), old(View()), CycleSteps(0, |handlers|))
    {
      reports := [];
      ghost var goal := Run(Regs(), View(), CycleSteps(0, |handlers|));
      assert [] + goal.1 == goal.1;
      for p := 0 to |handlers|
        invariant goal == Prepended(reports, Run(Regs(), View(), CycleSteps(p, |handlers|)))
      {
        ghost var v := Visit(Regs(), View(), p);
        VisitRun(Regs(), View(), p);
        PrependedTwice(reports, v.1, Run(Regs(), v.0, CycleSteps(p + 1, |handlers|)));
        var changed := VisitAt(p);
        if changed {
          reports := reports + [handlers[p].reg.key];
        } else {
          assert reports + [] == reports;
        }
      }
      assert reports + [] == reports;
    }

    method VisitAt(p: nat) returns (changed: bool)
      requires Valid() && p < |handlers|
      modifies handlers, ctx
      ensures (View(), if changed then [Regs()[p].key] else []) == Visit(Regs(), old(View()), p)
    {
      FlushAll();
      changed := PollAt(p);
    }

    method Connect(reachable: bool) returns (ok: bool)
      modifies this`active
      ensures ok == (old(active) || (handlers != [] && reachable))
      ensures active == ok
    {
      if active { return true; }
      if |handlers| == 0 { return false; }
      if !reachable { return false; }
      active := true;
      return true;
    }
  }

  lemma {:induction false} FlushStepsCons(regs: seq<Register>, s: State, i: nat)
    requires |s.cells| == |regs| && i < |regs|
    ensures Run(regs, s, FlushSteps(i, |regs|)).0
            == Run(regs, Effect(regs, s, Flush(i)).0, FlushSteps(i + 1, |regs|)).0
  {
    RunCons(regs, s, Flush(i), FlushSteps(i + 1, |regs|));
  }

  /** One turn of the outer loop: flush everything, then poll one handler. */
  function Visit(regs: seq<Register>, s: State, p: nat): (State, seq<Key>)
    requires |s.cells| == |regs| && p < |regs|
  {
    Effect(regs, Run(regs, s, FlushSteps(0, |regs|)).0, Poll(p))
  }

  lemma {:induction false} SilentPrefix(regs: seq<Register>, s: State, first: seq<Step>, second: seq<Step>)
    requires Fits(regs, s, first) && Fits(regs, s, second) && Run(regs, s, first).1 == []
    ensures Fits(regs, s, first + second)
    ensures Run(regs, s, first + second) == Run(regs, Run(regs, s, first).0, second)
  {
    RunAppend(regs, s, first, second);
    var r := Run(regs, Run(regs, s, first).0, second).1;
    assert [] + r == r;
  }

  lemma {:induction false} VisitRun(regs: seq<Register>, s: State, p: nat)
    requires |s.cells| == |regs| && p < |regs|
    ensures Run(regs, s, CycleSteps(p, |regs|))
            == Prepended(Visit(regs, s, p).1, Run(regs, Visit(regs, s, p).0, CycleSteps(p + 1, |regs|)))
  {
    var n := |regs|;
    var flushes, rest := FlushSteps(0, n), CycleSteps(p + 1, n);
    FlushesReportNothing(regs, s, 0);
    SilentPrefix(regs, s, flushes, [Poll(p)] + rest);
    RunCons(regs, Run(regs, s, flushes).0, Poll(p), rest);
  }

  lemma {:induction false} FlushesReportNothing(regs: seq<Register>, s: State, i: nat)
    requires |s.cells| == |regs|
    ensures Run(regs, s, FlushSteps(i, |regs|)).1 == []
    decreases |regs| - i
  {
    if i < |regs| {
      RunCons(regs, s, Flush(i), FlushSteps(i + 1, |regs|));
      FlushesReportNothing(regs, Effect(regs, s, Flush(i)).0, i + 1);
    }
  }
}
