/**
 TModbusPort on values: message handling and publishing (wb-homa-modbus/modbus_port.cpp:56-151)
 as functions of the index, the client's state and what the broker retains, and
 runs built from them. PortAgreement has the results.

 Each message and each handler call together with its callback is one step.
 Registers have scale 1.
 */
module PortModel {
  import opened Common
  import opened ModbusRegisters
  import opened ModbusClient
  import opened Mqtt
  import opened NumberText
  import opened PortIndex
  import opened Strings

  /** `retained` is what the broker keeps for the topics. */
  datatype Port = Port(client: State, retained: map<string, string>)

  /** GetChannelTopic. */
  function Topic(ch: Channel): string {
    "/devices/" + ch.deviceId + "/controls/" + ch.name
  }

  /** Every mapped or named channel has all its registers in the client. */
  predicate Whole(x: Index) {
    && Consistent(x) && NamesOwn(x)
    && (forall k | k in x.channelOf :: Owns(x, x.channelOf[k], x.channelOf[k].registers))
  }

  predicate Ready(x: Index, s: State) {
    |s.cells| == |x.regs| && Whole(x)
  }

  function CellOf(x: Index, s: State, key: Key): Cell
    requires Defined(x.regs, key) && |s.cells| == |x.regs|
  {
    s.cells[IndexOf(x.regs, key)]
  }

  predicate Present(x: Index, regs: seq<Register>) {
    forall i | 0 <= i < |regs| :: Defined(x.regs, regs[i].key)
  }

  // ----- OnModbusValueChange -----

  predicate AllRead(x: Index, s: State, regs: seq<Register>)
    requires |s.cells| == |x.regs| && Present(x, regs)
  {
    ReadUpTo(x, s, regs, |regs|)
  }

  predicate ReadUpTo(x: Index, s: State, regs: seq<Register>, n: nat)
    requires |s.cells| == |x.regs| && Present(x, regs) && n <= |regs|
  {
    forall i | 0 <= i < n :: CellOf(x, s, regs[i].key).didRead
  }

  function Texts(x: Index, s: State, regs: seq<Register>): seq<string>
    requires |s.cells| == |x.regs| && Present(x, regs)
  {
    seq(|regs|, i requires 0 <= i < |regs| => ToText(CellOf(x, s, regs[i].key).value))
  }

  /** What is published when `key` changes: None while the channel is not fully read. */
  function Payload(x: Index, s: State, ch: Channel, key: Key): Option<string>
    requires |s.cells| == |x.regs| && Defined(x.regs, key) && Present(x, ch.registers) && ch.registers != []
  {
    if ch.onValue >= 0 then Some(if CellOf(x, s, key).value == ch.onValue then "1" else "0")
    else if AllRead(x, s, ch.registers) then Some(Join(Texts(x, s, ch.registers), ";"))
    else None
  }

  function Notified(x: Index, p: Port, key: Key): Port
    requires Ready(x, p.client) && key in x.channelOf
  {
    var ch := x.channelOf[key];
    OwnedIsPresent(x, p.client, key);
    match Payload(x, p.client, ch, key)
    case None => p
    case Some(text) => p.(retained := Publish(p.retained, Topic(ch), text))
  }

  lemma {:induction false} OwnedIsPresent(x: Index, s: State, key: Key)
    requires Ready(x, s) && key in x.channelOf
    ensures Defined(x.regs, key) && Present(x, x.channelOf[key].registers) && x.channelOf[key].registers != []
  {
    var i := IndexOf(x.regs, key);
    assert x.regs[i].key == key && Mapped(x, x.regs[i]);
  }

  // ----- HandleMessage -----

  predicate HasDevice(devices: seq<Device>, id: string) {
    exists i | 0 <= i < |devices| :: devices[i].id == id
  }

  predicate IsSetTopic(tokens: seq<string>) {
    && |tokens| == 6
    && tokens[0] == "" && tokens[1] == "devices" && tokens[3] == "controls" && tokens[5] == "on"
  }

  function Route(x: Index, devices: seq<Device>, topic: string): Option<Channel> {
    var tokens := SplitLines(topic, '/');
    if !IsSetTopic(tokens) || !HasDevice(devices, tokens[2]) then None
    else Lookup(x.named, Named(tokens[2], tokens[4]))
  }

  /** SetTextValue for each register in turn; an item that is no integer ends the program. */
  function SetItems(x: Index, s: State, regs: seq<Register>, items: seq<string>): (r: Option<State>)
    requires |s.cells| == |x.regs| && Present(x, regs) && |items| == |regs|
    ensures r.Some? ==> |r.value.cells| == |x.regs| && r.value.bus == s.bus
    decreases |regs|
  {
    if regs == [] then Some(s)
    else
      match Stoi(items[0])
      case None => None
      case Some(v) =>
        assert forall i | 0 <= i < |regs[1..]| :: regs[1..][i] == regs[i + 1];
        SetItems(x, SetAt(s, IndexOf(x.regs, regs[0].key), v), regs[1..], items[1..])
  }

  datatype Outcome = NotOurs | Handled(port: Port) | Terminated

  /** A payload with the wrong number of items changes nothing. */
  function WithPayload(x: Index, p: Port, ch: Channel, payload: string): Outcome
    requires |p.client.cells| == |x.regs| && Present(x, ch.registers)
  {
    var items := SplitLines(payload, ';');
    if |items| != |ch.registers| then Handled(p)
    else
      match SetItems(x, p.client, ch.registers, items)
      case None => Terminated
      case Some(s) => Handled(Port(s, Publish(p.retained, Topic(ch), payload)))
  }

  function Handle(x: Index, devices: seq<Device>, p: Port, topic: string, payload: string): Outcome
    requires Ready(x, p.client)
  {
    match Route(x, devices, topic)
    case None => NotOurs
    case Some(ch) => WithPayload(x, p, ch, payload)
  }

  // ----- Runs -----

  datatype PortStep = Message(topic: string, payload: string) | Bus(step: Step)

  predicate Possible(x: Index, steps: seq<PortStep>) {
    forall i | 0 <= i < |steps| :: steps[i].Bus? ==> steps[i].step.i < |x.regs|
  }

  /** A handler call with the callback it triggers. */
  function AfterBus(x: Index, p: Port, step: Step): (q: Port)
    requires Ready(x, p.client) && step.i < |x.regs|
    ensures Ready(x, q.client)
  {
    var (s, reports) := Effect(x.regs, p.client, step);
    var q := p.(client := s);
    assert Mapped(x, x.regs[step.i]);
    if reports == [] then q else Notified(x, q, reports[0])
  }

  /** None when the program has ended. */
  function AfterStep(x: Index, devices: seq<Device>, p: Port, step: PortStep): (r: Option<Port>)
    requires Ready(x, p.client) && (step.Bus? ==> step.step.i < |x.regs|)
    ensures r.Some? ==> Ready(x, r.value.client)
  {
    match step
    case Bus(s) => Some(AfterBus(x, p, s))
    case Message(topic, payload) =>
      match Handle(x, devices, p, topic, payload)
      case NotOurs => Some(p)
      case Handled(q) => Some(q)
      case Terminated => None
  }

  function AfterRun(x: Index, devices: seq<Device>, p: Port, steps: seq<PortStep>): (r: Option<Port>)
    requires Ready(x, p.client) && Possible(x, steps)
    ensures r.Some? ==> Ready(x, r.value.client)
    decreases |steps|
  {
    if steps == [] then Some(p)
    else
      match AfterStep(x, devices, p, steps[0])
      case None => None
      case Some(q) => AfterRun(x, devices, q, steps[1..])
  }

  // ----- One cycle -----

  /** One turn of the client's outer loop, with the callback. */
  function AfterVisit(x: Index, p: Port, i: nat): (q: Port)
    requires Ready(x, p.client) && i < |x.regs|
    ensures Ready(x, q.client)
  {
    AfterBus(x, p.(client := Run(x.regs, p.client, FlushSteps(0, |x.regs|)).0), Poll(i))
  }

  function AfterCycle(x: Index, p: Port, i: nat): (q: Port)
    requires Ready(x, p.client) && i <= |x.regs|
    ensures Ready(x, q.client)
    decreases |x.regs| - i
  {
    if i == |x.regs| then p else AfterCycle(x, AfterVisit(x, p, i), i + 1)
  }

  lemma {:induction false} AfterCycleStep(x: Index, p: Port, i: nat)
    requires Ready(x, p.client) && i < |x.regs|
    ensures AfterCycle(x, p, i) == AfterCycle(x, AfterVisit(x, p, i), i + 1)
  {
  }

  function BusSteps(steps: seq<Step>): seq<PortStep> {
    seq(|steps|, k requires 0 <= k < |steps| => PortStep.Bus(steps[k]))
  }

  lemma {:induction false} AfterBusCons(x: Index, devices: seq<Device>, p: Port, step: Step, rest: seq<Step>)
    requires Ready(x, p.client) && Possible(x, BusSteps([step] + rest)) && Possible(x, BusSteps(rest))
    requires step.i < |x.regs|
    ensures AfterRun(x, devices, p, BusSteps([step] + rest))
            == AfterRun(x, devices, AfterBus(x, p, step), BusSteps(rest))
  {
    assert BusSteps([step] + rest)[1..] == BusSteps(rest);
  }

  lemma {:induction false} AfterFlushes(x: Index, devices: seq<Device>, p: Port, i: nat, rest: seq<Step>)
    requires Ready(x, p.client) && Possible(x, BusSteps(FlushSteps(i, |x.regs|) + rest)) && Possible(x, BusSteps(rest))
    ensures AfterRun(x, devices, p, BusSteps(FlushSteps(i, |x.regs|) + rest))
            == AfterRun(x, devices, p.(client := Run(x.regs, p.client, FlushSteps(i, |x.regs|)).0), BusSteps(rest))
    decreases |x.regs| - i
  {
    var n := |x.regs|;
    if i >= n {
      assert FlushSteps(i, n) + rest == rest;
    } else {
      var tail := FlushSteps(i + 1, n) + rest;
      assert FlushSteps(i, n) + rest == [Flush(i)] + tail;
      StepsPossible(x, tail, FlushSteps(i + 1, n), rest);
      AfterBusCons(x, devices, p, Flush(i), tail);
      FlushStepsCons(x.regs, p.client, i);
      AfterFlushes(x, devices, AfterBus(x, p, Flush(i)), i + 1, rest);
    }
  }

  lemma {:induction false} StepsPossible(x: Index, steps: seq<Step>, a: seq<Step>, b: seq<Step>)
    requires steps == a + b && (forall k | 0 <= k < |a| :: a[k].i < |x.regs|) && Possible(x, BusSteps(b))
    ensures Possible(x, BusSteps(steps))
  {
    forall k | 0 <= k < |b| ensures b[k].i < |x.regs| {
      assert BusSteps(b)[k] == PortStep.Bus(b[k]);
    }
    forall k | 0 <= k < |steps| ensures steps[k].i < |x.regs| {
    }
  }

  lemma {:induction false} CycleStepsPossible(x: Index, i: nat)
    ensures Possible(x, BusSteps(CycleSteps(i, |x.regs|)))
  {
  }

  /** A cycle is a run: every register is flushed before each poll, the polls go in register order. */
  lemma {:induction false} CycleIsRun(x: Index, devices: seq<Device>, p: Port, i: nat)
    requires Ready(x, p.client) && i <= |x.regs|
    ensures Possible(x, BusSteps(CycleSteps(i, |x.regs|)))
    ensures AfterRun(x, devices, p, BusSteps(CycleSteps(i, |x.regs|))) == Some(AfterCycle(x, p, i))
    decreases |x.regs| - i
  {
    var n := |x.regs|;
    CycleStepsPossible(x, i);
    if i < n {
      var rest := CycleSteps(i + 1, n);
      CycleStepsPossible(x, i + 1);
      StepsPossible(x, [Poll(i)] + rest, [Poll(i)], rest);
      AfterFlushes(x, devices, p, 0, [Poll(i)] + rest);
      var flushed := p.(client := Run(x.regs, p.client, FlushSteps(0, n)).0);
      AfterBusCons(x, devices, flushed, Poll(i), rest);
      CycleIsRun(x, devices, AfterVisit(x, p, i), i + 1);
    }
  }
}
