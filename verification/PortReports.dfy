/**
 What is read, reported and published over whole runs of TModbusPort
 (wb-homa-modbus/modbus_client.cpp:154-183, wb-homa-modbus/modbus_port.cpp:107-151),
 in particular for channels with an on_value.
 */
module PortReports {
  import opened Common
  import opened ModbusRegisters
  import opened ModbusClient
  import opened ModbusCycle
  import opened Mqtt
  import opened NumberText
  import opened PortAgreement
  import opened PortIndex
  import opened PortModel
  import Strings

  // ----- When a register counts as read -----

  lemma {:induction false} ItemsKeepReads(x: Index, s: State, regs: seq<Register>, items: seq<string>, i: nat)
    requires |s.cells| == |x.regs| && Present(x, regs) && |items| == |regs| && i < |x.regs|
    requires SetItems(x, s, regs, items).Some?
    ensures SetItems(x, s, regs, items).value.cells[i].didRead == s.cells[i].didRead
    decreases |regs|
  {
    if regs != [] {
      assert forall k | 0 <= k < |regs[1..]| :: regs[1..][k] == regs[k + 1];
      ItemsKeepReads(x, SetAt(s, IndexOf(x.regs, regs[0].key), Stoi(items[0]).value), regs[1..], items[1..], i);
    }
  }

  /** A step that polls register `i`, with an answer from the bus. */
  predicate Answers(x: Index, p: Port, step: PortStep, i: nat)
    requires Ready(x, p.client) && i < |x.regs|
  {
    step.Bus? && AnswersPoll(x.regs, p.client, step.step, i)
  }

  /** Some poll of register `i` during the run was answered. */
  predicate WasAnswered(x: Index, devices: seq<Device>, p: Port, steps: seq<PortStep>, i: nat)
    requires Ready(x, p.client) && Possible(x, steps) && i < |x.regs|
    decreases |steps|
  {
    steps != [] &&
    (Answers(x, p, steps[0], i) ||
     (AfterStep(x, devices, p, steps[0]).Some? &&
      WasAnswered(x, devices, AfterStep(x, devices, p, steps[0]).value, steps[1..], i)))
  }

  lemma {:induction false} PortStepReads(x: Index, devices: seq<Device>, p: Port, step: PortStep, i: nat)
    requires Ready(x, p.client) && (step.Bus? ==> step.step.i < |x.regs|) && i < |x.regs|
    requires AfterStep(x, devices, p, step).Some?
    ensures AfterStep(x, devices, p, step).value.client.cells[i].didRead
            <==> p.client.cells[i].didRead || Answers(x, p, step, i)
  {
    match step
    case Bus(s) => StepReads(x.regs, p.client, s, i);
    case Message(topic, payload) =>
      if Handle(x, devices, p, topic, payload).Handled? {
        var ch := Route(x, devices, topic).value;
        var items := Strings.SplitLines(payload, ';');
        if |items| == |ch.registers| { ItemsKeepReads(x, p.client, ch.registers, items, i); }
      }
  }

  lemma {:induction false} RunReads(x: Index, devices: seq<Device>, p: Port, steps: seq<PortStep>, i: nat)
    requires Ready(x, p.client) && Possible(x, steps) && i < |x.regs|
    requires AfterRun(x, devices, p, steps).Some?
    ensures AfterRun(x, devices, p, steps).value.client.cells[i].didRead
            <==> p.client.cells[i].didRead || WasAnswered(x, devices, p, steps, i)
    decreases |steps|
  {
    if steps != [] {
      PortStepReads(x, devices, p, steps[0], i);
      RunReads(x, devices, AfterStep(x, devices, p, steps[0]).value, steps[1..], i);
    }
  }

  /** From start-up, over any run: a register has been read if and only if one of its polls was answered. */
  lemma {:induction false} ReadIffAnswered(devices: seq<Device>, bus: ModbusClient.Bus, retained: map<string, string>,
          steps: seq<PortStep>, i: nat)
    requires Built(devices).Some? && i < |Built(devices).value.regs| && Possible(Built(devices).value, steps)
    ensures var x := Built(devices).value;
            var p := Started(x, bus, retained);
            && Ready(x, p.client)
            && (AfterRun(x, devices, p, steps).Some? ==>
                  (AfterRun(x, devices, p, steps).value.client.cells[i].didRead
                   <==> WasAnswered(x, devices, p, steps, i)))
  {
    var x := Built(devices).value;
    var p := Started(x, bus, retained);
    BuiltIsReady(devices, p.client);
    if AfterRun(x, devices, p, steps).Some? { RunReads(x, devices, p, steps, i); }
  }

  // ----- Switches: one register, an on value, and a topic of their own -----

  predicate IsSwitch(x: Index, ch: Channel, i: nat) {
    && i < |x.regs| && x.regs[i].key in x.channelOf && x.channelOf[x.regs[i].key] == ch
    && ch.onValue >= 0 && |ch.registers| == 1 && ch.registers[0].key == x.regs[i].key
    && forall k | k in x.channelOf && x.channelOf[k] != ch :: Topic(x.channelOf[k]) != Topic(ch)
  }

  /** Once its register has been read, the switch shows it. */
  predicate SwitchAgrees(x: Index, p: Port, ch: Channel, i: nat)
    requires |p.client.cells| == |x.regs| && IsSwitch(x, ch, i)
  {
    p.client.cells[i].didRead ==> ShowsSwitch(p.retained, ch, p.client.cells[i].value)
  }

  /** The poll of register `i` is answered with a value that is new, or is the first answer. */
  predicate ReportsPoll(x: Index, p: Port, i: nat)
    requires Ready(x, p.client) && i < |x.regs|
  {
    && AnswersPoll(x.regs, p.client, Poll(i), i)
    && var t := AfterBus(x, p, Poll(i)).client.cells[i];
       t.value != p.client.cells[i].value || !p.client.cells[i].didRead
  }

  lemma {:induction false} IndexOfOwnKey(x: Index, i: nat)
    requires Consistent(x) && i < |x.regs|
    ensures IndexOf(x.regs, x.regs[i].key) == i
  {
    var j := IndexOf(x.regs, x.regs[i].key);
    assert j < i ==> Before(x.regs[j].key, x.regs[i].key);
  }

  /** Every reported poll of an on_value channel's register publishes "1" or "0", whether or not that is new. */
  lemma {:induction false} ReportShowsSwitch(x: Index, p: Port, i: nat)
    requires Ready(x, p.client) && i < |x.regs| && ReportsPoll(x, p, i)
    ensures x.regs[i].key in x.channelOf
    ensures var ch := x.channelOf[x.regs[i].key];
            var q := AfterBus(x, p, Poll(i));
            ch.onValue >= 0 ==> ShowsSwitch(q.retained, ch, q.client.cells[i].value)
  {
    var s := Effect(x.regs, p.client, Poll(i)).0;
    assert Mapped(x, x.regs[i]);
    IndexOfOwnKey(x, i);
    PolledDoes(x.regs[i], p.client.cells[i], p.client.bus);
    NotifiedAnnounces(x, p.(client := s), x.regs[i].key);
  }

  lemma {:induction false} BusKeepsSwitch(x: Index, p: Port, step: Step, ch: Channel, i: nat)
    requires Ready(x, p.client) && step.i < |x.regs| && IsSwitch(x, ch, i) && SwitchAgrees(x, p, ch, i)
    ensures SwitchAgrees(x, AfterBus(x, p, step), ch, i)
  {
    var (s, reports) := Effect(x.regs, p.client, step);
    if reports != [] {
      assert Mapped(x, x.regs[step.i]);
      NoticeKeepsSwitch(x, p.(client := s), step.i, ch, i);
      if step.i != i { OnlyRegisterOfSwitch(x, ch, i, step.i); }
    }
  }

  /** A notification for any register: the own one's shows the switch, others leave its topic alone. */
  lemma {:induction false} NoticeKeepsSwitch(x: Index, p: Port, j: nat, ch: Channel, i: nat)
    requires Ready(x, p.client) && IsSwitch(x, ch, i) && j < |x.regs| && x.regs[j].key in x.channelOf
    ensures var t := Notified(x, p, x.regs[j].key).retained;
            if j == i then ShowsSwitch(t, ch, p.client.cells[i].value)
            else Lookup(t, Topic(ch)) == Lookup(p.retained, Topic(ch))
  {
    IndexOfOwnKey(x, i);
    NotifiedAnnounces(x, p, x.regs[j].key);
    if j != i { OnlyRegisterOfSwitch(x, ch, i, j); }
  }

  lemma {:induction false} OnlyRegisterOfSwitch(x: Index, ch: Channel, i: nat, j: nat)
    requires Consistent(x) && IsSwitch(x, ch, i) && j < |x.regs| && j != i
    ensures x.regs[j].key in x.channelOf && x.channelOf[x.regs[j].key] != ch
  {
    assert Mapped(x, x.regs[j]);
    IndexOfOwnKey(x, i);
    IndexOfOwnKey(x, j);
  }

  /** A message that does not reach the channel changes neither its register nor its topic. */
  lemma {:induction false} MessageKeepsSwitch(x: Index, devices: seq<Device>, p: Port, topic: string, payload: string,
          ch: Channel, i: nat)
    requires Ready(x, p.client) && IsSwitch(x, ch, i) && SwitchAgrees(x, p, ch, i)
    requires Route(x, devices, topic) != Some(ch) && Handle(x, devices, p, topic, payload).Handled?
    requires forall s | s in x.named :: Distinct(x.named[s].registers)
    ensures SwitchAgrees(x, Handle(x, devices, p, topic, payload).port, ch, i)
  {
    var named := Route(x, devices, topic).value;
    var items := Strings.SplitLines(payload, ';');
    NamedIsPresent(x, p.client, devices, topic);
    if |items| == |named.registers| {
      ItemsSetExactly(x, p.client, named.registers, items);
      assert !IsKey(named.registers, x.regs[i].key);
      assert Topic(named) != Topic(ch);
    }
  }

  /** No message of the run reaches the channel. */
  predicate Unset(x: Index, devices: seq<Device>, steps: seq<PortStep>, ch: Channel) {
    forall k | 0 <= k < |steps| :: steps[k].Message? ==> Route(x, devices, steps[k].topic) != Some(ch)
  }

  lemma {:induction false} RunKeepsSwitch(x: Index, devices: seq<Device>, p: Port, steps: seq<PortStep>,
          ch: Channel, i: nat)
    requires Ready(x, p.client) && Possible(x, steps) && IsSwitch(x, ch, i) && SwitchAgrees(x, p, ch, i)
    requires Unset(x, devices, steps, ch) && AfterRun(x, devices, p, steps).Some?
    requires forall s | s in x.named :: Distinct(x.named[s].registers)
    ensures SwitchAgrees(x, AfterRun(x, devices, p, steps).value, ch, i)
    decreases |steps|
  {
    if steps != [] {
      var step := steps[0];
      match step {
        case Bus(s) => BusKeepsSwitch(x, p, s, ch, i);
        case Message(topic, payload) =>
          if Handle(x, devices, p, topic, payload).Handled? {
            MessageKeepsSwitch(x, devices, p, topic, payload, ch, i);
          }
      }
      assert forall k | 0 <= k < |steps[1..]| :: steps[1..][k] == steps[k + 1];
      RunKeepsSwitch(x, devices, AfterStep(x, devices, p, step).value, steps[1..], ch, i);
    }
  }

  /**
   After any run, and a poll then reported for the register of a switch: as long as no
   message sets the switch, its topic shows the register, whatever else happens.
   */
  lemma {:induction false} SwitchShowsLastReport(devices: seq<Device>, ch: Channel, i: nat, p: Port,
          later: seq<PortStep>)
    requires Built(devices).Some? && |p.client.cells| == |Built(devices).value.regs|
    requires IsSwitch(Built(devices).value, ch, i) && Possible(Built(devices).value, later)
    requires Ready(Built(devices).value, p.client) && ReportsPoll(Built(devices).value, p, i)
    requires Unset(Built(devices).value, devices, later, ch)
    ensures var x := Built(devices).value;
            var q := AfterRun(x, devices, AfterBus(x, p, Poll(i)), later);
            q.Some? ==> ShowsSwitch(q.value.retained, ch, q.value.client.cells[i].value)
  {
    var x := Built(devices).value;
    var p1 := AfterBus(x, p, Poll(i));
    ReportShowsSwitch(x, p, i);
    StepReads(x.regs, p.client, Poll(i), i);
    BuiltNamesDistinct(devices);
    if AfterRun(x, devices, p1, later).Some? {
      RunReads(x, devices, p1, later, i);
      RunKeepsSwitch(x, devices, p1, later, ch, i);
    }
  }

  /** A switch that no message sets shows its register from the first answered poll on. */
  lemma {:induction false} UnsetSwitchTracksCache(devices: seq<Device>, ch: Channel, i: nat, bus: ModbusClient.Bus,
          retained: map<string, string>, steps: seq<PortStep>)
    requires Built(devices).Some? && IsSwitch(Built(devices).value, ch, i) && Possible(Built(devices).value, steps)
    requires Unset(Built(devices).value, devices, steps, ch)
    ensures var x := Built(devices).value;
            var p := Started(x, bus, retained);
            && Ready(x, p.client)
            && (AfterRun(x, devices, p, steps).Some? ==>
                  SwitchAgrees(x, AfterRun(x, devices, p, steps).value, ch, i))
  {
    var x := Built(devices).value;
    var p := Started(x, bus, retained);
    BuiltIsReady(devices, p.client);
    BuiltNamesDistinct(devices);
    if AfterRun(x, devices, p, steps).Some? { RunKeepsSwitch(x, devices, p, steps, ch, i); }
  }
}
