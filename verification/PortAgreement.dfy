/**
 What TModbusPort guarantees (wb-homa-modbus/modbus_port.cpp:56-151): messages
 reach the right channel, and topics agree with the register cache in every run.
 */
module PortAgreement {
  import opened Common
  import opened ModbusRegisters
  import opened ModbusClient
  import opened Mqtt
  import opened NumberText
  import opened PortIndex
  import opened PortModel
  import opened Strings

  // ----- Lists joined and split on one character -----

  lemma {:induction false} FreeOfChar(t: string, c: char)
    ensures Contains(t, [c]) <==> c in t
    ensures c !in t ==> EndsCleanly(t, [c])
  {
    FindIsLeftmost(t, [c]);
    if c in t {
      var i :| 0 <= i < |t| && t[i] == c;
      assert OccursAt(t, [c], i);
    } else {
      forall k: nat | k < |t| ensures !OccursAt(t, [c], k) && !OccursAt(t + [c], [c], k) {
        assert t[k..k + 1] == [t[k]] == (t + [c])[k..k + 1];
      }
      assert (t + [c])[|t|..|t| + 1] == [c];
      FirstOccurrence(t + [c], [c], |t|);
    }
  }

  lemma {:induction false} SplitLinesTokens(s: string, c: char)
    ensures forall t | t in SplitLines(s, c) :: c !in t
  {
    SplitLinesIsSplit(s, c);
    SplitTokensAreFree(s, [c]);
    forall t | t in SplitLines(s, c) ensures c !in t {
      assert t in Split(s, [c]);
      FreeOfChar(t, c);
    }
  }

  lemma {:induction false} SplitLinesOfJoin(ts: seq<string>, c: char)
    requires ts != [] && Last(ts) != [] && forall t | t in ts :: c !in t
    ensures SplitLines(Join(ts, [c]), c) == ts
  {
    forall t | t in ts ensures EndsCleanly(t, [c]) && !Contains(t, [c]) {
      FreeOfChar(t, c);
    }
    assert Separable(ts, [c]);
    SplitJoinIff(ts, [c]);
    SplitLinesIsSplit(Join(ts, [c]), c);
  }

  // ----- Messages reach the channel a search would find -----

  lemma {:induction false} FoundHasDevice(devices: seq<Device>, id: string, name: string, found: Option<Channel>)
    requires !HasDevice(devices, id)
    ensures LastInDevices(devices, id, name, found) == found
    decreases |devices|
  {
    if devices != [] {
      assert devices[0].id != id;
      NoMatch(devices[0].id, devices[0].channels, id, name, found);
      assert forall i | 0 <= i < |devices[1..]| :: devices[1..][i] == devices[i + 1];
      FoundHasDevice(devices[1..], id, name, found);
    }
  }

  lemma {:induction false} NoMatch(id: string, channels: seq<Channel>, deviceId: string, name: string,
                                   found: Option<Channel>)
    requires id != deviceId
    ensures LastChannel(id, channels, deviceId, name, found) == found
    decreases |channels|
  {
    if channels != [] {
      NoMatch(id, channels[1..], deviceId, name, found);
    }
  }

  /** The tokens of "/devices/id/controls/name/on", for any id and name. */
  predicate SetsSomeChannel(tokens: seq<string>) {
    |tokens| == 6 && tokens == ["", "devices", tokens[2], "controls", tokens[4], "on"]
  }

  /** A message is taken exactly when its topic is "/devices/id/controls/name/on" for a configured channel. */
  lemma {:induction false} RouteIsSearch(devices: seq<Device>, topic: string)
    requires Built(devices).Some?
    ensures var tokens := SplitLines(topic, '/');
            Route(Built(devices).value, devices, topic)
            == if SetsSomeChannel(tokens) then Search(devices, tokens[2], tokens[4]) else None
  {
    var tokens := SplitLines(topic, '/');
    SplitLinesTokens(topic, '/');
    if SetsSomeChannel(tokens) {
      assert tokens[2] in tokens && tokens[4] in tokens;
      IndexAgreesWithSearch(devices, tokens[2], tokens[4]);
      if !HasDevice(devices, tokens[2]) {
        FoundHasDevice(devices, tokens[2], tokens[4], None);
      }
    }
  }

  lemma {:induction false} JoinFrom(t: string, ts: seq<string>, rest: string)
    requires ts != [] && Join(ts, "/") == rest
    ensures Join([t] + ts, "/") == t + ("/" + rest)
  {
    JoinCons(t, ts, "/");
    Assoc(t, "/", rest);
  }

  lemma {:induction false} SetTopicText(deviceId: string, name: string)
    ensures "/devices/" + deviceId + "/controls/" + name + "/on"
            == "/devices/" + (deviceId + ("/controls/" + (name + "/on")))
  {
    Assoc("/devices/" + deviceId + "/controls/", name, "/on");
    Assoc("/devices/" + deviceId, "/controls/", name + "/on");
    Assoc("/devices/", deviceId, "/controls/" + (name + "/on"));
  }

  lemma {:induction false} Slashed(literal: string, rest: string)
    ensures "/" + (literal + ("/" + rest)) == ("/" + literal + "/") + rest
  {
    Assoc("/", literal, "/" + rest);
    Assoc("/" + literal, "/", rest);
  }

  lemma {:induction false} JoinedSetTopic(deviceId: string, name: string)
    ensures Join([""] + (["devices"] + ([deviceId] + (["controls"] + ([name] + ["on"])))), "/")
            == "/devices/" + deviceId + "/controls/" + name + "/on"
  {
    var r4 := name + "/on";
    var r3 := "controls" + ("/" + r4);
    var r2 := deviceId + ("/" + r3);
    var r1 := "devices" + ("/" + r2);
    JoinFrom(name, ["on"], "on");
    JoinFrom("controls", [name] + ["on"], r4);
    JoinFrom(deviceId, ["controls"] + ([name] + ["on"]), r3);
    JoinFrom("devices", [deviceId] + (["controls"] + ([name] + ["on"])), r2);
    JoinFrom("", ["devices"] + ([deviceId] + (["controls"] + ([name] + ["on"]))), r1);
    Slashed("controls", r4);
    Slashed("devices", r2);
    SetTopicText(deviceId, name);
  }

  /** The tokens of the topic a channel is set through: its own topic with "/on". */
  lemma {:induction false} SetTopicTokens(ch: Channel)
    requires '/' !in ch.deviceId && '/' !in ch.name
    ensures SplitLines(Topic(ch) + "/on", '/') == ["", "devices", ch.deviceId, "controls", ch.name, "on"]
  {
    var ts := ["", "devices", ch.deviceId, "controls", ch.name, "on"];
    assert ts == [""] + (["devices"] + ([ch.deviceId] + (["controls"] + ([ch.name] + ["on"]))));
    JoinedSetTopic(ch.deviceId, ch.name);
    SplitLinesOfJoin(ts, '/');
  }

  /**
   A message on the topic that a channel publishes to, with "/on" added, reaches
   that channel, if it is the last of its device with that name.
   */
  lemma {:induction false} SetTopicReachesChannel(devices: seq<Device>, ch: Channel)
    requires Built(devices).Some? && '/' !in ch.deviceId && '/' !in ch.name
    requires Search(devices, ch.deviceId, ch.name) == Some(ch)
    ensures Route(Built(devices).value, devices, Topic(ch) + "/on") == Some(ch)
  {
    SetTopicTokens(ch);
    RouteIsSearch(devices, Topic(ch) + "/on");
  }

  // ----- A message sets exactly the channel's registers -----

  /** The cells after a message: number k of `regs` holds item k, to be written; everything else is untouched. */
  predicate SetExactly(x: Index, s: State, t: State, regs: seq<Register>, items: seq<string>)
    requires |s.cells| == |t.cells| == |x.regs| && |items| == |regs| && Present(x, regs)
  {
    && (forall k | 0 <= k < |regs| ::
          Stoi(items[k]).Some? && CellOf(x, t, regs[k].key)
          == Cell(Stoi(items[k]).value, true, CellOf(x, s, regs[k].key).didRead))
    && (forall i | 0 <= i < |x.regs| && !IsKey(regs, x.regs[i].key) :: t.cells[i] == s.cells[i])
    && t.bus == s.bus
  }

  lemma {:induction false} ItemsSetExactly(x: Index, s: State, regs: seq<Register>, items: seq<string>)
    requires |s.cells| == |x.regs| && Present(x, regs) && |items| == |regs| && Distinct(regs)
    requires SetItems(x, s, regs, items).Some?
    ensures SetExactly(x, s, SetItems(x, s, regs, items).value, regs, items)
    decreases |regs|
  {
    if regs != [] {
      var key := regs[0].key;
      var s1 := SetAt(s, IndexOf(x.regs, key), Stoi(items[0]).value);
      assert forall i | 0 <= i < |regs[1..]| :: regs[1..][i] == regs[i + 1];
      ItemsSetExactly(x, s1, regs[1..], items[1..]);
      SetExactlyCons(x, s, SetItems(x, s, regs, items).value, regs, items);
    }
  }

  lemma {:induction false} SetExactlyCons(x: Index, s: State, t: State, regs: seq<Register>, items: seq<string>)
    requires |s.cells| == |t.cells| == |x.regs| && |items| == |regs| > 0 && Present(x, regs) && Distinct(regs)
    requires Stoi(items[0]).Some? && Present(x, regs[1..])
    requires SetExactly(x, SetAt(s, IndexOf(x.regs, regs[0].key), Stoi(items[0]).value), t, regs[1..], items[1..])
    ensures SetExactly(x, s, t, regs, items)
  {
    var i0 := IndexOf(x.regs, regs[0].key);
    var s1 := SetAt(s, i0, Stoi(items[0]).value);
    assert !IsKey(regs[1..], x.regs[i0].key);
    forall k | 0 <= k < |regs|
      ensures Stoi(items[k]).Some? && CellOf(x, t, regs[k].key)
              == Cell(Stoi(items[k]).value, true, CellOf(x, s, regs[k].key).didRead)
    {
      if k > 0 { assert regs[1..][k - 1] == regs[k] && items[1..][k - 1] == items[k]; }
    }
    forall i | 0 <= i < |x.regs| && !IsKey(regs, x.regs[i].key) ensures t.cells[i] == s.cells[i] {
      assert x.regs[i].key != regs[0].key;
      assert forall j | 0 <= j < |regs[1..]| :: regs[1..][j] == regs[j + 1];
    }
  }

  // ----- Topics agree with the cache -----

  /** The payload lists, between semicolons, integers that are exactly the cached values. */
  predicate Shows(x: Index, s: State, regs: seq<Register>, payload: string)
    requires |s.cells| == |x.regs| && Present(x, regs)
  {
    var items := SplitLines(payload, ';');
    |items| == |regs| && forall i | 0 <= i < |regs| :: Stoi(items[i]) == Some(CellOf(x, s, regs[i].key).value)
  }

  predicate EveryRead(x: Index, s: State, regs: seq<Register>)
    requires |s.cells| == |x.regs| && Present(x, regs)
  {
    forall i | 0 <= i < |regs| :: CellOf(x, s, regs[i].key).didRead
  }

  /** Once all registers of the channel have been read, its topic shows them. */
  predicate Agrees(x: Index, p: Port, ch: Channel)
    requires |p.client.cells| == |x.regs| && Present(x, ch.registers)
  {
    EveryRead(x, p.client, ch.registers) ==>
      Topic(ch) in p.retained && Shows(x, p.client, ch.registers, p.retained[Topic(ch)])
  }

  /** A channel of the kind the agreement is about; no other channel publishes on its topic. */
  predicate Plain(x: Index, ch: Channel) {
    && ch.registers != [] && ch.onValue < 0 && Owns(x, ch, ch.registers) && Distinct(ch.registers)
    && forall k | k in x.channelOf && x.channelOf[k] != ch :: Topic(x.channelOf[k]) != Topic(ch)
  }

  /** What is published is read back as the values it was made of. */
  lemma {:induction false} JoinedTextsShow(x: Index, s: State, regs: seq<Register>)
    requires |s.cells| == |x.regs| && Present(x, regs) && regs != []
    ensures Join(Texts(x, s, regs), ";") != ""
    ensures Shows(x, s, regs, Join(Texts(x, s, regs), ";"))
  {
    var ts := Texts(x, s, regs);
    forall t | t in ts ensures ';' !in t && t != [] {
      var i :| 0 <= i < |ts| && ts[i] == t;
    }
    assert Last(ts) in ts;
    SplitLinesOfJoin(ts, ';');
    assert SplitLines("", ';') == [];
    forall i | 0 <= i < |regs| ensures Stoi(ts[i]) == Some(CellOf(x, s, regs[i].key).value) {
      StoiOfText(CellOf(x, s, regs[i].key).value);
    }
  }

  /** Values and read flags of the channel's registers are the same in both states. */
  predicate SameFor(x: Index, s: State, t: State, regs: seq<Register>)
    requires |s.cells| == |t.cells| == |x.regs| && Present(x, regs)
  {
    forall i | 0 <= i < |regs| ::
      && CellOf(x, s, regs[i].key).value == CellOf(x, t, regs[i].key).value
      && CellOf(x, s, regs[i].key).didRead == CellOf(x, t, regs[i].key).didRead
  }

  lemma {:induction false} SameKeepsAgreement(x: Index, p: Port, q: Port, ch: Channel)
    requires |p.client.cells| == |q.client.cells| == |x.regs| && Present(x, ch.registers) && Agrees(x, p, ch)
    requires SameFor(x, p.client, q.client, ch.registers)
    requires Lookup(p.retained, Topic(ch)) == Lookup(q.retained, Topic(ch))
    ensures Agrees(x, q, ch)
  {
    assert EveryRead(x, q.client, ch.registers) ==> EveryRead(x, p.client, ch.registers);
  }

  lemma {:induction false} SameTransitive(x: Index, s: State, t: State, regs: seq<Register>)
    requires |s.cells| == |t.cells| == |x.regs| && Present(x, regs)
    requires forall i | 0 <= i < |x.regs| && IsKey(regs, x.regs[i].key) ::
               s.cells[i].value == t.cells[i].value && s.cells[i].didRead == t.cells[i].didRead
    ensures SameFor(x, s, t, regs)
  {
    forall k | 0 <= k < |regs|
      ensures && CellOf(x, s, regs[k].key).value == CellOf(x, t, regs[k].key).value
              && CellOf(x, s, regs[k].key).didRead == CellOf(x, t, regs[k].key).didRead
    {
      assert IsKey(regs, x.regs[IndexOf(x.regs, regs[k].key)].key);
    }
  }

  /** Handler calls that report nothing, or that report a register of another channel. */
  lemma {:induction false} EffectElsewhere(x: Index, s: State, step: Step, regs: seq<Register>)
    requires |s.cells| == |x.regs| && step.i < |x.regs| && Present(x, regs)
    requires Effect(x.regs, s, step).1 == [] || !IsKey(regs, x.regs[step.i].key)
    ensures SameFor(x, s, Effect(x.regs, s, step).0, regs)
  {
    SameTransitive(x, s, Effect(x.regs, s, step).0, regs);
  }

  /** The registers of a plain channel are those mapped to it. */
  lemma {:induction false} KeyOfPlain(x: Index, ch: Channel, key: Key)
    requires Consistent(x) && Plain(x, ch) && key in x.channelOf
    ensures IsKey(ch.registers, key) <==> x.channelOf[key] == ch
  {
    if IsKey(ch.registers, key) {
      var i :| 0 <= i < |ch.registers| && ch.registers[i].key == key;
      assert x.channelOf[ch.registers[i].key] == ch;
    }
    if x.channelOf[key] == ch {
      var i := IndexOf(x.regs, key);
      assert Mapped(x, x.regs[i]);
      var j :| 0 <= j < |ch.registers| && ch.registers[j] == x.regs[i];
      assert ch.registers[j].key == key;
    }
  }

  lemma {:induction false} NotifiedKeepsOthers(x: Index, p: Port, key: Key, ch: Channel)
    requires Ready(x, p.client) && Plain(x, ch) && key in x.channelOf && x.channelOf[key] != ch
    ensures Lookup(Notified(x, p, key).retained, Topic(ch)) == Lookup(p.retained, Topic(ch))
    ensures Notified(x, p, key).client == p.client
  {
    assert Topic(x.channelOf[key]) != Topic(ch);
  }

  lemma {:induction false} NotifiedAgrees(x: Index, p: Port, key: Key, ch: Channel)
    requires Ready(x, p.client) && Plain(x, ch) && Present(x, ch.registers)
    requires key in x.channelOf && x.channelOf[key] == ch
    ensures Agrees(x, Notified(x, p, key), ch)
  {
    JoinedTextsShow(x, p.client, ch.registers);
  }

  lemma {:induction false} BusKeepsAgreement(x: Index, p: Port, step: Step, ch: Channel)
    requires Ready(x, p.client) && step.i < |x.regs| && Plain(x, ch) && Present(x, ch.registers) && Agrees(x, p, ch)
    ensures Agrees(x, AfterBus(x, p, step), ch)
  {
    var (s, reports) := Effect(x.regs, p.client, step);
    var key := x.regs[step.i].key;
    assert Mapped(x, x.regs[step.i]);
    if reports != [] && x.channelOf[key] == ch {
      NotifiedAgrees(x, p.(client := s), key, ch);
    } else {
      if reports != [] { NotifiedKeepsOthers(x, p.(client := s), key, ch); }
      KeyOfPlain(x, ch, key);
      EffectElsewhere(x, p.client, step, ch.registers);
      SameKeepsAgreement(x, p, AfterBus(x, p, step), ch);
    }
  }

  lemma {:induction false} MessageKeepsAgreement(x: Index, devices: seq<Device>, p: Port, topic: string,
          payload: string, ch: Channel)
    requires Ready(x, p.client) && Plain(x, ch) && Present(x, ch.registers) && Agrees(x, p, ch)
    requires Handle(x, devices, p, topic, payload).Handled?
    requires forall s | s in x.named :: Distinct(x.named[s].registers)
    ensures Agrees(x, Handle(x, devices, p, topic, payload).port, ch)
  {
    var named := Route(x, devices, topic).value;
    var items := SplitLines(payload, ';');
    if |items| == |named.registers| {
      NamedIsPresent(x, p.client, devices, topic);
      ItemsSetExactly(x, p.client, named.registers, items);
      var s := SetItems(x, p.client, named.registers, items).value;
      if named != ch {
        OthersKeepTheirRegisters(x, p.client, s, named, items, ch);
        SameKeepsAgreement(x, p, Handle(x, devices, p, topic, payload).port, ch);
      } else {
        assert items != [];
        assert payload != "";
        assert Shows(x, s, ch.registers, payload);
      }
    }
  }

  lemma {:induction false} NamedIsPresent(x: Index, s: State, devices: seq<Device>, topic: string)
    requires Ready(x, s) && Route(x, devices, topic).Some?
    ensures var ch := Route(x, devices, topic).value;
            && Present(x, ch.registers) && ch.registers != [] && Owns(x, ch, ch.registers)
            && x.channelOf[ch.registers[0].key] == ch
  {
  }

  lemma {:induction false} OthersKeepTheirRegisters(x: Index, s: State, t: State, named: Channel,
          items: seq<string>, ch: Channel)
    requires Ready(x, s) && |t.cells| == |x.regs| && Plain(x, ch) && Present(x, ch.registers)
    requires Owns(x, named, named.registers) && Present(x, named.registers) && named != ch
    requires |items| == |named.registers| && SetExactly(x, s, t, named.registers, items)
    ensures SameFor(x, s, t, ch.registers)
  {
    forall i | 0 <= i < |x.regs| && IsKey(ch.registers, x.regs[i].key) ensures t.cells[i] == s.cells[i] {
      assert Mapped(x, x.regs[i]);
      KeyOfPlain(x, ch, x.regs[i].key);
    }
    SameTransitive(x, s, t, ch.registers);
  }

  lemma {:induction false} StepKeepsAgreement(x: Index, devices: seq<Device>, p: Port, step: PortStep, ch: Channel)
    requires Ready(x, p.client) && (step.Bus? ==> step.step.i < |x.regs|)
    requires Plain(x, ch) && Present(x, ch.registers) && Agrees(x, p, ch)
    requires forall s | s in x.named :: Distinct(x.named[s].registers)
    ensures AfterStep(x, devices, p, step).Some? ==> Agrees(x, AfterStep(x, devices, p, step).value, ch)
  {
    match step
    case Bus(s) => BusKeepsAgreement(x, p, s, ch);
    case Message(topic, payload) =>
      if Handle(x, devices, p, topic, payload).Handled? {
        MessageKeepsAgreement(x, devices, p, topic, payload, ch);
      }
  }

  lemma {:induction false} RunKeepsAgreement(x: Index, devices: seq<Device>, p: Port, steps: seq<PortStep>, ch: Channel)
    requires Ready(x, p.client) && Possible(x, steps) && Plain(x, ch) && Present(x, ch.registers) && Agrees(x, p, ch)
    requires forall s | s in x.named :: Distinct(x.named[s].registers)
    requires AfterRun(x, devices, p, steps).Some?
    ensures Agrees(x, AfterRun(x, devices, p, steps).value, ch)
    decreases |steps|
  {
    if steps != [] {
      StepKeepsAgreement(x, devices, p, steps[0], ch);
      RunKeepsAgreement(x, devices, AfterStep(x, devices, p, steps[0]).value, steps[1..], ch);
    }
  }

  // ----- The results for a configuration -----

  /** What a freshly started port knows: nothing has been read, whatever the broker still retains. */
  function Started(x: Index, bus: ModbusClient.Bus, retained: map<string, string>): Port {
    Port(State(seq(|x.regs|, _ => Cell(0, false, false)), bus), retained)
  }

  predicate UniqueTopic(devices: seq<Device>, ch: Channel) {
    forall i, j | 0 <= i < |devices| && 0 <= j < |devices[i].channels| ::
      devices[i].channels[j] != ch ==> Topic(devices[i].channels[j]) != Topic(ch)
  }

  lemma {:induction false} BuiltIsReady(devices: seq<Device>, s: State)
    requires Built(devices).Some? && |s.cells| == |Built(devices).value.regs|
    ensures Ready(Built(devices).value, s)
  {
    BuiltIsConsistent(devices);
  }

  lemma {:induction false} BuiltIsPlain(devices: seq<Device>, ch: Channel)
    requires Built(devices).Some? && Configured(devices, ch) && UniqueTopic(devices, ch)
    requires ch.registers != [] && ch.onValue < 0
    ensures Plain(Built(devices).value, ch) && Present(Built(devices).value, ch.registers)
  {
    var x := Built(devices).value;
    BuiltIsConsistent(devices);
    BuiltIffDistinct(devices);
    ConfiguredDistinct(devices, ch);
    forall k | k in x.channelOf && x.channelOf[k] != ch ensures Topic(x.channelOf[k]) != Topic(ch) {
      var i :| 0 <= i < |devices| && x.channelOf[k] in devices[i].channels;
      var j :| 0 <= j < |devices[i].channels| && devices[i].channels[j] == x.channelOf[k];
    }
  }

  lemma {:induction false} BuiltNamesDistinct(devices: seq<Device>)
    requires Built(devices).Some?
    ensures var x := Built(devices).value; forall s | s in x.named :: Distinct(x.named[s].registers)
  {
    var x := Built(devices).value;
    BuiltIsConsistent(devices);
    BuiltIffDistinct(devices);
    forall s | s in x.named ensures Distinct(x.named[s].registers) {
      assert x.channelOf[x.named[s].registers[0].key] == x.named[s];
      ConfiguredDistinct(devices, x.named[s]);
    }
  }

  /**
   On any run of messages, flushes and polls, over any bus: once every register
   of a channel without on_value and with a topic of its own has been read, the
   payload retained on the topic splits on ';' into integers that are exactly
   the cached values.
   */
  lemma {:induction false} TopicTracksCache(devices: seq<Device>, ch: Channel, bus: ModbusClient.Bus,
          retained: map<string, string>,
                         steps: seq<PortStep>)
    requires Built(devices).Some? && Configured(devices, ch) && UniqueTopic(devices, ch)
    requires ch.registers != [] && ch.onValue < 0
    requires Possible(Built(devices).value, steps)
    ensures Present(Built(devices).value, ch.registers)
    ensures var x := Built(devices).value;
            && Ready(x, Started(x, bus, retained).client)
            && (AfterRun(x, devices, Started(x, bus, retained), steps).Some? ==>
                  Agrees(x, AfterRun(x, devices, Started(x, bus, retained), steps).value, ch))
  {
    var x := Built(devices).value;
    var p := Started(x, bus, retained);
    BuiltIsReady(devices, p.client);
    BuiltIsPlain(devices, ch);
    BuiltNamesDistinct(devices);
    assert !CellOf(x, p.client, ch.registers[0].key).didRead;
    if AfterRun(x, devices, p, steps).Some? {
      RunKeepsAgreement(x, devices, p, steps, ch);
    }
  }

  /**
   A message sets exactly the registers of the channel it names, to the integers
   it lists, or nothing at all when the number of items differs; what it listed is
   published as it came.
   */
  lemma {:induction false} MessageSetsExactly(devices: seq<Device>, p: Port, topic: string, payload: string)
    requires Built(devices).Some? && |p.client.cells| == |Built(devices).value.regs|
    requires Ready(Built(devices).value, p.client)
    requires Handle(Built(devices).value, devices, p, topic, payload).Handled?
    ensures
      var x := Built(devices).value;
      var q := Handle(x, devices, p, topic, payload).port;
      var tokens, items := SplitLines(topic, '/'), SplitLines(payload, ';');
      && SetsSomeChannel(tokens) && Search(devices, tokens[2], tokens[4]).Some?
      && var ch := Search(devices, tokens[2], tokens[4]).value;
         && Present(x, ch.registers)
         && (if |items| == |ch.registers| then
               SetExactly(x, p.client, q.client, ch.registers, items) && q.retained == p.retained[Topic(ch) := payload]
             else q == p)
  {
    var x := Built(devices).value;
    RouteIsSearch(devices, topic);
    var ch := Route(x, devices, topic).value;
    NamedIsPresent(x, p.client, devices, topic);
    BuiltNamesDistinct(devices);
    var items := SplitLines(payload, ';');
    if |items| == |ch.registers| {
      ItemsSetExactly(x, p.client, ch.registers, items);
      assert items != [];
      assert payload != "";
    }
  }

  lemma {:induction false} ItemsRefusedIff(x: Index, s: State, regs: seq<Register>, items: seq<string>)
    requires |s.cells| == |x.regs| && Present(x, regs) && |items| == |regs|
    ensures SetItems(x, s, regs, items).None? <==> exists k | 0 <= k < |items| :: Stoi(items[k]).None?
    decreases |regs|
  {
    if regs != [] {
      assert items == [items[0]] + items[1..];
      if Stoi(items[0]).Some? {
        assert forall i | 0 <= i < |regs[1..]| :: regs[1..][i] == regs[i + 1];
        ItemsRefusedIff(x, SetAt(s, IndexOf(x.regs, regs[0].key), Stoi(items[0]).value), regs[1..], items[1..]);
        assert forall k | 0 < k < |items| :: items[k] == items[1..][k - 1];
      }
    }
  }

  /**
   A message ends the program if and only if it reaches a channel, has the right number of
   items, and one of them is no integer; it is left to others if and only if it reaches none.
   */
  lemma {:induction false} MessageTerminatesIff(devices: seq<Device>, p: Port, topic: string, payload: string)
    requires Built(devices).Some? && |p.client.cells| == |Built(devices).value.regs|
    requires Ready(Built(devices).value, p.client)
    ensures
      var r := Handle(Built(devices).value, devices, p, topic, payload);
      var tokens, items := SplitLines(topic, '/'), SplitLines(payload, ';');
      var found := if SetsSomeChannel(tokens) then Search(devices, tokens[2], tokens[4]) else None;
      && (r.NotOurs? <==> found.None?)
      && (r.Terminated? <==> found.Some? && |items| == |found.value.registers|
                             && exists k | 0 <= k < |items| :: Stoi(items[k]).None?)
  {
    RouteIsSearch(devices, topic);
    var x := Built(devices).value;
    var items := SplitLines(payload, ';');
    var found := Route(x, devices, topic);
    if found.Some? {
      NamedIsPresent(x, p.client, devices, topic);
      if |items| == |found.value.registers| { ItemsRefusedIff(x, p.client, found.value.registers, items); }
    }
  }

  // ----- What one notification publishes -----

  /** The topic holds "1" if the register has the channel's on value, and "0" otherwise. */
  predicate ShowsSwitch(retained: map<string, string>, ch: Channel, value: int) {
    && Topic(ch) in retained
    && (value == ch.onValue ==> retained[Topic(ch)] == "1")
    && (value != ch.onValue ==> retained[Topic(ch)] == "0")
  }

  /**
   An on_value channel is always published; another one if all its registers have been
   read, with all their values, and not at all otherwise. No other topic changes.
   */
  predicate Announces(x: Index, s: State, key: Key, before: map<string, string>, after: map<string, string>)
    requires Ready(x, s) && key in x.channelOf
  {
    OwnedIsPresent(x, s, key);
    var ch := x.channelOf[key];
    && (forall t | t in before.Keys + after.Keys && t != Topic(ch) :: Lookup(before, t) == Lookup(after, t))
    && (if ch.onValue >= 0 then ShowsSwitch(after, ch, CellOf(x, s, key).value)
        else if EveryRead(x, s, ch.registers) then
          Topic(ch) in after && Shows(x, s, ch.registers, after[Topic(ch)])
        else after == before)
  }

  lemma {:induction false} NotifiedAnnounces(x: Index, p: Port, key: Key)
    requires Ready(x, p.client) && key in x.channelOf
    ensures Announces(x, p.client, key, p.retained, Notified(x, p, key).retained)
  {
    OwnedIsPresent(x, p.client, key);
    JoinedTextsShow(x, p.client, x.channelOf[key].registers);
  }

  /** A handler call publishes only for its register's channel, and without on_value only the whole channel. */
  lemma {:induction false} PublishedChannelIsWhole(x: Index, p: Port, step: Step)
    requires Ready(x, p.client) && step.i < |x.regs|
    requires AfterBus(x, p, step).retained != p.retained
    ensures
      var key := x.regs[step.i].key;
      var q := AfterBus(x, p, step);
      && step.Poll? && key in x.channelOf && Present(x, x.channelOf[key].registers)
      && var ch := x.channelOf[key];
         && q.client == Effect(x.regs, p.client, step).0
         && (ch.onValue < 0 ==>
               && EveryRead(x, q.client, ch.registers)
               && q.retained.Keys == p.retained.Keys + {Topic(ch)}
               && Shows(x, q.client, ch.registers, q.retained[Topic(ch)]))
         && (ch.onValue >= 0 ==>
               && Topic(ch) in q.retained
               && q.retained[Topic(ch)] in {"0", "1"}
               && (q.retained[Topic(ch)] == "1" <==> CellOf(x, q.client, key).value == ch.onValue))
         && (forall t | t in p.retained && t != Topic(ch) :: t in q.retained && q.retained[t] == p.retained[t])
  {
    var key := x.regs[step.i].key;
    var s := Effect(x.regs, p.client, step).0;
    assert Mapped(x, x.regs[step.i]);
    OwnedIsPresent(x, s, key);
    NotifiedAnnounces(x, p.(client := s), key);
  }
}
