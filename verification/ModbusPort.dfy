/** TModbusPort itself, wb-homa-modbus/modbus_port.cpp, proved against PortIndex and PortModel. */
module ModbusPort {
  import opened Common
  import opened ModbusRegisters
  import opened ModbusClient
  import opened Mqtt
  import opened NumberText
  import opened PortAgreement
  import opened PortIndex
  import opened PortModel
  import opened Strings

  lemma {:induction false} JoinSnoc(ts: seq<string>, t: string, d: string)
    requires ts != []
    ensures Join(ts + [t], d) == Join(ts, d) + d + t
  {
    if |ts| == 1 {
      assert (ts + [t])[1..] == [t];
    } else {
      assert (ts + [t])[1..] == ts[1..] + [t];
      JoinSnoc(ts[1..], t, d);
    }
  }

  /** The text after `i` rounds of the joining loop. */
  function JoinedFirst(ts: seq<string>, i: nat): string
    requires i <= |ts|
  {
    if i == 0 then "" else Join(ts[..i], ";")
  }

  lemma {:induction false} JoinedFirstNext(ts: seq<string>, i: nat)
    requires i < |ts|
    ensures JoinedFirst(ts, i + 1) == (if i > 0 then JoinedFirst(ts, i) + ";" else "") + ts[i]
  {
    assert ts[..i + 1] == ts[..i] + [ts[i]];
    if i > 0 { JoinSnoc(ts[..i], ts[i], ";"); }
  }

  class TModbusPort {
    const config: seq<Device>
    const client: Client
    var channelOf: map<Key, Channel>
    var named: map<string, Channel>
    var retained: map<string, string>
    var accepted: bool

    function IndexView(): Index
      reads this`channelOf, this`named, client`handlers
    {
      Index(channelOf, named, client.Regs())
    }

    function View(): Port
      reads this`retained, client`handlers, client.handlers, client.ctx
    {
      Port(client.View(), retained)
    }

    ghost predicate Valid()
      reads this`channelOf, this`named, client`handlers
    {
      client.Valid() && Whole(IndexView())
    }

    /** A configuration that uses a register twice is refused. */
    constructor (config: seq<Device>, ctx: Context, retained: map<string, string>)
      ensures this.config == config && this.retained == retained && fresh(client) && client.ctx == ctx
      ensures forall h | h in client.handlers :: fresh(h)
      ensures accepted == Built(config).Some?
      ensures accepted ==> Valid() && IndexView() == Built(config).value
      ensures accepted ==> forall i | 0 <= i < |client.handlers| :: client.View().cells[i] == Cell(0, false, false)
    {
      this.config := config;
      client := new Client(ctx);
      channelOf, named, this.retained, accepted := map[], map[], retained, true;
      new;
      assert config[0..] == config;
      for i := 0 to |config|
        invariant accepted && this.retained == retained && !client.active && client.Valid()
        invariant WithDevices(IndexView(), config[i..]) == Built(config)
        invariant forall h | h in client.handlers :: fresh(h)
        invariant Untouched(client.View().cells)
      {
        assert config[i..][1..] == config[i + 1..];
        accepted := AddDevice(config[i]);
        if !accepted { return; }
      }
      BuiltIsConsistent(config);
    }

    method AddDevice(d: Device) returns (ok: bool)
      requires !client.active && client.Valid() && Untouched(client.View().cells)
      modifies this`channelOf, this`named, client`handlers
      ensures ok == WithChannels(old(IndexView()), d.id, d.channels).Some?
      ensures ok ==> WithChannels(old(IndexView()), d.id, d.channels).value == IndexView()
      ensures client.Valid() && Untouched(client.View().cells)
      ensures forall h | h in client.handlers :: h in old(client.handlers) || fresh(h)
    {
      ghost var goal := WithChannels(IndexView(), d.id, d.channels);
      assert d.channels[0..] == d.channels;
      for j := 0 to |d.channels|
        invariant client.Valid() && Untouched(client.View().cells)
        invariant WithChannels(IndexView(), d.id, d.channels[j..]) == goal
        invariant forall h | h in client.handlers :: h in old(client.handlers) || fresh(h)
      {
        assert d.channels[j..][1..] == d.channels[j + 1..];
        ok := AddChannel(d.id, d.channels[j]);
        if !ok { return; }
      }
      return true;
    }

    method AddChannel(id: string, ch: Channel) returns (ok: bool)
      requires !client.active && client.Valid() && Untouched(client.View().cells)
      modifies this`channelOf, this`named, client`handlers
      ensures ok == WithRegisters(old(IndexView()), id, ch, ch.registers).Some?
      ensures ok ==> WithRegisters(old(IndexView()), id, ch, ch.registers).value == IndexView()
      ensures client.Valid() && Untouched(client.View().cells)
      ensures forall h | h in client.handlers :: h in old(client.handlers) || fresh(h)
    {
      ghost var goal := WithRegisters(IndexView(), id, ch, ch.registers);
      assert ch.registers[0..] == ch.registers;
      for k := 0 to |ch.registers|
        invariant client.Valid() && Untouched(client.View().cells)
        invariant WithRegisters(IndexView(), id, ch, ch.registers[k..]) == goal
        invariant forall h | h in client.handlers :: h in old(client.handlers) || fresh(h)
      {
        assert ch.registers[k..][1..] == ch.registers[k + 1..];
        ok := AddRegister(id, ch, ch.registers[k]);
        if !ok { return; }
      }
      return true;
    }

    method AddRegister(id: string, ch: Channel, reg: Register) returns (ok: bool)
      requires !client.active && client.Valid() && Untouched(client.View().cells)
      modifies this`channelOf, this`named, client`handlers
      ensures ok == WithRegister(old(IndexView()), id, ch, reg).Some?
      ensures ok ==> WithRegister(old(IndexView()), id, ch, reg).value == IndexView()
      ensures client.Valid() && Untouched(client.View().cells)
      ensures forall h | h in client.handlers :: h in old(client.handlers) || fresh(h)
    {
      channelOf := channelOf[reg.key := ch];
      named := named[id + "/" + ch.name := ch];
      ok := client.AddRegister(reg);
    }

    method HandleMessage(topic: string, payload: string) returns (handled: bool, terminated: bool)
      requires Valid()
      modifies this`retained, client.handlers
      ensures var r := Handle(IndexView(), config, old(View()), topic, payload);
              && handled == r.Handled? && terminated == r.Terminated?
              && (r.NotOurs? ==> View() == old(View()))
              && (r.Handled? ==> View() == r.port)
    {
      var ch := FindChannel(topic);
      if ch.None? { return false, false; }
      terminated := SetChannel(ch.value, payload);
      return !terminated, terminated;
    }

    method SetChannel(ch: Channel, payload: string) returns (terminated: bool)
      requires client.Valid() && Present(IndexView(), ch.registers)
      modifies this`retained, client.handlers
      ensures var r := WithPayload(IndexView(), old(View()), ch, payload);
              terminated == r.Terminated? && (r.Handled? ==> View() == r.port)
    {
      var items := StringSplitChar(payload, ';');
      if |items| != |ch.registers| { return false; }
      terminated := SetTextValues(ch.registers, items);
      if !terminated { Put(Topic(ch), payload); }
    }

    method FindChannel(topic: string) returns (ch: Option<Channel>)
      ensures ch == Route(IndexView(), config, topic)
    {
      var tokens := StringSplitChar(topic, '/');
      if |tokens| != 6 || tokens[0] != "" || tokens[1] != "devices" || tokens[3] != "controls" || tokens[5] != "on" {
        return None;
      }
      var known := FindDevice(tokens[2]);
      if !known { return None; }
      var name := tokens[2] + "/" + tokens[4];
      if name !in named { return None; }
      return Some(named[name]);
    }

    method FindDevice(id: string) returns (found: bool)
      ensures found == HasDevice(config, id)
    {
      for i := 0 to |config|
        invariant forall j | 0 <= j < i :: config[j].id != id
      {
        if config[i].id == id { return true; }
      }
      return false;
    }

    method SetTextValues(regs: seq<Register>, items: seq<string>) returns (terminated: bool)
      requires client.Valid() && |regs| == |items| && Present(IndexView(), regs)
      modifies client.handlers
      ensures var r := SetItems(IndexView(), old(client.View()), regs, items);
              terminated == r.None? && (r.Some? ==> client.View() == r.value)
    {
      ghost var goal := SetItems(IndexView(), client.View(), regs, items);
      assert regs[0..] == regs && items[0..] == items;
      for i := 0 to |regs|
        invariant |client.View().cells| == |IndexView().regs| && Present(IndexView(), regs[i..])
        invariant SetItems(IndexView(), client.View(), regs[i..], items[i..]) == goal
      {
        assert regs[i..][1..] == regs[i + 1..] && items[i..][1..] == items[i + 1..];
        assert regs[i..][0] == regs[i];
        terminated := SetTextValue(regs[i].key, items[i]);
        if terminated { return; }
      }
      return false;
    }

    method SetTextValue(key: Key, text: string) returns (terminated: bool)
      requires client.Valid() && Defined(client.Regs(), key)
      modifies client.handlers
      ensures terminated == Stoi(text).None?
      ensures !terminated ==> client.View() == SetAt(old(client.View()), IndexOf(client.Regs(), key), Stoi(text).value)
    {
      var v := Stoi(text);
      if v.None? { return true; }
      var found := client.SetRawValue(key, v.value);
      return false;
    }

    /** The callback: publishes what the whole channel shows, unless part of it has never been read. */
    method OnModbusValueChange(key: Key)
      requires Valid() && key in channelOf
      modifies this`retained
      ensures View() == Notified(IndexView(), old(View()), key)
      ensures Announces(IndexView(), client.View(), key, old(retained), retained)
    {
      var ch := channelOf[key];
      ghost var x, st := IndexView(), client.View();
      OwnedIsPresent(x, st, key);
      NotifiedAnnounces(x, View(), key);
      assert Announces(x, st, key, retained, Notified(x, View(), key).retained);
      var payload := "";
      if ch.onValue >= 0 {
        var raw := GetRawValue(key);
        payload := if raw == ch.onValue then "1" else "0";
      } else {
        var text := JoinedText(ch.registers);
        if text.None? { return; }
        payload := text.value;
      }
      Put(Topic(ch), payload);
    }

    /** None as soon as a register turns up that has not been read. */
    method JoinedText(regs: seq<Register>) returns (r: Option<string>)
      requires client.Valid() && Present(IndexView(), regs) && regs != []
      ensures r == if AllRead(IndexView(), client.View(), regs)
                   then Some(Join(Texts(IndexView(), client.View(), regs), ";")) else None
    {
      var s := "";
      ghost var x, st := IndexView(), client.View();
      ghost var texts := Texts(x, st, regs);
      for i := 0 to |regs|
        invariant ReadUpTo(x, st, regs, i)
        invariant s == JoinedFirst(texts, i)
      {
        var text := TextIfRead(regs[i].key);
        if text.None? { return None; }
        if i > 0 { s := s + ";"; }
        s := s + text.value;
        JoinedFirstNext(texts, i);
      }
      assert texts[..|regs|] == texts;
      return Some(s);
    }

    method TextIfRead(key: Key) returns (r: Option<string>)
      requires client.Valid() && Defined(client.Regs(), key)
      ensures var c := CellOf(IndexView(), client.View(), key); r == if c.didRead then Some(ToText(c.value)) else None
    {
      var h := client.Find(key);
      return if client.handlers[h].didRead then Some(ToText(client.handlers[h].value)) else None;
    }

    method GetRawValue(key: Key) returns (v: Int)
      requires client.Valid() && Defined(client.Regs(), key)
      ensures v == CellOf(IndexView(), client.View(), key).value
    {
      var h := client.Find(key);
      v := client.handlers[h].value;
    }

    /** The client's Cycle with this port's callback in place. */
    method Cycle(reachable: bool) returns (ok: bool)
      requires Valid()
      modifies this`retained, client`active, client.handlers, client.ctx
      ensures ok == (old(client.active) || (client.handlers != [] && reachable))
      ensures View() == if ok then AfterCycle(IndexView(), old(View()), 0) else old(View())
    {
      ok := client.Connect(reachable);
      if ok { PollAll(); }
    }

    method PollAll()
      requires Valid()
      modifies this`retained, client.handlers, client.ctx
      ensures View() == AfterCycle(IndexView(), old(View()), 0)
    {
      ghost var x, v := IndexView(), View();
      ghost var goal := AfterCycle(x, v, 0);
      for p := 0 to |client.handlers|
        invariant IndexView() == x && View() == v
        invariant AfterCycle(x, v, p) == goal
      {
        AfterCycleStep(x, v, p);
        Visit(x, p);
        v := AfterVisit(x, v, p);
      }
    }

    /** One turn of the loop; `x` is this port's index. */
    method Visit(ghost x: Index, p: nat)
      requires IndexView() == x && Whole(x) && p < |client.handlers|
      modifies this`retained, client.handlers, client.ctx
      ensures IndexView() == x && View() == AfterVisit(x, old(View()), p)
    {
      client.FlushAll();
      PollAt(p);
    }

    /** Poll, and the callback when it reports a change. */
    method PollAt(p: nat)
      requires Valid() && p < |client.handlers|
      modifies this`retained, client.handlers, client.ctx
      ensures View() == AfterBus(IndexView(), old(View()), Poll(p))
    {
      var changed := client.PollAt(p);
      assert Mapped(IndexView(), IndexView().regs[p]);
      if changed { OnModbusValueChange(client.handlers[p].reg.key); }
    }

    method Put(topic: string, payload: string)
      modifies this`retained
      ensures retained == Publish(old(retained), topic, payload)
    {
      retained := if payload == "" then retained - {topic} else retained[topic := payload];
    }
  }

  predicate Untouched(cells: seq<Cell>) {
    forall i | 0 <= i < |cells| :: cells[i] == Cell(0, false, false)
  }
}
