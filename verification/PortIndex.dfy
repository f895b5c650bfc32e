/**
 The two indexes that TModbusPort builds from its configuration,
 wb-homa-modbus/modbus_port.cpp:7-26, as values.
 */
module PortIndex {
  import opened Common
  import opened ModbusRegisters
  import opened ModbusClient

  datatype Channel = Channel(name: string, deviceId: string, onValue: int, registers: seq<Register>)

  datatype Device = Device(id: string, channels: seq<Channel>)

  /** RegisterToChannelMap, NameToChannelMap, and the registers given to the client. */
  datatype Index = Index(channelOf: map<Key, Channel>, named: map<string, Channel>, regs: seq<Register>)

  const EMPTY := Index(map[], map[], [])

  function Named(id: string, name: string): string {
    id + "/" + name
  }

  /** A register that some channel already uses makes the construction fail. */
  function WithRegister(x: Index, id: string, ch: Channel, reg: Register): Option<Index> {
    if Defined(x.regs, reg.key) then None
    else Some(Index(x.channelOf[reg.key := ch], x.named[Named(id, ch.name) := ch],
                    Inserted(x.regs, Position(x.regs, reg.key), reg)))
  }

  function WithRegisters(x: Index, id: string, ch: Channel, regs: seq<Register>): Option<Index>
    decreases |regs|
  {
    if regs == [] then Some(x)
    else
      match WithRegister(x, id, ch, regs[0])
      case None => None
      case Some(y) => WithRegisters(y, id, ch, regs[1..])
  }

  function WithChannels(x: Index, id: string, channels: seq<Channel>): Option<Index>
    decreases |channels|
  {
    if channels == [] then Some(x)
    else
      match WithRegisters(x, id, channels[0], channels[0].registers)
      case None => None
      case Some(y) => WithChannels(y, id, channels[1..])
  }

  function WithDevices(x: Index, devices: seq<Device>): Option<Index>
    decreases |devices|
  {
    if devices == [] then Some(x)
    else
      match WithChannels(x, devices[0].id, devices[0].channels)
      case None => None
      case Some(y) => WithDevices(y, devices[1..])
  }

  /** The index of a whole configuration, None when two channels share a register. */
  function Built(devices: seq<Device>): Option<Index> {
    WithDevices(EMPTY, devices)
  }

  // ----- Searching the configuration instead -----

  predicate Matches(ch: Channel, id: string, deviceId: string, name: string) {
    id == deviceId && ch.name == name && ch.registers != []
  }

  /** The last of the channels that answers to the names, or `found` when none does. */
  function LastChannel(id: string, channels: seq<Channel>, deviceId: string, name: string, found: Option<Channel>)
    : Option<Channel>
    decreases |channels|
  {
    if channels == [] then found
    else LastChannel(id, channels[1..], deviceId, name,
                     if Matches(channels[0], id, deviceId, name) then Some(channels[0]) else found)
  }

  function LastInDevices(devices: seq<Device>, deviceId: string, name: string, found: Option<Channel>): Option<Channel>
    decreases |devices|
  {
    if devices == [] then found
    else LastInDevices(devices[1..], deviceId, name,
                       LastChannel(devices[0].id, devices[0].channels, deviceId, name, found))
  }

  /** The last channel of the configuration with that device id and name and at least one register. */
  function Search(devices: seq<Device>, deviceId: string, name: string): Option<Channel> {
    LastInDevices(devices, deviceId, name, None)
  }

  function Lookup<K, V>(m: map<K, V>, k: K): Option<V> {
    if k in m then Some(m[k]) else None
  }

  /** "id/name" determines both parts when neither of those looked for has a slash. */
  lemma {:induction false} NamedIsUnique(id: string, name: string, deviceId: string, wanted: string)
    requires '/' !in deviceId && '/' !in wanted
    ensures Named(id, name) == Named(deviceId, wanted) <==> id == deviceId && name == wanted
  {
    var a, b := Named(id, name), Named(deviceId, wanted);
    if a == b {
      assert a[|id|] == '/' && b[|deviceId|] == '/';
      assert |id| >= |deviceId| by {
        if |id| < |deviceId| { assert false; }
      }
      assert |id| <= |deviceId| by {
        if |id| > |deviceId| { assert false; }
      }
      assert a[..|id|] == id && b[..|deviceId|] == deviceId;
      assert a[|id| + 1..] == name && b[|deviceId| + 1..] == wanted;
    }
  }

  lemma {:induction false} RegistersName(x: Index, id: string, ch: Channel, regs: seq<Register>, key: string)
    requires WithRegisters(x, id, ch, regs).Some?
    ensures Lookup(WithRegisters(x, id, ch, regs).value.named, key)
            == if regs != [] && Named(id, ch.name) == key then Some(ch) else Lookup(x.named, key)
    decreases |regs|
  {
    if regs != [] {
      RegistersName(WithRegister(x, id, ch, regs[0]).value, id, ch, regs[1..], key);
    }
  }

  lemma {:induction false} ChannelsName(x: Index, id: string, channels: seq<Channel>, deviceId: string, name: string)
    requires '/' !in deviceId && '/' !in name
    requires WithChannels(x, id, channels).Some?
    ensures Lookup(WithChannels(x, id, channels).value.named, Named(deviceId, name))
            == LastChannel(id, channels, deviceId, name, Lookup(x.named, Named(deviceId, name)))
    decreases |channels|
  {
    if channels != [] {
      var ch := channels[0];
      var y := WithRegisters(x, id, ch, ch.registers).value;
      NamedIsUnique(id, ch.name, deviceId, name);
      RegistersName(x, id, ch, ch.registers, Named(deviceId, name));
      ChannelsName(y, id, channels[1..], deviceId, name);
    }
  }

  lemma {:induction false} DevicesName(x: Index, devices: seq<Device>, deviceId: string, name: string)
    requires '/' !in deviceId && '/' !in name
    requires WithDevices(x, devices).Some?
    ensures Lookup(WithDevices(x, devices).value.named, Named(deviceId, name))
            == LastInDevices(devices, deviceId, name, Lookup(x.named, Named(deviceId, name)))
    decreases |devices|
  {
    if devices != [] {
      var y := WithChannels(x, devices[0].id, devices[0].channels).value;
      ChannelsName(x, devices[0].id, devices[0].channels, deviceId, name);
      DevicesName(y, devices[1..], deviceId, name);
    }
  }

  /** For names without slashes, the lookup by "id/name" finds what a scan of the configuration finds. */
  lemma {:induction false} IndexAgreesWithSearch(devices: seq<Device>, deviceId: string, name: string)
    requires Built(devices).Some? && '/' !in deviceId && '/' !in name
    ensures Lookup(Built(devices).value.named, Named(deviceId, name)) == Search(devices, deviceId, name)
  {
    DevicesName(EMPTY, devices, deviceId, name);
  }

  // ----- What a finished index guarantees -----

  /** Every register of the client belongs to the channel it is mapped to, and nothing else is mapped. */
  predicate Consistent(x: Index) {
    && Sorted(x.regs)
    && (forall k | k in x.channelOf :: Defined(x.regs, k))
    && (forall i | 0 <= i < |x.regs| :: Mapped(x, x.regs[i]))
  }

  predicate Owns(x: Index, ch: Channel, regs: seq<Register>) {
    forall i | 0 <= i < |regs| :: regs[i].key in x.channelOf && x.channelOf[regs[i].key] == ch
  }

  /** Additions only: what was mapped stays mapped as it was. */
  predicate Extends(x: Index, y: Index) {
    forall k | k in x.channelOf :: k in y.channelOf && y.channelOf[k] == x.channelOf[k]
  }

  /** What is mapped anew is mapped to one of `channels`. */
  predicate AddsOnly(x: Index, y: Index, channels: seq<Channel>) {
    forall k | k in y.channelOf :: k in x.channelOf || y.channelOf[k] in channels
  }

  predicate IsKey(regs: seq<Register>, k: Key) {
    exists i | 0 <= i < |regs| :: regs[i].key == k
  }

  lemma {:induction false} DefinedIff(regs: seq<Register>, k: Key)
    ensures Defined(regs, k) <==> IsKey(regs, k)
  {
    if Defined(regs, k) { assert regs[IndexOf(regs, k)].key == k; }
  }

  lemma {:induction false} InsertedKeys(regs: seq<Register>, p: nat, reg: Register, k: Key)
    requires p <= |regs|
    ensures Defined(Inserted(regs, p, reg), k) <==> k == reg.key || Defined(regs, k)
  {
    var s := Inserted(regs, p, reg);
    DefinedIff(regs, k);
    DefinedIff(s, k);
    assert s[p] == reg;
    forall i | 0 <= i < |regs| ensures regs[i] == s[if i < p then i else i + 1] {
    }
    if k == reg.key { assert s[p].key == k; }
  }

  predicate Mapped(x: Index, reg: Register) {
    reg.key in x.channelOf && reg in x.channelOf[reg.key].registers
  }

  /** All registers of an extended client are old ones or the new one. */
  lemma {:induction false} InsertedFrom(regs: seq<Register>, p: nat, reg: Register, i: nat)
    requires p <= |regs| && i < |Inserted(regs, p, reg)|
    ensures Inserted(regs, p, reg)[i] == reg || exists j | 0 <= j < |regs| :: regs[j] == Inserted(regs, p, reg)[i]
  {
    if i != p {
      var j := if i < p then i else i - 1;
      assert regs[j] == Inserted(regs, p, reg)[i];
    }
  }

  lemma {:induction false} WithRegisterMaps(x: Index, id: string, ch: Channel, reg: Register, i: nat)
    requires Consistent(x) && WithRegister(x, id, ch, reg).Some? && reg in ch.registers
    requires i < |WithRegister(x, id, ch, reg).value.regs|
    ensures Mapped(WithRegister(x, id, ch, reg).value, WithRegister(x, id, ch, reg).value.regs[i])
  {
    var y := WithRegister(x, id, ch, reg).value;
    InsertedFrom(x.regs, Position(x.regs, reg.key), reg, i);
    if y.regs[i] != reg {
      var j :| 0 <= j < |x.regs| && x.regs[j] == y.regs[i];
      assert Mapped(x, x.regs[j]);
      assert IsKey(x.regs, x.regs[j].key);
      DefinedIff(x.regs, x.regs[j].key);
    }
  }

  lemma {:induction false} WithRegisterConsistent(x: Index, id: string, ch: Channel, reg: Register)
    requires Consistent(x) && WithRegister(x, id, ch, reg).Some? && reg in ch.registers
    ensures Consistent(WithRegister(x, id, ch, reg).value)
  {
    var y := WithRegister(x, id, ch, reg).value;
    InsertedIsSorted(x.regs, reg);
    forall k | k in y.channelOf ensures Defined(y.regs, k) {
      InsertedKeys(x.regs, Position(x.regs, reg.key), reg, k);
    }
    forall i | 0 <= i < |y.regs| ensures Mapped(y, y.regs[i]) {
      WithRegisterMaps(x, id, ch, reg, i);
    }
  }

  lemma {:induction false} WithRegisterKeeps(x: Index, id: string, ch: Channel, reg: Register)
    requires Consistent(x) && WithRegister(x, id, ch, reg).Some? && reg in ch.registers
    ensures Consistent(WithRegister(x, id, ch, reg).value) && Extends(x, WithRegister(x, id, ch, reg).value)
    ensures WithRegister(x, id, ch, reg).value.channelOf == x.channelOf[reg.key := ch]
    ensures WithRegister(x, id, ch, reg).value.channelOf.Keys == x.channelOf.Keys + {reg.key}
  {
    WithRegisterConsistent(x, id, ch, reg);
    DefinedIff(x.regs, reg.key);
  }

  lemma {:induction false} WithRegistersKeeps(x: Index, id: string, ch: Channel, regs: seq<Register>)
    requires Consistent(x) && WithRegisters(x, id, ch, regs).Some? && forall reg | reg in regs :: reg in ch.registers
    ensures var y := WithRegisters(x, id, ch, regs).value;
            Consistent(y) && Extends(x, y) && Owns(y, ch, regs) && AddsOnly(x, y, [ch])
    decreases |regs|
  {
    if regs != [] {
      var y := WithRegister(x, id, ch, regs[0]).value;
      WithRegisterKeeps(x, id, ch, regs[0]);
      WithRegistersKeeps(y, id, ch, regs[1..]);
      OwnsCons(y, WithRegisters(y, id, ch, regs[1..]).value, ch, regs);
    }
  }

  lemma {:induction false} OwnsCons(y: Index, z: Index, ch: Channel, regs: seq<Register>)
    requires regs != [] && regs[0].key in y.channelOf && y.channelOf[regs[0].key] == ch
    requires Extends(y, z) && Owns(z, ch, regs[1..])
    ensures Owns(z, ch, regs)
  {
    forall i | 0 <= i < |regs| ensures regs[i].key in z.channelOf && z.channelOf[regs[i].key] == ch {
      if i > 0 { assert regs[i] == regs[1..][i - 1]; }
    }
  }

  /** Every name stands for a channel that owns all its registers, of which there is at least one. */
  predicate NamesOwn(x: Index) {
    forall s | s in x.named :: x.named[s].registers != [] && Owns(x, x.named[s], x.named[s].registers)
  }

  lemma {:induction false} OwnsExtends(x: Index, y: Index, ch: Channel, regs: seq<Register>)
    requires Owns(x, ch, regs) && Extends(x, y)
    ensures Owns(y, ch, regs)
  {
  }

  lemma {:induction false} ChannelKeepsNames(x: Index, id: string, ch: Channel)
    requires Consistent(x) && NamesOwn(x) && WithRegisters(x, id, ch, ch.registers).Some?
    ensures NamesOwn(WithRegisters(x, id, ch, ch.registers).value)
  {
    var y := WithRegisters(x, id, ch, ch.registers).value;
    WithRegistersKeeps(x, id, ch, ch.registers);
    forall s | s in y.named ensures y.named[s].registers != [] && Owns(y, y.named[s], y.named[s].registers) {
      RegistersName(x, id, ch, ch.registers, s);
      if !(ch.registers != [] && Named(id, ch.name) == s) {
        assert Lookup(y.named, s) == Lookup(x.named, s);
        OwnsExtends(x, y, x.named[s], x.named[s].registers);
      }
    }
  }

  lemma {:induction false} WithChannelsKeeps(x: Index, id: string, channels: seq<Channel>)
    requires Consistent(x) && NamesOwn(x) && WithChannels(x, id, channels).Some?
    ensures var y := WithChannels(x, id, channels).value;
            && Consistent(y) && NamesOwn(y) && Extends(x, y) && AddsOnly(x, y, channels)
            && forall ch | ch in channels :: Owns(y, ch, ch.registers)
    decreases |channels|
  {
    if channels != [] {
      var ch := channels[0];
      var y := WithRegisters(x, id, ch, ch.registers).value;
      var z := WithChannels(x, id, channels).value;
      WithRegistersKeeps(x, id, ch, ch.registers);
      ChannelKeepsNames(x, id, ch);
      WithChannelsKeeps(y, id, channels[1..]);
      OwnsExtends(y, z, ch, ch.registers);
    }
  }

  predicate Configured(devices: seq<Device>, ch: Channel) {
    exists i | 0 <= i < |devices| :: ch in devices[i].channels
  }

  lemma {:induction false} WithDevicesKeeps(x: Index, devices: seq<Device>)
    requires Consistent(x) && NamesOwn(x) && WithDevices(x, devices).Some?
    ensures var y := WithDevices(x, devices).value;
            && Consistent(y) && NamesOwn(y) && Extends(x, y)
            && (forall ch | Configured(devices, ch) :: Owns(y, ch, ch.registers))
            && (forall k | k in y.channelOf :: k in x.channelOf || Configured(devices, y.channelOf[k]))
    decreases |devices|
  {
    if devices != [] {
      var d := devices[0];
      var y := WithChannels(x, d.id, d.channels).value;
      var z := WithDevices(x, devices).value;
      WithChannelsKeeps(x, d.id, d.channels);
      WithDevicesKeeps(y, devices[1..]);
      forall ch | Configured(devices, ch) ensures Owns(z, ch, ch.registers) {
        if ch in d.channels {
          OwnsExtends(y, z, ch, ch.registers);
        } else {
          var i :| 0 <= i < |devices| && ch in devices[i].channels;
          assert devices[i] == devices[1..][i - 1];
          assert Configured(devices[1..], ch);
        }
      }
      forall k | k in z.channelOf && k !in x.channelOf ensures Configured(devices, z.channelOf[k]) {
        if k in y.channelOf {
          assert z.channelOf[k] in devices[0].channels;
        } else {
          var i :| 0 <= i < |devices[1..]| && z.channelOf[k] in devices[1..][i].channels;
          assert devices[1..][i] == devices[i + 1];
        }
      }
    }
  }

  /** A finished index maps each configured channel's registers to that channel, and each name to such a channel. */
  lemma {:induction false} BuiltIsConsistent(devices: seq<Device>)
    requires Built(devices).Some?
    ensures var x := Built(devices).value;
            && Consistent(x) && NamesOwn(x)
            && (forall ch | Configured(devices, ch) :: Owns(x, ch, ch.registers))
            && (forall k | k in x.channelOf :: Configured(devices, x.channelOf[k]))
  {
    WithDevicesKeeps(EMPTY, devices);
  }

  // ----- When construction succeeds -----

  function ChannelRegisters(channels: seq<Channel>): seq<Register> {
    if channels == [] then [] else channels[0].registers + ChannelRegisters(channels[1..])
  }

  /** All registers of a configuration in its own order. */
  function AllRegisters(devices: seq<Device>): seq<Register> {
    if devices == [] then [] else ChannelRegisters(devices[0].channels) + AllRegisters(devices[1..])
  }

  function KeysOf(regs: seq<Register>): set<Key> {
    set i | 0 <= i < |regs| :: regs[i].key
  }

  /** None of the registers is taken already, and none comes twice. */
  predicate Acceptable(taken: set<Key>, regs: seq<Register>) {
    Distinct(regs) && taken !! KeysOf(regs)
  }

  lemma {:induction false} AcceptableAppend(taken: set<Key>, a: seq<Register>, b: seq<Register>)
    ensures Acceptable(taken, a + b) <==> Acceptable(taken, a) && Acceptable(taken + KeysOf(a), b)
  {
    KeysOfAppend(a, b);
    DistinctAppend(a, b);
  }

  lemma {:induction false} DistinctAppend(a: seq<Register>, b: seq<Register>)
    ensures Distinct(a + b) <==> Distinct(a) && Distinct(b) && KeysOf(a) !! KeysOf(b)
  {
    var c := a + b;
    if Distinct(c) {
      forall i, j | 0 <= i < j < |a| ensures a[i].key != a[j].key {
        assert c[i].key != c[j].key;
      }
      forall i, j | 0 <= i < j < |b| ensures b[i].key != b[j].key {
        assert c[|a| + i].key != c[|a| + j].key;
      }
      forall i, j | 0 <= i < |a| && 0 <= j < |b| ensures a[i].key != b[j].key {
        assert c[i].key != c[|a| + j].key;
      }
    } else {
      var i, j :| 0 <= i < j < |c| && c[i].key == c[j].key;
      if i < |a| && |a| <= j {
        assert c[i].key in KeysOf(a) && c[j].key in KeysOf(b);
      }
    }
  }

  lemma {:induction false} SingleAcceptable(taken: set<Key>, reg: Register)
    ensures Acceptable(taken, [reg]) <==> reg.key !in taken
    ensures KeysOf([reg]) == {reg.key}
  {
    assert [reg][0].key in KeysOf([reg]);
  }

  lemma {:induction false} RegistersAccepted(x: Index, id: string, ch: Channel, regs: seq<Register>)
    requires Consistent(x) && forall reg | reg in regs :: reg in ch.registers
    ensures WithRegisters(x, id, ch, regs).Some? <==> Acceptable(x.channelOf.Keys, regs)
    ensures WithRegisters(x, id, ch, regs).Some? ==>
              WithRegisters(x, id, ch, regs).value.channelOf.Keys == x.channelOf.Keys + KeysOf(regs)
    decreases |regs|
  {
    if regs != [] {
      var reg := regs[0];
      SingleAcceptable(x.channelOf.Keys, reg);
      AcceptableAppend(x.channelOf.Keys, [reg], regs[1..]);
      assert [reg] + regs[1..] == regs;
      if WithRegister(x, id, ch, reg).Some? {
        WithRegisterKeeps(x, id, ch, reg);
        RegistersAccepted(WithRegister(x, id, ch, reg).value, id, ch, regs[1..]);
      }
      KeysOfCons(regs);
      DefinedIff(x.regs, reg.key);
    }
  }

  lemma {:induction false} KeysOfCons(regs: seq<Register>)
    requires regs != []
    ensures KeysOf(regs) == {regs[0].key} + KeysOf(regs[1..])
  {
    forall k | k in KeysOf(regs) ensures k in {regs[0].key} + KeysOf(regs[1..]) {
      var i :| 0 <= i < |regs| && regs[i].key == k;
      if i > 0 { assert regs[1..][i - 1].key == k; }
    }
    forall i | 0 <= i < |regs[1..]| ensures regs[1..][i].key in KeysOf(regs) {
      assert regs[1..][i] == regs[i + 1];
    }
  }

  lemma {:induction false} KeysOfAppend(a: seq<Register>, b: seq<Register>)
    ensures KeysOf(a + b) == KeysOf(a) + KeysOf(b)
  {
    var c := a + b;
    forall k | k in KeysOf(a) + KeysOf(b) ensures k in KeysOf(c) {
      if k in KeysOf(a) {
        var i :| 0 <= i < |a| && a[i].key == k;
        assert c[i].key == k;
      } else {
        var i :| 0 <= i < |b| && b[i].key == k;
        assert c[|a| + i].key == k;
      }
    }
  }

  lemma {:induction false} ChannelsAddKeys(x: Index, id: string, channels: seq<Channel>)
    requires Consistent(x) && WithChannels(x, id, channels).Some?
    ensures Consistent(WithChannels(x, id, channels).value)
    ensures WithChannels(x, id, channels).value.channelOf.Keys
            == x.channelOf.Keys + KeysOf(ChannelRegisters(channels))
    decreases |channels|
  {
    if channels != [] {
      var ch := channels[0];
      RegistersAccepted(x, id, ch, ch.registers);
      KeysOfAppend(ch.registers, ChannelRegisters(channels[1..]));
      WithRegistersKeeps(x, id, ch, ch.registers);
      ChannelsAddKeys(WithRegisters(x, id, ch, ch.registers).value, id, channels[1..]);
    }
  }

  lemma {:induction false} ChannelsAccepted(x: Index, id: string, channels: seq<Channel>)
    requires Consistent(x)
    ensures WithChannels(x, id, channels).Some? <==> Acceptable(x.channelOf.Keys, ChannelRegisters(channels))
    decreases |channels|
  {
    if channels != [] {
      var ch := channels[0];
      RegistersAccepted(x, id, ch, ch.registers);
      AcceptableAppend(x.channelOf.Keys, ch.registers, ChannelRegisters(channels[1..]));
      if WithRegisters(x, id, ch, ch.registers).Some? {
        WithRegistersKeeps(x, id, ch, ch.registers);
        ChannelsAccepted(WithRegisters(x, id, ch, ch.registers).value, id, channels[1..]);
      }
    }
  }

  lemma {:induction false} DevicesAccepted(x: Index, devices: seq<Device>)
    requires Consistent(x)
    ensures WithDevices(x, devices).Some? <==> Acceptable(x.channelOf.Keys, AllRegisters(devices))
    decreases |devices|
  {
    if devices != [] {
      var d := devices[0];
      ChannelsAccepted(x, d.id, d.channels);
      AcceptableAppend(x.channelOf.Keys, ChannelRegisters(d.channels), AllRegisters(devices[1..]));
      if WithChannels(x, d.id, d.channels).Some? {
        ChannelsAddKeys(x, d.id, d.channels);
        DevicesAccepted(WithChannels(x, d.id, d.channels).value, devices[1..]);
      }
    }
  }

  /** Construction succeeds exactly when no register is used twice in the whole configuration. */
  lemma {:induction false} BuiltIffDistinct(devices: seq<Device>)
    ensures Built(devices).Some? <==> Distinct(AllRegisters(devices))
  {
    DevicesAccepted(EMPTY, devices);
  }

  lemma {:induction false} ChannelRegistersDistinct(channels: seq<Channel>, ch: Channel)
    requires Distinct(ChannelRegisters(channels)) && ch in channels
    ensures Distinct(ch.registers)
    decreases |channels|
  {
    DistinctAppend(channels[0].registers, ChannelRegisters(channels[1..]));
    if ch != channels[0] {
      ChannelRegistersDistinct(channels[1..], ch);
    }
  }

  lemma {:induction false} ConfiguredDistinct(devices: seq<Device>, ch: Channel)
    requires Distinct(AllRegisters(devices)) && Configured(devices, ch)
    ensures Distinct(ch.registers)
    decreases |devices|
  {
    DistinctAppend(ChannelRegisters(devices[0].channels), AllRegisters(devices[1..]));
    if ch in devices[0].channels {
      ChannelRegistersDistinct(devices[0].channels, ch);
    } else {
      var i :| 0 <= i < |devices| && ch in devices[i].channels;
      assert devices[i] == devices[1..][i - 1];
      ConfiguredDistinct(devices[1..], ch);
    }
  }
}
