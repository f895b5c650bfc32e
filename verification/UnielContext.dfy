/**
 The Modbus view of a Uniel bus, wb-homa-modbus/uniel_context.cpp: coil and
 register accesses become Uniel commands, and bus errors become Modbus errors.
 */
module UnielContext {
  import opened Common
  import opened UnielBus

  datatype Reason = BusError(error: Error) | UnsupportedAddress(address: int)

  /** The result of an access; a failure is the exception that the caller sees. */
  datatype Outcome<+T> = Done(value: T) | Failed(reason: Reason)

  const ADDR_TYPE_BRIGHTNESS: int := 0x01

  function Octet(v: int): Byte {
    v % 256
  }

  predicate IsPlain(address: int) {
    0 <= address <= 0xff
  }

  predicate IsBrightness(address: int) {
    address / 0x100_0000 == ADDR_TYPE_BRIGHTNESS
  }

  /** Opens the port if it is closed, which works unless the serial device is broken. */
  function Connected(p: Port): Port {
    if p.healthy then p.(open := true) else p
  }

  /** A transient error leaves the port open, any other closes it. */
  function AfterError(p: Port, e: Error): Port {
    if IsTransient(e) then p else p.(open := false)
  }

  /** Reading `nb` registers in a row, one command each. */
  function ReadAll(device: Device, p: Port, mod: Byte, addr: int, nb: nat): (Outcome<seq<Byte>>, Port)
    decreases nb
  {
    if nb == 0 then (Done([]), p)
    else
      var (r, q) := ReadOutcome(device, p, mod, Octet(addr));
      match r
      case Err(e) => (Failed(BusError(e)), AfterError(q, e))
      case Ok(b) => Prepend([b], ReadAll(device, q, mod, addr + 1, nb - 1))
  }

  function Prepend(first: seq<Byte>, o: (Outcome<seq<Byte>>, Port)): (Outcome<seq<Byte>>, Port) {
    if o.0.Done? then (Done(first + o.0.value), o.1) else o
  }

  /** Writing one holding register: which command is used depends on the address. */
  function WriteOne(device: Device, p: Port, mod: Byte, addr: int, v: int): (Outcome<()>, Port) {
    if !IsPlain(addr) && !IsBrightness(addr) then (Failed(UnsupportedAddress(addr)), p)
    else
      var (r, q) := if IsPlain(addr) then WriteOutcome(device, p, WRITE_CMD, mod, addr, Octet(v))
                    else WriteOutcome(device, p, SET_BRIGHTNESS_CMD, mod, Octet(addr / 0x100), Octet(v));
      match r
      case Err(e) => (Failed(BusError(e)), AfterError(q, e))
      case Ok(_) => (Done(()), q)
  }

  function WriteAll(device: Device, p: Port, mod: Byte, addr: int, data: seq<int>): (Outcome<()>, Port)
    decreases |data|
  {
    if data == [] then (Done(()), p)
    else
      var (r, q) := WriteOne(device, p, mod, addr, data[0]);
      if r.Failed? then (r, q) else WriteAll(device, q, mod, addr + 1, data[1..])
  }

  /** An access begins by opening the port; if that fails nothing else happens. */
  function HoldingOutcome(device: Device, p: Port, mod: Byte, addr: int, nb: nat): (Outcome<seq<Byte>>, Port) {
    var c := Connected(p);
    if !c.open then (Failed(BusError(PortNotOpen)), c) else ReadAll(device, c, mod, addr, nb)
  }

  function WriteHoldingOutcome(device: Device, p: Port, mod: Byte, addr: int, data: seq<int>): (Outcome<()>, Port) {
    var c := Connected(p);
    if !c.open then (Failed(BusError(PortNotOpen)), c) else WriteAll(device, c, mod, addr, data)
  }

  function Truth(b: Byte): Byte {
    if b == 0 then 0 else 1
  }

  function Truths(bs: seq<Byte>): seq<Byte> {
    seq(|bs|, i requires 0 <= i < |bs| => Truth(bs[i]))
  }

  function CoilsOutcome(device: Device, p: Port, mod: Byte, addr: int, nb: nat): (Outcome<seq<Byte>>, Port) {
    var (r, q) := HoldingOutcome(device, p, mod, addr, nb);
    (if r.Done? then Done(Truths(r.value)) else r, q)
  }

  function WriteCoilOutcome(device: Device, p: Port, mod: Byte, addr: int, value: int): (Outcome<()>, Port) {
    var c := Connected(p);
    if !c.open then (Failed(BusError(PortNotOpen)), c)
    else
      var (r, q) := WriteOutcome(device, c, WRITE_CMD, mod, Octet(addr), if value != 0 then 0xff else 0);
      match r
      case Err(e) => (Failed(BusError(e)), AfterError(q, e))
      case Ok(_) => (Done(()), q)
  }

  class Context {
    const bus: Bus
    var slaveAddr: int

    constructor (bus: Bus)
      ensures this.bus == bus && slaveAddr == 1
    {
      this.bus := bus;
      slaveAddr := 1;
    }

    method SetSlave(address: int)
      modifies this
      ensures slaveAddr == address
    {
      slaveAddr := address;
    }

    /** False when the port cannot be opened. */
    method Connect() returns (ok: bool)
      modifies bus`open
      ensures bus.State() == if old(bus.open) then old(bus.State()) else Connected(old(bus.State()))
      ensures ok == bus.open
    {
      if !bus.open && bus.healthy { bus.open := true; }
      return bus.open;
    }

    method Disconnect()
      modifies bus`open
      ensures bus.State() == old(bus.State()).(open := false)
    {
      if bus.open { bus.open := false; }
    }

    method Recover(e: Error)
      modifies bus`open
      ensures bus.State() == AfterError(old(bus.State()), e)
    {
      if !IsTransient(e) { Disconnect(); }
    }

    method ReadCoils(addr: int, nb: nat) returns (r: Outcome<seq<Byte>>)
      modifies bus
      ensures (r, bus.State()) == CoilsOutcome(bus.device, old(bus.State()), Octet(slaveAddr), addr, nb)
    {
      var ok := Connect();
      if !ok { return Failed(BusError(PortNotOpen)); }
      ghost var goal := ReadAll(bus.device, bus.State(), Octet(slaveAddr), addr, nb);
      ghost var read: seq<Byte> := [];
      var dest: seq<Byte> := [];
      PrependNothing(goal);
      for i := 0 to nb
        invariant Prepend(read, ReadAll(bus.device, bus.State(), Octet(slaveAddr), addr + i, nb - i)) == goal
        invariant dest == Truths(read)
      {
        var b := bus.ReadRegister(Octet(slaveAddr), Octet(addr + i));
        match b {
          case Err(e) =>
            Recover(e);
            return Failed(BusError(e));
          case Ok(v) =>
            PrependTwice(read, [v], ReadAll(bus.device, bus.State(), Octet(slaveAddr), addr + i + 1, nb - i - 1));
            read := read + [v];
            dest := dest + [if v == 0 then 0 else 1];
        }
      }
      assert read + [] == read;
      return Done(dest);
    }

    method WriteCoil(addr: int, value: int) returns (r: Outcome<()>)
      modifies bus
      ensures (r, bus.State()) == WriteCoilOutcome(bus.device, old(bus.State()), Octet(slaveAddr), addr, value)
    {
      var ok := Connect();
      if !ok { return Failed(BusError(PortNotOpen)); }
      var w := bus.DoWriteRegister(WRITE_CMD, Octet(slaveAddr), Octet(addr), if value != 0 then 0xff else 0);
      match w {
        case Err(e) =>
          Recover(e);
          return Failed(BusError(e));
        case Ok(_) => return Done(());
      }
    }

    method ReadHoldingRegisters(addr: int, nb: nat) returns (r: Outcome<seq<Byte>>)
      modifies bus
      ensures (r, bus.State()) == HoldingOutcome(bus.device, old(bus.State()), Octet(slaveAddr), addr, nb)
    {
      var ok := Connect();
      if !ok { return Failed(BusError(PortNotOpen)); }
      ghost var goal := ReadAll(bus.device, bus.State(), Octet(slaveAddr), addr, nb);
      var dest: seq<Byte> := [];
      PrependNothing(goal);
      for i := 0 to nb
        invariant Prepend(dest, ReadAll(bus.device, bus.State(), Octet(slaveAddr), addr + i, nb - i)) == goal
      {
        var b := bus.ReadRegister(Octet(slaveAddr), Octet(addr + i));
        match b {
          case Err(e) =>
            Recover(e);
            return Failed(BusError(e));
          case Ok(v) =>
            PrependTwice(dest, [v], ReadAll(bus.device, bus.State(), Octet(slaveAddr), addr + i + 1, nb - i - 1));
            dest := dest + [v];
        }
      }
      assert dest + [] == dest;
      return Done(dest);
    }

    method WriteHoldingRegisters(addr: int, data: seq<int>) returns (r: Outcome<()>)
      modifies bus
      ensures (r, bus.State()) == WriteHoldingOutcome(bus.device, old(bus.State()), Octet(slaveAddr), addr, data)
    {
      var ok := Connect();
      if !ok { return Failed(BusError(PortNotOpen)); }
      r := WriteInARow(addr, data);
    }

    /** The loop of WriteHoldingRegisters. */
    method WriteInARow(addr: int, data: seq<int>) returns (r: Outcome<()>)
      modifies bus
      ensures (r, bus.State()) == WriteAll(bus.device, old(bus.State()), Octet(slaveAddr), addr, data)
    {
      ghost var mod, goal := Octet(slaveAddr), WriteFrom(bus.device, bus.State(), Octet(slaveAddr), addr, data, 0);
      assert data[0..] == data;
      for i := 0 to |data|
        invariant WriteFrom(bus.device, bus.State(), mod, addr, data, i) == goal
      {
        WriteFromStep(bus.device, bus.State(), mod, addr, data, i);
        r := WriteHoldingRegister(addr + i, data[i]);
        if r.Failed? { return; }
      }
      return Done(());
    }

    /** One turn of the loop of WriteHoldingRegisters. */
    method WriteHoldingRegister(curAddr: int, v: int) returns (r: Outcome<()>)
      modifies bus
      ensures (r, bus.State()) == WriteOne(bus.device, old(bus.State()), Octet(slaveAddr), curAddr, v)
    {
      var w: Result<()>;
      if 0x00 <= curAddr <= 0xff {
        w := bus.DoWriteRegister(WRITE_CMD, Octet(slaveAddr), curAddr, Octet(v));
      } else if curAddr / 0x100_0000 == ADDR_TYPE_BRIGHTNESS {
        w := bus.DoWriteRegister(SET_BRIGHTNESS_CMD, Octet(slaveAddr), Octet(curAddr / 0x100), Octet(v));
      } else {
        return Failed(UnsupportedAddress(curAddr));
      }
      match w {
        case Err(e) =>
          Recover(e);
          return Failed(BusError(e));
        case Ok(_) => return Done(());
      }
    }
  }

  /** What is left to write before turn `i` of the loop. */
  function WriteFrom(device: Device, p: Port, mod: Byte, addr: int, data: seq<int>, i: nat): (Outcome<()>, Port)
    requires i <= |data|
  {
    WriteAll(device, p, mod, addr + i, data[i..])
  }

  lemma {:induction false} WriteFromStep(device: Device, p: Port, mod: Byte, addr: int, data: seq<int>, i: nat)
    requires i < |data|
    ensures var o := WriteOne(device, p, mod, addr + i, data[i]);
            WriteFrom(device, p, mod, addr, data, i)
            == if o.0.Failed? then o else WriteFrom(device, o.1, mod, addr, data, i + 1)
  {
    assert data[i..][1..] == data[i + 1..];
  }

  lemma {:induction false} PrependNothing(o: (Outcome<seq<Byte>>, Port))
    ensures Prepend([], o) == o
  {
    if o.0.Done? { assert [] + o.0.value == o.0.value; }
  }

  lemma {:induction false} PrependTwice(a: seq<Byte>, b: seq<Byte>, o: (Outcome<seq<Byte>>, Port))
    ensures Prepend(a, Prepend(b, o)) == Prepend(a + b, o)
  {
    if o.0.Done? { assert a + (b + o.0.value) == (a + b) + o.0.value; }
  }

  // ----- The commands that go out -----

  /** Frame `f` carries the write of value `v` to holding register `addr` of module `mod`. */
  predicate Carries(f: Frame, mod: Byte, addr: int, v: int) {
    && f[3] == mod && f[4] == v % 256
    && (if 0 <= addr < 0x100 then f[2] == 0x06 && f[5] == addr
        else 0x100_0000 <= addr < 0x200_0000 && f[2] == 0x0a && f[5] == (addr % 0x1_0000) / 0x100)
  }

  predicate Supported(addr: int) {
    0 <= addr < 0x100 || 0x100_0000 <= addr < 0x200_0000
  }

  lemma {:induction false} BrightnessRange(addr: int)
    ensures IsBrightness(addr) <==> 0x100_0000 <= addr < 0x200_0000
  {
  }

  lemma {:induction false} SecondByte(addr: int)
    ensures Octet(addr / 0x100) == (addr % 0x1_0000) / 0x100
  {
    var hi, mid, lo := addr / 0x1_0000, (addr % 0x1_0000) / 0x100, addr % 0x100;
    assert addr == 0x1_0000 * hi + 0x100 * mid + lo && 0 <= mid < 0x100;
    assert addr / 0x100 == 0x100 * hi + mid;
  }

  /** The frame that the write of one register sends. */
  function WriteFrame(mod: Byte, addr: int, v: int): Frame {
    if IsPlain(addr) then CheckedFrame(WRITE_CMD, mod, Octet(v), addr, 0)
    else CheckedFrame(SET_BRIGHTNESS_CMD, mod, Octet(v), Octet(addr / 0x100), 0)
  }

  lemma {:induction false} WriteFrameCarries(mod: Byte, addr: int, v: int)
    requires Supported(addr)
    ensures Carries(WriteFrame(mod, addr, v), mod, addr, v)
  {
    SecondByte(addr);
  }

  lemma {:induction false} WriteOneSends(device: Device, p: Port, mod: Byte, addr: int, v: int)
    requires p.open && p.healthy
    ensures var (r, q) := WriteOne(device, p, mod, addr, v);
            && (r == Failed(UnsupportedAddress(addr)) <==> !Supported(addr))
            && q.sent == (if Supported(addr) then p.sent + [WriteFrame(mod, addr, v)] else p.sent)
            && (r.Done? ==> q.open && q.healthy)
  {
    BrightnessRange(addr);
  }

  /** After `before`, exactly the frames for the first `m` values of `data` were sent, in order. */
  predicate SentInOrder(before: seq<Frame>, after: seq<Frame>, mod: Byte, addr: int, data: seq<int>, m: nat) {
    && m <= |data|
    && |after| == |before| + m && after[..|before|] == before
    && (forall j | 0 <= j < m :: Carries(after[|before| + j], mod, addr + j, data[j]))
  }

  /**
   Whatever the device answers, the frames sent are one per register, in order,
   each carrying its register's write; a register whose address is not supported
   ends the access before a frame is sent for it, and success means all were sent.
   */
  lemma {:induction false} WritesGoOutInOrder(device: Device, p: Port, mod: Byte, addr: int, data: seq<int>)
    returns (m: nat)
    requires p.open && p.healthy
    ensures var (r, q) := WriteAll(device, p, mod, addr, data);
            && SentInOrder(p.sent, q.sent, mod, addr, data, m)
            && (r.Done? ==> m == |data|)
            && (r.Failed? && r.reason.UnsupportedAddress? ==> m < |data| && !Supported(addr + m))
    decreases |data|
  {
    if data == [] {
      m := 0;
    } else {
      var (r, q) := WriteOne(device, p, mod, addr, data[0]);
      WriteOneSends(device, p, mod, addr, data[0]);
      if Supported(addr) { WriteFrameCarries(mod, addr, data[0]); }
      if r.Failed? {
        m := if Supported(addr) then 1 else 0;
      } else {
        var m' := WritesGoOutInOrder(device, q, mod, addr + 1, data[1..]);
        m := m' + 1;
        OneMore(p.sent, q.sent, WriteAll(device, q, mod, addr + 1, data[1..]).1.sent, mod, addr, data, m');
      }
    }
  }

  lemma {:induction false} OneMore(before: seq<Frame>, mid: seq<Frame>, after: seq<Frame>, mod: Byte,
          addr: int, data: seq<int>, m: nat)
    requires data != []
    requires |mid| == |before| + 1 && mid[..|before|] == before && Carries(Last(mid), mod, addr, data[0])
    requires SentInOrder(mid, after, mod, addr + 1, data[1..], m)
    ensures SentInOrder(before, after, mod, addr, data, m + 1)
  {
    assert after[..|before|] == after[..|mid|][..|before|];
    forall j | 0 <= j < m + 1 ensures Carries(after[|before| + j], mod, addr + j, data[j]) {
      if j == 0 {
        assert after[|before|] == after[..|mid|][|before|] == Last(mid);
      } else {
        assert after[|mid| + (j - 1)] == after[|before| + j] && data[1..][j - 1] == data[j];
      }
    }
  }

  /** The commands that read `m` registers from `addr` on, each naming the low byte of its address. */
  function ReadFrames(mod: Byte, addr: int, m: nat): seq<Frame>
    decreases m
  {
    if m == 0 then [] else [CheckedFrame(READ_CMD, mod, 0, Octet(addr), 0)] + ReadFrames(mod, addr + 1, m - 1)
  }

  /** Whatever the device answers, a read sends one command per register, in order, until one fails. */
  lemma {:induction false} ReadsGoOutInOrder(device: Device, p: Port, mod: Byte, addr: int, nb: nat) returns (m: nat)
    requires p.open && p.healthy
    ensures var (r, q) := ReadAll(device, p, mod, addr, nb);
            && q.sent == p.sent + ReadFrames(mod, addr, m) && m <= nb
            && (r.Done? ==> m == nb && |r.value| == nb)
    decreases nb
  {
    if nb == 0 {
      m := 0;
      assert p.sent + [] == p.sent;
    } else {
      var f := CheckedFrame(READ_CMD, mod, 0, Octet(addr), 0);
      var (r, q) := ReadOutcome(device, p, mod, Octet(addr));
      assert q.sent == p.sent + [f];
      if r.Err? {
        m := 1;
        assert ReadFrames(mod, addr, 1) == [f] + ReadFrames(mod, addr + 1, 0) == [f];
      } else {
        var rest := ReadsGoOutInOrder(device, q, mod, addr + 1, nb - 1);
        m := rest + 1;
        assert p.sent + [f] + ReadFrames(mod, addr + 1, rest) == p.sent + ([f] + ReadFrames(mod, addr + 1, rest));
      }
    }
  }

  // ----- What an access leaves of the port -----

  /** On a working serial line every error is transient, so a write leaves the port open. */
  lemma {:induction false} WritesKeepPortOpen(device: Device, p: Port, mod: Byte, addr: int, data: seq<int>)
    requires p.open && p.healthy
    ensures var (r, q) := WriteAll(device, p, mod, addr, data);
            && q.open && q.healthy
            && (r.Failed? && r.reason.BusError? ==> IsTransient(r.reason.error))
    decreases |data|
  {
    if data != [] {
      var (r, q) := WriteOne(device, p, mod, addr, data[0]);
      var cmd := if IsPlain(addr) then WRITE_CMD else SET_BRIGHTNESS_CMD;
      ExchangeIsTransient(device, p, WriteFrame(mod, addr, data[0]), cmd);
      if !r.Failed? {
        WritesKeepPortOpen(device, q, mod, addr + 1, data[1..]);
      }
    }
  }

  lemma {:induction false} ReadsKeepPortOpen(device: Device, p: Port, mod: Byte, addr: int, nb: nat)
    requires p.open && p.healthy
    ensures var (r, q) := ReadAll(device, p, mod, addr, nb);
            && q.open && q.healthy
            && (r.Failed? ==> r.reason.BusError? && IsTransient(r.reason.error))
    decreases nb
  {
    if nb > 0 {
      var (r, q) := ReadOutcome(device, p, mod, Octet(addr));
      ExchangeIsTransient(device, p, CheckedFrame(READ_CMD, mod, 0, Octet(addr), 0), READ_CMD);
      if r.Ok? {
        ReadsKeepPortOpen(device, q, mod, addr + 1, nb - 1);
      }
    }
  }

  lemma {:induction false} ExchangeIsTransient(device: Device, p: Port, frame: Frame, cmd: Byte)
    requires p.open && p.healthy
    ensures var (r, q) := Exchange(device, p, frame, cmd); q.open && q.healthy && (r.Err? ==> IsTransient(r.error))
  {
    ResponseIsTransient(p.input + device(p.sent + [frame]), cmd);
  }

  lemma {:induction false} ResponseIsTransient(s: seq<Byte>, cmd: Byte)
    ensures Response(s, cmd).0.Err? ==> IsTransient(Response(s, cmd).0.error)
    decreases |s|
  {
    if s != [] {
      if s[0] != 0xff {
        ResponseIsTransient(s[1..], cmd);
      } else if |s| > 1 && s[1] != 0xff {
        ResponseIsTransient(s[2..], cmd);
      }
    }
  }

  lemma {:induction false} BrokenLineClosesPort(device: Device, p: Port, mod: Byte, addr: int, data: seq<int>)
    requires p.open && !p.healthy && data != [] && Supported(addr)
    ensures var (r, q) := WriteAll(device, p, mod, addr, data);
            r == Failed(BusError(PortFailed)) && q == p.(open := false)
  {
    BrightnessRange(addr);
  }

  /** A write leaves the port open if and only if the line works or no frame was to be sent. */
  lemma {:induction false} WriteLeavesPortOpenIff(device: Device, p: Port, mod: Byte, addr: int, data: seq<int>)
    requires p.open
    ensures var (r, q) := WriteAll(device, p, mod, addr, data);
            && (q.open <==> p.healthy || data == [] || !Supported(addr))
            && (!q.open ==> r == Failed(BusError(PortFailed)) && q.sent == p.sent)
  {
    if p.healthy {
      WritesKeepPortOpen(device, p, mod, addr, data);
    } else if data != [] && Supported(addr) {
      BrokenLineClosesPort(device, p, mod, addr, data);
    } else {
      BrightnessRange(addr);
    }
  }

  /** A read leaves the port open if and only if the line works or nothing was to be read. */
  lemma {:induction false} ReadLeavesPortOpenIff(device: Device, p: Port, mod: Byte, addr: int, nb: nat)
    requires p.open
    ensures var (r, q) := ReadAll(device, p, mod, addr, nb);
            && (q.open <==> p.healthy || nb == 0)
            && (!q.open ==> r == Failed(BusError(PortFailed)) && q.sent == p.sent)
  {
    if p.healthy {
      ReadsKeepPortOpen(device, p, mod, addr, nb);
    }
  }

  // ----- Each access in terms of the frames on the line -----

  /** What the bus reported, given what the caller sees of one command. */
  function BusResult<T>(r: Outcome<T>): Result<T>
    requires r.Failed? ==> r.reason.BusError?
  {
    if r.Done? then Ok(r.value) else Err(r.reason.error)
  }

  function Only(r: Outcome<seq<Byte>>): Outcome<Byte>
    requires r.Done? ==> |r.value| == 1
  {
    if r.Done? then Done(r.value[0]) else Failed(r.reason)
  }

  /** The read of one register is one read command, to the low byte of the address. */
  lemma {:induction false} ReadOneDoes(device: Device, p: Port, mod: Byte, addr: int)
    requires p.open && p.healthy
    ensures var (r, q) := ReadAll(device, p, mod, addr, 1);
            && (r.Done? ==> |r.value| == 1) && (r.Failed? ==> r.reason.BusError?)
            && ReadDoes(device, p, mod, addr % 256, BusResult(Only(r)), q)
  {
    ReadsKeepPortOpen(device, p, mod, addr, 1);
    ReadOutcomeDoes(device, p, mod, addr % 256);
    var (b, t) := ReadOutcome(device, p, mod, addr % 256);
    ExchangeIsTransient(device, p, CheckedFrame(READ_CMD, mod, 0, addr % 256, 0), READ_CMD);
    if b.Ok? {
      assert ReadAll(device, t, mod, addr + 1, 0) == (Done([]), t);
      assert [b.value] + [] == [b.value];
    }
  }

  /** Reads in a row are reads one after the other, as long as none fails. */
  lemma {:induction false} ReadsCompose(device: Device, p: Port, mod: Byte, addr: int, m: nat, n: nat)
    ensures var (r, q) := ReadAll(device, p, mod, addr, m);
            var (r', q') := ReadAll(device, q, mod, addr + m, n);
            ReadAll(device, p, mod, addr, m + n)
            == if r.Failed? then (r, q) else if r'.Failed? then (r', q') else (Done(r.value + r'.value), q')
    decreases m
  {
    if m == 0 {
      PrependNothing(ReadAll(device, p, mod, addr, n));
    } else {
      var (b, t) := ReadOutcome(device, p, mod, Octet(addr));
      if b.Ok? {
        ReadsCompose(device, t, mod, addr + 1, m - 1, n);
        var (r, q) := ReadAll(device, t, mod, addr + 1, m - 1);
        if r.Done? { PrependTwice([b.value], r.value, ReadAll(device, q, mod, addr + m, n)); }
      }
    }
  }

  /**
   The write of one register is command 6 to a plain address, command 10 to 0x01xxWWRR,
   and nothing to any other; what the bus reports is what the caller sees.
   */
  lemma {:induction false} WriteOneDoes(device: Device, p: Port, mod: Byte, addr: int, v: int)
    requires p.open && p.healthy
    ensures var (r, q) := WriteAll(device, p, mod, addr, [v]);
            if 0 <= addr < 0x100 then
              (r.Failed? ==> r.reason.BusError?) && WriteDoes(device, p, 0x06, mod, addr, v % 256, BusResult(r), q)
            else if 0x100_0000 <= addr < 0x200_0000 then
              && (r.Failed? ==> r.reason.BusError?)
              && WriteDoes(device, p, 0x0a, mod, (addr % 0x1_0000) / 0x100, v % 256, BusResult(r), q)
            else r == Failed(UnsupportedAddress(addr)) && q == p
  {
    BrightnessRange(addr);
    SecondByte(addr);
    var cmd: Byte := if IsPlain(addr) then 0x06 else 0x0a;
    var reg: Byte := if IsPlain(addr) then addr else Octet(addr / 0x100);
    WriteOutcomeDoes(device, p, cmd, mod, reg, Octet(v));
    ExchangeIsTransient(device, p, CheckedFrame(cmd, mod, Octet(v), reg, 0), cmd);
    assert [v][1..] == [];
    var q := WriteOne(device, p, mod, addr, v).1;
    assert WriteAll(device, q, mod, addr + 1, []) == (Done(()), q);
  }

  /** Writes in a row are writes one after the other, as long as none fails. */
  lemma {:induction false} WritesCompose(device: Device, p: Port, mod: Byte, addr: int, a: seq<int>, b: seq<int>)
    ensures var (r, q) := WriteAll(device, p, mod, addr, a);
            WriteAll(device, p, mod, addr, a + b)
            == if r.Failed? then (r, q) else WriteAll(device, q, mod, addr + |a|, b)
    decreases |a|
  {
    if a == [] {
      assert a + b == b;
    } else {
      assert (a + b)[1..] == a[1..] + b;
      WritesCompose(device, WriteOne(device, p, mod, addr, a[0]).1, mod, addr + 1, a[1..], b);
    }
  }

  /** A coil is written as FF or 0; a closed port is opened first, and a broken one is closed. */
  lemma {:induction false} WriteCoilDoes(device: Device, p: Port, mod: Byte, addr: int, value: int)
    ensures var (r, q) := WriteCoilOutcome(device, p, mod, addr, value);
            if p.healthy then
              && (r.Failed? ==> r.reason.BusError?)
              && WriteDoes(device, p.(open := true), 0x06, mod, addr % 256, if value == 0 then 0 else 0xff,
                           BusResult(r), q)
            else r == Failed(BusError(if p.open then PortFailed else PortNotOpen)) && q == p.(open := false)
  {
    if p.healthy {
      var c, level: Byte := p.(open := true), if value == 0 then 0 else 0xff;
      WriteOutcomeDoes(device, c, 0x06, mod, addr % 256, level);
      ExchangeIsTransient(device, c, CheckedFrame(0x06, mod, level, addr % 256, 0), 0x06);
    }
  }

  /** Coils are the registers read at the same addresses: 0 for 0, and 1 for anything else. */
  lemma {:induction false} CoilsAreTruths(device: Device, p: Port, mod: Byte, addr: int, nb: nat)
    ensures var (r, q) := HoldingOutcome(device, p, mod, addr, nb);
            var (c, t) := CoilsOutcome(device, p, mod, addr, nb);
            && t == q
            && (r.Failed? ==> c == r)
            && (r.Done? ==> c.Done? && |c.value| == |r.value|
                            && forall i | 0 <= i < |c.value| :: c.value[i] == if r.value[i] == 0 then 0 else 1)
  {
  }

  /** An access opens a closed port; on a broken line it fails unless nothing is to be sent. */
  lemma {:induction false} AccessOpensPort(device: Device, p: Port, mod: Byte, addr: int, nb: nat, data: seq<int>)
    requires !p.open
    ensures p.healthy ==>
              && HoldingOutcome(device, p, mod, addr, nb) == ReadAll(device, p.(open := true), mod, addr, nb)
              && WriteHoldingOutcome(device, p, mod, addr, data) == WriteAll(device, p.(open := true), mod, addr, data)
    ensures !p.healthy ==>
              && HoldingOutcome(device, p, mod, addr, nb) == (Failed(BusError(PortNotOpen)), p)
              && WriteHoldingOutcome(device, p, mod, addr, data) == (Failed(BusError(PortNotOpen)), p)
  {
  }

  // ----- A device that is a file of registers -----

  predicate IsWrite(f: Frame) {
    f[2] == WRITE_CMD || f[2] == SET_BRIGHTNESS_CMD
  }

  /** The value a register holds after the given frames: the last one written to it, 0 at first. */
  function Stored(sent: seq<Frame>, mod: Byte, reg: Byte): Byte {
    if sent == [] then 0
    else if IsWrite(Last(sent)) && Last(sent)[3] == mod && Last(sent)[5] == reg then Last(sent)[4]
    else Stored(sent[..|sent| - 1], mod, reg)
  }

  /** It answers a read with the value held and a write with an echo. */
  function RegisterFile(sent: seq<Frame>): seq<Byte> {
    if sent == [] then []
    else
      var f := Last(sent);
      if f[2] == READ_CMD then ValidFrame(READ_CMD, Payload(Stored(sent, f[3], f[5]), f[5], 0))
      else if IsWrite(f) then ValidFrame(f[2], Payload(f[4], f[5], 0))
      else []
  }

  /** A working port, with nothing but noise left from before. */
  predicate Ready(p: Port) {
    p.open && p.healthy && Noise(p.input)
  }

  lemma {:induction false} RegisterFileWrites(p: Port, cmd: Byte, mod: Byte, address: Byte, value: Byte)
    requires Ready(p) && (cmd == WRITE_CMD || cmd == SET_BRIGHTNESS_CMD)
    ensures var (r, q) := WriteOutcome(RegisterFile, p, cmd, mod, address, value);
            && r == Ok(()) && Ready(q) && Stored(q.sent, mod, address) == value
            && (forall other: Byte | other != address :: Stored(q.sent, mod, other) == Stored(p.sent, mod, other))
  {
    var sent := p.sent + [CheckedFrame(cmd, mod, value, address, 0)];
    var payload := Payload(value, address, 0);
    assert Last(sent) == CheckedFrame(cmd, mod, value, address, 0);
    assert sent[..|sent| - 1] == p.sent;
    assert RegisterFile(sent) == ValidFrame(cmd, payload);
    ResynchronisedRead(p.input, cmd, payload, []);
    assert p.input + ValidFrame(cmd, payload) + [] == p.input + RegisterFile(sent);
  }

  lemma {:induction false} RegisterFileReads(p: Port, mod: Byte, address: Byte)
    requires Ready(p)
    ensures var (r, q) := ReadOutcome(RegisterFile, p, mod, address);
            r == Ok(Stored(p.sent, mod, address)) && Ready(q)
  {
    var sent := p.sent + [CheckedFrame(READ_CMD, mod, 0, address, 0)];
    assert Last(sent) == CheckedFrame(READ_CMD, mod, 0, address, 0);
    assert sent[..|sent| - 1] == p.sent;
    assert Stored(sent, mod, address) == Stored(p.sent, mod, address);
    var payload := Payload(Stored(p.sent, mod, address), address, 0);
    assert RegisterFile(sent) == ValidFrame(READ_CMD, payload);
    ResynchronisedRead(p.input, READ_CMD, payload, []);
    assert p.input + ValidFrame(READ_CMD, payload) + [] == p.input + RegisterFile(sent);
  }

  /** The values held by `nb` registers in a row. */
  function StoredRow(sent: seq<Frame>, mod: Byte, addr: int, nb: nat): seq<Byte>
    decreases nb
  {
    if nb == 0 then [] else [Stored(sent, mod, Octet(addr))] + StoredRow(sent, mod, addr + 1, nb - 1)
  }

  function LowBytes(data: seq<int>): seq<Byte> {
    seq(|data|, i requires 0 <= i < |data| => data[i] % 256)
  }

  lemma {:induction false} SameRow(s: seq<Frame>, t: seq<Frame>, mod: Byte, addr: int, nb: nat)
    requires forall reg: Byte :: Stored(s, mod, reg) == Stored(t, mod, reg)
    ensures StoredRow(s, mod, addr, nb) == StoredRow(t, mod, addr, nb)
    decreases nb
  {
    if nb > 0 { SameRow(s, t, mod, addr + 1, nb - 1); }
  }

  /** A block of registers is read as it is stored, each address reduced to its low byte. */
  lemma {:induction false} BlockIsRead(p: Port, mod: Byte, addr: int, nb: nat)
    requires Ready(p)
    ensures var (r, q) := ReadAll(RegisterFile, p, mod, addr, nb); r == Done(StoredRow(p.sent, mod, addr, nb))
    decreases nb
  {
    if nb > 0 {
      RegisterFileReads(p, mod, Octet(addr));
      var q := ReadOutcome(RegisterFile, p, mod, Octet(addr)).1;
      BlockIsRead(q, mod, addr + 1, nb - 1);
      assert q.sent[..|q.sent| - 1] == p.sent;
      SameRow(q.sent, p.sent, mod, addr + 1, nb - 1);
    }
  }

  lemma {:induction false} PlainIsWritten(p: Port, mod: Byte, addr: Byte, v: int)
    requires Ready(p)
    ensures var (r, q) := WriteOne(RegisterFile, p, mod, addr, v);
            && r == Done(()) && Ready(q) && Stored(q.sent, mod, addr) == v % 256
            && (forall reg: Byte | reg != addr :: Stored(q.sent, mod, reg) == Stored(p.sent, mod, reg))
  {
    RegisterFileWrites(p, WRITE_CMD, mod, addr, Octet(v));
  }

  lemma {:induction false} RowStarts(sent: seq<Frame>, mod: Byte, addr: Byte, data: seq<int>)
    requires data != [] && Stored(sent, mod, addr) == data[0] % 256
    requires StoredRow(sent, mod, addr + 1, |data[1..]|) == LowBytes(data[1..])
    ensures StoredRow(sent, mod, addr, |data|) == LowBytes(data)
  {
    assert Octet(addr) == addr;
    assert LowBytes(data) == [data[0] % 256] + LowBytes(data[1..]);
  }

  /** A block of plain registers is stored, each value modulo 256, and no other register changes. */
  lemma {:induction false} BlockIsWritten(p: Port, mod: Byte, addr: int, data: seq<int>)
    requires Ready(p) && 0 <= addr && addr + |data| <= 0x100
    ensures var (r, q) := WriteAll(RegisterFile, p, mod, addr, data);
            && r == Done(()) && Ready(q) && StoredRow(q.sent, mod, addr, |data|) == LowBytes(data)
            && (forall reg: Byte | !(addr <= reg < addr + |data|) ::
                  Stored(q.sent, mod, reg) == Stored(p.sent, mod, reg))
    decreases |data|
  {
    if data != [] {
      var q1 := WriteOne(RegisterFile, p, mod, addr, data[0]).1;
      PlainIsWritten(p, mod, addr, data[0]);
      BlockIsWritten(q1, mod, addr + 1, data[1..]);
      RowStarts(WriteAll(RegisterFile, q1, mod, addr + 1, data[1..]).1.sent, mod, addr, data);
    }
  }

  lemma {:induction false} OpenStays(q: Port)
    requires q.open
    ensures Connected(q) == q
  {
  }

  /** A block written to plain registers and read back is the block, each value modulo 256. */
  lemma {:induction false} BlockRoundTrip(p: Port, mod: Byte, addr: int, data: seq<int>)
    requires p.healthy && Noise(p.input) && 0 <= addr && addr + |data| <= 0x100
    ensures var (w, q) := WriteHoldingOutcome(RegisterFile, p, mod, addr, data);
            w == Done(()) && HoldingOutcome(RegisterFile, q, mod, addr, |data|).0 == Done(LowBytes(data))
  {
    var q := WriteAll(RegisterFile, Connected(p), mod, addr, data).1;
    BlockIsWritten(Connected(p), mod, addr, data);
    BlockIsRead(q, mod, addr, |data|);
    OpenStays(q);
  }

  lemma {:induction false} ReadBackOne(p: Port, mod: Byte, addr: int)
    requires Ready(p)
    ensures HoldingOutcome(RegisterFile, p, mod, addr, 1).0 == Done([Stored(p.sent, mod, Octet(addr))])
  {
    RegisterFileReads(p, mod, Octet(addr));
    var (r, q) := ReadOutcome(RegisterFile, p, mod, Octet(addr));
    assert ReadAll(RegisterFile, q, mod, addr + 1, 0) == (Done([]), q);
    assert [r.value] + [] == [r.value];
  }

  /** A coil written and then read gives back the truth value of what was written, at any address. */
  lemma {:induction false} CoilRoundTrip(p: Port, mod: Byte, addr: int, value: int)
    requires p.healthy && Noise(p.input)
    ensures var (w, q) := WriteCoilOutcome(RegisterFile, p, mod, addr, value);
            && w == Done(())
            && CoilsOutcome(RegisterFile, q, mod, addr, 1).0 == Done([if value != 0 then 1 else 0])
  {
    var stored: Byte := if value != 0 then 0xff else 0;
    RegisterFileWrites(Connected(p), WRITE_CMD, mod, Octet(addr), stored);
    var (w, q) := WriteCoilOutcome(RegisterFile, p, mod, addr, value);
    ReadBackOne(q, mod, addr);
    assert Truths([stored]) == [Truth(stored)];
  }

  /**
   A holding register written and then read gives back the value modulo 256: always
   for a plain address, and for 0x01xxWWRR exactly when WW and RR are the same
   parameter, or RR held that value already.
   */
  lemma {:induction false} HoldingRoundTrip(p: Port, mod: Byte, addr: int, value: int)
    requires p.healthy && Noise(p.input) && Supported(addr)
    ensures var (w, q) := WriteHoldingOutcome(RegisterFile, p, mod, addr, [value]);
            && w == Done(())
            && (HoldingOutcome(RegisterFile, q, mod, addr, 1).0 == Done([value % 256])
                <==> addr < 0x100 || (addr / 0x100) % 0x100 == addr % 0x100
                     || Stored(p.sent, mod, addr % 0x100) == value % 256)
  {
    var c := Connected(p);
    var cmd := if IsPlain(addr) then WRITE_CMD else SET_BRIGHTNESS_CMD;
    var reg := if IsPlain(addr) then Octet(addr) else Octet(addr / 0x100);
    RegisterFileWrites(c, cmd, mod, reg, Octet(value));
    WriteAllSingle(RegisterFile, c, mod, addr, value);
    var q := WriteOutcome(RegisterFile, c, cmd, mod, reg, Octet(value)).1;
    ReadBackOne(q, mod, addr);
    SingletonsEqual(Stored(q.sent, mod, Octet(addr)), Octet(value));
  }

  lemma {:induction false} SingletonsEqual(a: Byte, b: Byte)
    ensures Done([a]) == Done([b]) <==> a == b
  {
    assert [a][0] == a && [b][0] == b;
  }

  lemma {:induction false} WriteAllSingle(device: Device, p: Port, mod: Byte, addr: int, value: int)
    requires WriteOne(device, p, mod, addr, value).0.Done?
    ensures WriteAll(device, p, mod, addr, [value]) == WriteOne(device, p, mod, addr, value)
  {
    var (r, q) := WriteOne(device, p, mod, addr, value);
    assert [value][1..] == [];
    assert WriteAll(device, q, mod, addr + 1, []) == (Done(()), q);
  }
}
