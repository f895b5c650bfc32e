/**
 The Uniel serial protocol, wb-homa-modbus/uniel.cpp: 8-byte frames and a reader
 that resynchronises on the FF FF header.

 The serial line is modelled by the bytes still to be read. What arrives is
 decided by the device, an arbitrary function of the frames sent to it so far;
 when no byte is left, the read times out.
 */
module UnielBus {
  import opened Common

  type Byte = b: int | 0 <= b < 256

  type Frame = f: seq<Byte> | |f| == 8 witness [0, 0, 0, 0, 0, 0, 0, 0]

  type Device = seq<Frame> -> seq<Byte>

  const READ_CMD: Byte := 0x05
  const WRITE_CMD: Byte := 0x06
  const SET_BRIGHTNESS_CMD: Byte := 0x0a

  /** The first six leave the port open; the last two make the caller close it. */
  datatype Error =
    | Timeout | BadChecksum | BadCommand | BadModule | WrongRegister | WrongValue
    | PortNotOpen | PortFailed

  predicate IsTransient(e: Error) {
    !e.PortNotOpen? && !e.PortFailed?
  }

  datatype Result<+T> = Ok(value: T) | Err(error: Error)

  /** The three bytes a response carries. */
  datatype Payload = Payload(x: Byte, y: Byte, z: Byte)

  function Checksum(a: nat, b: nat, c: nat, d: nat, e: nat): Byte {
    (a + b + c + d + e) % 256
  }

  function CheckedFrame(cmd: Byte, mod: Byte, b1: Byte, b2: Byte, b3: Byte): Frame {
    [0xff, 0xff, cmd, mod, b1, b2, b3, Checksum(cmd, mod, b1, b2, b3)]
  }

  /** What ReadResponse makes of the bytes after the header, and what it leaves unread. */
  function Body(t: seq<Byte>, cmd: Byte): (Result<Payload>, seq<Byte>) {
    if |t| < 6 then (Err(Timeout), [])
    else
      (if t[5] != Checksum(t[0], t[1], t[2], t[3], t[4]) then Err(BadChecksum)
       else if t[0] != cmd then Err(BadCommand)
       else if t[1] != 0 then Err(BadModule)
       else Ok(Payload(t[2], t[3], t[4])),
       t[6..])
  }

  /** What ReadResponse makes of the bytes of a stream, and what it leaves unread. */
  function Response(s: seq<Byte>, cmd: Byte): (Result<Payload>, seq<Byte>) {
    if s == [] then (Err(Timeout), [])
    else if s[0] != 0xff then Response(s[1..], cmd)
    else if |s| == 1 then (Err(Timeout), [])
    else if s[1] != 0xff then Response(s[2..], cmd)
    else Body(s[2..], cmd)
  }

  /** The observable state of a bus. `healthy` says whether the serial device works at all. */
  datatype Port = Port(open: bool, healthy: bool, input: seq<Byte>, sent: seq<Frame>)

  /** Sending a frame and reading the response to it. */
  function Exchange(device: Device, p: Port, frame: Frame, cmd: Byte): (Result<Payload>, Port) {
    if !p.open then (Err(PortNotOpen), p)
    else if !p.healthy then (Err(PortFailed), p)
    else
      var sent := p.sent + [frame];
      var (r, rest) := Response(p.input + device(sent), cmd);
      (r, p.(input := rest, sent := sent))
  }

  function ReadResult(r: Result<Payload>, address: Byte): Result<Byte> {
    match r
    case Err(e) => Err(e)
    case Ok(b) => if b.y != address then Err(WrongRegister) else Ok(b.x)
  }

  function WriteResult(r: Result<Payload>, address: Byte, value: Byte): Result<()> {
    match r
    case Err(e) => Err(e)
    case Ok(b) =>
      if b.y != address then Err(WrongRegister)
      else if b.x != value then Err(WrongValue)
      else Ok(())
  }

  function ReadOutcome(device: Device, p: Port, mod: Byte, address: Byte): (Result<Byte>, Port) {
    var (r, q) := Exchange(device, p, CheckedFrame(READ_CMD, mod, 0, address, 0), READ_CMD);
    (ReadResult(r, address), q)
  }

  function WriteOutcome(device: Device, p: Port, cmd: Byte, mod: Byte, address: Byte, value: Byte)
    : (Result<()>, Port)
  {
    var (r, q) := Exchange(device, p, CheckedFrame(cmd, mod, value, address, 0), cmd);
    (WriteResult(r, address, value), q)
  }

  class Bus {
    const device: Device
    var open: bool
    var healthy: bool
    var input: seq<Byte>
    var sent: seq<Frame>

    constructor (device: Device, healthy: bool)
      ensures this.device == device && State() == Port(false, healthy, [], [])
    {
      this.device := device;
      this.healthy := healthy;
      open, input, sent := false, [], [];
    }

    function State(): Port
      reads this
    {
      Port(open, healthy, input, sent)
    }

    method WriteCommand(cmd: Byte, mod: Byte, b1: Byte, b2: Byte, b3: Byte) returns (r: Result<()>)
      modifies this`input, this`sent
      ensures r == if !open then Err(PortNotOpen) else if !healthy then Err(PortFailed) else Ok(())
      ensures r.Err? ==> State() == old(State())
      ensures r.Ok? ==> sent == old(sent) + [CheckedFrame(cmd, mod, b1, b2, b3)]
      ensures r.Ok? ==> input == old(input) + device(sent)
    {
      if !open { return Err(PortNotOpen); }
      if !healthy { return Err(PortFailed); }
      var buf := new Byte[8](_ => 0xff);
      buf[2] := cmd;
      buf[3] := mod;
      buf[4] := b1;
      buf[5] := b2;
      buf[6] := b3;
      buf[7] := Checksum(cmd, mod, b1, b2, b3);
      assert buf[..] == CheckedFrame(cmd, mod, b1, b2, b3);
      sent := sent + [buf[..]];
      input := input + device(sent);
      return Ok(());
    }

    method ReadByte() returns (r: Result<Byte>)
      modifies this`input
      ensures r == if !open then Err(PortNotOpen) else if !healthy then Err(PortFailed)
                   else if old(input) == [] then Err(Timeout) else Ok(old(input)[0])
      ensures input == if r.Ok? then old(input)[1..] else old(input)
    {
      if !open { return Err(PortNotOpen); }
      if !healthy { return Err(PortFailed); }
      if input == [] { return Err(Timeout); }
      r := Ok(input[0]);
      input := input[1..];
    }

    method ReadResponse(cmd: Byte) returns (r: Result<Payload>)
      modifies this`input
      ensures !open ==> r == Err(PortNotOpen) && input == old(input)
      ensures open && !healthy ==> r == Err(PortFailed) && input == old(input)
      ensures open && healthy ==> (r, input) == Response(old(input), cmd)
    {
      while true
        invariant !open || !healthy ==> input == old(input)
        invariant Response(input, cmd) == Response(old(input), cmd)
        decreases |input|
      {
        var first := ReadByte();
        if first.Err? { return Err(first.error); }
        if first.value != 0xff { continue; }
        var second := ReadByte();
        if second.Err? { return Err(second.error); }
        if second.value != 0xff { continue; }
        r := ReadBody(cmd);
        return;
      }
    }

    method ReadBody(cmd: Byte) returns (r: Result<Payload>)
      requires open && healthy
      modifies this`input
      ensures (r, input) == Body(old(input), cmd)
    {
      var buf: seq<Byte> := [];
      var s: Byte := 0;
      for i := 0 to 5
        invariant |buf| == i && old(input) == buf + input
        invariant s == Sum(buf) % 256
      {
        var b := ReadByte();
        if b.Err? { assert |old(input)| == i; return Err(b.error); }
        assert (buf + [b.value])[..i] == buf;
        buf := buf + [b.value];
        s := (s + b.value) % 256;
      }
      SumOfFive(buf);
      var check := ReadByte();
      if check.Err? { return Err(check.error); }
      assert forall i | 0 <= i < 5 :: old(input)[i] == buf[i];
      assert old(input)[6..] == input;
      if check.value != s { return Err(BadChecksum); }
      if buf[0] != cmd { return Err(BadCommand); }
      if buf[1] != 0 { return Err(BadModule); }
      return Ok(Payload(buf[2], buf[3], buf[4]));
    }

    method ReadRegister(mod: Byte, address: Byte) returns (r: Result<Byte>)
      modifies this`input, this`sent
      ensures (r, State()) == ReadOutcome(device, old(State()), mod, address)
      ensures ReadDoes(device, old(State()), mod, address, r, State())
    {
      ReadOutcomeDoes(device, State(), mod, address);
      var w := WriteCommand(READ_CMD, mod, 0, address, 0);
      if w.Err? { return Err(w.error); }
      var response := ReadResponse(READ_CMD);
      return ReadResult(response, address);
    }

    method DoWriteRegister(cmd: Byte, mod: Byte, address: Byte, value: Byte) returns (r: Result<()>)
      modifies this`input, this`sent
      ensures (r, State()) == WriteOutcome(device, old(State()), cmd, mod, address, value)
      ensures WriteDoes(device, old(State()), cmd, mod, address, value, r, State())
    {
      WriteOutcomeDoes(device, State(), cmd, mod, address, value);
      var w := WriteCommand(cmd, mod, value, address, 0);
      if w.Err? { return Err(w.error); }
      var response := ReadResponse(cmd);
      return WriteResult(response, address, value);
    }
  }

  function Sum(s: seq<Byte>): nat {
    if s == [] then 0 else Sum(s[..|s| - 1]) + Last(s)
  }

  lemma {:induction false} SumOfFive(s: seq<Byte>)
    requires |s| == 5
    ensures Sum(s) % 256 == Checksum(s[0], s[1], s[2], s[3], s[4])
  {
    assert s[..4][..3] == s[..3] && s[..3][..2] == s[..2] && s[..2][..1] == s[..1] && s[..1][..0] == [];
    assert Sum(s[..1]) == s[0] as int;
    assert Sum(s[..2]) == Sum(s[..1]) + s[1];
    assert Sum(s[..3]) == Sum(s[..2]) + s[2];
    assert Sum(s[..4]) == Sum(s[..3]) + s[3];
    assert Sum(s) == Sum(s[..4]) + s[4];
  }

  // ----- Resynchronisation and soundness -----

  /** Bytes that the reader skips: pieces "not FF" and "FF, then not FF". */
  predicate Noise(n: seq<Byte>) {
    || n == []
    || (n[0] != 0xff && Noise(n[1..]))
    || (|n| >= 2 && n[0] == 0xff && n[1] != 0xff && Noise(n[2..]))
  }

  function ValidFrame(cmd: Byte, p: Payload): Frame {
    CheckedFrame(cmd, 0, p.x, p.y, p.z)
  }

  /** Noise changes nothing: the reader goes on as if it had not been there. */
  lemma {:induction false} NoiseIsSkipped(noise: seq<Byte>, s: seq<Byte>, cmd: Byte)
    requires Noise(noise)
    ensures Response(noise + s, cmd) == Response(s, cmd)
    decreases |noise|
  {
    if noise == [] {
      assert noise + s == s;
    } else if noise[0] != 0xff {
      assert (noise + s)[1..] == noise[1..] + s;
      NoiseIsSkipped(noise[1..], s, cmd);
    } else {
      assert (noise + s)[2..] == noise[2..] + s;
      NoiseIsSkipped(noise[2..], s, cmd);
    }
  }

  lemma {:induction false} FrameIsRead(f: Frame, rest: seq<Byte>, cmd: Byte)
    requires f[0] == 0xff && f[1] == 0xff
    ensures Response(f + rest, cmd) == Body(f[2..] + rest, cmd)
    ensures f[2..] + rest == (f + rest)[2..]
  {
    assert (f + rest)[2..] == f[2..] + rest;
  }

  /** After any noise, a valid response frame is read whole and exactly. */
  lemma {:induction false} ResynchronisedRead(noise: seq<Byte>, cmd: Byte, p: Payload, rest: seq<Byte>)
    requires Noise(noise)
    ensures Response(noise + ValidFrame(cmd, p) + rest, cmd) == (Ok(p), rest)
  {
    var f := ValidFrame(cmd, p);
    assert noise + f + rest == noise + (f + rest);
    NoiseIsSkipped(noise, f + rest, cmd);
    FrameIsRead(f, rest, cmd);
    assert (f[2..] + rest)[6..] == rest;
  }

  /** Whatever the reader accepts was noise followed by a valid frame for the command. */
  lemma {:induction false} AcceptedMeansValid(s: seq<Byte>, cmd: Byte) returns (noise: seq<Byte>)
    requires Response(s, cmd).0.Ok?
    ensures Noise(noise)
    ensures var (r, rest) := Response(s, cmd); s == noise + ValidFrame(cmd, r.value) + rest
    decreases |s|
  {
    if s[0] != 0xff {
      var tail := AcceptedMeansValid(s[1..], cmd);
      noise := [s[0]] + tail;
      MoreNoise(s, 1, tail, ValidFrame(cmd, Response(s, cmd).0.value), Response(s, cmd).1);
    } else if s[1] != 0xff {
      var tail := AcceptedMeansValid(s[2..], cmd);
      noise := s[..2] + tail;
      MoreNoise(s, 2, tail, ValidFrame(cmd, Response(s, cmd).0.value), Response(s, cmd).1);
    } else {
      noise := [];
      AcceptedBody(s, cmd);
    }
  }

  lemma {:induction false} MoreNoise(s: seq<Byte>, k: nat, tail: seq<Byte>, f: Frame, rest: seq<Byte>)
    requires k <= |s| && s[k..] == tail + f + rest && Noise(tail)
    ensures s == (s[..k] + tail) + f + rest
    ensures k == 1 && s[0] != 0xff ==> s[..1] == [s[0]] && Noise([s[0]] + tail)
    ensures k == 2 && s[0] == 0xff && s[1] != 0xff ==> Noise(s[..2] + tail)
  {
    assert s == s[..k] + s[k..];
    if k == 1 { assert ([s[0]] + tail)[1..] == tail; }
    if k == 2 { assert (s[..2] + tail)[2..] == tail; }
  }

  lemma {:induction false} AcceptedBody(s: seq<Byte>, cmd: Byte)
    requires |s| >= 2 && s[0] == 0xff && s[1] == 0xff && Body(s[2..], cmd).0.Ok?
    ensures var (r, rest) := Body(s[2..], cmd); s == [] + ValidFrame(cmd, r.value) + rest
  {
    var (r, rest) := Body(s[2..], cmd);
    assert rest == s[8..];
    assert s[..8] == ValidFrame(cmd, r.value);
    assert s == s[..8] + s[8..];
  }

  /** The reader returns a payload exactly when noise and then a valid frame arrived; it leaves the rest. */
  lemma {:induction false} AcceptedIff(s: seq<Byte>, cmd: Byte, p: Payload, rest: seq<Byte>)
    ensures Response(s, cmd) == (Ok(p), rest)
       <==> exists noise :: Noise(noise) && s == noise + ValidFrame(cmd, p) + rest
  {
    if Response(s, cmd) == (Ok(p), rest) {
      var noise := AcceptedMeansValid(s, cmd);
    }
    if noise :| Noise(noise) && s == noise + ValidFrame(cmd, p) + rest {
      ResynchronisedRead(noise, cmd, p, rest);
    }
  }

  /** A valid frame with one byte after the header changed is always rejected, and read to its end. */
  lemma {:induction false} CorruptFrameIsRejected(noise: seq<Byte>, cmd: Byte, p: Payload, i: nat, b: Byte,
          rest: seq<Byte>)
    requires Noise(noise) && 2 <= i < 8 && b != ValidFrame(cmd, p)[i]
    ensures var s := noise + ValidFrame(cmd, p)[i := b] + rest;
            Response(s, cmd) == (Err(BadChecksum), rest)
  {
    var f: Frame := ValidFrame(cmd, p)[i := b];
    assert noise + f + rest == noise + (f + rest);
    NoiseIsSkipped(noise, f + rest, cmd);
    FrameIsRead(f, rest, cmd);
    assert (f[2..] + rest)[6..] == rest;
    OneByteChangesChecksum(ValidFrame(cmd, p), i, b);
  }

  lemma {:induction false} OneByteChangesChecksum(f: Frame, i: nat, b: Byte)
    requires 2 <= i < 8 && b != f[i] && f[7] == Checksum(f[2], f[3], f[4], f[5], f[6])
    ensures var g := f[i := b]; g[7] != Checksum(g[2], g[3], g[4], g[5], g[6])
  {
    if i < 7 {
      var total := f[2] as int + f[3] as int + f[4] as int + f[5] as int + f[6] as int;
      var changed := total - f[i] as int + b as int;
      RemaindersDiffer(total, changed);
    }
  }

  lemma {:induction false} RemaindersDiffer(a: nat, b: nat)
    requires a != b && -256 < a - b < 256
    ensures a % 256 != b % 256
  {
  }

  // ----- What a read and a write make of any stream, whatever the functions above say -----

  /** The bytes of a frame from module 0 with three payload bytes. */
  function AnswerFrame(cmd: Byte, x: Byte, y: Byte, z: Byte): Frame {
    [0xff, 0xff, cmd, 0, x, y, z, (cmd as int + x as int + y as int + z as int) % 256]
  }

  /** The stream is noise, then a frame for the command with first payload bytes x and y, then `rest`. */
  ghost predicate Answered(s: seq<Byte>, cmd: Byte, x: Byte, y: Byte, rest: seq<Byte>) {
    exists noise, z: Byte :: Noise(noise) && s == noise + AnswerFrame(cmd, x, y, z) + rest
  }

  lemma {:induction false} AnsweredIff(s: seq<Byte>, cmd: Byte, x: Byte, y: Byte, rest: seq<Byte>)
    ensures Answered(s, cmd, x, y, rest)
       <==> Response(s, cmd).0.Ok? && Response(s, cmd).0.value.x == x && Response(s, cmd).0.value.y == y
            && Response(s, cmd).1 == rest
  {
    if Response(s, cmd).0.Ok? {
      var p := Response(s, cmd).0.value;
      var noise := AcceptedMeansValid(s, cmd);
      assert ValidFrame(cmd, p) == AnswerFrame(cmd, p.x, p.y, p.z);
    }
    if noise, z :| Noise(noise) && s == noise + AnswerFrame(cmd, x, y, z) + rest {
      assert ValidFrame(cmd, Payload(x, y, z)) == AnswerFrame(cmd, x, y, z);
      ResynchronisedRead(noise, cmd, Payload(x, y, z), rest);
    }
  }

  /** What is wrong with a complete frame, if anything. */
  predicate Rejects(f: Frame, cmd: Byte, e: Error) {
    if f[7] != (f[2] as int + f[3] as int + f[4] as int + f[5] as int + f[6] as int) % 256 then e == BadChecksum
    else if f[2] != cmd then e == BadCommand
    else f[3] != 0 && e == BadModule
  }

  /** The stream is noise, then a frame that is rejected and `rest`, or a frame cut short. */
  ghost predicate Refused(s: seq<Byte>, cmd: Byte, e: Error, rest: seq<Byte>) {
    exists noise, t :: Noise(noise) && s == noise + t && Headed(t)
      && (if |t| < 8 then e == Timeout && rest == [] else Rejects(t[..8], cmd, e) && rest == t[8..])
  }

  /** As far as it goes, `t` begins with the header. */
  predicate Headed(t: seq<Byte>) {
    (|t| > 0 ==> t[0] == 0xff) && (|t| > 1 ==> t[1] == 0xff)
  }

  /** Where the noise of any stream ends. */
  lemma {:induction false} NoiseEnds(s: seq<Byte>) returns (noise: seq<Byte>, t: seq<Byte>)
    ensures Noise(noise) && s == noise + t && Headed(t)
    decreases |s|
  {
    if Headed(s) {
      noise, t := [], s;
    } else {
      var k := if s[0] != 0xff then 1 else 2;
      noise, t := NoiseEnds(s[k..]);
      assert (s[..k] + noise)[k..] == noise;
      assert s == s[..k] + s[k..] == (s[..k] + noise) + t;
      noise := s[..k] + noise;
    }
  }

  lemma {:induction false} HeadedResponse(t: seq<Byte>, cmd: Byte)
    requires Headed(t)
    ensures |t| < 8 ==> Response(t, cmd) == (Err(Timeout), [])
    ensures |t| >= 8 ==> Response(t, cmd).1 == t[8..] && t[2..][6..] == t[8..]
    ensures |t| >= 8 ==> forall e :: Response(t, cmd).0 == Err(e) <==> Rejects(t[..8], cmd, e)
  {
  }

  lemma {:induction false} RefusedIff(s: seq<Byte>, cmd: Byte, e: Error, rest: seq<Byte>)
    ensures Refused(s, cmd, e, rest) <==> Response(s, cmd) == (Err(e), rest)
  {
    var noise, t := NoiseEnds(s);
    HeadedResponse(t, cmd);
    NoiseIsSkipped(noise, t, cmd);
    forall n, u | Noise(n) && s == n + u && Headed(u)
      ensures Response(s, cmd) == Response(u, cmd)
      ensures |u| < 8 ==> Response(u, cmd) == (Err(Timeout), [])
      ensures |u| >= 8 ==> Response(u, cmd).1 == u[8..] && (Response(u, cmd).0 == Err(e) <==> Rejects(u[..8], cmd, e))
    {
      NoiseIsSkipped(n, u, cmd);
      HeadedResponse(u, cmd);
    }
  }

  /** On a closed or broken port nothing happens. Otherwise one frame goes out, and the answer is read. */
  predicate Sends(p: Port, frame: Frame, failure: Option<Error>, q: Port) {
    if !p.open then failure == Some(PortNotOpen) && q == p
    else if !p.healthy then failure == Some(PortFailed) && q == p
    else q == Port(true, true, q.input, p.sent + [frame])
  }

  function ErrorOf<T>(r: Result<T>): Option<Error> {
    if r.Err? then Some(r.error) else None
  }

  /**
   A read returns v exactly if what arrives is noise and a valid frame of command 5
   with v and the address asked for; a valid frame for another address is a wrong
   register; any other error is that of a rejected or cut frame.
   */
  ghost predicate ReadDoes(device: Device, p: Port, mod: Byte, address: Byte, r: Result<Byte>, q: Port) {
    && Sends(p, [0xff, 0xff, 0x05, mod, 0, address, 0, (0x05 + mod as int + address as int) % 256], ErrorOf(r), q)
    && (p.open && p.healthy ==>
          var s := p.input + device(q.sent);
          && (forall v: Byte, rest :: Answered(s, 0x05, v, address, rest) <==> r == Ok(v) && q.input == rest)
          && (forall v: Byte, y: Byte, rest | y != address && Answered(s, 0x05, v, y, rest) ::
                r == Err(WrongRegister) && q.input == rest)
          && (forall e, rest | Refused(s, 0x05, e, rest) :: r == Err(e) && q.input == rest))
  }

  /** A write succeeds exactly if it is echoed, with the address and then the value compared. */
  ghost predicate WriteDoes(device: Device, p: Port, cmd: Byte, mod: Byte, address: Byte, value: Byte,
                            r: Result<()>, q: Port)
  {
    && Sends(p, [0xff, 0xff, cmd, mod, value, address, 0,
                 (cmd as int + mod as int + value as int + address as int) % 256], ErrorOf(r), q)
    && (p.open && p.healthy ==>
          var s := p.input + device(q.sent);
          && (forall rest :: Answered(s, cmd, value, address, rest) <==> r == Ok(()) && q.input == rest)
          && (forall x: Byte, y: Byte, rest | y != address && Answered(s, cmd, x, y, rest) ::
                r == Err(WrongRegister) && q.input == rest)
          && (forall x: Byte, rest | x != value && Answered(s, cmd, x, address, rest) ::
                r == Err(WrongValue) && q.input == rest)
          && (forall e, rest | Refused(s, cmd, e, rest) :: r == Err(e) && q.input == rest))
  }

  /** The read of a register, on any port and for any device. */
  lemma {:induction false} ReadOutcomeDoes(device: Device, p: Port, mod: Byte, address: Byte)
    ensures var (r, q) := ReadOutcome(device, p, mod, address); ReadDoes(device, p, mod, address, r, q)
  {
    var (r, q) := ReadOutcome(device, p, mod, address);
    if p.open && p.healthy {
      var s := p.input + device(q.sent);
      forall v: Byte, y: Byte, rest
        ensures Answered(s, 0x05, v, y, rest)
           <==> Response(s, 0x05).0.Ok? && Response(s, 0x05).0.value.x == v && Response(s, 0x05).0.value.y == y
                && Response(s, 0x05).1 == rest
      {
        AnsweredIff(s, 0x05, v, y, rest);
      }
      forall e, rest ensures Refused(s, 0x05, e, rest) <==> Response(s, 0x05) == (Err(e), rest) {
        RefusedIff(s, 0x05, e, rest);
      }
    }
  }

  /** The write of a register, on any port and for any device. */
  lemma {:induction false} WriteOutcomeDoes(device: Device, p: Port, cmd: Byte, mod: Byte, address: Byte, value: Byte)
    ensures var (r, q) := WriteOutcome(device, p, cmd, mod, address, value);
            WriteDoes(device, p, cmd, mod, address, value, r, q)
  {
    var (r, q) := WriteOutcome(device, p, cmd, mod, address, value);
    if p.open && p.healthy {
      var s := p.input + device(q.sent);
      forall x: Byte, y: Byte, rest
        ensures Answered(s, cmd, x, y, rest)
           <==> Response(s, cmd).0.Ok? && Response(s, cmd).0.value.x == x && Response(s, cmd).0.value.y == y
                && Response(s, cmd).1 == rest
      {
        AnsweredIff(s, cmd, x, y, rest);
      }
      forall e, rest ensures Refused(s, cmd, e, rest) <==> Response(s, cmd) == (Err(e), rest) {
        RefusedIff(s, cmd, e, rest);
      }
    }
  }

  /** A write that succeeds was echoed: the last frame read carries the value and address that were sent. */
  lemma {:induction false} WriteWasEchoed(device: Device, p: Port, cmd: Byte, mod: Byte, address: Byte, value: Byte)
    requires WriteOutcome(device, p, cmd, mod, address, value).0.Ok?
    ensures
      var q := WriteOutcome(device, p, cmd, mod, address, value).1;
      && q.sent == p.sent + [CheckedFrame(cmd, mod, value, address, 0)]
      && exists noise, z :: Noise(noise) && p.input + device(q.sent)
           == noise + ValidFrame(cmd, Payload(value, address, z)) + q.input
  {
    var q := WriteOutcome(device, p, cmd, mod, address, value).1;
    var s := p.input + device(q.sent);
    var noise := AcceptedMeansValid(s, cmd);
    var payload := Response(s, cmd).0.value;
    assert s == noise + ValidFrame(cmd, Payload(value, address, payload.z)) + q.input;
  }
}
