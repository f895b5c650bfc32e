/**
 The multiplexed ADC of wb-homa-adc/sysfs_adc.cpp: the cached multiplexer, the
 averaging ring buffers of the channels that share it, and the current source of
 the resistance channels.

 A conversion is recorded as a sample: its value together with the GPIO lines and
 the LRADC control register at that moment. The n-th conversion yields reading(n),
 for an arbitrary function `reading`.
 */
module AdcMux {
  import opened AdcWindow
  import opened Common

  /** The GPIO pins that select the multiplexer input, lowest bit first. */
  datatype Pins = Pins(a: int, b: int, c: int)

  datatype Sample = Sample(value: int, lines: map<int, bool>, ctrl2: bv32)

  /**
   CurrentMuxInput, the lines, the HW_LRADC_CTRL2 register, how many conversions there
   have been, and a record of the inputs that the lines have been driven to.
   */
  datatype Board = Board(current: int, lines: map<int, bool>, ctrl2: bv32, conversions: nat, driven: seq<int>)

  /** Bit k of an int in two's complement. */
  function BitOf(n: int, k: nat): bool
    requires k < 3
  {
    (if k == 0 then n else if k == 1 then n / 2 else n / 4) % 2 == 1
  }

  function Driven(pins: Pins, lines: map<int, bool>, n: int): map<int, bool> {
    lines[pins.a := BitOf(n, 0)][pins.b := BitOf(n, 1)][pins.c := BitOf(n, 2)]
  }

  /** SetMuxABC: nothing is driven when the input is selected already. */
  function Switched(pins: Pins, m: Board, n: int): Board {
    if m.current == n then m else m.(lines := Driven(pins, m.lines, n), current := n, driven := m.driven + [n])
  }

  function Taken(reading: nat -> int, m: Board): Sample {
    Sample(reading(m.conversions), m.lines, m.ctrl2)
  }

  /** `k` times GetRawValue. */
  function Converted(reading: nat -> int, pins: Pins, m: Board, n: int, k: nat): (Board, seq<Sample>)
    decreases k
  {
    if k == 0 then (m, [])
    else
      var s := Switched(pins, m, n);
      var (last, rest) := Converted(reading, pins, s.(conversions := s.conversions + 1), n, k - 1);
      (last, [Taken(reading, s)] + rest)
  }

  function Values(samples: seq<Sample>): seq<int> {
    seq(|samples|, i requires 0 <= i < |samples| => samples[i].value)
  }

  function LastOf<T>(s: seq<T>, n: nat): seq<T>
    requires n <= |s|
  {
    s[|s| - n..]
  }

  // ----- The current source -----

  const IENABLE: bv32 := 0x200
  const ISRC: bv32 := 0xF0

  /** A write to the SET and to the CLR address of a register. */
  function WithSet(register: bv32, mask: bv32): bv32 {
    register | mask
  }

  function WithCleared(register: bv32, mask: bv32): bv32 {
    register & !mask
  }

  /** Ctrl2_val. The configuration admits currents from 0 to 300 uA in steps of 20. */
  function SourceBits(current: int): bv32
    requires 0 <= current <= 300
  {
    ((current / 20) as bv32) << 4
  }

  function SourceOn(ctrl2: bv32, current: int): bv32
    requires 0 <= current <= 300
  {
    WithSet(WithCleared(WithSet(ctrl2, IENABLE), ISRC), SourceBits(current))
  }

  function SourceOff(ctrl2: bv32): bv32 {
    WithCleared(ctrl2, IENABLE)
  }

  predicate Enabled(ctrl2: bv32) {
    ctrl2 & 0x200 == 0x200
  }

  /** The four bits of TEMP_ISRC1. */
  function SourceField(ctrl2: bv32): bv32 {
    (ctrl2 & 0xF0) >> 4
  }

  /** All bits but those two. */
  function OtherBits(ctrl2: bv32): bv32 {
    ctrl2 & 0xFFFFFD0F
  }

  lemma {:induction false} FieldBits(ctrl2: bv32, f: bv32)
    requires f <= 15
    ensures var r := ((ctrl2 | 0x200) & !0xF0) | (f << 4);
            Enabled(r) && SourceField(r) == f && OtherBits(r) == OtherBits(ctrl2)
  {
  }

  lemma {:induction false} WritesCombine(ctrl2: bv32, f: bv32, bits: bv32)
    requires f <= 15 && bits == f << 4
    ensures WithSet(WithCleared(WithSet(ctrl2, 0x200), 0xF0), bits) == ((ctrl2 | 0x200) & !0xF0) | (f << 4)
  {
  }

  /** Setting up the source enables it and puts current / 20 in its field; no other bit changes. */
  lemma {:induction false} SourceOnIsExact(ctrl2: bv32, current: int)
    requires 0 <= current <= 300
    ensures var r := SourceOn(ctrl2, current);
            Enabled(r) && SourceField(r) == (current / 20) as bv32 && OtherBits(r) == OtherBits(ctrl2)
  {
    var f := (current / 20) as bv32;
    FieldBits(ctrl2, f);
    WritesCombine(ctrl2, f, SourceBits(current));
  }

  lemma {:induction false} SourceOffIsOff(ctrl2: bv32)
    ensures !Enabled(SourceOff(ctrl2)) && SourceField(SourceOff(ctrl2)) == SourceField(ctrl2)
    ensures OtherBits(SourceOff(ctrl2)) == OtherBits(ctrl2)
  {
  }

  // ----- What the lines say -----

  /** The lines, read as a binary number, are the last three bits of n. */
  predicate Encodes(pins: Pins, lines: map<int, bool>, n: int) {
    && pins.a in lines && pins.b in lines && pins.c in lines
    && (if lines[pins.a] then 1 else 0) + (if lines[pins.b] then 2 else 0) + (if lines[pins.c] then 4 else 0) == n % 8
  }

  lemma {:induction false} Halved(a: int, r: int)
    ensures (2 * a + r) / 2 == a + r / 2 && (2 * a + r) % 2 == r % 2
  {
  }

  lemma {:induction false} Quartered(a: int, r: int)
    ensures (4 * a + r) / 4 == a + r / 4
  {
  }

  lemma {:induction false} BitsOfNumber(n: int)
    ensures (if BitOf(n, 0) then 1 else 0) + (if BitOf(n, 1) then 2 else 0) + (if BitOf(n, 2) then 4 else 0) == n % 8
  {
    var q, r := n / 8, n % 8;
    assert n == 8 * q + r;
    Halved(4 * q, r);
    Quartered(2 * q, r);
    Halved(2 * q, r / 2);
    Halved(q, r / 4);
    assert BitOf(n, 0) == (r % 2 == 1) && BitOf(n, 1) == (r / 2 % 2 == 1) && BitOf(n, 2) == (r / 4 % 2 == 1);
    BitsBelow8(r);
  }

  lemma {:induction false} BitsBelow8(r: int)
    requires 0 <= r < 8
    ensures r == r % 2 + 2 * (r / 2 % 2) + 4 * (r / 4 % 2)
  {
  }

  lemma {:induction false} DrivenEncodes(pins: Pins, lines: map<int, bool>, n: int)
    requires Distinct(pins)
    ensures Encodes(pins, Driven(pins, lines, n), n)
  {
    BitsOfNumber(n);
  }

  predicate Distinct(pins: Pins) {
    pins.a != pins.b && pins.a != pins.c && pins.b != pins.c
  }

  /** Driving the lines selects each of the eight inputs exactly when the pins are distinct. */
  lemma {:induction false} DrivenEncodesIff(pins: Pins, lines: map<int, bool>)
    ensures Distinct(pins) <==> forall n | 0 <= n < 8 :: Encodes(pins, Driven(pins, lines, n), n)
  {
    if Distinct(pins) {
      forall n | 0 <= n < 8 ensures Encodes(pins, Driven(pins, lines, n), n) { DrivenEncodes(pins, lines, n); }
    } else {
      assert !Encodes(pins, Driven(pins, lines, 1), 1) || !Encodes(pins, Driven(pins, lines, 2), 2);
    }
  }

  /** The cached input is the one that the lines select. */
  predicate Cached(pins: Pins, m: Board) {
    m.current != -1 ==> Encodes(pins, m.lines, m.current)
  }

  lemma {:induction false} SwitchedSelects(pins: Pins, m: Board, n: int)
    requires Distinct(pins) && Cached(pins, m)
    ensures Cached(pins, Switched(pins, m, n))
    ensures n != -1 ==> Encodes(pins, Switched(pins, m, n).lines, n) && Switched(pins, m, n).current == n
  {
    DrivenEncodes(pins, m.lines, n);
  }

  /** The cached input is the one driven last, and no input was driven twice in a row. */
  predicate Recorded(m: Board) {
    && m.current == (if m.driven == [] then -1 else Last(m.driven))
    && (forall i | 0 < i < |m.driven| :: m.driven[i - 1] != m.driven[i])
  }

  lemma {:induction false} SwitchedIsRecorded(pins: Pins, m: Board, n: int)
    requires Recorded(m)
    ensures var s := Switched(pins, m, n);
            && Recorded(s) && s.current == n
            && (n != -1 ==> s.driven != [])
            && s.driven == (if m.current == n then m.driven else m.driven + [n])
  {
  }

  // ----- Channels that share the multiplexer -----

  datatype Kind = Voltage | Resistance(current: int, discharge: int)

  /** One entry of the configuration; `window` is ReadingsNumber times AveragingWindow. */
  datatype Channel = Channel(index: int, readings: nat, window: nat, kind: Kind)

  predicate WellConfigured(c: Channel) {
    && 0 <= c.index < 8 && 0 < c.readings <= c.window
    && (c.kind.Resistance? ==> 0 <= c.kind.current <= 300 && c.kind.current % 20 == 0)
  }

  /** The board when GetAverageValue is entered. */
  function Prepared(pins: Pins, m: Board, c: Channel): Board
    requires WellConfigured(c)
  {
    if c.kind.Voltage? then m
    else
      var d := if c.kind.discharge != -1 then Switched(pins, m, c.kind.discharge) else m;
      On(Switched(pins, d, c.index), c.kind.current)
  }

  function On(m: Board, current: int): Board
    requires 0 <= current <= 300
  {
    m.(ctrl2 := SourceOn(m.ctrl2, current))
  }

  function Off(m: Board): Board {
    m.(ctrl2 := SourceOff(m.ctrl2))
  }

  /** GetValue for a channel that has taken `taken` samples so far: the board afterwards and the new samples. */
  function Measured(reading: nat -> int, pins: Pins, m: Board, c: Channel, taken: nat): (Board, seq<Sample>)
    requires WellConfigured(c)
  {
    var (b, samples) := Converted(reading, pins, Prepared(pins, m, c), c.index, Count(c, taken));
    (if c.kind.Voltage? then b else Off(b), samples)
  }

  /** How many readings a measurement takes: enough to fill the buffer at first. */
  function Count(c: Channel, taken: nat): nat {
    if taken == 0 then c.window else c.readings
  }

  /** The sample was taken on this channel's input and, for a resistance, with this channel's current. */
  predicate Proper(pins: Pins, c: Channel, s: Sample)
    requires WellConfigured(c)
  {
    && Encodes(pins, s.lines, c.index)
    && (c.kind.Resistance? ==> Enabled(s.ctrl2) && SourceField(s.ctrl2) == (c.kind.current / 20) as bv32)
  }

  lemma {:induction false} ConvertedProperly(reading: nat -> int, pins: Pins, m: Board, c: Channel, k: nat)
    requires Distinct(pins) && WellConfigured(c) && Cached(pins, m)
    requires c.kind.Resistance? ==> Enabled(m.ctrl2) && SourceField(m.ctrl2) == (c.kind.current / 20) as bv32
    ensures var (b, samples) := Converted(reading, pins, m, c.index, k);
            && Cached(pins, b) && b.ctrl2 == m.ctrl2 && |samples| == k && b.conversions == m.conversions + k
            && (forall i | 0 <= i < k :: Proper(pins, c, samples[i]) && samples[i].value == reading(m.conversions + i))
    decreases k
  {
    if k > 0 {
      var s := Switched(pins, m, c.index);
      SwitchedSelects(pins, m, c.index);
      ConvertedProperly(reading, pins, s.(conversions := s.conversions + 1), c, k - 1);
    }
  }

  lemma {:induction false} PreparedProperly(pins: Pins, m: Board, c: Channel)
    requires Distinct(pins) && WellConfigured(c) && Cached(pins, m)
    ensures var p := Prepared(pins, m, c);
            && Cached(pins, p) && p.conversions == m.conversions
            && (c.kind.Voltage? ==> p == m)
            && (c.kind.Resistance? ==> Enabled(p.ctrl2) && SourceField(p.ctrl2) == (c.kind.current / 20) as bv32)
  {
    if c.kind.Resistance? {
      var d := if c.kind.discharge != -1 then Switched(pins, m, c.kind.discharge) else m;
      SwitchedSelects(pins, m, c.kind.discharge);
      SwitchedSelects(pins, d, c.index);
      SourceOnIsExact(Switched(pins, d, c.index).ctrl2, c.kind.current);
    }
  }

  lemma {:induction false} OnKeepsOthers(b: Board, current: int)
    requires 0 <= current <= 300
    ensures OtherBits(On(b, current).ctrl2) == OtherBits(b.ctrl2)
  {
    SourceOnIsExact(b.ctrl2, current);
  }

  function Selecting(pins: Pins, m: Board, c: Channel): (b: Board)
    requires WellConfigured(c) && c.kind.Resistance?
    ensures b.ctrl2 == m.ctrl2
  {
    Switched(pins, if c.kind.discharge != -1 then Switched(pins, m, c.kind.discharge) else m, c.index)
  }

  lemma {:induction false} PreparedKeepsOthers(pins: Pins, m: Board, c: Channel)
    requires WellConfigured(c) && c.kind.Resistance?
    ensures OtherBits(Prepared(pins, m, c).ctrl2) == OtherBits(m.ctrl2)
  {
    OnKeepsOthers(Selecting(pins, m, c), c.kind.current);
    assert Prepared(pins, m, c) == On(Selecting(pins, m, c), c.kind.current);
  }

  /** Only the first of a row of conversions can drive the lines. */
  lemma {:induction false} ConvertedDrivesOnce(reading: nat -> int, pins: Pins, m: Board, n: int, k: nat)
    requires k > 0
    ensures var b := Converted(reading, pins, m, n, k).0;
            b.current == n && b.driven == Switched(pins, m, n).driven
    decreases k
  {
    var s := Switched(pins, m, n);
    if k > 1 {
      ConvertedDrivesOnce(reading, pins, s.(conversions := s.conversions + 1), n, k - 1);
    }
  }

  /** A measurement drives its discharge input, if it has one, and then its own, each unless it is selected already. */
  lemma {:induction false} DischargeComesFirst(reading: nat -> int, pins: Pins, m: Board, c: Channel, taken: nat)
    requires WellConfigured(c) && Recorded(m)
    ensures var b := Measured(reading, pins, m, c, taken).0;
            && Recorded(b) && b.current == c.index
            && (if c.kind.Resistance? && c.kind.discharge != -1 && c.kind.discharge != c.index then
                  b.driven == (if m.current == c.kind.discharge then m.driven else m.driven + [c.kind.discharge])
                              + [c.index]
                else b.driven == if m.current == c.index then m.driven else m.driven + [c.index])
  {
    var p := Prepared(pins, m, c);
    if c.kind.Resistance? {
      var d := if c.kind.discharge != -1 then Switched(pins, m, c.kind.discharge) else m;
      SwitchedIsRecorded(pins, m, c.kind.discharge);
      SwitchedIsRecorded(pins, d, c.index);
      assert Recorded(p);
    }
    SwitchedIsRecorded(pins, p, c.index);
    ConvertedDrivesOnce(reading, pins, p, c.index, Count(c, taken));
  }

  /**
   Every measurement takes proper samples, the next conversions in order, as many as fill the buffer
   at first. It leaves the source off, if it used it, and the rest of the register as it was.
   */
  lemma {:induction false} MeasuredProperly(reading: nat -> int, pins: Pins, m: Board, c: Channel, taken: nat)
    requires Distinct(pins) && WellConfigured(c) && Cached(pins, m)
    ensures var (b, samples) := Measured(reading, pins, m, c, taken);
            && Cached(pins, b) && |samples| == (if taken == 0 then c.window else c.readings)
            && b.conversions == m.conversions + |samples|
            && (forall i | 0 <= i < |samples| ::
                  Proper(pins, c, samples[i]) && samples[i].value == reading(m.conversions + i))
            && (if c.kind.Voltage? then b.ctrl2 == m.ctrl2
                else !Enabled(b.ctrl2) && OtherBits(b.ctrl2) == OtherBits(m.ctrl2))
  {
    PreparedProperly(pins, m, c);
    var p := Prepared(pins, m, c);
    var k := Count(c, taken);
    ConvertedProperly(reading, pins, p, c, k);
    if c.kind.Resistance? { PreparedKeepsOthers(pins, m, c); }
    SourceOffIsOff(Converted(reading, pins, p, c.index, k).0.ctrl2);
  }

  /** The board and everything each channel has sampled. */
  datatype System = System(board: Board, taken: seq<seq<Sample>>)

  predicate Schedulable(channels: seq<Channel>, order: seq<nat>) {
    && (forall i | 0 <= i < |channels| :: WellConfigured(channels[i]))
    && (forall k | 0 <= k < |order| :: order[k] < |channels|)
  }

  /** GetValue of the channels named by `order`, one after the other. */
  function Polled(reading: nat -> int, pins: Pins, channels: seq<Channel>, s: System, order: seq<nat>): System
    requires Schedulable(channels, order) && |s.taken| == |channels|
    decreases |order|
  {
    if order == [] then s
    else
      var i := order[0];
      var (b, samples) := Measured(reading, pins, s.board, channels[i], |s.taken[i]|);
      Polled(reading, pins, channels, System(b, s.taken[i := s.taken[i] + samples]), order[1..])
  }

  predicate AllProper(pins: Pins, channels: seq<Channel>, taken: seq<seq<Sample>>)
    requires |taken| == |channels| && forall i | 0 <= i < |channels| :: WellConfigured(channels[i])
  {
    forall i, k | 0 <= i < |channels| && 0 <= k < |taken[i]| :: Proper(pins, channels[i], taken[i][k])
  }

  /**
   In whatever order the channels that share the multiplexer are read: every
   sample of every channel was taken while the lines selected that channel's
   input, resistance samples also with the source enabled at that channel's
   current, and the source is off whenever no channel is being read.
   */
  lemma {:induction false} SamplesAreProper(reading: nat -> int, pins: Pins, channels: seq<Channel>, s: System,
          order: seq<nat>)
    requires Schedulable(channels, order) && |s.taken| == |channels| && Distinct(pins)
    requires Cached(pins, s.board) && AllProper(pins, channels, s.taken)
    ensures var t := Polled(reading, pins, channels, s, order);
            && Cached(pins, t.board) && |t.taken| == |channels| && AllProper(pins, channels, t.taken)
            && (!Enabled(s.board.ctrl2) ==> !Enabled(t.board.ctrl2))
    decreases |order|
  {
    if order != [] {
      var i := order[0];
      var (b, samples) := Measured(reading, pins, s.board, channels[i], |s.taken[i]|);
      MeasuredProperly(reading, pins, s.board, channels[i], |s.taken[i]|);
      SamplesAreProper(reading, pins, channels, System(b, s.taken[i := s.taken[i] + samples]), order[1..]);
    }
  }

  /** In whatever order the channels are read, the lines are never driven twice in a row to the same input. */
  lemma {:induction false} DrivesNeverRepeat(reading: nat -> int, pins: Pins, channels: seq<Channel>, s: System,
          order: seq<nat>)
    requires Schedulable(channels, order) && |s.taken| == |channels| && Recorded(s.board)
    ensures Recorded(Polled(reading, pins, channels, s, order).board)
    decreases |order|
  {
    if order != [] {
      var i := order[0];
      var (b, samples) := Measured(reading, pins, s.board, channels[i], |s.taken[i]|);
      DischargeComesFirst(reading, pins, s.board, channels[i], |s.taken[i]|);
      DrivesNeverRepeat(reading, pins, channels, System(b, s.taken[i := s.taken[i] + samples]), order[1..]);
    }
  }

  // ----- The classes -----

  class TSysfsAdcMux {
    const pins: Pins
    const reading: nat -> int
    var currentMuxInput: int
    var lines: map<int, bool>
    var ctrl2: bv32
    var conversions: nat
    var driven: seq<int>

    /** The lines and the register are as the system left them. */
    constructor (pins: Pins, reading: nat -> int, lines: map<int, bool>, ctrl2: bv32)
      ensures this.pins == pins && this.reading == reading && View() == Board(-1, lines, ctrl2, 0, [])
    {
      this.pins, this.reading := pins, reading;
      currentMuxInput, this.lines, this.ctrl2, conversions, driven := -1, lines, ctrl2, 0, [];
    }

    function View(): Board
      reads this
    {
      Board(currentMuxInput, lines, ctrl2, conversions, driven)
    }

    method SetGPIOValue(gpio: int, value: bool)
      modifies this`lines
      ensures lines == old(lines)[gpio := value]
    {
      lines := lines[gpio := value];
    }

    method SetMuxABC(n: int)
      modifies this
      ensures View() == Switched(pins, old(View()), n)
    {
      if currentMuxInput == n { return; }
      SetGPIOValue(pins.a, BitOf(n, 0));
      SetGPIOValue(pins.b, BitOf(n, 1));
      SetGPIOValue(pins.c, BitOf(n, 2));
      driven := driven + [n];
      currentMuxInput := n;
    }

    /** `sample` is what the conversion looked like. */
    method GetRawValue(index: int) returns (v: int, ghost sample: Sample)
      modifies this
      ensures var s := Switched(pins, old(View()), index);
              View() == s.(conversions := s.conversions + 1) && sample == Taken(reading, s) && v == sample.value
    {
      SetMuxABC(index);
      sample := Taken(reading, View());
      v := reading(conversions);
      conversions := conversions + 1;
    }

    method SetCtrl2(mask: bv32)
      modifies this`ctrl2
      ensures View() == old(View()).(ctrl2 := WithSet(old(ctrl2), mask))
    {
      ctrl2 := WithSet(ctrl2, mask);
    }

    method ClearCtrl2(mask: bv32)
      modifies this`ctrl2
      ensures View() == old(View()).(ctrl2 := WithCleared(old(ctrl2), mask))
    {
      ctrl2 := WithCleared(ctrl2, mask);
    }
  }

  class TSysfsAdcChannel {
    const owner: TSysfsAdcMux
    const config: Channel
    const buffer: array<int>
    var sum: int
    var ready: bool
    var pos: nat
    ghost var taken: seq<Sample>

    ghost predicate Valid()
      reads this, buffer
    {
      && WellConfigured(config) && buffer.Length == config.window
      && pos < buffer.Length && sum == Sum(buffer[..])
      && (ready <==> taken != [])
      && (if ready then |taken| >= buffer.Length && Rotated(buffer[..], pos) == Values(LastOf(taken, buffer.Length))
          else pos == 0 && sum == 0)
    }

    constructor (owner: TSysfsAdcMux, config: Channel)
      requires WellConfigured(config)
      ensures Valid() && this.owner == owner && this.config == config && taken == [] && fresh(buffer)
    {
      this.owner, this.config := owner, config;
      buffer := new int[config.window](_ => 0);
      sum, ready, pos, taken := 0, false, 0, [];
      new;
      ZerosSum(buffer[..]);
    }

    /** The first call: one reading for every place in the buffer. */
    method Fill()
      requires Valid() && !ready
      modifies this`sum, this`ready, this`taken, buffer, owner
      ensures Valid() && ready && |taken| == config.window
      ensures (owner.View(), taken) == Converted(owner.reading, owner.pins, old(owner.View()),
                                              config.index, config.window)
    {
      ghost var got := ReadAll();
      ready := true;
      taken := got;
      FilledIsRotated(buffer[..], got);
    }

    method ReadAll() returns (ghost got: seq<Sample>)
      requires Valid() && !ready
      modifies this`sum, buffer, owner
      ensures buffer[..] == Values(got) && sum == Sum(buffer[..])
      ensures (owner.View(), got) == Converted(owner.reading, owner.pins, old(owner.View()),
                                              config.index, config.window)
    {
      ghost var reading, pins, n, w := owner.reading, owner.pins, config.index, buffer.Length;
      ghost var goal := Converted(reading, pins, owner.View(), n, w);
      got := [];
      PrependedNone(goal);
      for i := 0 to buffer.Length
        invariant |got| == i && buffer[..i] == Values(got) && sum == Sum(buffer[..i])
        invariant goal == Prepended(got, Converted(reading, pins, owner.View(), n, w - i))
      {
        ConvertedStep(reading, pins, owner.View(), n, w - i, got);
        var v, sample := owner.GetRawValue(config.index);
        Append(i, v);
        got := got + [sample];
      }
      assert buffer[..buffer.Length] == buffer[..];
      assert got + [] == got;
    }

    method Append(i: nat, v: int)
      requires i < buffer.Length && sum == Sum(buffer[..i])
      modifies this`sum, buffer
      ensures buffer[..i + 1] == old(buffer[..i]) + [v] && sum == Sum(buffer[..i + 1])
    {
      SumAppend(buffer[..i], [v]);
      SumSingle(v);
      sum := sum + v;
      buffer[i] := v;
      assert buffer[..i + 1] == old(buffer[..i]) + [v];
    }

    /** Later calls: each reading takes the place of the oldest. */
    method Advance()
      requires Valid() && ready
      modifies this`sum, this`pos, this`taken, buffer, owner
      ensures Valid() && ready && |taken| == |old(taken)| + config.readings
      ensures var (b, samples) := Converted(owner.reading, owner.pins, old(owner.View()),
                                            config.index, config.readings);
              owner.View() == b && taken == old(taken) + samples
    {
      ghost var reading, pins, n, k := owner.reading, owner.pins, config.index, config.readings;
      ghost var start, goal := taken, Converted(reading, pins, owner.View(), n, k);
      ghost var got: seq<Sample> := [];
      PrependedNone(goal);
      for i := 0 to config.readings
        invariant Valid() && ready && taken == start + got && |got| == i
        invariant goal == Prepended(got, Converted(reading, pins, owner.View(), n, k - i))
      {
        ConvertedStep(reading, pins, owner.View(), n, k - i, got);
        var v, sample := owner.GetRawValue(config.index);
        Replace(v, sample);
        assert start + (got + [sample]) == (start + got) + [sample];
        got := got + [sample];
      }
    }

    method Replace(v: int, ghost sample: Sample)
      requires Valid() && ready && v == sample.value
      modifies this`sum, this`pos, this`taken, buffer
      ensures Valid() && ready && taken == old(taken) + [sample]
    {
      ghost var w := buffer.Length;
      SumOverwrite(buffer[..], pos, v);
      OverwriteOldest(buffer[..], pos, v);
      LastOfSnoc(taken, sample, w);
      ghost var next := buffer[..][pos := v];
      sum := sum - buffer[pos] + v;
      buffer[pos] := v;
      assert buffer[..] == next;
      pos := (pos + 1) % buffer.Length;
      taken := taken + [sample];
    }

    /** The buffer holds the last `window` readings in order; their mean is returned, rounded half away from zero. */
    method GetAverageValue() returns (r: int)
      requires Valid()
      modifies this`sum, this`ready, this`pos, this`taken, buffer, owner
      ensures Valid()
      ensures var (b, samples) := Converted(owner.reading, owner.pins, old(owner.View()), config.index,
                                            Count(config, |old(taken)|));
              owner.View() == b && taken == old(taken) + samples
      ensures |taken| == |old(taken)| + (if old(taken) == [] then config.window else config.readings)
      ensures |taken| >= config.window
      ensures Rotated(buffer[..], pos) == Values(LastOf(taken, config.window))
      ensures r == Rounded(Sum(Values(LastOf(taken, config.window))), config.window)
    {
      if !ready {
        Fill();
      } else {
        Advance();
      }
      SumRotated(buffer[..], pos);
      r := Rounded(sum, buffer.Length);
    }

    /** GetValue up to the formula that turns the mean `r` into volts or ohms. */
    method GetValue() returns (r: int)
      requires Valid()
      modifies this`sum, this`ready, this`pos, this`taken, buffer, owner
      ensures Valid()
      ensures var (b, samples) := Measured(owner.reading, owner.pins, old(owner.View()), config, |old(taken)|);
              owner.View() == b && taken == old(taken) + samples
      ensures |taken| == |old(taken)| + (if old(taken) == [] then config.window else config.readings)
      ensures |taken| >= config.window
      ensures r == Rounded(Sum(Values(LastOf(taken, config.window))), config.window)
    {
      if config.kind.Voltage? {
        r := GetAverageValue();
      } else {
        Prepare();
        r := GetAverageValue();
        SwitchOffCurrentSource();
      }
    }

    method Prepare()
      requires WellConfigured(config) && config.kind.Resistance?
      modifies owner
      ensures owner.View() == Prepared(owner.pins, old(owner.View()), config)
    {
      if config.kind.discharge != -1 { owner.SetMuxABC(config.kind.discharge); }
      owner.SetMuxABC(config.index);
      SetUpCurrentSource();
    }

    method SwitchOffCurrentSource()
      modifies owner
      ensures owner.View() == Off(old(owner.View()))
    {
      owner.ClearCtrl2(IENABLE);
    }

    method SetUpCurrentSource()
      requires WellConfigured(config) && config.kind.Resistance?
      modifies owner
      ensures owner.View() == On(old(owner.View()), config.kind.current)
    {
      owner.SetCtrl2(IENABLE);
      owner.ClearCtrl2(ISRC);
      owner.SetCtrl2(SourceBits(config.kind.current));
    }
  }

  lemma {:induction false} ConvertedStep(reading: nat -> int, pins: Pins, m: Board, n: int, k: nat, got: seq<Sample>)
    requires k > 0
    ensures var s := Switched(pins, m, n);
            Prepended(got, Converted(reading, pins, m, n, k))
            == Prepended(got + [Taken(reading, s)],
                     Converted(reading, pins, s.(conversions := s.conversions + 1), n, k - 1))
  {
    var s := Switched(pins, m, n);
    var rest := Converted(reading, pins, s.(conversions := s.conversions + 1), n, k - 1).1;
    assert got + ([Taken(reading, s)] + rest) == got + [Taken(reading, s)] + rest;
  }

  lemma {:induction false} FilledIsRotated(values: seq<int>, got: seq<Sample>)
    requires values == Values(got)
    ensures |got| == |values| && Rotated(values, 0) == Values(LastOf(got, |values|))
  {
    assert LastOf(got, |values|) == got;
  }

  lemma {:induction false} LastOfSnoc(s: seq<Sample>, x: Sample, n: nat)
    requires 0 < n <= |s|
    ensures Values(LastOf(s + [x], n)) == Values(LastOf(s, n))[1..] + [x.value]
  {
    assert LastOf(s + [x], n) == LastOf(s, n)[1..] + [x];
  }

  lemma {:induction false} ZerosSum(s: seq<int>)
    requires forall i | 0 <= i < |s| :: s[i] == 0
    ensures Sum(s) == 0
    decreases |s|
  {
    if s != [] { ZerosSum(s[1..]); }
  }
}
