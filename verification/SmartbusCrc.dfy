/**
 The SmartBus frame and its checksum, wb-homa-smartbus/smartbus.py: a table-driven
 CRC with the generator x^16 + x^12 + x^5 + 1 of ITU-T V.41, section 2, and
 initial value 0. Bytes are 8-bit vectors; the checksum never leaves 16 bits.
 */
module SmartbusCrc {
  import opened Common
  import opened Polynomials
  import opened SmartbusTable
  import opened Words

  /** crc16_floating. */
  function CrcStep(b: bv8, seed: bv16): bv16 {
    (seed << 8) ^ Crc16Tab(((seed >> 8) as bv8) ^ b)
  }

  function Crc(buf: seq<bv8>): bv16 {
    if buf == [] then 0 else CrcStep(Last(buf), Crc(buf[..|buf| - 1]))
  }

  /** The order in which crc16_buf returns the two bytes. */
  function SwapBytes(crc: bv16): bv16 {
    (crc >> 8) + ((crc & 255) << 8)
  }

  method Crc16Buf(buf: seq<bv8>) returns (r: bv16)
    ensures r == SwapBytes(Crc(buf))
  {
    var crc: bv16 := 0;
    for i := 0 to |buf|
      invariant crc == Crc(buf[..i])
    {
      assert buf[..i + 1][..i] == buf[..i];
      crc := CrcStep(buf[i], crc);
    }
    assert buf[..|buf|] == buf;
    r := SwapBytes(crc);
  }

  // ----- The checksum is a polynomial remainder -----

  function BytePoly(b: bv8): Poly {
    PolyOf(b as bv16)
  }

  /** The message as a polynomial, first byte and highest bit first. */
  function Message(buf: seq<bv8>): Poly {
    if buf == [] then {} else Plus(Shift(Message(buf[..|buf| - 1]), 8), BytePoly(Last(buf)))
  }

  lemma {:induction false} HighAndLow(s: bv16, hi: bv16, lo: bv16)
    requires hi == s >> 8 && lo == s & 0xff
    ensures s == (hi << 8) ^ lo && s << 8 == lo << 8 && hi < 0x100 && lo < 0x100
  {
  }

  lemma {:induction false} PolyOfHalves(s: bv16)
    ensures PolyOf(s) == Plus(Shift(PolyOf(s >> 8), 8), PolyOf(s & 0xff))
    ensures PolyOf(s << 8) == Shift(PolyOf(s & 0xff), 8)
  {
    var hi, lo := s >> 8, s & 0xff;
    HighAndLow(s, hi, lo);
    PolyOfXor(s, hi << 8, lo);
    PolyOfHighByte(hi);
    PolyOfHighByte(lo);
  }

  lemma {:induction false} TableIndex(s: bv16, b: bv8, i: bv8)
    requires i == ((s >> 8) as bv8) ^ b
    ensures i as bv16 == (s >> 8) ^ (b as bv16) && i as bv16 < 0x100
  {
  }

  lemma {:induction false} TableEntryPoly(i: bv8)
    ensures Congruent(PolyOf(Crc16Tab(i)), Shift(BytePoly(i), 16))
  {
    var w := i as bv16;
    assert w < 0x100;
    TableIsDivision(i);
    Divide8IsTimesX8(w << 8, Crc16Tab(i));
    PolyOfHighByte(w);
    ShiftShift(PolyOf(w), 8, 8);
  }

  lemma {:induction false} IndexPoly(s: bv16, b: bv8, i: bv8)
    requires i == ((s >> 8) as bv8) ^ b
    ensures BytePoly(i) == Plus(PolyOf(s >> 8), BytePoly(b))
  {
    TableIndex(s, b, i);
    PolyOfXor(i as bv16, s >> 8, b as bv16);
  }

  lemma {:induction false} StepSplit(b: bv8, s: bv16, i: bv8)
    requires i == ((s >> 8) as bv8) ^ b
    ensures Congruent(PolyOf(CrcStep(b, s)), Plus(PolyOf(s << 8), Shift(BytePoly(i), 16)))
  {
    TableEntryPoly(i);
    StepSum(s << 8, Crc16Tab(i), CrcStep(b, s), BytePoly(i));
  }

  /** A table step appends one byte: multiply by x^8 and add the byte times x^16, modulo the generator. */
  lemma {:induction false} StepPoly(b: bv8, s: bv16)
    ensures Congruent(PolyOf(CrcStep(b, s)), Plus(Shift(PolyOf(s), 8), Shift(BytePoly(b), 16)))
  {
    var i := ((s >> 8) as bv8) ^ b;
    StepSplit(b, s, i);
    IndexPoly(s, b, i);
    PolyOfHalves(s);
    Regroup(PolyOf(s >> 8), PolyOf(s & 0xff), BytePoly(b));
  }

  lemma {:induction false} StepSum(shifted: bv16, entry: bv16, next: bv16, index: Poly)
    requires next == shifted ^ entry && Congruent(PolyOf(entry), Shift(index, 16))
    ensures Congruent(PolyOf(next), Plus(PolyOf(shifted), Shift(index, 16)))
  {
    PolyOfXor(next, shifted, entry);
    CongruentReflexive(PolyOf(shifted));
    CongruentPlus(PolyOf(shifted), PolyOf(shifted), PolyOf(entry), Shift(index, 16));
  }

  lemma {:induction false} Regroup(hi: Poly, lo: Poly, b: Poly)
    ensures Plus(Shift(lo, 8), Shift(Plus(hi, b), 16)) == Plus(Shift(Plus(Shift(hi, 8), lo), 8), Shift(b, 16))
  {
    ShiftPlus(hi, b, 16);
    ShiftPlus(Shift(hi, 8), lo, 8);
    ShiftShift(hi, 8, 8);
  }

  /** The checksum is congruent to the message times x^16; its degree is below 16, so it is the remainder. */
  lemma {:induction false} CrcIsRemainder(buf: seq<bv8>)
    ensures Congruent(PolyOf(Crc(buf)), Shift(Message(buf), 16))
    ensures DegreeBelow(PolyOf(Crc(buf)), 16)
  {
    if buf == [] {
      assert PolyOf(0) == {} by { PolyOfNothing(); }
      assert Shift({}, 16) == {};
      CongruentReflexive({});
    } else {
      var init, b := buf[..|buf| - 1], Last(buf);
      CrcIsRemainder(init);
      StepPoly(b, Crc(init));
      AppendByte(Message(init), BytePoly(b), Crc(init), Crc(buf));
    }
  }

  lemma {:induction false} PolyOfNothing()
    ensures PolyOf(0) == {}
  {
    Bits0(0); Bits4(0); Bits8(0); Bits12(0);
  }

  lemma {:induction false} AppendByte(m: Poly, b: Poly, crc: bv16, next: bv16)
    requires Congruent(PolyOf(crc), Shift(m, 16))
    requires Congruent(PolyOf(next), Plus(Shift(PolyOf(crc), 8), Shift(b, 16)))
    ensures Congruent(PolyOf(next), Shift(Plus(Shift(m, 8), b), 16))
  {
    CongruentShift(PolyOf(crc), Shift(m, 16), 8);
    ShiftsCommute(m, 16, 8);
    CongruentReflexive(Shift(b, 16));
    CongruentPlus(Shift(PolyOf(crc), 8), Shift(Shift(m, 8), 16), Shift(b, 16), Shift(b, 16));
    ShiftPlus(Shift(m, 8), b, 16);
    CongruentTransitive(PolyOf(next), Plus(Shift(PolyOf(crc), 8), Shift(b, 16)), Shift(Plus(Shift(m, 8), b), 16));
  }

  // ----- What the checksum detects -----

  /** Two messages have the same checksum exactly when the generator divides their difference. */
  lemma {:induction false} SameCrcIff(a: seq<bv8>, b: seq<bv8>)
    ensures Crc(a) == Crc(b) <==> Congruent(Plus(Message(a), Message(b)), {})
  {
    CrcIsRemainder(a);
    CrcIsRemainder(b);
    if Crc(a) == Crc(b) {
      SameRemainder(PolyOf(Crc(a)), Message(a), Message(b));
    } else if Congruent(Plus(Message(a), Message(b)), {}) {
      SameClass(PolyOf(Crc(a)), PolyOf(Crc(b)), Message(a), Message(b));
      RemainderIsUnique(PolyOf(Crc(a)), PolyOf(Crc(b)));
      PolyOfIsInjective(Crc(a), Crc(b));
    }
  }

  lemma {:induction false} SameRemainder(r: Poly, m: Poly, n: Poly)
    requires Congruent(r, Shift(m, 16)) && Congruent(r, Shift(n, 16))
    ensures Congruent(Plus(m, n), {})
  {
    CongruentSymmetric(r, Shift(m, 16));
    CongruentPlus(Shift(m, 16), r, Shift(n, 16), Shift(n, 16)) by { CongruentReflexive(Shift(n, 16)); }
    CongruentPlus(r, Shift(n, 16), Shift(n, 16), Shift(n, 16)) by { CongruentReflexive(Shift(n, 16)); }
    CongruentTransitive(Plus(Shift(m, 16), Shift(n, 16)), Plus(r, Shift(n, 16)), Plus(Shift(n, 16), Shift(n, 16)));
    assert Plus(Shift(n, 16), Shift(n, 16)) == {};
    ShiftPlus(m, n, 16);
    CancelShift(Plus(m, n), 16);
  }

  lemma {:induction false} SameClass(r: Poly, s: Poly, m: Poly, n: Poly)
    requires Congruent(r, Shift(m, 16)) && Congruent(s, Shift(n, 16)) && Congruent(Plus(m, n), {})
    ensures Congruent(r, s)
  {
    CongruentShift(Plus(m, n), {}, 16);
    assert Shift({}, 16) == {};
    ShiftPlus(m, n, 16);
    CongruentReflexive(Shift(n, 16));
    CongruentPlus(Plus(Shift(m, 16), Shift(n, 16)), {}, Shift(n, 16), Shift(n, 16));
    assert Plus(Plus(Shift(m, 16), Shift(n, 16)), Shift(n, 16)) == Shift(m, 16);
    assert Plus({}, Shift(n, 16)) == Shift(n, 16);
    CongruentTransitive(r, Shift(m, 16), Shift(n, 16));
    CongruentSymmetric(s, Shift(n, 16));
    CongruentTransitive(r, Shift(n, 16), s);
  }

  /** Bit e of byte i is the coefficient of x^(8 * (bytes after i) + e). */
  lemma {:induction false} MessageBit(buf: seq<bv8>, i: nat, e: nat)
    requires i < |buf| && e < 8
    ensures 8 * (|buf| - 1 - i) + e in Message(buf) <==> BitAt(buf[i] as bv16, e)
  {
    var init, b := buf[..|buf| - 1], Last(buf);
    var x := 8 * (|buf| - 1 - i) + e;
    ShiftMember(Message(init), 8, x);
    if i < |buf| - 1 {
      MessageBit(init, i, e);
      assert x - 8 == 8 * (|init| - 1 - i) + e;
      ByteIsBelow8(b);
      assert x !in BytePoly(b);
    }
  }

  lemma {:induction false} ByteIsBelow8(b: bv8)
    ensures DegreeBelow(BytePoly(b), 8)
  {
    assert b as bv16 < 0x100;
    PolyOfByte(b as bv16);
  }

  lemma {:induction false} MessageDegree(buf: seq<bv8>)
    ensures DegreeBelow(Message(buf), 8 * |buf|)
  {
    if buf != [] {
      var init, b := buf[..|buf| - 1], Last(buf);
      MessageDegree(init);
      ByteIsBelow8(b);
      forall e: nat | e in Message(buf) ensures e < 8 * |buf| { ShiftMember(Message(init), 8, e); }
    }
  }

  /** Messages of the same length are different polynomials. */
  lemma {:induction false} MessageIsInjective(a: seq<bv8>, b: seq<bv8>)
    requires |a| == |b| && Message(a) == Message(b)
    ensures a == b
  {
    if a != [] {
      var n := |a| - 1;
      SameTail(Message(a[..n]), Message(b[..n]), Last(a), Last(b));
      MessageIsInjective(a[..n], b[..n]);
      assert a == a[..n] + [Last(a)] && b == b[..n] + [Last(b)];
    }
  }

  lemma {:induction false} SameTail(p: Poly, q: Poly, x: bv8, y: bv8)
    requires Plus(Shift(p, 8), BytePoly(x)) == Plus(Shift(q, 8), BytePoly(y))
    ensures p == q && x == y
  {
    ByteIsBelow8(x);
    ByteIsBelow8(y);
    var m := Plus(Shift(p, 8), BytePoly(x));
    forall e: nat ensures e in BytePoly(x) <==> e in BytePoly(y) {
      ShiftMember(p, 8, e);
      ShiftMember(q, 8, e);
      assert e < 8 ==> (e in m <==> e in BytePoly(x)) && (e in m <==> e in BytePoly(y));
    }
    assert BytePoly(x) == BytePoly(y);
    PolyOfIsInjective(x as bv16, y as bv16);
    assert Shift(p, 8) == Plus(m, BytePoly(x)) && Shift(q, 8) == Plus(m, BytePoly(y));
    ShiftIsInjective(p, q, 8);
  }

  /** All differing bits lie within 16 consecutive ones, wherever those begin. */
  predicate DifferInBurst(a: seq<bv8>, b: seq<bv8>, low: nat) {
    forall e | e in Plus(Message(a), Message(b)) :: low <= e < low + 16
  }

  /** A burst of at most 16 bits never goes unnoticed, in messages of any length. */
  lemma {:induction false} BurstIsDetected(a: seq<bv8>, b: seq<bv8>, low: nat)
    requires |a| == |b| && a != b && DifferInBurst(a, b, low)
    ensures SwapBytes(Crc(a)) != SwapBytes(Crc(b))
  {
    var diff := Plus(Message(a), Message(b));
    if Crc(a) == Crc(b) {
      SameCrcIff(a, b);
      MultipleInBurstIsZero(diff, low);
      assert Message(a) == Message(b) by {
        forall e: nat ensures e in Message(a) <==> e in Message(b) { assert e !in diff; }
      }
      MessageIsInjective(a, b);
    }
    SwapIsInjective(Crc(a), Crc(b));
  }

  lemma {:induction false} MultipleInBurstIsZero(diff: Poly, low: nat)
    requires Congruent(diff, {}) && forall e | e in diff :: low <= e < low + 16
    ensures diff == {}
  {
    var burst: Poly := set e | e in diff :: if e >= low then e - low else 0;
    forall e: nat ensures e in Shift(burst, low) <==> e in diff {
      ShiftMember(burst, low, e);
      if e in diff { assert e - low in burst; }
    }
    assert Shift(burst, low) == diff;
    CancelShift(burst, low);
    RemainderIsUnique(burst, {});
    assert Shift({}, low) == {};
  }

  lemma {:induction false} SwapIsInjective(x: bv16, y: bv16)
    ensures SwapBytes(x) == SwapBytes(y) ==> x == y
  {
    assert SwapBytes(SwapBytes(x)) == x && SwapBytes(SwapBytes(y)) == y;
  }

  /** In particular, strings that differ only inside two consecutive bytes have different checksums. */
  lemma {:induction false} TwoByteErrorIsDetected(a: seq<bv8>, b: seq<bv8>, k: nat)
    requires |a| == |b| && a != b && k < |a|
    requires forall i | 0 <= i < |a| && i != k && i != k + 1 :: a[i] == b[i]
    ensures SwapBytes(Crc(a)) != SwapBytes(Crc(b))
  {
    var n := |a|;
    var low := if k + 2 <= n then 8 * (n - k - 2) else 0;
    forall e: nat | e in Plus(Message(a), Message(b)) ensures low <= e < low + 16 {
      MessageDegree(a);
      MessageDegree(b);
      var i := n - 1 - e / 8;
      MessageBit(a, i, e % 8);
      MessageBit(b, i, e % 8);
      assert i == k || i == k + 1;
    }
    BurstIsDetected(a, b, low);
  }

  // ----- Frames -----

  /** The header that make_packet packs in network byte order. */
  datatype Header = Header(origSubnet: bv8, origDevice: bv8, origType: bv16, opcode: bv16,
                           targetSubnet: bv8, targetDevice: bv8)

  function HeaderBytes(h: Header): (bytes: seq<bv8>)
    ensures |bytes| == 8
  {
    [h.origSubnet, h.origDevice,
     (h.origType >> 8) as bv8, (h.origType & 0xff) as bv8,
     (h.opcode >> 8) as bv8, (h.opcode & 0xff) as bv8,
     h.targetSubnet, h.targetDevice]
  }

  /** pack("H", ...): the byte order is the host's. */
  function PackWord(w: bv16, littleEndian: bool): (bytes: seq<bv8>)
    ensures |bytes| == 2
  {
    var hi, lo := (w >> 8) as bv8, (w & 0xff) as bv8;
    if littleEndian then [lo, hi] else [hi, lo]
  }

  /** What the checksum covers: the length byte, the header and the content. */
  function Covered(h: Header, content: seq<bv8>): seq<bv8>
    requires |content| + 11 < 256
  {
    [(|content| + 11) as bv8] + HeaderBytes(h) + content
  }

  /** The fields that the bytes after the length stand for in network byte order. */
  function HeaderOf(body: seq<bv8>): Header
    requires |body| >= 9
  {
    Header(body[1], body[2], WordOf(body[3], body[4]), WordOf(body[5], body[6]), body[7], body[8])
  }

  function WordOf(hi: bv8, lo: bv8): bv16 {
    ((hi as bv16) << 8) | (lo as bv16)
  }

  lemma {:induction false} WordOfHalves(w: bv16)
    ensures WordOf((w >> 8) as bv8, (w & 0xff) as bv8) == w
  {
  }

  /** The bytes stand for the header and the content they were made of. */
  lemma {:induction false} HeaderAndContentRoundTrip(h: Header, content: seq<bv8>)
    requires |content| <= 244
    ensures var body := Covered(h, content); |body| >= 9 && HeaderOf(body) == h && body[9..] == content
  {
    WordOfHalves(h.origType);
    WordOfHalves(h.opcode);
  }

  /** Different headers or contents make different frames. */
  lemma {:induction false} CoveredIsInjective(h1: Header, c1: seq<bv8>, h2: Header, c2: seq<bv8>)
    requires |c1| <= 244 && |c2| <= 244 && Covered(h1, c1) == Covered(h2, c2)
    ensures h1 == h2 && c1 == c2
  {
    HeaderAndContentRoundTrip(h1, c1);
    HeaderAndContentRoundTrip(h2, c2);
  }

  /** make_packet; None when the length does not fit in a byte, where chr raises an error. */
  method MakePacket(h: Header, content: seq<bv8>, littleEndian: bool) returns (r: Option<seq<bv8>>)
    ensures r.Some? <==> |content| <= 244
    ensures r.Some? ==> r.value == [0xaa, 0xaa] + Covered(h, content)
                                 + PackWord(SwapBytes(Crc(Covered(h, content))), littleEndian)
  {
    var packet := HeaderBytes(h) + content;
    if |packet| + 3 > 255 {
      return None;
    }
    packet := [(|packet| + 3) as bv8] + packet;
    assert packet == Covered(h, content);
    var crc := Crc16Buf(packet);
    packet := packet + PackWord(crc, littleEndian);
    assert [0xaa, 0xaa] + packet
        == [0xaa, 0xaa] + Covered(h, content) + PackWord(crc, littleEndian);
    return Some([0xaa, 0xaa] + packet);
  }

  lemma {:induction false} PackedBytes(c: bv16, littleEndian: bool)
    ensures PackWord(SwapBytes(c), littleEndian)
         == PackWord(if littleEndian then c else SwapBytes(c), false)
  {
    assert ((SwapBytes(c) & 0xff) as bv8) == (c >> 8) as bv8;
    assert ((SwapBytes(c) >> 8) as bv8) == (c & 0xff) as bv8;
  }

  lemma {:induction false} WordFromBytes(w: bv16, hi: bv8, lo: bv8)
    requires hi == (w >> 8) as bv8 && lo == (w & 0xff) as bv8
    ensures hi as bv16 == w >> 8 && lo as bv16 == w & 0xff
  {
  }

  lemma {:induction false} MessageWithByte(buf: seq<bv8>, b: bv8)
    ensures Message(buf + [b]) == Plus(Shift(Message(buf), 8), BytePoly(b))
  {
    assert (buf + [b])[..|buf|] == buf;
  }

  /** Appending a word, high byte first, multiplies the message by x^16 and adds the word. */
  lemma {:induction false} MessageWithWord(buf: seq<bv8>, w: bv16, hi: bv8, lo: bv8)
    requires PolyOf(w) == Plus(Shift(BytePoly(hi), 8), BytePoly(lo))
    ensures Message((buf + [hi]) + [lo]) == Plus(Shift(Message(buf), 16), PolyOf(w))
  {
    MessageWithByte(buf, hi);
    MessageWithByte(buf + [hi], lo);
    TwoBytes(Message(buf), BytePoly(hi), BytePoly(lo));
  }

  lemma {:induction false} WordParts(w: bv16, hi: bv8, lo: bv8)
    requires hi == (w >> 8) as bv8 && lo == (w & 0xff) as bv8
    ensures PolyOf(w) == Plus(Shift(BytePoly(hi), 8), BytePoly(lo))
  {
    WordFromBytes(w, hi, lo);
    PolyOfHalves(w);
  }

  lemma {:induction false} TwoBytes(m: Poly, hi: Poly, lo: Poly)
    ensures Plus(Shift(Plus(Shift(m, 8), hi), 8), lo) == Plus(Shift(m, 16), Plus(Shift(hi, 8), lo))
  {
    ShiftPlus(Shift(m, 8), hi, 8);
    ShiftShift(m, 8, 8);
  }

  /** The word that follows a message cancels it modulo the generator exactly when it is the checksum. */
  lemma {:induction false} ChecksumCancels(body: seq<bv8>, w: bv16)
    ensures Congruent(Plus(Shift(Message(body), 16), PolyOf(w)), {}) <==> w == Crc(body)
  {
    CrcIsRemainder(body);
    WordCancels(PolyOf(Crc(body)), Shift(Message(body), 16), PolyOf(w));
    if PolyOf(w) == PolyOf(Crc(body)) { PolyOfIsInjective(w, Crc(body)); }
  }

  lemma {:induction false} PackedMessage(body: seq<bv8>, w: bv16)
    ensures Message(body + PackWord(w, false)) == Plus(Shift(Message(body), 16), PolyOf(w))
  {
    var hi, lo := (w >> 8) as bv8, (w & 0xff) as bv8;
    WordParts(w, hi, lo);
    MessageWithWord(body, w, hi, lo);
    assert body + PackWord(w, false) == (body + [hi]) + [lo];
  }

  /**
   Everything after the AA AA of a frame is divisible by the generator exactly when
   the host is little-endian, or the two checksum bytes happen to be equal.
   */
  lemma {:induction false} FrameRemainderIff(h: Header, content: seq<bv8>, littleEndian: bool)
    requires |content| <= 244
    ensures
      var crc := Crc(Covered(h, content));
      Congruent(Message(Covered(h, content) + PackWord(SwapBytes(crc), littleEndian)), {})
      <==> littleEndian || SwapBytes(crc) == crc
  {
    var body := Covered(h, content);
    var crc := Crc(body);
    var w := if littleEndian then crc else SwapBytes(crc);
    PackedBytes(crc, littleEndian);
    PackedMessage(body, w);
    ChecksumCancels(body, w);
  }

  lemma {:induction false} CrcAppend(s: seq<bv8>, b: bv8, before: bv16, after: bv16)
    requires Crc(s) == before && CrcStep(b, before) == after
    ensures Crc(s + [b]) == after
  {
    assert (s + [b])[..|s|] == s;
  }

  lemma {:induction false} TwoZeros(s: seq<bv8>, x: bv16, y: bv16, z: bv16)
    requires Crc(s) == x && CrcStep(0, x) == y && CrcStep(0, y) == z
    ensures Crc(s + [0] + [0]) == z
  {
    CrcAppend(s, 0, x, y);
    CrcAppend(s + [0], 0, y, z);
  }

  lemma {:induction false} ZeroSteps()
    ensures CrcStep(0, 0xb16b) == 0xdcfa && CrcStep(0, 0xdcfa) == 0xf0f1
    ensures CrcStep(0, 0xf0f1) == 0x1e1f && CrcStep(0, 0x1e1f) == 0xecff
    ensures CrcStep(0, 0xecff) == 0xc3a2 && CrcStep(0, 0xc3a2) == 0x4b2f
    ensures CrcStep(0, 0x4b2f) == 0xd6af && CrcStep(0, 0xd6af) == 0x04bb
  {
  }

  lemma {:induction false} ZeroFrameCrc(s: seq<bv8>, body: seq<bv8>)
    requires s == [11] && body == s + [0] + [0] + [0] + [0] + [0] + [0] + [0] + [0]
    ensures Crc(body) == 0x04bb
  {
    assert s == [] + [11];
    CrcAppend([], 11, 0x0000, 0xb16b);
    ZeroSteps();
    TwoZeros(s, 0xb16b, 0xdcfa, 0xf0f1);
    TwoZeros(s + [0] + [0], 0xf0f1, 0x1e1f, 0xecff);
    TwoZeros(s + [0] + [0] + [0] + [0], 0xecff, 0xc3a2, 0x4b2f);
    TwoZeros(s + [0] + [0] + [0] + [0] + [0] + [0], 0x4b2f, 0xd6af, 0x04bb);
  }

  /** A frame that a big-endian host gets wrong: all header fields 0 and no content. */
  lemma {:induction false} BigEndianFrameIsIndivisible(h: Header)
    requires h == Header(0, 0, 0, 0, 0, 0)
    ensures !Congruent(Message(Covered(h, []) + PackWord(SwapBytes(Crc(Covered(h, []))), false)), {})
  {
    ZeroFrameCrc([11], Covered(h, []));
    FrameRemainderIff(h, [], false);
  }

  /** The first of those bytes counts them. */
  lemma {:induction false} FrameLength(h: Header, content: seq<bv8>, checksum: seq<bv8>)
    requires |content| <= 244 && |checksum| == 2
    ensures var frame := Covered(h, content) + checksum;
            |frame| < 256 && frame[0] == |frame| as bv8
  {
  }

  /** Adding a word to x^16 times the message cancels it exactly when the word is the remainder. */
  lemma {:induction false} WordCancels(r: Poly, m: Poly, w: Poly)
    requires Congruent(r, m) && DegreeBelow(r, 16) && DegreeBelow(w, 16)
    ensures Congruent(Plus(m, w), {}) <==> w == r
  {
    CongruentSymmetric(r, m);
    assert Plus(m, w) == Plus(Plus(m, w), {});
    if w == r {
      assert Plus(m, r) == Plus(m, w);
    } else if Congruent(Plus(m, w), {}) {
      assert Plus(m, w) == Plus(Plus(m, w), {});
      var k :| Plus(Plus(m, w), {}) == TimesG(k);
      CongruentBy(m, w, k);
      CongruentTransitive(r, m, w);
      RemainderIsUnique(r, w);
    }
  }
}
