/** 16-bit words as polynomials: bit e is the coefficient of x^e. */
module Words {
  import opened Polynomials
  import opened SmartbusTable

  predicate BitAt(r: bv16, e: nat) {
    if e == 0 then r & 1 != 0 else BitAt(r >> 1, e - 1)
  }

  function PolyOf(r: bv16): Poly {
    set e: nat | e < 16 && BitAt(r, e)
  }

  type WordOp = (bv16, bv16) -> bv16

  /** An operation that acts on each bit as exclusive or does. */
  ghost predicate AddsBits(op: WordOp) {
    KeepsHalves(op) && AddsLowBits(op)
  }

  ghost predicate KeepsHalves(op: WordOp) {
    forall x, y :: op(x, y) >> 1 == op(x >> 1, y >> 1)
  }

  ghost predicate AddsLowBits(op: WordOp) {
    forall x, y :: op(x, y) & 1 != 0 <==> (x & 1 != 0) != (y & 1 != 0)
  }

  lemma {:induction false} OpBit(op: WordOp, a: bv16, b: bv16, e: nat)
    requires AddsBits(op)
    ensures BitAt(op(a, b), e) <==> BitAt(a, e) != BitAt(b, e)
    decreases e
  {
    if e > 0 {
      assert op(a, b) >> 1 == op(a >> 1, b >> 1);
      OpBit(op, a >> 1, b >> 1, e - 1);
    } else {
      assert op(a, b) & 1 != 0 <==> (a & 1 != 0) != (b & 1 != 0);
    }
  }

  const XOR: WordOp := (x: bv16, y: bv16) => x ^ y

  lemma {:induction false} XorHalves(a: bv16, b: bv16)
    ensures (a ^ b) >> 1 == (a >> 1) ^ (b >> 1)
  {
  }

  lemma {:induction false} XorLowBit(a: bv16, b: bv16)
    ensures (a ^ b) & 1 != 0 <==> (a & 1 != 0) != (b & 1 != 0)
  {
  }

  lemma {:induction false} XorOpHalves(x: bv16, y: bv16)
    ensures XOR(x, y) >> 1 == XOR(x >> 1, y >> 1)
  {
    calc {
      XOR(x, y) >> 1;
      (x ^ y) >> 1;
      { XorHalves(x, y); }
      (x >> 1) ^ (y >> 1);
      XOR(x >> 1, y >> 1);
    }
  }

  lemma {:induction false} XorKeepsHalves()
    ensures KeepsHalves(XOR)
  {
    forall x: bv16, y: bv16 ensures XOR(x, y) >> 1 == XOR(x >> 1, y >> 1) { XorOpHalves(x, y); }
  }

  lemma {:induction false} XorAddsLowBits()
    ensures AddsLowBits(XOR)
  {
    forall x: bv16, y: bv16 ensures XOR(x, y) & 1 != 0 <==> (x & 1 != 0) != (y & 1 != 0) { XorLowBit(x, y); }
  }

  lemma {:induction false} XorBit(c: bv16, a: bv16, b: bv16, e: nat)
    requires c == a ^ b
    ensures BitAt(c, e) <==> BitAt(a, e) != BitAt(b, e)
  {
    XorKeepsHalves();
    XorAddsLowBits();
    OpBit(XOR, a, b, e);
    assert XOR(a, b) == c;
  }

  /** Exclusive or adds the polynomials. */
  lemma {:induction false} PolyOfXor(c: bv16, a: bv16, b: bv16)
    requires c == a ^ b
    ensures PolyOf(c) == Plus(PolyOf(a), PolyOf(b))
  {
    forall e: nat ensures e in PolyOf(c) <==> e in Plus(PolyOf(a), PolyOf(b)) {
      XorBit(c, a, b, e);
    }
  }

  lemma Bits0(r: bv16)
    ensures BitAt(r, 0) <==> r & 0x0001 != 0
    ensures BitAt(r, 1) <==> r & 0x0002 != 0
    ensures BitAt(r, 2) <==> r & 0x0004 != 0
    ensures BitAt(r, 3) <==> r & 0x0008 != 0
  {
  }

  lemma {:induction false} Bits4(r: bv16)
    ensures BitAt(r, 4) <==> r & 0x0010 != 0
    ensures BitAt(r, 5) <==> r & 0x0020 != 0
    ensures BitAt(r, 6) <==> r & 0x0040 != 0
    ensures BitAt(r, 7) <==> r & 0x0080 != 0
  {
    FourDown(r, 4); FourDown(r, 5); FourDown(r, 6); FourDown(r, 7);
    Bits0(r >> 4);
  }

  lemma {:induction false} Bits8(r: bv16)
    ensures BitAt(r, 8) <==> r & 0x0100 != 0
    ensures BitAt(r, 9) <==> r & 0x0200 != 0
    ensures BitAt(r, 10) <==> r & 0x0400 != 0
    ensures BitAt(r, 11) <==> r & 0x0800 != 0
  {
    FourDown(r, 8); FourDown(r, 9); FourDown(r, 10); FourDown(r, 11);
    Bits4(r >> 4);
  }

  lemma {:induction false} Bits12(r: bv16)
    ensures BitAt(r, 12) <==> r & 0x1000 != 0
    ensures BitAt(r, 13) <==> r & 0x2000 != 0
    ensures BitAt(r, 14) <==> r & 0x4000 != 0
    ensures BitAt(r, 15) <==> r & 0x8000 != 0
  {
    FourDown(r, 12); FourDown(r, 13); FourDown(r, 14); FourDown(r, 15);
    Bits8(r >> 4);
  }

  lemma {:induction false} FourDown(r: bv16, e: nat)
    requires e >= 4
    ensures BitAt(r, e) == BitAt(r >> 4, e - 4)
  {
    TwoDown(r, e);
    TwoDown(r >> 2, e - 2);
  }

  lemma {:induction false} TwoDown(r: bv16, e: nat)
    requires e >= 2
    ensures BitAt(r, e) == BitAt(r >> 2, e - 2)
  {
    assert BitAt(r, e) == BitAt(r >> 1, e - 1) == BitAt((r >> 1) >> 1, e - 2);
  }

  lemma {:induction false} PolyOfZero(r: bv16)
    requires PolyOf(r) == {}
    ensures r == 0
  {
    forall e: nat | e < 16 ensures !BitAt(r, e) { assert e !in PolyOf(r); }
    Bits0(r); Bits4(r); Bits8(r); Bits12(r);
    NoBits(r);
  }

  lemma {:induction false} NoBits(r: bv16)
    requires r & 0x0001 == 0 && r & 0x0002 == 0 && r & 0x0004 == 0 && r & 0x0008 == 0
    requires r & 0x0010 == 0 && r & 0x0020 == 0 && r & 0x0040 == 0 && r & 0x0080 == 0
    requires r & 0x0100 == 0 && r & 0x0200 == 0 && r & 0x0400 == 0 && r & 0x0800 == 0
    requires r & 0x1000 == 0 && r & 0x2000 == 0 && r & 0x4000 == 0 && r & 0x8000 == 0
    ensures r == 0
  {
  }

  /** Different words are different polynomials. */
  lemma {:induction false} PolyOfIsInjective(a: bv16, b: bv16)
    requires PolyOf(a) == PolyOf(b)
    ensures a == b
  {
    PolyOfXor(a ^ b, a, b);
    PolyOfZero(a ^ b);
    XorIsZero(a, b);
  }

  lemma {:induction false} XorIsZero(a: bv16, b: bv16)
    requires a ^ b == 0
    ensures a == b
  {
  }

  lemma {:induction false} DoubledHalves(r: bv16)
    requires r < 0x8000
    ensures (r << 1) >> 1 == r && (r << 1) & 1 == 0
  {
  }

  lemma {:induction false} NoTopBit(r: bv16)
    requires r < 0x8000
    ensures !BitAt(r, 15)
  {
    Bits12(r);
  }

  lemma {:induction false} PolyOfDouble(d: bv16, r: bv16)
    requires r < 0x8000 && d == r << 1
    ensures PolyOf(d) == Shift(PolyOf(r), 1)
  {
    DoubledHalves(r);
    NoTopBit(r);
    forall e: nat ensures e in PolyOf(d) <==> e in Shift(PolyOf(r), 1) {
      ShiftMember(PolyOf(r), 1, e);
    }
  }

  lemma {:induction false} PolyOfConstants()
    ensures PolyOf(0x1021) == {0, 5, 12} && PolyOf(0x8000) == {15}
  {
    Bits0(0x1021); Bits4(0x1021); Bits8(0x1021); Bits12(0x1021);
    Bits0(0x8000); Bits4(0x8000); Bits8(0x8000); Bits12(0x8000);
  }

  lemma {:induction false} GeneratorItself()
    ensures TimesG({0}) == {16, 12, 5, 0}
  {
    forall e: nat ensures e in TimesG({0}) <==> e in {16, 12, 5, 0} { TimesGMember({0}, e); }
  }

  lemma {:induction false} GeneratorCancels(p: Poly)
    ensures Congruent(Plus(Shift(p, 1), {0, 5, 12}), Shift(Plus(p, {15}), 1))
  {
    ShiftPlus(p, {15}, 1);
    forall k: nat ensures k in Shift({15}, 1) <==> k == 16 { ShiftMember({15}, 1, k); }
    assert Shift({15}, 1) == {16};
    GeneratorItself();
    var q := Shift(p, 1);
    assert Plus(Plus(q, {0, 5, 12}), Plus(q, {16})) == {16, 12, 5, 0};
    CongruentBy(Plus(q, {0, 5, 12}), Plus(q, {16}), {0});
  }

  /** With the top bit set, what is shifted out and what is mixed in differ by the generator. */
  lemma {:induction false} DivideWithTop(low: bv16, doubled: bv16, r: bv16, d: bv16)
    requires low < 0x8000 && doubled == low << 1 && r == low ^ 0x8000 && d == doubled ^ 0x1021
    ensures Congruent(PolyOf(d), Shift(PolyOf(r), 1))
  {
    PolyOfConstants();
    PolyOfXor(d, doubled, 0x1021);
    PolyOfXor(r, low, 0x8000);
    PolyOfDouble(doubled, low);
    GeneratorCancels(PolyOf(low));
  }

  lemma {:induction false} WithoutTop(r: bv16, low: bv16)
    requires r >= 0x8000 && low == r & 0x7fff
    ensures low < 0x8000 && r == low ^ 0x8000
  {
  }

  lemma {:induction false} TopShiftsOut(r: bv16, low: bv16)
    requires low == r & 0x7fff
    ensures r << 1 == low << 1
  {
  }

  lemma {:induction false} TopBitIsSet(r: bv16)
    requires r >= 0x8000
    ensures Divide1(r) == (r << 1) ^ 0x1021
  {
  }

  lemma {:induction false} TopBitClear(r: bv16)
    requires r < 0x8000
    ensures Divide1(r) == r << 1
  {
  }

  lemma {:induction false} DivideBelow(r: bv16)
    requires r < 0x8000
    ensures Congruent(PolyOf(Divide1(r)), Shift(PolyOf(r), 1))
  {
    TopBitClear(r);
    PolyOfDouble(r << 1, r);
    CongruentReflexive(Shift(PolyOf(r), 1));
  }

  lemma {:induction false} DivideAbove(r: bv16)
    requires r >= 0x8000
    ensures Congruent(PolyOf(Divide1(r)), Shift(PolyOf(r), 1))
  {
    var low := r & 0x7fff;
    WithoutTop(r, low);
    TopShiftsOut(r, low);
    TopBitIsSet(r);
    DivideWithTop(low, low << 1, r, Divide1(r));
  }

  /** One division step multiplies by x modulo the generator. */
  lemma {:induction false} DivideIsTimesX(r: bv16)
    ensures Congruent(PolyOf(Divide1(r)), Shift(PolyOf(r), 1))
  {
    if r < 0x8000 { DivideBelow(r); } else { DivideAbove(r); }
  }

  lemma {:induction false} TwoSteps(a: bv16, b: bv16, c: bv16, j: nat, k: nat)
    requires Congruent(PolyOf(b), Shift(PolyOf(a), j)) && Congruent(PolyOf(c), Shift(PolyOf(b), k))
    ensures Congruent(PolyOf(c), Shift(PolyOf(a), j + k))
  {
    CongruentShift(PolyOf(b), Shift(PolyOf(a), j), k);
    ShiftShift(PolyOf(a), j, k);
    CongruentTransitive(PolyOf(c), Shift(PolyOf(b), k), Shift(PolyOf(a), j + k));
  }

  lemma {:induction false} Divide2IsTimesX2(r: bv16, m: bv16, d: bv16)
    requires m == Divide1(r) && d == Divide1(m)
    ensures Congruent(PolyOf(d), Shift(PolyOf(r), 2))
  {
    DivideIsTimesX(r);
    DivideIsTimesX(m);
    TwoSteps(r, m, d, 1, 1);
  }

  lemma {:induction false} Divide4IsTimesX4(r: bv16, d: bv16)
    requires d == Divide1(Divide1(Divide1(Divide1(r))))
    ensures Congruent(PolyOf(d), Shift(PolyOf(r), 4))
  {
    var r1 := Divide1(r);
    var r2 := Divide1(r1);
    var r3 := Divide1(r2);
    Divide2IsTimesX2(r, r1, r2);
    Divide2IsTimesX2(r2, r3, d);
    TwoSteps(r, r2, d, 2, 2);
  }

  /** Eight steps multiply by x^8 modulo the generator. */
  lemma {:induction false} Divide8IsTimesX8(r: bv16, d: bv16)
    requires d == Divide8(r)
    ensures Congruent(PolyOf(d), Shift(PolyOf(r), 8))
  {
    var r4 := Divide1(Divide1(Divide1(Divide1(r))));
    Divide4IsTimesX4(r, r4);
    Divide4IsTimesX4(r4, d);
    TwoSteps(r, r4, d, 4, 4);
  }

  lemma {:induction false} DoubleTwice(r: bv16)
    requires r < 0x4000
    ensures PolyOf(r << 2) == Shift(PolyOf(r), 2)
  {
    TwiceShifted(r);
    PolyOfDouble(r << 1, r);
    PolyOfDouble(r << 2, r << 1);
    ShiftShift(PolyOf(r), 1, 1);
  }

  lemma {:induction false} TwiceShifted(r: bv16)
    requires r < 0x4000
    ensures r << 1 < 0x8000 && (r << 1) << 1 == r << 2
  {
  }

  lemma {:induction false} ShiftsOfByte(r: bv16)
    requires r < 0x100
    ensures r << 2 < 0x400 && r << 4 < 0x1000 && r << 6 < 0x4000
    ensures (r << 2) << 2 == r << 4 && (r << 4) << 2 == r << 6 && (r << 6) << 2 == r << 8
  {
  }

  /** Moving a byte to the high half multiplies by x^8. */
  lemma {:induction false} PolyOfHighByte(r: bv16)
    requires r < 0x100
    ensures PolyOf(r << 8) == Shift(PolyOf(r), 8)
  {
    var p := PolyOf(r);
    ShiftsOfByte(r);
    DoubleTwice(r);
    DoubleTwice(r << 2);
    DoubleTwice(r << 4);
    DoubleTwice(r << 6);
    ShiftShift(p, 2, 2);
    ShiftShift(p, 4, 2);
    ShiftShift(p, 6, 2);
  }

  lemma {:induction false} PolyOfByte(r: bv16)
    requires r < 0x100
    ensures DegreeBelow(PolyOf(r), 8)
  {
    Bits8(r);
    Bits12(r);
  }
}
