/**
 Polynomials over the two-element field, as the sets of exponents that occur in
 them, and congruence modulo x^16 + x^12 + x^5 + 1, the generator of ITU-T V.41.
 */
module Polynomials {

  type Poly = set<nat>

  function Plus(p: Poly, q: Poly): Poly {
    (p - q) + (q - p)
  }

  /** Multiplication by x^k. */
  function Shift(p: Poly, k: nat): Poly {
    set e | e in p :: e + k
  }

  lemma {:induction false} ShiftMember(p: Poly, k: nat, e: nat)
    ensures e in Shift(p, k) <==> e >= k && e - k in p
  {
    if e >= k && e - k in p { assert (e - k) + k in Shift(p, k); }
  }

  lemma {:induction false} ShiftShift(p: Poly, j: nat, k: nat)
    ensures Shift(Shift(p, j), k) == Shift(p, j + k)
  {
    forall e: nat ensures e in Shift(Shift(p, j), k) <==> e in Shift(p, j + k) {
      ShiftMember(p, j + k, e);
      ShiftMember(Shift(p, j), k, e);
      if e >= k { ShiftMember(p, j, e - k); }
    }
  }

  lemma {:induction false} ShiftPlus(p: Poly, q: Poly, k: nat)
    ensures Shift(Plus(p, q), k) == Plus(Shift(p, k), Shift(q, k))
  {
    forall e: nat ensures e in Shift(Plus(p, q), k) <==> e in Plus(Shift(p, k), Shift(q, k)) {
      ShiftMember(p, k, e);
      ShiftMember(q, k, e);
      ShiftMember(Plus(p, q), k, e);
    }
  }

  lemma {:induction false} ShiftIsInjective(p: Poly, q: Poly, k: nat)
    requires Shift(p, k) == Shift(q, k)
    ensures p == q
  {
    forall e: nat ensures e in p <==> e in q {
      ShiftMember(p, k, e + k);
      ShiftMember(q, k, e + k);
    }
  }

  /** The product of `q` and the generator. */
  function TimesG(q: Poly): Poly {
    Plus(Plus(Shift(q, 16), Shift(q, 12)), Plus(Shift(q, 5), q))
  }

  lemma {:induction false} TimesGMember(q: Poly, e: nat)
    ensures e in TimesG(q) <==>
            (((e >= 16 && e - 16 in q) != (e >= 12 && e - 12 in q)) != ((e >= 5 && e - 5 in q) != (e in q)))
  {
    ShiftMember(q, 16, e);
    ShiftMember(q, 12, e);
    ShiftMember(q, 5, e);
  }

  lemma {:induction false} TimesGPlus(p: Poly, q: Poly)
    ensures TimesG(Plus(p, q)) == Plus(TimesG(p), TimesG(q))
  {
    forall e: nat ensures e in TimesG(Plus(p, q)) <==> e in Plus(TimesG(p), TimesG(q)) {
      TimesGMember(p, e);
      TimesGMember(q, e);
      TimesGMember(Plus(p, q), e);
    }
  }

  lemma {:induction false} TimesGShift(q: Poly, k: nat)
    ensures TimesG(Shift(q, k)) == Shift(TimesG(q), k)
  {
    ShiftPlus(Plus(Shift(q, 16), Shift(q, 12)), Plus(Shift(q, 5), q), k);
    ShiftPlus(Shift(q, 16), Shift(q, 12), k);
    ShiftPlus(Shift(q, 5), q, k);
    ShiftsCommute(q, 16, k);
    ShiftsCommute(q, 12, k);
    ShiftsCommute(q, 5, k);
  }

  lemma {:induction false} ShiftsCommute(q: Poly, j: nat, k: nat)
    ensures Shift(Shift(q, j), k) == Shift(Shift(q, k), j)
  {
    ShiftShift(q, j, k);
    ShiftShift(q, k, j);
  }

  /** Congruence modulo the generator: the difference is a multiple of it. */
  ghost predicate Congruent(p: Poly, q: Poly) {
    exists k :: Plus(p, q) == TimesG(k)
  }

  lemma {:induction false} CongruentBy(p: Poly, q: Poly, k: Poly)
    requires Plus(p, q) == TimesG(k)
    ensures Congruent(p, q)
  {
  }

  lemma {:induction false} CongruentReflexive(p: Poly)
    ensures Congruent(p, p)
  {
    assert TimesG({}) == {};
    CongruentBy(p, p, {});
  }

  lemma {:induction false} CongruentTransitive(p: Poly, q: Poly, r: Poly)
    requires Congruent(p, q) && Congruent(q, r)
    ensures Congruent(p, r)
  {
    var j :| Plus(p, q) == TimesG(j);
    var k :| Plus(q, r) == TimesG(k);
    TimesGPlus(j, k);
    assert Plus(p, r) == Plus(Plus(p, q), Plus(q, r));
    CongruentBy(p, r, Plus(j, k));
  }

  lemma {:induction false} CongruentSymmetric(p: Poly, q: Poly)
    requires Congruent(p, q)
    ensures Congruent(q, p)
  {
    var k :| Plus(p, q) == TimesG(k);
    assert Plus(q, p) == Plus(p, q);
  }

  lemma {:induction false} CongruentPlus(p: Poly, q: Poly, p': Poly, q': Poly)
    requires Congruent(p, q) && Congruent(p', q')
    ensures Congruent(Plus(p, p'), Plus(q, q'))
  {
    var j :| Plus(p, q) == TimesG(j);
    var k :| Plus(p', q') == TimesG(k);
    TimesGPlus(j, k);
    assert Plus(Plus(p, p'), Plus(q, q')) == Plus(Plus(p, q), Plus(p', q'));
    CongruentBy(Plus(p, p'), Plus(q, q'), Plus(j, k));
  }

  lemma {:induction false} CongruentShift(p: Poly, q: Poly, k: nat)
    requires Congruent(p, q)
    ensures Congruent(Shift(p, k), Shift(q, k))
  {
    var j :| Plus(p, q) == TimesG(j);
    ShiftPlus(p, q, k);
    TimesGShift(j, k);
    CongruentBy(Shift(p, k), Shift(q, k), Shift(j, k));
  }

  predicate DegreeBelow(p: Poly, n: nat) {
    forall e | e in p :: e < n
  }

  lemma {:induction false} MaxExponent(p: Poly) returns (m: nat)
    requires p != {}
    ensures m in p && forall e | e in p :: e <= m
  {
    m :| m in p;
    if p != {m} {
      var m' := MaxExponent(p - {m});
      assert p == (p - {m}) + {m};
      if m' > m { m := m'; }
    }
  }

  lemma {:induction false} LeadingExponent(k: Poly) returns (e: nat)
    requires k != {}
    ensures e >= 16 && e in TimesG(k)
  {
    var m := MaxExponent(k);
    e := m + 16;
    TimesGMember(k, e);
    assert m + 4 !in k && m + 11 !in k && m + 16 !in k;
  }

  /** A multiple of the generator of degree below 16 is zero. */
  lemma {:induction false} SmallMultipleIsZero(k: Poly)
    requires DegreeBelow(TimesG(k), 16)
    ensures k == {}
  {
    if k != {} {
      var e := LeadingExponent(k);
    }
  }

  /** So remainders are unique. */
  lemma {:induction false} RemainderIsUnique(p: Poly, q: Poly)
    requires Congruent(p, q) && DegreeBelow(p, 16) && DegreeBelow(q, 16)
    ensures p == q
  {
    var k :| Plus(p, q) == TimesG(k);
    SmallMultipleIsZero(k);
    assert TimesG({}) == {};
    assert forall e | e in Plus(p, q) :: false;
  }

  /** The generator has a constant term, so x^k can be cancelled from a congruence to zero. */
  lemma {:induction false} CancelShift(p: Poly, k: nat)
    requires Congruent(Shift(p, k), {})
    ensures Congruent(p, {})
  {
    if k == 0 {
      assert Shift(p, 0) == p;
    } else {
      ShiftShift(p, k - 1, 1);
      CancelOne(Shift(p, k - 1));
      CancelShift(p, k - 1);
    }
  }

  lemma {:induction false} CancelOne(p: Poly)
    requires Congruent(Shift(p, 1), {})
    ensures Congruent(p, {})
  {
    var j :| Plus(Shift(p, 1), {}) == TimesG(j);
    assert Plus(Shift(p, 1), {}) == Shift(p, 1);
    ShiftMember(p, 1, 0);
    TimesGMember(j, 0);
    assert 0 !in j;
    var h := set e: nat | e in j :: (if e > 0 then e - 1 else 0);
    assert Shift(h, 1) == j by {
      forall e: nat ensures e in Shift(h, 1) <==> e in j {
        ShiftMember(h, 1, e);
        if e in j { assert e - 1 in h; }
      }
    }
    TimesGShift(h, 1);
    ShiftIsInjective(p, TimesG(h), 1);
    assert Plus(p, {}) == p;
    CongruentBy(p, {}, h);
  }
}
