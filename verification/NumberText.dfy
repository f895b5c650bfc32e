/** Integers as text: std::to_string and std::stoi, which the register cache uses at scale 1. */
module NumberText {
  import opened Common
  import opened ModbusClient

  function Digit(d: nat): char
    requires d < 10
  {
    "0123456789"[d]
  }

  predicate IsDigit(c: char) {
    '0' <= c <= '9'
  }

  function DigitValue(c: char): (d: nat)
    requires IsDigit(c)
    ensures d < 10
  {
    c as int - '0' as int
  }

  function Digits(n: nat): (r: string)
    ensures r != [] && forall c | c in r :: IsDigit(c)
  {
    if n < 10 then [Digit(n)] else Digits(n / 10) + [Digit(n % 10)]
  }

  /** std::to_string. */
  function ToText(v: int): (r: string)
    ensures r != [] && forall c | c in r :: IsDigit(c) || c == '-'
  {
    if v < 0 then "-" + Digits(-v) else Digits(v)
  }

  predicate IsSpace(c: char) {
    c == ' ' || '\t' <= c <= '\r'
  }

  function SkipSpace(s: string): string {
    if s != [] && IsSpace(s[0]) then SkipSpace(s[1..]) else s
  }

  /** The number that the digits at the start of `s` continue, given those before them. */
  function Accumulated(s: string, before: nat): nat {
    if s == [] || !IsDigit(s[0]) then before else Accumulated(s[1..], 10 * before + DigitValue(s[0]))
  }

  function Unsigned(s: string): Option<nat> {
    if s == [] || !IsDigit(s[0]) then None else Some(Accumulated(s, 0))
  }

  /** std::stoi: leading space and one sign are skipped, anything after the digits is ignored. None is an exception. */
  function Stoi(s: string): Option<Int> {
    var t := SkipSpace(s);
    var negative := t != [] && t[0] == '-';
    var signed := negative || (t != [] && t[0] == '+');
    match Unsigned(if signed then t[1..] else t)
    case None => None
    case Some(n) =>
      var magnitude: int := n;
      var v := if negative then -magnitude else magnitude;
      if -0x8000_0000 <= v < 0x8000_0000 then Some(v) else None
  }

  lemma {:induction false} AccumulatedAppend(a: string, b: string, before: nat)
    requires forall c | c in a :: IsDigit(c)
    ensures Accumulated(a + b, before) == Accumulated(b, Accumulated(a, before))
    decreases |a|
  {
    if a == [] {
      assert a + b == b;
    } else {
      AccumulatedAppend(a[1..], b, 10 * before + DigitValue(a[0]));
      assert (a + b)[1..] == a[1..] + b;
    }
  }

  lemma {:induction false} DigitIsItself(d: nat)
    requires d < 10
    ensures IsDigit(Digit(d)) && DigitValue(Digit(d)) == d
  {
  }

  lemma {:induction false} DigitsAccumulate(n: nat)
    ensures Accumulated(Digits(n), 0) == n
  {
    DigitIsItself(n % 10);
    if n >= 10 {
      DigitsAccumulate(n / 10);
      AccumulatedAppend(Digits(n / 10), [Digit(n % 10)], 0);
    }
  }

  /** Reading back what was printed gives the value, for every C++ int. */
  lemma {:induction false} StoiOfText(v: Int)
    ensures Stoi(ToText(v)) == Some(v)
  {
    var value: int := v;
    if value < 0 {
      DigitsAccumulate(-value);
      assert ToText(value)[1..] == Digits(-value);
      assert Digits(-value)[0] in Digits(-value);
    } else {
      DigitsAccumulate(value);
      assert Digits(value)[0] in Digits(value);
    }
  }

  // ----- Which texts are numbers, whatever the functions above say -----

  /** A decimal digit, by its ASCII code. */
  predicate IsDecimal(c: char) {
    48 <= c as int <= 57
  }

  predicate AllDecimal(s: string) {
    forall i | 0 <= i < |s| :: IsDecimal(s[i])
  }

  /** The number written as `s` in base 10, last digit for the ones. */
  function Decimal(s: string): nat
    requires AllDecimal(s)
  {
    if s == [] then 0 else 10 * Decimal(s[..|s| - 1]) + (Last(s) as int - 48)
  }

  predicate IsBlank(c: char) {
    c as int == 32 || 9 <= c as int <= 13
  }

  predicate AllBlank(s: string) {
    forall i | 0 <= i < |s| :: IsBlank(s[i])
  }

  predicate IsSign(s: string) {
    s == "" || s == "+" || s == "-"
  }

  predicate StartsWithDigit(s: string) {
    s != [] && IsDecimal(s[0])
  }

  function Signed(sign: string, n: nat): int {
    if sign == "-" then 0 - n else n
  }

  predicate FitsInt(v: int) {
    -2147483648 <= v <= 2147483647
  }

  lemma {:induction false} BlanksAreSkipped(space: string, s: string)
    requires AllBlank(space)
    requires s == [] || !IsBlank(s[0])
    ensures SkipSpace(space + s) == s
    decreases |space|
  {
    if space == [] {
      assert space + s == s;
    } else {
      assert (space + s)[1..] == space[1..] + s;
      BlanksAreSkipped(space[1..], s);
    }
  }

  lemma {:induction false} AccumulatedDecimal(digits: string, rest: string)
    requires AllDecimal(digits) && !StartsWithDigit(rest)
    ensures Accumulated(digits + rest, 0) == Decimal(digits)
    decreases |digits|
  {
    if digits == [] {
      assert digits + rest == rest;
    } else {
      var init, last := digits[..|digits| - 1], [Last(digits)];
      assert digits == init + last;
      AccumulatedDecimal(init, []);
      assert init + [] == init;
      AccumulatedAppend(init, last + rest, 0);
      assert init + (last + rest) == digits + rest;
      assert (last + rest)[1..] == rest;
    }
  }

  lemma {:induction false} SignIsTaken(sign: string, s: string)
    requires IsSign(sign) && (sign == "" ==> s == [] || (s[0] != '+' && s[0] != '-'))
    ensures var t := sign + s;
            && (sign == "-" <==> t != [] && t[0] == '-')
            && (sign == "+" <==> t != [] && t[0] == '+')
            && (if sign == "" then t == s else t[1..] == s)
  {
  }

  /**
   Blanks, at most one sign and at least one digit make a number, whatever follows the last
   digit; it is refused if and only if it does not fit an int.
   */
  lemma {:induction false} StoiOfNumber(space: string, sign: string, digits: string, rest: string)
    requires AllBlank(space) && IsSign(sign) && digits != [] && AllDecimal(digits) && !StartsWithDigit(rest)
    ensures var v := Signed(sign, Decimal(digits));
            Stoi(space + (sign + (digits + rest))) == if FitsInt(v) then Some(v) else None
  {
    var t := digits + rest;
    assert t[0] == digits[0];
    SignIsTaken(sign, t);
    BlanksAreSkipped(space, sign + t);
    AccumulatedDecimal(digits, rest);
  }

  /** A text with no digit after its blanks and its sign is refused. */
  lemma {:induction false} StoiOfOther(space: string, sign: string, rest: string)
    requires AllBlank(space) && IsSign(sign) && !StartsWithDigit(rest)
    requires sign == "" ==> rest == [] || (!IsBlank(rest[0]) && rest[0] != '+' && rest[0] != '-')
    ensures Stoi(space + (sign + rest)) == None
  {
    SignIsTaken(sign, rest);
    BlanksAreSkipped(space, sign + rest);
  }

  /** The text of a number is its decimal one, with a minus if it is negative and no needless zero. */
  lemma {:induction false} TextIsDecimal(v: int) returns (digits: string)
    ensures AllDecimal(digits) && ToText(v) == (if v < 0 then "-" else "") + digits
    ensures Decimal(digits) == (if v < 0 then -v else v)
    ensures digits != [] && (digits[0] == '0' ==> v == 0 && digits == "0")
  {
    digits := Digits(if v < 0 then -v else v);
    DigitsAreDecimal(if v < 0 then -v else v);
    assert [] + digits == digits;
  }

  lemma {:induction false} DigitsAreDecimal(n: nat)
    ensures AllDecimal(Digits(n)) && Decimal(Digits(n)) == n
    ensures Digits(n)[0] == '0' ==> n == 0 && Digits(n) == "0"
  {
    DigitIsItself(n % 10);
    if n < 10 {
      assert [Digit(n)][..0] == [];
    } else {
      DigitsAreDecimal(n / 10);
      assert Digits(n)[..|Digits(n)| - 1] == Digits(n / 10);
      assert Digits(n)[0] == Digits(n / 10)[0];
    }
  }
}
