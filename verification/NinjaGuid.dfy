/**
 Device GUIDs of the Ninja bridge, wb-homa-ninja-bridge/cloud_connection.cpp.

 A GUID is the block id and two escaped names separated by "---". The driver's
 strings hold bytes, modelled as characters below 256. Whether plain `char` is
 signed depends on the platform, so it is a parameter: a signed negative byte
 is printed by "%02x" as a full-width number, of which two digits survive.
 */
module NinjaGuid {
  import opened Common
  import opened Strings

  type Octet = c: char | c as int < 256

  const SEPARATOR: string := "---"

  predicate IsPlain(c: char) {
    'a' <= c <= 'z' || 'A' <= c <= 'Z' || '0' <= c <= '9' || c == '_'
  }

  function HexDigit(n: nat): (c: char)
    requires n < 16
  {
    if n < 10 then '0' + n as char else 'a' + (n - 10) as char
  }

  /** The two characters that snprintf leaves in its three-byte buffer. */
  function Hex2(c: Octet, signedChar: bool): string {
    if signedChar && c as int >= 128 then ['f', 'f']
    else [HexDigit(c as int / 16), HexDigit(c as int % 16)]
  }

  function EscapeOctet(c: Octet, signedChar: bool): string {
    if IsPlain(c) then [c] else ['-'] + Hex2(c, signedChar)
  }

  function Escape(s: seq<Octet>, signedChar: bool): string {
    if s == [] then [] else EscapeOctet(s[0], signedChar) + Escape(s[1..], signedChar)
  }

  method SelectorEscape(str: seq<Octet>, signedChar: bool) returns (escaped: string)
    ensures escaped == Escape(str, signedChar)
  {
    escaped := [];
    for i := 0 to |str|
      invariant escaped + Escape(str[i..], signedChar) == Escape(str, signedChar)
    {
      assert str[i..][1..] == str[i + 1..];
      Assoc(escaped, EscapeOctet(str[i], signedChar), Escape(str[i + 1..], signedChar));
      if IsPlain(str[i]) {
        escaped := escaped + [str[i]];
      } else {
        escaped := escaped + (['-'] + Hex2(str[i], signedChar));
      }
    }
  }

  function HexValue(c: char): (r: Option<nat>)
    ensures r.Some? ==> r.value < 16
  {
    if '0' <= c <= '9' then Some(c as int - '0' as int)
    else if 'a' <= c <= 'f' then Some(c as int - 'a' as int + 10)
    else if 'A' <= c <= 'F' then Some(c as int - 'A' as int + 10)
    else None
  }

  predicate IsSpace(c: char) {
    c == ' ' || 9 <= c as int <= 13
  }

  /** The part of a string that C code sees: everything before the first NUL. */
  function CString(s: string): string {
    if s == [] || s[0] as int == 0 then [] else [s[0]] + CString(s[1..])
  }

  /**
   strtoul in base 16 on at most two characters, reduced to a byte. None when
   some character is left unread, which is what the caller tests.
   */
  function ParseHex(sub: string): Option<char>
    requires |sub| <= 2
  {
    var t := CString(sub);
    if |t| == 0 then Some(0 as char)
    else if |t| == 1 then
      var d := HexValue(t[0]);
      if d.Some? then Some(d.value as char) else None
    else if |t| == 2 then
      var hi, lo := HexValue(t[0]), HexValue(t[1]);
      if lo.None? then None
      else if hi.Some? then Some((16 * hi.value + lo.value) as char)
      else if IsSpace(t[0]) || t[0] == '+' then Some(lo.value as char)
      else if t[0] == '-' then Some(((256 - lo.value) % 256) as char)
      else None
    else None
  }

  /** std::string::substr(from, 2), which is cut short at the end of the string. */
  function Pair(s: string, from: nat): (r: string)
    requires from <= |s|
    ensures |r| <= 2
  {
    if from + 2 <= |s| then s[from..from + 2] else s[from..]
  }

  function Unescape(s: string): string
    decreases |s|
  {
    if s == [] then []
    else if s[0] == '-' && ParseHex(Pair(s, 1)).Some? then
      [ParseHex(Pair(s, 1)).value] + Unescape(if |s| < 3 then [] else s[3..])
    else [s[0]] + Unescape(s[1..])
  }

  method SelectorUnescape(str: string) returns (unescaped: string)
    ensures unescaped == Unescape(str)
  {
    unescaped := [];
    var i := 0;
    while i < |str|
      invariant unescaped + Unescape(if i < |str| then str[i..] else []) == Unescape(str)
      decreases |str| - i
    {
      ghost var rest := str[i..];
      assert Pair(rest, 1) == Pair(str, i + 1);
      if str[i] == '-' {
        var ul := ParseHex(Pair(str, i + 1));
        if ul.Some? {
          ghost var tail := if |rest| < 3 then [] else rest[3..];
          Assoc(unescaped, [ul.value], Unescape(tail));
          i := i + 3;
          assert tail == if i < |str| then str[i..] else [];
          unescaped := unescaped + [ul.value];
          continue;
        }
      }
      Assoc(unescaped, [str[i]], Unescape(rest[1..]));
      unescaped := unescaped + [str[i]];
      i := i + 1;
      assert rest[1..] == if i < |str| then str[i..] else [];
    }
  }

  /** The bytes that survive escaping and unescaping. */
  predicate OctetSurvives(c: Octet, signedChar: bool) {
    !signedChar || c as int < 128 || c as int == 255
  }

  predicate Survives(s: seq<Octet>, signedChar: bool) {
    forall i | 0 <= i < |s| :: OctetSurvives(s[i], signedChar)
  }

  lemma {:induction false} UnescapeOctet(c: Octet, signedChar: bool, rest: string)
    ensures Unescape(EscapeOctet(c, signedChar) + rest)
         == [if OctetSurvives(c, signedChar) then c else 255 as char] + Unescape(rest)
  {
    var e := EscapeOctet(c, signedChar);
    var s := e + rest;
    if IsPlain(c) {
      assert s[1..] == rest;
    } else {
      var h := Hex2(c, signedChar);
      assert Pair(s, 1) == h && s[3..] == rest && s[0] == '-';
      assert CString(h) == h by { assert CString(h[1..]) == h[1..] by { assert h[1..][1..] == []; } }
      if signedChar && c as int >= 128 {
        assert ParseHex(h) == Some(255 as char);
      } else {
        HexRoundTrip(c);
      }
    }
  }

  lemma {:induction false} HexRoundTrip(c: Octet)
    ensures HexValue(HexDigit(c as int / 16)) == Some(c as int / 16)
    ensures HexValue(HexDigit(c as int % 16)) == Some(c as int % 16)
  {
  }

  /** Unescaping undoes escaping exactly on the strings all of whose bytes survive. */
  lemma {:induction false} UnescapeEscapeIff(s: seq<Octet>, signedChar: bool)
    ensures Unescape(Escape(s, signedChar)) == s <==> Survives(s, signedChar)
  {
    if s != [] {
      UnescapeEscapeIff(s[1..], signedChar);
      UnescapeOctet(s[0], signedChar, Escape(s[1..], signedChar));
      var first := if OctetSurvives(s[0], signedChar) then s[0] else 255 as char;
      assert Unescape(Escape(s, signedChar)) == [first] + Unescape(Escape(s[1..], signedChar));
      CutAtConcat([first], Unescape(Escape(s[1..], signedChar)));
      assert s == [s[0]] + s[1..];
      SurvivesCons(s, signedChar);
    }
  }

  lemma {:induction false} SurvivesCons(s: seq<Octet>, signedChar: bool)
    requires s != []
    ensures Survives(s, signedChar) <==> OctetSurvives(s[0], signedChar) && Survives(s[1..], signedChar)
  {
    assert forall i | 1 <= i < |s| :: s[i] == s[1..][i - 1];
    if OctetSurvives(s[0], signedChar) && Survives(s[1..], signedChar) {
      forall i | 0 <= i < |s| ensures OctetSurvives(s[i], signedChar) {
        if i > 0 { assert s[i] == s[1..][i - 1]; }
      }
    }
  }

  // ----- Escaping and unescaping character by character, whatever the functions above say -----

  /** `c` is the hexadecimal digit of value d, in either case, by its ASCII code. */
  predicate IsHex(c: char, d: nat) {
    if d < 10 then c as int == 48 + d else d < 16 && (c as int == 87 + d || c as int == 55 + d)
  }

  lemma {:induction false} HexValueIff(c: char, d: nat)
    ensures HexValue(c) == Some(d) <==> IsHex(c, d)
  {
  }

  /** Letters, digits and the underscore stay; another byte becomes a dash and two digits, ff if it is negative. */
  predicate EscapesTo(c: Octet, signedChar: bool, t: string) {
    var n := c as int;
    if 97 <= n <= 122 || 65 <= n <= 90 || 48 <= n <= 57 || n == 95 then t == [c]
    else if signedChar && n >= 128 then t == "-ff"
    else t == ['-', "0123456789abcdef"[n / 16], "0123456789abcdef"[n % 16]]
  }

  lemma {:induction false} HexDigitIs(n: nat)
    requires n < 16
    ensures HexDigit(n) == "0123456789abcdef"[n]
  {
  }

  lemma {:induction false} EscapedOctet(c: Octet, signedChar: bool)
    ensures EscapesTo(c, signedChar, EscapeOctet(c, signedChar))
  {
    HexDigitIs(c as int / 16);
    HexDigitIs(c as int % 16);
  }

  /** Text is escaped byte by byte. */
  lemma {:induction false} EscapedBytewise(s: seq<Octet>, last: Octet, signedChar: bool)
    ensures Escape([], signedChar) == []
    ensures exists t :: EscapesTo(last, signedChar, t) && Escape(s + [last], signedChar) == Escape(s, signedChar) + t
  {
    EscapedOctet(last, signedChar);
    EscapeSnoc(s, last, signedChar);
  }

  lemma {:induction false} EscapeSnoc(s: seq<Octet>, last: Octet, signedChar: bool)
    ensures Escape(s + [last], signedChar) == Escape(s, signedChar) + EscapeOctet(last, signedChar)
  {
    var e := EscapeOctet(last, signedChar);
    if s == [] {
      assert s + [last] == [last] && [last][1..] == [];
      assert e + [] == e && [] + e == e;
    } else {
      assert (s + [last])[1..] == s[1..] + [last];
      EscapeSnoc(s[1..], last, signedChar);
      Assoc(EscapeOctet(s[0], signedChar), Escape(s[1..], signedChar), e);
    }
  }

  /**
   Two characters after a dash read as the byte v: two digits; a digit after a space, a plus or a
   minus, which negates it; a digit before a NUL; or a NUL, whatever follows it.
   */
  predicate ReadsAs(a: char, b: char, v: nat) {
    || (a as int == 0 && v == 0)
    || (b as int == 0 && IsHex(a, v))
    || (v < 256 && IsHex(a, v / 16) && IsHex(b, v % 16))
    || ((a == ' ' || 9 <= a as int <= 13 || a == '+') && IsHex(b, v))
    || (a == '-' && v < 256 && IsHex(b, (256 - v) % 256))
  }

  lemma {:induction false} PairText(a: char, b: char)
    ensures CString([a, b]) == if a as int == 0 then [] else if b as int == 0 then [a] else [a, b]
  {
    assert [a, b][1..] == [b] && [b][1..] == [];
    assert CString([b]) == if b as int == 0 then [] else [b];
  }

  lemma {:induction false} PairReads(a: char, b: char)
    ensures ParseHex([a, b]).Some? ==> ReadsAs(a, b, ParseHex([a, b]).value as int)
  {
    PairText(a, b);
    if HexValue(a).Some? { HexValueIff(a, HexValue(a).value); }
    if HexValue(b).Some? { HexValueIff(b, HexValue(b).value); }
  }

  lemma {:induction false} ReadPair(a: char, b: char, v: nat)
    requires ReadsAs(a, b, v)
    ensures v < 256 && ParseHex([a, b]) == Some(v as char)
  {
    PairText(a, b);
    HexValueIff(a, v);
    HexValueIff(b, v);
    HexValueIff(a, v / 16);
    HexValueIff(b, v % 16);
    if v < 256 { HexValueIff(b, (256 - v) % 256); }
  }

  /** A dash is dropped exactly if the two characters after it read as a byte, which then stands for all three. */
  lemma {:induction false} UnescapedDash(a: char, b: char, s: string)
    ensures forall v :: ReadsAs(a, b, v) ==> v < 256 && Unescape(['-', a, b] + s) == [v as char] + Unescape(s)
    ensures (forall v :: !ReadsAs(a, b, v)) ==> Unescape(['-', a, b] + s) == ['-'] + Unescape([a, b] + s)
  {
    var t := ['-', a, b] + s;
    assert Pair(t, 1) == [a, b] && t[3..] == s && t[1..] == [a, b] + s;
    PairReads(a, b);
    forall v | ReadsAs(a, b, v) ensures v < 256 && ParseHex([a, b]) == Some(v as char) { ReadPair(a, b, v); }
  }

  /** Any other character stays; a dash at the very end reads as NUL, and one before a last digit as that digit. */
  lemma {:induction false} UnescapedRest(c: char, s: string)
    ensures Unescape([]) == []
    ensures c != '-' ==> Unescape([c] + s) == [c] + Unescape(s)
    ensures Unescape(['-']) == [0 as char]
    ensures forall d :: IsHex(c, d) ==> Unescape(['-', c]) == [d as char]
    ensures c as int == 0 ==> Unescape(['-', c]) == [0 as char]
    ensures c as int != 0 && (forall d :: !IsHex(c, d)) ==> Unescape(['-', c]) == ['-'] + Unescape([c])
  {
    assert ([c] + s)[1..] == s;
    assert Pair(['-'], 1) == [] && Pair(['-', c], 1) == [c] && ['-', c][1..] == [c];
    assert CString([c]) == if c as int == 0 then [] else [c] by { assert [c][1..] == []; }
    forall d: nat ensures HexValue(c) == Some(d) <==> IsHex(c, d) { HexValueIff(c, d); }
  }

  /** In escaped text a dash is always followed by two characters, the first not a dash. */
  lemma {:induction false} DashesAreFollowed(s: seq<Octet>, signedChar: bool, k: nat)
    requires k < |Escape(s, signedChar)| && Escape(s, signedChar)[k] == '-'
    ensures k + 2 < |Escape(s, signedChar)| && Escape(s, signedChar)[k + 1] != '-'
  {
    var e := EscapeOctet(s[0], signedChar);
    if k >= |e| {
      DashesAreFollowed(s[1..], signedChar, k - |e|);
    }
  }

  lemma {:induction false} EscapedEndsCleanly(s: seq<Octet>, signedChar: bool)
    ensures EndsCleanly(Escape(s, signedChar), SEPARATOR)
    ensures !Contains(Escape(s, signedChar), SEPARATOR)
  {
    var e := Escape(s, signedChar);
    FindIsLeftmost(e, SEPARATOR);
    FindIsLeftmost(e + SEPARATOR, SEPARATOR);
    forall k: nat | k < |e| ensures !OccursAt(e + SEPARATOR, SEPARATOR, k) && !OccursAt(e, SEPARATOR, k) {
      if e[k] == '-' {
        DashesAreFollowed(s, signedChar, k);
        assert (e + SEPARATOR)[k..k + 3][1] == e[k + 1];
      } else {
        assert (e + SEPARATOR)[k..k + 3][0] == e[k];
      }
    }
    assert OccursAt(e + SEPARATOR, SEPARATOR, |e|);
  }

  /** The block ids for which leftmost splitting finds the right first separator. */
  predicate GoodBlockId(block: string) {
    !Contains(block, SEPARATOR) && (block == [] || Last(block) != '-')
  }

  lemma {:induction false} NoEarlySeparator(block: string, k: nat)
    requires GoodBlockId(block) && k < |block|
    ensures !OccursAt(block + SEPARATOR, SEPARATOR, k)
  {
    var s := block + SEPARATOR;
    if k + 3 <= |block| {
      assert block[k..k + 3] == s[k..k + 3];
      if OccursAt(s, SEPARATOR, k) { FindNotAfter(block, SEPARATOR, k); }
    } else {
      assert s[k..k + 3][|block| - 1 - k] == Last(block);
    }
  }

  lemma {:induction false} EarlySeparator(block: string, k: nat)
    requires k < |block| && OccursAt(block + SEPARATOR, SEPARATOR, k)
    ensures !EndsCleanly(block, SEPARATOR)
  {
    FindNotAfter(block + SEPARATOR, SEPARATOR, k);
  }

  lemma {:induction false} GoodBlockIdIff(block: string)
    ensures EndsCleanly(block, SEPARATOR) <==> GoodBlockId(block)
  {
    var s := block + SEPARATOR;
    var n := |block|;
    if Contains(block, SEPARATOR) {
      var k := Find(block, SEPARATOR).value;
      FindIsLeftmost(block, SEPARATOR);
      assert s[k..k + 3] == block[k..k + 3];
      EarlySeparator(block, k);
    } else if block != [] && Last(block) == '-' {
      assert s[n - 1..n + 2] == SEPARATOR;
      EarlySeparator(block, n - 1);
    } else {
      forall k: nat | k < n ensures !OccursAt(s, SEPARATOR, k) {
        NoEarlySeparator(block, k);
      }
      assert s[n..n + 3] == SEPARATOR;
      FirstOccurrence(s, SEPARATOR, n);
    }
  }

  function GetGUID(block: string, device: seq<Octet>, control: seq<Octet>, signedChar: bool): string {
    block + SEPARATOR + Escape(device, signedChar) + SEPARATOR + Escape(control, signedChar)
  }

  /** ParseGUID: None stands for the undefined result. */
  method ParseGUID(block: string, guid: string) returns (r: Option<(string, string)>)
    ensures r == Parsed(block, guid)
  {
    var tokens := StringSplit(guid, SEPARATOR);
    if |tokens| != 3 { return None; }
    if tokens[0] != block { return None; }
    var device := SelectorUnescape(tokens[1]);
    var control := SelectorUnescape(tokens[2]);
    return Some((device, control));
  }

  /** The value of ParseGUID, as a function of the GUID. */
  function Parsed(block: string, guid: string): Option<(string, string)> {
    var tokens := Split(guid, SEPARATOR);
    if |tokens| == 3 && tokens[0] == block then Some((Unescape(tokens[1]), Unescape(tokens[2]))) else None
  }

  /** The tokens of a generated GUID. */
  lemma {:induction false} GuidTokens(block: string, device: seq<Octet>, control: seq<Octet>, signedChar: bool)
    ensures var ts := Split(GetGUID(block, device, control, signedChar), SEPARATOR);
            if GoodBlockId(block)
            then ts == [block, Escape(device, signedChar), Escape(control, signedChar)]
            else ts[0] != block
  {
    var d, c := Escape(device, signedChar), Escape(control, signedChar);
    EscapedEndsCleanly(device, signedChar);
    EscapedEndsCleanly(control, signedChar);
    GoodBlockIdIff(block);
    Assoc(block + SEPARATOR, d, SEPARATOR + c);
    Assoc(d, SEPARATOR, c);
    assert GetGUID(block, device, control, signedChar) == block + SEPARATOR + (d + SEPARATOR + c);
    ThreeTokens(block, d, c);
  }

  lemma {:induction false} ThreeTokens(block: string, d: string, c: string)
    requires EndsCleanly(d, SEPARATOR) && !Contains(c, SEPARATOR)
    ensures var ts := Split(block + SEPARATOR + (d + SEPARATOR + c), SEPARATOR);
            if EndsCleanly(block, SEPARATOR) then ts == [block, d, c] else ts[0] != block
  {
    SplitSingle(c, SEPARATOR);
    SplitCons(d, SEPARATOR, c, [c]);
    assert [block] + ([d] + [c]) == [block, d, c];
    SplitCons(block, SEPARATOR, d + SEPARATOR + c, [d] + [c]);
    FirstTokenIsShort(block, SEPARATOR, d + SEPARATOR + c);
  }

  /** Three parts joined by separators; none contains one, and the first two do not end with a dash. */
  predicate HasParts(guid: string, block: string, d: string, c: string) {
    && guid == block + "---" + (d + "---" + c)
    && GoodBlockId(block) && GoodBlockId(d) && !Contains(c, "---")
  }

  lemma {:induction false} JoinThree(a: string, d: string, c: string)
    ensures Join([a, d, c], "---") == a + "---" + (d + "---" + c)
  {
    assert [a, d, c][1..] == [d, c] && [d, c][1..] == [c];
    assert Join([d, c], "---") == d + "---" + c;
  }

  lemma {:induction false} TokensOfThree(guid: string, a: string, d: string, c: string)
    requires Split(guid, "---") == [a, d, c]
    ensures HasParts(guid, a, d, c)
  {
    var ts := [a, d, c];
    JoinSplit(guid, "---");
    SplitJoinIff(ts, "---");
    JoinThree(a, d, c);
    assert EndsCleanly(ts[0], "---") && EndsCleanly(ts[1], "---") && Last(ts) == c;
    GoodBlockIdIff(a);
    GoodBlockIdIff(d);
  }

  lemma {:induction false} PartsAreParsed(guid: string, block: string, d: string, c: string)
    requires HasParts(guid, block, d, c)
    ensures Parsed(block, guid) == Some((Unescape(d), Unescape(c)))
  {
    GoodBlockIdIff(block);
    GoodBlockIdIff(d);
    ThreeTokens(block, d, c);
  }

  /** Exactly the texts made of this block's id and two further parts are parsed. */
  lemma {:induction false} ParsedIff(block: string, guid: string, device: string, control: string)
    ensures Parsed(block, guid) == Some((device, control))
       <==> exists d, c :: HasParts(guid, block, d, c) && device == Unescape(d) && control == Unescape(c)
  {
    if Parsed(block, guid) == Some((device, control)) {
      var ts := Split(guid, "---");
      TokensOfThree(guid, ts[0], ts[1], ts[2]);
    }
    forall d, c | HasParts(guid, block, d, c) ensures Parsed(block, guid) == Some((Unescape(d), Unescape(c))) {
      PartsAreParsed(guid, block, d, c);
    }
  }

  /** The GUIDs of another block are not parsed. */
  lemma {:induction false} OtherBlockIsUndefined(block: string, other: string, device: seq<Octet>,
          control: seq<Octet>, signedChar: bool)
    requires other != block && GoodBlockId(other)
    ensures Parsed(block, GetGUID(other, device, control, signedChar)).None?
  {
    GuidTokens(other, device, control, signedChar);
  }

  /**
   Parsing a generated GUID gives back the device and control ids exactly when
   the block id is good and both names survive escaping.
   */
  lemma {:induction false} ParseGetGUIDIff(block: string, device: seq<Octet>, control: seq<Octet>, signedChar: bool)
    ensures Parsed(block, GetGUID(block, device, control, signedChar)) == Some((device, control))
       <==> GoodBlockId(block) && Survives(device, signedChar) && Survives(control, signedChar)
  {
    GuidTokens(block, device, control, signedChar);
    UnescapeEscapeIff(device, signedChar);
    UnescapeEscapeIff(control, signedChar);
  }

  /** Different names get different GUIDs. */
  lemma {:induction false} GuidIsInjective(block: string, d1: seq<Octet>, c1: seq<Octet>, d2: seq<Octet>,
          c2: seq<Octet>,
                        signedChar: bool)
    requires GoodBlockId(block)
    requires Survives(d1, signedChar) && Survives(c1, signedChar)
    requires Survives(d2, signedChar) && Survives(c2, signedChar)
    requires GetGUID(block, d1, c1, signedChar) == GetGUID(block, d2, c2, signedChar)
    ensures d1 == d2 && c1 == c2
  {
    GuidTokens(block, d1, c1, signedChar);
    GuidTokens(block, d2, c2, signedChar);
    UnescapeEscapeIff(d1, signedChar);
    UnescapeEscapeIff(d2, signedChar);
    UnescapeEscapeIff(c1, signedChar);
    UnescapeEscapeIff(c2, signedChar);
  }
}
