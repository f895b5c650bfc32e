/**
 Splitting and replacing on substrings, as common/utils.cpp does it.

 `Find`, `Split` and `Join` are the reference definitions; the methods are the
 loops of the library, each proved to compute the reference value.
 */
module Strings {
  import opened Common

  predicate OccursAt(s: string, d: string, k: nat) {
    k + |d| <= |s| && s[k..k + |d|] == d
  }

  /** The leftmost occurrence of `d` in `s` (std::string::find). */
  function Find(s: string, d: string): (r: Option<nat>)
    ensures r.Some? ==> r.value + |d| <= |s|
  {
    if OccursAt(s, d, 0) then Some(0)
    else if s == [] then None
    else
      match Find(s[1..], d)
      case None => None
      case Some(k) => Some(k + 1)
  }

  /** Find returns an occurrence, and none comes before it; without a result there is none. */
  lemma {:induction false} FindIsLeftmost(s: string, d: string)
    ensures Find(s, d).Some? ==> OccursAt(s, d, Find(s, d).value)
    ensures Find(s, d).Some? ==> forall k: nat | k < Find(s, d).value :: !OccursAt(s, d, k)
    ensures Find(s, d).None? ==> forall k: nat :: !OccursAt(s, d, k)
  {
    if !OccursAt(s, d, 0) && s != [] {
      FindIsLeftmost(s[1..], d);
      forall k: nat | k > 0 ensures OccursAt(s, d, k) <==> OccursAt(s[1..], d, k - 1) {
        OccursInTail(s, d, k);
      }
    }
  }

  lemma {:induction false} FindNotAfter(s: string, d: string, k: nat)
    requires OccursAt(s, d, k)
    ensures Find(s, d).Some? && Find(s, d).value <= k
  {
    FindIsLeftmost(s, d);
  }

  lemma {:induction false} FirstOccurrence(s: string, d: string, k: nat)
    requires OccursAt(s, d, k) && forall j: nat | j < k :: !OccursAt(s, d, j)
    ensures Find(s, d) == Some(k)
  {
    FindIsLeftmost(s, d);
  }

  lemma {:induction false} OccursInTail(s: string, d: string, k: nat)
    requires s != [] && k > 0
    ensures OccursAt(s, d, k) <==> OccursAt(s[1..], d, k - 1)
  {
    if k + |d| <= |s| { SliceOfDrop(s, 1, k - 1, k - 1 + |d|); }
  }

  predicate Contains(s: string, d: string) {
    Find(s, d).Some?
  }

  /** Cuts `s` at every non-overlapping occurrence of `d`, leftmost first. */
  function Split(s: string, d: string): (ts: seq<string>)
    requires d != []
    ensures ts != []
    decreases |s|
  {
    match Find(s, d)
    case None => [s]
    case Some(k) => [s[..k]] + Split(s[k + |d|..], d)
  }

  function Join(ts: seq<string>, d: string): string
    requires ts != []
  {
    if |ts| == 1 then ts[0] else ts[0] + d + Join(ts[1..], d)
  }

  /** Joining the tokens of a split with the delimiter gives the text back. */
  lemma {:induction false} JoinSplit(s: string, d: string)
    requires d != []
    ensures Join(Split(s, d), d) == s
    decreases |s|
  {
    match Find(s, d)
    case None =>
    case Some(k) =>
      FindIsLeftmost(s, d);
      JoinSplit(s[k + |d|..], d);
      assert Split(s, d)[1..] == Split(s[k + |d|..], d);
      assert s == s[..k] + d + s[k + |d|..];
  }

  lemma {:induction false} PrefixIsFree(s: string, d: string)
    requires d != [] && Find(s, d).Some?
    ensures !Contains(s[..Find(s, d).value], d)
  {
    var t := s[..Find(s, d).value];
    FindIsLeftmost(s, d);
    FindIsLeftmost(t, d);
    if Contains(t, d) {
      var j := Find(t, d).value;
      assert t[j..j + |d|] == s[j..j + |d|];
      assert OccursAt(s, d, j);
      assert false;
    }
  }

  lemma {:induction false} SplitAtHit(s: string, d: string, k: nat)
    requires d != [] && Find(s, d) == Some(k)
    ensures k + |d| <= |s| && Split(s, d) == [s[..k]] + Split(s[k + |d|..], d)
  {
  }

  predicate AllFree(ts: seq<string>, d: string) {
    forall t | t in ts :: !Contains(t, d)
  }

  lemma {:induction false} AllFreeCons(t: string, ts: seq<string>, d: string)
    requires !Contains(t, d) && AllFree(ts, d)
    ensures AllFree([t] + ts, d)
  {
  }

  /** No token of a split contains the delimiter. */
  lemma {:induction false} SplitTokensAreFree(s: string, d: string)
    requires d != []
    ensures AllFree(Split(s, d), d)
    decreases |s|
  {
    var hit := Find(s, d);
    if hit.Some? {
      var k := hit.value;
      SplitAtHit(s, d, k);
      PrefixIsFree(s, d);
      SplitTokensAreFree(s[k + |d|..], d);
      AllFreeCons(s[..k], Split(s[k + |d|..], d), d);
    }
  }

  /** Leftmost splitting recovers a token exactly when no occurrence starts inside it. */
  predicate EndsCleanly(t: string, d: string) {
    Find(t + d, d) == Some(|t|)
  }

  predicate Separable(ts: seq<string>, d: string)
    requires ts != []
  {
    && (forall i | 0 <= i < |ts| - 1 :: EndsCleanly(ts[i], d))
    && !Contains(Last(ts), d)
  }

  lemma {:induction false} FindInExtension(t: string, d: string, rest: string)
    requires d != []
    ensures Find(t + d + rest, d).Some? && Find(t + d + rest, d).value <= |t|
    ensures EndsCleanly(t, d) <==> Find(t + d + rest, d) == Some(|t|)
  {
    var whole := t + d + rest;
    assert whole[|t|..|t| + |d|] == d;
    assert OccursAt(whole, d, |t|);
    assert (t + d)[|t|..|t| + |d|] == d;
    assert OccursAt(t + d, d, |t|);
    FindIsLeftmost(whole, d);
    FindIsLeftmost(t + d, d);
    forall k: nat | k <= |t| ensures OccursAt(whole, d, k) <==> OccursAt(t + d, d, k) {
      assert whole[k..k + |d|] == (t + d)[k..k + |d|];
    }
  }

  lemma {:induction false} SplitCons(t: string, d: string, rest: string, ts: seq<string>)
    requires d != []
    ensures Split(t + d + rest, d) == [t] + ts <==> EndsCleanly(t, d) && Split(rest, d) == ts
  {
    FindInExtension(t, d, rest);
    var s := t + d + rest;
    if EndsCleanly(t, d) {
      assert s[..|t|] == t && s[|t| + |d|..] == rest;
      CutAtConcat([t], Split(rest, d));
      CutAtConcat([t], ts);
    } else {
      assert |Split(s, d)[0]| < |t|;
      assert ([t] + ts)[0] == t;
    }
  }

  lemma {:induction false} FirstTokenIsShort(t: string, d: string, rest: string)
    requires d != []
    ensures !EndsCleanly(t, d) ==> |Split(t + d + rest, d)[0]| < |t|
  {
    FindInExtension(t, d, rest);
  }

  /** Splitting undoes joining exactly on separable token lists. */
  lemma {:induction false} SplitJoinIff(ts: seq<string>, d: string)
    requires d != [] && ts != []
    ensures Split(Join(ts, d), d) == ts <==> Separable(ts, d)
  {
    if |ts| == 1 {
      SplitSingle(ts[0], d);
      assert ts == [ts[0]];
    } else {
      SplitJoinIff(ts[1..], d);
      SplitCons(ts[0], d, Join(ts[1..], d), ts[1..]);
      SeparableCons(ts, d);
      assert ts == [ts[0]] + ts[1..];
    }
  }

  lemma {:induction false} SplitSingle(t: string, d: string)
    requires d != []
    ensures Split(t, d) == [t] <==> !Contains(t, d)
  {
    if Contains(t, d) { assert |Split(t, d)| >= 2; }
  }

  lemma {:induction false} SeparableCons(ts: seq<string>, d: string)
    requires |ts| > 1
    ensures Separable(ts, d) <==> EndsCleanly(ts[0], d) && Separable(ts[1..], d)
  {
    assert Last(ts[1..]) == Last(ts);
    assert forall i | 1 <= i < |ts| :: ts[i] == ts[1..][i - 1];
    if EndsCleanly(ts[0], d) && Separable(ts[1..], d) {
      forall i | 0 <= i < |ts| - 1 ensures EndsCleanly(ts[i], d) {
        if i > 0 { assert ts[i] == ts[1..][i - 1]; }
      }
    }
    if Separable(ts, d) {
      forall i | 0 <= i < |ts| - 2 ensures EndsCleanly(ts[1..][i], d) {
        assert ts[1..][i] == ts[i + 1];
      }
    }
  }

  /** StringSplit on a substring delimiter. An empty delimiter makes the loop run forever. */
  method StringSplit(s: string, delim: string) returns (elems: seq<string>)
    requires delim != []
    ensures elems == Split(s, delim)
  {
    elems := [];
    var current := 0;
    var next := Find(s, delim);
    while next.Some?
      invariant current <= |s|
      invariant next == Find(s[current..], delim)
      invariant elems + Split(s[current..], delim) == Split(s, delim)
      decreases |s| - current
    {
      var rest := s[current..];
      elems := elems + [rest[..next.value]];
      current := current + next.value + |delim|;
      assert s[current..] == rest[next.value + |delim|..];
      next := Find(s[current..], delim);
    }
    elems := elems + [s[current..]];
  }

  /** What StringReplace makes of the part of the text it has not searched yet. */
  function Replaced(s: string, search: string, replace: string): (r: string)
    requires search != []
  {
    Join(Split(s, search), replace)
  }

  lemma {:induction false} JoinCons(t: string, ts: seq<string>, d: string)
    requires ts != []
    ensures Join([t] + ts, d) == t + d + Join(ts, d)
  {
    assert ([t] + ts)[1..] == ts;
  }

  lemma {:induction false} ReplacedAtHit(s: string, search: string, replace: string, k: nat)
    requires search != [] && Find(s, search) == Some(k)
    ensures k + |search| <= |s|
    ensures Replaced(s, search, replace) == s[..k] + replace + Replaced(s[k + |search|..], search, replace)
  {
    SplitAtHit(s, search, k);
    JoinCons(s[..k], Split(s[k + |search|..], search), replace);
  }

  /** StringReplace: search resumes after the inserted text, so replacements are never rescanned. */
  method StringReplace(text: string, search: string, replace: string) returns (subject: string)
    requires search != []
    ensures subject == Join(Split(text, search), replace)
  {
    subject := text;
    var pos := 0;
    var hit := Find(subject[pos..], search);
    ghost var final := Pending(text, search, replace, 0);
    while hit.Some?
      invariant pos <= |subject|
      invariant hit == Find(subject[pos..], search)
      invariant Pending(subject, search, replace, pos) == final
      decreases |subject| - pos
    {
      ReplaceStep(subject, search, replace, pos, hit.value);
      subject := subject[..pos + hit.value] + replace + subject[pos + hit.value + |search|..];
      pos := pos + hit.value + |replace|;
      hit := Find(subject[pos..], search);
    }
    PendingBounds(text, search, replace, 0);
    PendingBounds(subject, search, replace, pos);
  }

  lemma {:induction false} PendingBounds(subject: string, search: string, replace: string, pos: nat)
    requires search != [] && pos <= |subject|
    ensures pos == 0 ==> Pending(subject, search, replace, pos) == Join(Split(subject, search), replace)
    ensures !Contains(subject[pos..], search) ==> Pending(subject, search, replace, pos) == subject
  {
    assert subject == subject[..pos] + subject[pos..];
    if pos == 0 { assert subject[pos..] == subject; }
  }

  /** The final text, given that everything before `pos` is final already. */
  function Pending(subject: string, search: string, replace: string, pos: nat): string
    requires search != [] && pos <= |subject|
  {
    subject[..pos] + Replaced(subject[pos..], search, replace)
  }

  lemma {:induction false} ReplaceStep(subject: string, search: string, replace: string, pos: nat, k: nat)
    requires search != [] && pos <= |subject| && Find(subject[pos..], search) == Some(k)
    ensures pos + k + |search| <= |subject|
    ensures
      var next := subject[..pos + k] + replace + subject[pos + k + |search|..];
      var pos' := pos + k + |replace|;
      && |next| - pos' < |subject| - pos
      && pos' <= |next|
      && Pending(next, search, replace, pos') == Pending(subject, search, replace, pos)
  {
    var rest, after := subject[pos..], subject[pos + k + |search|..];
    var head := subject[..pos + k] + replace;
    ReplacedAtHit(rest, search, replace, k);
    assert rest[k + |search|..] == after;
    CutAtConcat(head, after);
    assert subject[..pos + k] == subject[..pos] + rest[..k];
    Regroup(subject[..pos], rest[..k], replace, Replaced(after, search, replace));
  }

  lemma {:induction false} Regroup(a: string, b: string, c: string, d: string)
    ensures a + b + c + d == a + (b + c + d)
  {
  }

  /** The single-character split reads lines from a stream: an empty last piece is not reported. */
  function SplitLines(s: string, c: char): seq<string> {
    if s == [] then []
    else
      match Find(s, [c])
      case None => [s]
      case Some(k) => [s[..k]] + SplitLines(s[k + 1..], c)
  }

  function DropEmptyTail(ts: seq<string>): seq<string>
    requires ts != []
  {
    if Last(ts) == [] then ts[..|ts| - 1] else ts
  }

  lemma {:induction false} DropEmptyTailCons(t: string, ts: seq<string>)
    requires ts != []
    ensures DropEmptyTail([t] + ts) == [t] + DropEmptyTail(ts)
  {
    assert Last([t] + ts) == Last(ts);
    assert ([t] + ts)[..|ts|] == [t] + ts[..|ts| - 1];
  }

  lemma {:induction false} SplitLinesIsSplit(s: string, c: char)
    ensures SplitLines(s, c) == DropEmptyTail(Split(s, [c]))
    decreases |s|
  {
    var hit := Find(s, [c]);
    if hit.Some? {
      var k := hit.value;
      SplitAtHit(s, [c], k);
      SplitLinesIsSplit(s[k + 1..], c);
      DropEmptyTailCons(s[..k], Split(s[k + 1..], [c]));
    }
  }

  /** StringSplit on a character: std::getline until the stream is exhausted. */
  method StringSplitChar(s: string, delim: char) returns (elems: seq<string>)
    ensures elems == SplitLines(s, delim)
  {
    elems := [];
    var pos := 0;
    while pos < |s|
      invariant pos <= |s|
      invariant elems + SplitLines(s[pos..], delim) == SplitLines(s, delim)
    {
      var rest := s[pos..];
      match Find(rest, [delim]) {
        case None =>
          elems := elems + [rest];
          pos := |s|;
        case Some(k) =>
          elems := elems + [rest[..k]];
          pos := pos + k + 1;
          assert s[pos..] == rest[k + 1..];
      }
    }
  }
}
