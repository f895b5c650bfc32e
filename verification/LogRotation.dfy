/**
 The log store of mqtt-logger/main.cpp: a current file, and numbered old ones
 that are renamed upwards when the current one outgrows its limit.

 A file is the list of lines written to it. File 0 is the current log; file i is
 the old log with suffix ".i". A missing file is a missing key.
 */
module LogRotation {
  import opened Common

  type File = seq<string>

  type Store = map<nat, File>

  function Size(f: File): nat {
    if f == [] then 0 else Size(f[..|f| - 1]) + |Last(f)|
  }

  function Content(s: Store, i: nat): File {
    if i in s then s[i] else []
  }

  /** The old logs from `.n` down and then the current one: oldest line first. */
  function History(s: Store, n: nat): File {
    if n == 0 then Content(s, 0) else Content(s, n) + History(s, n - 1)
  }

  /** rename(2), skipped when the source does not exist. */
  function Rename(s: Store, i: nat, j: nat): Store
    requires i != j
  {
    if i in s then (s - {i})[j := s[i]] else s
  }

  /** The renaming loop from file `.i` down to file `.1`. */
  function ShiftFrom(s: Store, i: nat): Store
    decreases i
  {
    if i == 0 then s else ShiftFrom(Rename(s, i, i + 1), i - 1)
  }

  /** How many old logs are kept: a setting below 1 still keeps one. */
  function Kept(number: int): nat
    ensures Kept(number) >= 1
  {
    if number < 1 then 1 else number
  }

  /** The store after a rotation. */
  function Rotate(s: Store, number: int): Store {
    Rename(ShiftFrom(s, Kept(number) - 1), 0, 1)[0 := []]
  }

  /** The store after one more line. */
  function Log(s: Store, line: string, number: int, max: int): Store {
    var appended := s[0 := Content(s, 0) + [line]];
    if Size(appended[0]) > max then Rotate(appended, number) else appended
  }

  // ----- What one message does, whatever the functions above say -----

  function Found(s: Store, i: nat): Option<File> {
    if i in s then Some(s[i]) else None
  }

  /**
   File 1 is the former current log. Each further one up to `.n` is the file below it; where
   that is missing there is none, but `.n` itself stays. Files past `.n` are left alone.
   */
  ghost predicate MovedUp(s: Store, f: File, n: nat, t: Store) {
    && Found(t, 1) == Some(f)
    && forall i: nat | i > 1 :: Found(t, i) == MovedTo(s, n, i)
  }

  function MovedTo(s: Store, n: nat, i: nat): Option<File>
    requires i > 1
  {
    if i <= n && i - 1 in s then Some(s[i - 1]) else if i >= n then Found(s, i) else None
  }

  /** Within the limit a line is appended and nothing else changes; past it, the current log is empty again. */
  ghost predicate MessageDoes(s: Store, line: string, number: int, max: int, t: Store)
    requires 0 in s
  {
    var f := s[0] + [line];
    if Size(s[0]) + |line| <= max then t == s[0 := f]
    else 0 in t && t[0] == [] && MovedUp(s, f, if number < 1 then 1 else number, t)
  }

  class Logger {
    const number: int
    const max: int
    var files: Store

    /** Opens the current log for appending, which creates it if need be; `kilobytes` is the configured size. */
    constructor (existing: Store, number: int, kilobytes: int)
      ensures this.number == number && max == 1024 * kilobytes
      ensures files == existing[0 := Content(existing, 0)]
    {
      this.number := number;
      max := 1024 * kilobytes;
      files := existing[0 := Content(existing, 0)];
    }

    method OnMessage(line: string)
      requires 0 in files
      modifies this`files
      ensures 0 in files && files == Log(old(files), line, number, max)
      ensures MessageDoes(old(files), line, number, max, files)
    {
      LogDoes(files, line, number, max);
      files := files[0 := files[0] + [line]];
      if Size(files[0]) > max {
        ghost var goal := ShiftFrom(files, Kept(number) - 1);
        var i := number - 1;
        while i > 0
          invariant i <= number - 1
          invariant ShiftFrom(files, if i > 0 then i else 0) == goal
          invariant 0 in files
        {
          if i in files {
            files := (files - {i})[i + 1 := files[i]];
          }
          i := i - 1;
        }
        files := (files - {0})[1 := files[0]];
        files := files[0 := []];
      }
    }
  }

  // ----- What a rotation does to each file -----

  lemma {:induction false} ShiftKeepsOutside(s: Store, i: nat, j: nat)
    requires j == 0 || j > i + 1
    ensures j in ShiftFrom(s, i) <==> j in s
    ensures j in s ==> ShiftFrom(s, i)[j] == s[j]
    decreases i
  {
    if i > 0 { ShiftKeepsOutside(Rename(s, i, i + 1), i - 1, j); }
  }

  lemma {:induction false} ShiftVacatesFirst(s: Store, i: nat)
    requires i == 0 ==> 1 !in s
    ensures 1 !in ShiftFrom(s, i)
    decreases i
  {
    if i > 0 { ShiftVacatesFirst(Rename(s, i, i + 1), i - 1); }
  }

  lemma {:induction false} HistoryDependsOnLower(s: Store, t: Store, n: nat)
    requires forall j: nat | j <= n :: Content(s, j) == Content(t, j)
    ensures History(s, n) == History(t, n)
  {
    if n > 0 { HistoryDependsOnLower(s, t, n - 1); }
  }

  /** Moving files up into a free slot changes nothing in the order of the lines. */
  lemma {:induction false} ShiftIntoGap(s: Store, i: nat)
    requires i + 1 !in s
    ensures History(ShiftFrom(s, i), i + 1) == History(s, i)
    decreases i
  {
    if i > 0 {
      var r := Rename(s, i, i + 1);
      ShiftIntoGap(r, i - 1);
      ShiftKeepsOutside(r, i - 1, i + 1);
      HistoryDependsOnLower(r, s, i - 1);
    }
  }

  /** The loop overwrites the topmost file exactly when the one below it exists. */
  lemma {:induction false} ShiftHistory(s: Store, i: nat)
    ensures i in s && i > 0 ==> History(ShiftFrom(s, i), i + 1) == History(s, i)
    ensures i !in s && i > 0 ==> History(ShiftFrom(s, i), i + 1) == History(s, i + 1)
  {
    if i > 0 {
      var r := Rename(s, i, i + 1);
      ShiftIntoGap(r, i - 1);
      ShiftKeepsOutside(r, i - 1, i + 1);
      HistoryDependsOnLower(r, s, i - 1);
    }
  }

  /** Whether a rotation overwrites the oldest log. */
  predicate DropsOldest(s: Store, number: int) {
    Kept(number) == 1 || Kept(number) - 1 in s
  }

  /**
   A rotation, from any store: the lines of the oldest log are dropped exactly when
   the log below it exists, and all other lines keep their order.
   */
  lemma {:induction false} RotationKeepsHistory(s: Store, number: int)
    requires 0 in s
    ensures History(Rotate(s, number), Kept(number))
         == if DropsOldest(s, number) then History(s, Kept(number) - 1) else History(s, Kept(number))
  {
    var n := Kept(number);
    if n == 1 {
      RotateSingle(s);
    } else {
      var t := ShiftFrom(s, n - 1);
      ShiftKeepsOutside(s, n - 1, 0);
      ShiftHistory(s, n - 1);
      ShiftVacatesFirst(s, n - 1);
      CurrentBecomesFirst(t, n);
    }
  }

  lemma {:induction false} RotateSingle(s: Store)
    requires 0 in s
    ensures History(Rename(s, 0, 1)[0 := []], 1) == History(s, 0)
  {
    assert History(Rename(s, 0, 1)[0 := []], 1) == s[0] + [];
  }

  lemma {:induction false} CurrentBecomesFirst(t: Store, n: nat)
    requires 0 in t && 1 !in t && n >= 1
    ensures History(Rename(t, 0, 1)[0 := []], n) == History(t, n)
  {
    var u := Rename(t, 0, 1)[0 := []];
    if n == 1 {
      assert History(u, 1) == t[0] + [];
      assert History(t, 1) == [] + t[0];
    } else {
      CurrentBecomesFirst(t, n - 1);
    }
  }

  /** The exact place of every file among .1 ... .(i + 1) after the loop, gaps included. */
  lemma {:induction false} ShiftedFile(s: Store, i: nat, j: nat)
    requires 1 <= j <= i + 1
    ensures j in ShiftFrom(s, i) <==> (j > 1 && j - 1 in s) || (j == i + 1 && j in s)
    ensures j in ShiftFrom(s, i) ==> ShiftFrom(s, i)[j] == if j > 1 && j - 1 in s then s[j - 1] else s[j]
    decreases i
  {
    if i > 0 {
      var r := Rename(s, i, i + 1);
      if j == i + 1 { ShiftKeepsOutside(r, i - 1, j); } else { ShiftedFile(r, i - 1, j); }
    }
  }

  lemma {:induction false} RotateMovesUp(s: Store, number: int)
    requires 0 in s
    ensures MovedUp(s, s[0], if number < 1 then 1 else number, Rotate(s, number))
  {
    var n := Kept(number);
    ShiftKeepsOutside(s, n - 1, 0);
    forall i: nat | i > 1 ensures Found(Rotate(s, number), i) == MovedTo(s, n, i) {
      if i <= n { ShiftedFile(s, n - 1, i); } else { ShiftKeepsOutside(s, n - 1, i); }
    }
  }

  /** Every message, on any store. */
  lemma {:induction false} LogDoes(s: Store, line: string, number: int, max: int)
    requires 0 in s
    ensures MessageDoes(s, line, number, max, Log(s, line, number, max))
  {
    var a := s[0 := s[0] + [line]];
    RotateMovesUp(a, number);
    assert a[0][..|s[0]|] == s[0];
    forall i: nat, n: nat | i > 1 ensures MovedTo(a, n, i) == MovedTo(s, n, i) {}
  }

  // ----- Runs -----

  function Run(s: Store, lines: seq<string>, number: int, max: int): Store {
    if lines == [] then s
    else Log(Run(s, lines[..|lines| - 1], number, max), Last(lines), number, max)
  }

  lemma {:induction false} LogExtendsHistory(s: Store, line: string, number: int, max: int)
    requires 0 in s
    ensures 0 in Log(s, line, number, max)
    ensures IsSuffix(History(Log(s, line, number, max), Kept(number)), History(s, Kept(number)) + [line])
  {
    var n := Kept(number);
    var a := s[0 := Content(s, 0) + [line]];
    AppendToHistory(s, line, n);
    AppendToHistory(s, line, n - 1);
    RotationKeepsHistory(a, number);
    assert History(a, n) == Content(a, n) + History(a, n - 1);
  }

  lemma {:induction false} AppendToHistory(s: Store, line: string, n: nat)
    ensures History(s[0 := Content(s, 0) + [line]], n) == History(s, n) + [line]
  {
    if n > 0 {
      AppendToHistory(s, line, n - 1);
      assert Content(s, n) + (History(s, n - 1) + [line]) == Content(s, n) + History(s, n - 1) + [line];
    }
  }

  lemma {:induction false} SuffixOfExtended<T>(s: seq<T>, m: seq<T>, w: seq<T>, tail: seq<T>)
    requires IsSuffix(m, w) && IsSuffix(s, m + tail)
    ensures IsSuffix(s, w + tail)
  {
    assert (w + tail)[|w| - |m|..] == m + tail;
    assert (m + tail)[|m + tail| - |s|..] == (w + tail)[|w + tail| - |s|..];
  }

  /** Over any run and from any store, what is kept is a suffix of everything logged. */
  lemma {:induction false} HistoryIsSuffix(s: Store, lines: seq<string>, number: int, max: int)
    requires 0 in s
    ensures 0 in Run(s, lines, number, max)
    ensures IsSuffix(History(Run(s, lines, number, max), Kept(number)), History(s, Kept(number)) + lines)
  {
    var h := History(s, Kept(number));
    if lines == [] {
      assert h + lines == h;
    } else {
      var before := lines[..|lines| - 1];
      HistoryIsSuffix(s, before, number, max);
      var r := Run(s, before, number, max);
      LogExtendsHistory(r, Last(lines), number, max);
      SuffixOfExtended(History(Run(s, lines, number, max), Kept(number)),
                       History(r, Kept(number)), h + before, [Last(lines)]);
      assert h + before + [Last(lines)] == h + lines by { assert lines == before + [Last(lines)]; }
    }
  }

  // ----- How large the files get -----

  /** After at least one message the current log is within its limit, from any store, unless the limit is negative. */
  lemma {:induction false} CurrentIsWithinLimitIff(s: Store, lines: seq<string>, number: int, max: int)
    requires 0 in s && lines != []
    ensures var t := Run(s, lines, number, max); 0 in t && (Size(t[0]) <= max <==> max >= 0)
  {
    var r := Run(s, lines[..|lines| - 1], number, max);
    HistoryIsSuffix(s, lines[..|lines| - 1], number, max);
    LogDoes(r, Last(lines), number, max);
    assert (r[0] + [Last(lines)])[..|r[0]|] == r[0];
  }

  /** The current log is within the limit, and every old log is past it by its last line only. */
  ghost predicate Snug(s: Store, max: int) {
    && 0 in s && Size(s[0]) <= max
    && forall j: nat | j in s && j > 0 :: PastByLast(s[j], max)
  }

  predicate PastByLast(f: File, max: int) {
    f != [] && Size(f[..|f| - 1]) <= max < Size(f)
  }

  lemma {:induction false} LogKeepsSnug(s: Store, line: string, number: int, max: int)
    requires Snug(s, max) && max >= 0
    ensures Snug(Log(s, line, number, max), max)
  {
    var t := Log(s, line, number, max);
    LogDoes(s, line, number, max);
    assert (s[0] + [line])[..|s[0]|] == s[0];
    forall j: nat | j in t && j > 0 ensures PastByLast(t[j], max) {
      assert Found(t, j) == Some(t[j]);
    }
  }

  /** Rotation comes in time: over any run from an empty store, no log is past the limit by more than its last line. */
  lemma {:induction false} FilesAreSnug(lines: seq<string>, number: int, max: int)
    requires max >= 0
    ensures Snug(Run(map[0 := []], lines, number, max), max)
  {
    if lines != [] {
      FilesAreSnug(lines[..|lines| - 1], number, max);
      LogKeepsSnug(Run(map[0 := []], lines[..|lines| - 1], number, max), Last(lines), number, max);
    }
  }

  // ----- How much is kept -----

  /** Old logs 1 to k, each larger than the limit, and the current one. */
  ghost predicate Grown(s: Store, k: nat, max: int) {
    && (forall j: nat :: j in s <==> j <= k)
    && (forall j | 1 <= j <= k :: Size(s[j]) > max)
  }

  lemma {:induction false} RotateGrows(s: Store, number: int, max: int, k: nat)
    requires Grown(s, k, max) && k <= Kept(number) && Size(s[0]) > max
    ensures Grown(Rotate(s, number), if k < Kept(number) then k + 1 else k, max)
  {
    var n := Kept(number);
    var t := ShiftFrom(s, n - 1);
    var u := Rotate(s, number);
    ShiftKeepsOutside(s, n - 1, 0);
    forall j: nat ensures j in u <==> j <= (if k < n then k + 1 else k) {
      if j > n { ShiftKeepsOutside(s, n - 1, j); } else if j > 1 { ShiftedFile(s, n - 1, j); }
    }
    forall j | 1 <= j <= (if k < n then k + 1 else k) ensures Size(u[j]) > max {
      if j > 1 { ShiftedFile(s, n - 1, j); }
    }
  }

  /** There are k old logs, and until there are as many as are kept, nothing has been dropped. */
  ghost predicate GrownFrom(s: Store, k: nat, lines: seq<string>, number: int, max: int) {
    && k <= Kept(number)
    && Grown(s, k, max)
    && (k < Kept(number) ==> History(s, Kept(number)) == lines)
  }

  lemma {:induction false} LogGrows(s: Store, line: string, lines: seq<string>, number: int, max: int,
          k: nat) returns (k': nat)
    requires GrownFrom(s, k, lines, number, max)
    ensures GrownFrom(Log(s, line, number, max), k', lines + [line], number, max)
  {
    var n := Kept(number);
    var a := s[0 := Content(s, 0) + [line]];
    AppendToHistory(s, line, n);
    k' := k;
    if Size(a[0]) > max {
      assert Grown(a, k, max);
      RotateGrows(a, number, max, k);
      if k < n {
        k' := k + 1;
        RotationKeepsHistory(a, number);
        TopIsMissing(a, n, k);
      }
    }
  }

  lemma {:induction false} RunGrows(lines: seq<string>, number: int, max: int) returns (k: nat)
    ensures GrownFrom(Run(map[0 := []], lines, number, max), k, lines, number, max)
  {
    if lines == [] {
      k := 0;
      EmptyHistory(Kept(number));
    } else {
      var before := lines[..|lines| - 1];
      k := RunGrows(before, number, max);
      k := LogGrows(Run(map[0 := []], before, number, max), Last(lines), before, number, max, k);
      assert lines == before + [Last(lines)];
    }
  }

  lemma {:induction false} TopIsMissing(s: Store, n: nat, k: nat)
    requires n > 0 && forall j: nat :: j in s <==> j <= k
    ensures k < n ==> History(s, n - 1) == History(s, n)
  {
  }

  lemma {:induction false} EmptyHistory(n: nat)
    ensures History(map[0 := []], n) == []
  {
    if n > 0 { EmptyHistory(n - 1); }
  }

  lemma {:induction false} SizeOfConcat(a: File, b: File)
    ensures Size(a + b) == Size(a) + Size(b)
  {
    if b == [] {
      assert a + b == a;
    } else {
      assert (a + b)[..|a + b| - 1] == a + b[..|b| - 1];
      SizeOfConcat(a, b[..|b| - 1]);
    }
  }

  lemma {:induction false} GrownSize(s: Store, k: nat, max: int, n: nat)
    requires Grown(s, k, max) && n <= k
    ensures Size(History(s, n)) >= n * (max + 1)
  {
    if n > 0 {
      GrownSize(s, k, max, n - 1);
      SizeOfConcat(Content(s, n), History(s, n - 1));
      assert n * (max + 1) == (n - 1) * (max + 1) + (max + 1);
    }
  }

  /**
   From an empty store, either nothing has been dropped, or all the old logs that are
   kept exist and each of them is larger than the limit.
   */
  lemma {:induction false} KeepsAllOrEnough(lines: seq<string>, number: int, max: int)
    ensures var s := Run(map[0 := []], lines, number, max);
            var h := History(s, Kept(number));
            h == lines ||
            (&& (forall j | 1 <= j <= Kept(number) :: j in s && Size(s[j]) > max)
             && Size(h) >= Kept(number) * (max + 1))
  {
    var k := RunGrows(lines, number, max);
    if k == Kept(number) {
      GrownSize(Run(map[0 := []], lines, number, max), k, max, k);
    }
  }
}
