/** Value types shared by the models of the individual drivers. */
module Common {

  /** An optional value: the drivers' "not found" and "not defined" results. */
  datatype Option<+T> = None | Some(value: T)

  function Last<T>(s: seq<T>): T
    requires s != []
  {
    s[|s| - 1]
  }

  /** `s` is what remains of `whole` after dropping some prefix. */
  predicate IsSuffix<T(==)>(s: seq<T>, whole: seq<T>) {
    |s| <= |whole| && s == whole[|whole| - |s|..]
  }

  lemma {:induction false} SliceOfDrop<T>(s: seq<T>, m: nat, a: nat, b: nat)
    requires m <= |s| && a <= b <= |s| - m
    ensures s[m..][a..b] == s[m + a..m + b]
  {
  }

  lemma {:induction false} CutAtConcat<T>(a: seq<T>, b: seq<T>)
    ensures (a + b)[..|a|] == a && (a + b)[|a|..] == b
  {
  }

  lemma {:induction false} Assoc<T>(a: seq<T>, b: seq<T>, c: seq<T>)
    ensures (a + b) + c == a + (b + c)
  {
  }

  /** What came before a run, put in front of what the run yields. */
  function Prepended<S, T>(before: seq<T>, run: (S, seq<T>)): (S, seq<T>) {
    (run.0, before + run.1)
  }

  lemma {:induction false} PrependedTwice<S, T>(a: seq<T>, b: seq<T>, run: (S, seq<T>))
    ensures Prepended(a, Prepended(b, run)) == Prepended(a + b, run)
  {
    Assoc(a, b, run.1);
  }

  lemma {:induction false} PrependedNone<S, T>(run: (S, seq<T>))
    ensures Prepended([], run) == run
  {
    assert [] + run.1 == run.1;
  }
}
