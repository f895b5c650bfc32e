/** Sums, rounded means and rotations for the averaging buffer of wb-homa-adc/sysfs_adc.cpp. */
module AdcWindow {

  function Sum(s: seq<int>): int {
    if s == [] then 0 else s[0] + Sum(s[1..])
  }

  lemma {:induction false} SumAppend(a: seq<int>, b: seq<int>)
    ensures Sum(a + b) == Sum(a) + Sum(b)
    decreases |a|
  {
    if a == [] {
      assert a + b == b;
    } else {
      SumAppend(a[1..], b);
      assert (a + b)[1..] == a[1..] + b;
    }
  }

  lemma {:induction false} SumSingle(v: int)
    ensures Sum([v]) == v
  {
    assert [v][1..] == [];
  }

  /** The buffer read from its oldest element on. */
  function Rotated(s: seq<int>, pos: nat): seq<int>
    requires pos <= |s|
  {
    s[pos..] + s[..pos]
  }

  /** Overwriting the oldest element and moving on drops it at the front and adds the new one at the end. */
  lemma {:induction false} OverwriteOldest(s: seq<int>, pos: nat, v: int)
    requires pos < |s|
    ensures Rotated(s[pos := v], (pos + 1) % |s|) == Rotated(s, pos)[1..] + [v]
  {
    var t, next := s[pos := v], (pos + 1) % |s|;
    if pos + 1 < |s| {
      assert next == pos + 1;
      assert t[next..] == s[pos..][1..];
      assert t[..next] == s[..pos] + [v];
    } else {
      assert next == 0;
      assert t[next..] + t[..next] == t;
    }
  }

  lemma {:induction false} SumOverwrite(s: seq<int>, pos: nat, v: int)
    requires pos < |s|
    ensures Sum(s[pos := v]) == Sum(s) - s[pos] + v
  {
    var a, b := s[..pos], s[pos + 1..];
    assert s == a + ([s[pos]] + b);
    assert s[pos := v] == a + ([v] + b);
    SumAppend(a, [s[pos]] + b);
    SumAppend(a, [v] + b);
    SumAppend([s[pos]], b);
    SumAppend([v], b);
    SumSingle(s[pos]);
    SumSingle(v);
  }

  lemma {:induction false} SumRotated(s: seq<int>, pos: nat)
    requires pos <= |s|
    ensures Sum(Rotated(s, pos)) == Sum(s)
  {
    SumAppend(s[pos..], s[..pos]);
    SumAppend(s[..pos], s[pos..]);
    assert s == s[..pos] + s[pos..];
  }

  /** round(sum / n): to the nearest integer, halves away from zero. */
  function Rounded(sum: int, n: int): int
    requires n > 0
  {
    if sum >= 0 then (2 * sum + n) / (2 * n) else -((2 * -sum + n) / (2 * n))
  }

  /** The rounded quotient is within half a unit of the exact one, and a tie goes away from zero. */
  lemma {:induction false} RoundedIsNearest(sum: int, n: int)
    requires n > 0
    ensures var r := Rounded(sum, n);
            && -n <= 2 * (r * n - sum) <= n
            && (2 * (r * n - sum) == n ==> sum >= 0)
            && (2 * (r * n - sum) == -n ==> sum < 0)
  {
    var m := 2 * n;
    var x := if sum >= 0 then 2 * sum + n else 2 * -sum + n;
    var q := x / m;
    assert x == q * m + x % m && 0 <= x % m < m;
    if sum >= 0 {
      assert 2 * (Rounded(sum, n) * n) == q * m;
    } else {
      assert 2 * (Rounded(sum, n) * n) == -(q * m);
    }
  }

  lemma {:induction false} SumBounds(s: seq<int>, lo: int, hi: int)
    requires forall i | 0 <= i < |s| :: lo <= s[i] <= hi
    ensures lo * |s| <= Sum(s) <= hi * |s|
    decreases |s|
  {
    if s != [] {
      SumBounds(s[1..], lo, hi);
      assert lo * |s| == lo + lo * |s[1..]| && hi * |s| == hi + hi * |s[1..]|;
    }
  }

  lemma {:induction false} RoundedBounds(sum: int, n: int, lo: int, hi: int)
    requires n > 0 && lo * n <= sum <= hi * n
    ensures lo <= Rounded(sum, n) <= hi
  {
    var r := Rounded(sum, n);
    RoundedIsNearest(sum, n);
    if r < lo { MulStep(r, lo, n); }
    if r > hi { MulStep(hi, r, n); }
  }

  lemma {:induction false} MulStep(a: int, b: int, n: int)
    requires a < b && n > 0
    ensures a * n + n <= b * n
    decreases b - a
  {
    if a + 1 < b {
      MulStep(a, b - 1, n);
    }
    assert b * n == (b - 1) * n + n;
  }

  /** The rounded mean lies between the smallest and the largest reading. */
  lemma {:induction false} MeanIsBetween(s: seq<int>, lo: int, hi: int)
    requires s != [] && forall i | 0 <= i < |s| :: lo <= s[i] <= hi
    ensures lo <= Rounded(Sum(s), |s|) <= hi
  {
    SumBounds(s, lo, hi);
    RoundedBounds(Sum(s), |s|, lo, hi);
  }
}
