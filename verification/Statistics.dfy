/**
 * Aggregates over the extracted score list: `calculate_average` (app.py)
 * and the column maximum and minimum taken by `show_analysis_page`.
 * Scores are reals; the source's binary floating point is not modelled.
 */
module Statistics {

  /** Python's `sum(scores)`: the total of the list, 0 for an empty one. */
  function Sum(s: seq<real>): real {
    if s == [] then 0.0 else s[0] + Sum(s[1..])
  }

  /** The largest score of a non-empty list. */
  function Max(s: seq<real>): (m: real)
    requires s != []
    ensures m in s
    ensures forall x :: x in s ==> x <= m
  {
    if |s| == 1 then s[0]
    else
      assert s == [s[0]] + s[1..];
      var rest := Max(s[1..]);
      if s[0] >= rest then s[0] else rest
  }

  /** The smallest score of a non-empty list. */
  function Min(s: seq<real>): (m: real)
    requires s != []
    ensures m in s
    ensures forall x :: x in s ==> m <= x
  {
    if |s| == 1 then s[0]
    else
      assert s == [s[0]] + s[1..];
      var rest := Min(s[1..]);
      if s[0] <= rest then s[0] else rest
  }

  /** Summing scores that all lie in [lo, hi] gives a total in [n * lo, n * hi]. */
  lemma {:induction false} SumBounds(s: seq<real>, lo: real, hi: real)
    requires forall x :: x in s ==> lo <= x <= hi
    ensures |s| as real * lo <= Sum(s) <= |s| as real * hi
    decreases |s|
  {
    if s != [] {
      assert s[0] in s;
      assert forall x :: x in s[1..] ==> x in s;
      SumBounds(s[1..], lo, hi);
      assert |s| as real * lo == lo + (|s| - 1) as real * lo;
      assert |s| as real * hi == hi + (|s| - 1) as real * hi;
    }
  }

  /** A total in [n * lo, n * hi] divided by a positive n lies in [lo, hi]. */
  lemma QuotientBounds(total: real, n: real, lo: real, hi: real)
    requires n > 0.0
    requires n * lo <= total <= n * hi
    ensures lo <= total / n <= hi
  {
  }

  /**
   * `calculate_average`: the mean of a non-empty list. It lies between the
   * list's minimum and maximum.
   */
  function Average(s: seq<real>): (r: real)
    requires s != []
    ensures Min(s) <= r <= Max(s)
  {
    var n, lo, hi, total := |s| as real, Min(s), Max(s), Sum(s);
    SumBounds(s, lo, hi);
    QuotientBounds(total, n, lo, hi);
    total / n
  }

  /** Summing works element by element: the sum of `a + b` is the sum of `a` plus the sum of `b`. */
  lemma {:induction false} SumAppend(a: seq<real>, b: seq<real>)
    ensures Sum(a + b) == Sum(a) + Sum(b)
    decreases |a|
  {
    if a == [] {
      assert a + b == b;
    } else {
      assert (a + b)[0] == a[0] && (a + b)[1..] == a[1..] + b;
      SumAppend(a[1..], b);
    }
  }

  /** A list of equal scores averages to that score. */
  lemma AverageOfEqualScores(s: seq<real>, v: real)
    requires s != []
    requires forall x :: x in s ==> x == v
    ensures Average(s) == v
  {
    assert Min(s) == v && Max(s) == v;
  }
}
