/** Reductions over a column of reals: the min, max, mean, idxmax and
    abs().max() that pandas computes for a Series without missing values,
    and the occurrence count behind groupby().cumcount(). */
module Stats {

  function Sum(s: seq<real>): real {
    if |s| == 0 then 0.0 else Sum(s[..|s| - 1]) + s[|s| - 1]
  }

  function Min(s: seq<real>): (m: real)
    requires |s| > 0
    ensures m in s
    ensures forall i :: 0 <= i < |s| ==> m <= s[i]
  {
    if |s| == 1 then s[0]
    else
      var rest := Min(s[..|s| - 1]);
      assert rest in s by { assert s == s[..|s| - 1] + [s[|s| - 1]]; }
      if s[|s| - 1] < rest then s[|s| - 1] else rest
  }

  function Max(s: seq<real>): (m: real)
    requires |s| > 0
    ensures m in s
    ensures forall i :: 0 <= i < |s| ==> s[i] <= m
  {
    if |s| == 1 then s[0]
    else
      var rest := Max(s[..|s| - 1]);
      assert rest in s by { assert s == s[..|s| - 1] + [s[|s| - 1]]; }
      if s[|s| - 1] > rest then s[|s| - 1] else rest
  }

  /** The arithmetic mean: the value whose |s| copies add up to the sum. */
  function Mean(s: seq<real>): (m: real)
    requires |s| > 0
    ensures m * (|s| as real) == Sum(s)
  {
    Sum(s) / (|s| as real)
  }

  /** Every value between lo and hi puts the sum between |s|*lo and |s|*hi. */
  lemma {:induction false} SumBetween(s: seq<real>, lo: real, hi: real)
    requires forall i :: 0 <= i < |s| ==> lo <= s[i] <= hi
    ensures (|s| as real) * lo <= Sum(s) <= (|s| as real) * hi
  {
    if |s| > 0 {
      SumBetween(s[..|s| - 1], lo, hi);
    }
  }

  /** A mean of values between lo and hi lies between lo and hi. */
  lemma MeanWithin(s: seq<real>, lo: real, hi: real)
    requires |s| > 0
    requires forall i :: 0 <= i < |s| ==> lo <= s[i] <= hi
    ensures lo <= Mean(s) <= hi
  {
    SumBetween(s, lo, hi);
    DivideBounds(Sum(s), |s| as real, lo, hi);
  }

  lemma DivideBounds(total: real, n: real, lo: real, hi: real)
    requires n > 0.0 && n * lo <= total <= n * hi
    ensures lo <= total / n <= hi
  {
  }

  /** The mean of a non-empty column lies between its minimum and maximum. */
  lemma MeanBetweenMinAndMax(s: seq<real>)
    requires |s| > 0
    ensures Min(s) <= Mean(s) <= Max(s)
  {
    MeanWithin(s, Min(s), Max(s));
  }

  /** First position holding v: the label idxmax returns on ties, and the
      position a column name is looked up at. */
  function IndexOf<T(==)>(s: seq<T>, v: T): (k: nat)
    requires v in s
    ensures k < |s| && s[k] == v
    ensures forall j :: 0 <= j < k ==> s[j] != v
  {
    if s[0] == v then 0 else 1 + IndexOf(s[1..], v)
  }

  /** Position of the first occurrence of the maximum (Series.idxmax). */
  function FirstMaxIndex(s: seq<real>): (k: nat)
    requires |s| > 0
    ensures k < |s| && s[k] == Max(s)
    ensures forall j :: 0 <= j < k ==> s[j] < Max(s)
  {
    IndexOf(s, Max(s))
  }

  function Abs(x: real): real {
    if x < 0.0 then -x else x
  }

  function AbsValues(s: seq<real>): (r: seq<real>)
    ensures |r| == |s| && forall i :: 0 <= i < |s| ==> r[i] == Abs(s[i])
  {
    seq(|s|, i requires 0 <= i < |s| => Abs(s[i]))
  }

  /** Largest absolute value (Series.abs().max()). */
  function MaxAbs(s: seq<real>): (m: real)
    requires |s| > 0
    ensures forall i :: 0 <= i < |s| ==> Abs(s[i]) <= m
    ensures exists i :: 0 <= i < |s| && m == Abs(s[i])
  {
    var a := AbsValues(s);
    var m := Max(a);
    assert a[IndexOf(a, m)] == m;
    m
  }

  /** Number of occurrences of x in s. */
  function Count(s: seq<real>, x: real): (n: nat)
    ensures n <= |s|
  {
    if |s| == 0 then 0
    else Count(s[..|s| - 1], x) + (if s[|s| - 1] == x then 1 else 0)
  }

  lemma {:induction false} CountAppend(a: seq<real>, b: seq<real>, x: real)
    ensures Count(a + b, x) == Count(a, x) + Count(b, x)
  {
    if |b| > 0 {
      assert (a + b)[..|a + b| - 1] == a + b[..|b| - 1];
      CountAppend(a, b[..|b| - 1], x);
    } else {
      assert a + b == a;
    }
  }

  lemma {:induction false} CountZeroIff(s: seq<real>, x: real)
    ensures Count(s, x) == 0 <==> x !in s
  {
    if |s| > 0 {
      CountZeroIff(s[..|s| - 1], x);
      assert s == s[..|s| - 1] + [s[|s| - 1]];
    }
  }

  predicate StrictlyIncreasing(s: seq<real>) {
    forall i, j :: 0 <= i < j < |s| ==> s[i] < s[j]
  }

  /** The set of distinct values (Series.unique() as a set). */
  function Distinct(s: seq<real>): set<real> {
    set x | x in s
  }

  /** A strictly increasing sequence repeats nothing, so it has as many
      entries as distinct values. */
  lemma {:induction false} StrictlyIncreasingCardinality(s: seq<real>)
    requires StrictlyIncreasing(s)
    ensures |Distinct(s)| == |s|
  {
    if |s| > 0 {
      var init, last := s[..|s| - 1], s[|s| - 1];
      assert forall i :: 0 <= i < |init| ==> init[i] == s[i];
      StrictlyIncreasingCardinality(init);
      assert s == init + [last];
      DistinctAppend(init, last);
    }
  }

  /** Helper for StrictlyIncreasingCardinality: appending a value larger
      than every earlier one adds one new value. */
  lemma DistinctAppend(init: seq<real>, last: real)
    requires forall k :: 0 <= k < |init| ==> init[k] < last
    ensures Distinct(init + [last]) == Distinct(init) + {last}
    ensures last !in Distinct(init)
  {
    assert forall x :: x in init + [last] <==> x in init || x == last;
  }
}
