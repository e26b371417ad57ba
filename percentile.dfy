/**
 * percentile(values, p): the p-th percentile by linear interpolation
 * between the two closest ranks of the sorted values, over exact reals.
 */
module Percentile {

  predicate Sorted(s: seq<real>)
  {
    forall i, j :: 0 <= i < j < |s| ==> s[i] <= s[j]
  }

  function Min(s: seq<real>): (m: real)
    requires s != []
    ensures m in s && forall i :: 0 <= i < |s| ==> m <= s[i]
  {
    if |s| == 1 then s[0]
    else
      var rest := Min(s[1..]);
      assert forall i :: 1 <= i < |s| ==> s[i] == s[1..][i - 1];
      if s[0] <= rest then s[0] else rest
  }

  function Max(s: seq<real>): (m: real)
    requires s != []
    ensures m in s && forall i :: 0 <= i < |s| ==> s[i] <= m
  {
    if |s| == 1 then s[0]
    else
      var rest := Max(s[1..]);
      assert forall i :: 1 <= i < |s| ==> s[i] == s[1..][i - 1];
      if rest <= s[0] then s[0] else rest
  }

  /** Insert x into sorted s before the first element not below it. */
  function Insert(x: real, s: seq<real>): (r: seq<real>)
    requires Sorted(s)
    ensures Sorted(r)
    ensures multiset(r) == multiset(s) + multiset{x}
    ensures r[0] == x || (s != [] && r[0] == s[0])
  {
    if s == [] || x <= s[0] then [x] + s
    else
      var rest := Insert(x, s[1..]);
      assert s == [s[0]] + s[1..];
      assert s[0] <= rest[0];
      [s[0]] + rest
  }

  /** sorted(values): ascending, and a rearrangement of the input. */
  function Sort(s: seq<real>): (r: seq<real>)
    ensures Sorted(r)
    ensures multiset(r) == multiset(s)
  {
    if s == [] then []
    else
      assert s == [s[0]] + s[1..];
      Insert(s[0], Sort(s[1..]))
  }

  /** math.ceil on a real. */
  function Ceil(k: real): (c: int)
    ensures k <= c as real < k + 1.0
    ensures c == k.Floor <==> k == k.Floor as real
  {
    if k.Floor as real == k then k.Floor else k.Floor + 1
  }

  /** The fractional rank of the p-th percentile among n sorted values. */
  function Rank(n: nat, p: real): real
  {
    (n - 1) as real * (p / 100.0)
  }

  /**
   * The floor and ceiling of the rank: two valid indices, equal or
   * adjacent, that enclose the rank.
   */
  function RankIndices(n: nat, p: real): (fc: (nat, nat))
    requires n >= 1 && 0.0 <= p <= 100.0
    ensures fc.0 <= fc.1 < n
    ensures fc.1 - fc.0 <= 1
    ensures fc.0 as real <= Rank(n, p) <= fc.1 as real
    ensures fc.0 == fc.1 <==> Rank(n, p) == fc.0 as real
    ensures fc.0 == Rank(n, p).Floor && fc.1 == Ceil(Rank(n, p))
  {
    var k := Rank(n, p);
    ScaleBelow((n - 1) as real, p / 100.0);
    assert 0.0 <= k <= (n - 1) as real;
    assert (Ceil(k) as real) < n as real;
    (k.Floor, Ceil(k))
  }

  lemma ScaleBelow(x: real, t: real)
    requires x >= 0.0 && 0.0 <= t <= 1.0
    ensures 0.0 <= x * t <= x
  {
    assert x * t <= x * 1.0 by {
      assert x * 1.0 - x * t == x * (1.0 - t);
    }
  }

  /**
   * Linear interpolation between a <= b at a rank k between the adjacent
   * indices f and c = f + 1 stays between a and b.
   */
  function Interpolate(a: real, b: real, f: int, c: int, k: real): (r: real)
    requires a <= b && c == f + 1 && f as real <= k <= c as real
    ensures a <= r <= b
  {
    var t := k - f as real;
    var u := c as real - k;
    assert u == 1.0 - t;
    assert a * u == a - a * t;
    ScaleBelow(b - a, t);
    assert (b - a) * t == b * t - a * t;
    a * u + b * t
  }

  /**
   * percentile(values, p); an empty list gives 0.0. Otherwise the result lies
   * between the sorted values at the floor and the ceiling of the rank.
   */
  function Percentile(values: seq<real>, p: real): (r: real)
    requires 0.0 <= p <= 100.0
    ensures values == [] ==> r == 0.0
    ensures values != [] ==> var xs, fc := Sort(values), RankIndices(|values|, p);
                             fc.1 < |xs| && xs[fc.0] <= r <= xs[fc.1]
    ensures values != [] ==> Min(values) <= r <= Max(values)
    ensures values != [] && Rank(|values|, p) == Rank(|values|, p).Floor as real ==> r in values
  {
    if values == [] then 0.0
    else
      var xs := Sort(values);
      SortedEnds(values);
      var k := Rank(|xs|, p);
      var (f, c) := RankIndices(|xs|, p);
      SortedWithin(values, f);
      SortedWithin(values, c);
      if f == c then xs[f]
      else
        Interpolate(xs[f], xs[c], f, c, k)
  }

  lemma SortedBounds(xs: seq<real>, v: real)
    requires Sorted(xs) && v in xs
    ensures xs[0] <= v <= xs[|xs| - 1]
  {
    var i :| 0 <= i < |xs| && xs[i] == v;
  }

  /** The sorted list starts at the minimum and ends at the maximum. */
  lemma SortedEnds(values: seq<real>)
    requires values != []
    ensures |Sort(values)| == |values|
    ensures Sort(values)[0] == Min(values) && Sort(values)[|values| - 1] == Max(values)
  {
    var xs := Sort(values);
    assert |xs| == |multiset(xs)| == |multiset(values)| == |values|;
    assert xs[0] in multiset(xs) && xs[|xs| - 1] in multiset(xs);
    assert xs[0] in values && xs[|xs| - 1] in values;
    var lo, hi := Min(values), Max(values);
    assert lo in multiset(values) && hi in multiset(values);
    assert lo in xs && hi in xs;
    SortedBounds(xs, lo);
    SortedBounds(xs, hi);
  }

  /** Every sorted element is one of the values, hence between the extremes. */
  lemma SortedWithin(values: seq<real>, i: nat)
    requires i < |values|
    ensures var xs := Sort(values);
            |xs| == |values| && xs[i] in values && Min(values) <= xs[i] <= Max(values)
  {
    SortedEnds(values);
    var xs := Sort(values);
    assert xs[i] in multiset(values);
  }

  /** At a whole rank the percentile is the sorted value at that rank. */
  lemma PercentileAtWholeRank(values: seq<real>, p: real, f: nat)
    requires values != [] && 0.0 <= p <= 100.0
    requires Rank(|values|, p) == f as real
    ensures f < |Sort(values)| && Percentile(values, p) == Sort(values)[f]
  {
    SortedEnds(values);
    assert RankIndices(|values|, p) == (f, f);
  }

  /** The 0th percentile is the smallest value. */
  lemma PercentileAtZero(values: seq<real>)
    requires values != []
    ensures Percentile(values, 0.0) == Min(values)
  {
    SortedEnds(values);
    PercentileAtWholeRank(values, 0.0, 0);
  }

  /** The 100th percentile is the largest value. */
  lemma PercentileAtHundred(values: seq<real>)
    requires values != []
    ensures Percentile(values, 100.0) == Max(values)
  {
    var n := |values|;
    assert Percentile(values, 100.0) == Sort(values)[n - 1] by {
      assert Rank(n, 100.0) == (n - 1) as real;
      PercentileAtWholeRank(values, 100.0, n - 1);
    }
    assert Sort(values)[n - 1] == Max(values) by {
      SortedEnds(values);
    }
  }
}
