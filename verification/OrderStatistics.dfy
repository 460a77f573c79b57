/**
  Order statistics behind the percentile interval (`percentile_interval` in comparison.rs):
  sorting, the two quantile indices in machine arithmetic, and what the chosen elements say
  about the sample.

  Sorting is by insertion.  It keeps the values and is monotone: raising values one by one
  raises every order statistic, which is what the bootstrap laws need of it.
 */
module OrderStatistics {

  const USIZE_MAX: nat := 0xFFFF_FFFF_FFFF_FFFF

  ghost predicate Sorted(s: seq<real>) {
    forall i, j :: 0 <= i <= j < |s| ==> s[i] <= s[j]
  }

  /** `a` is nowhere above `b`, position by position. */
  ghost predicate Pointwise(a: seq<real>, b: seq<real>) {
    |a| == |b| && forall i :: 0 <= i < |a| ==> a[i] <= b[i]
  }

  function Insert(x: real, s: seq<real>): (r: seq<real>)
    ensures |r| == |s| + 1
  {
    if s == [] || x <= s[0] then [x] + s else [s[0]] + Insert(x, s[1..])
  }

  /** Ascending order, standing for the library sort by total order. */
  function Sort(s: seq<real>): (r: seq<real>)
    ensures |r| == |s|
  {
    if s == [] then [] else Insert(s[0], Sort(s[1..]))
  }

  lemma {:induction false} InsertKeeps(x: real, s: seq<real>)
    ensures multiset(Insert(x, s)) == multiset{x} + multiset(s)
    decreases |s|
  {
    if s != [] && x > s[0] {
      InsertKeeps(x, s[1..]);
      assert s == [s[0]] + s[1..];
    }
  }

  lemma {:induction false} InsertAbove(x: real, s: seq<real>, low: real)
    requires low <= x && forall i :: 0 <= i < |s| ==> low <= s[i]
    ensures forall i :: 0 <= i <= |s| ==> low <= Insert(x, s)[i]
    decreases |s|
  {
    if s != [] && x > s[0] {
      InsertAbove(x, s[1..], low);
    }
  }

  lemma {:induction false} InsertSorted(x: real, s: seq<real>)
    requires Sorted(s)
    ensures Sorted(Insert(x, s))
    decreases |s|
  {
    if s != [] && x > s[0] {
      InsertSorted(x, s[1..]);
      InsertAbove(x, s[1..], s[0]);
    }
  }

  lemma {:induction false} SortSorts(s: seq<real>)
    ensures Sorted(Sort(s))
    ensures multiset(Sort(s)) == multiset(s)
  {
    if s != [] {
      SortSorts(s[1..]);
      InsertSorted(s[0], Sort(s[1..]));
      InsertKeeps(s[0], Sort(s[1..]));
      assert s == [s[0]] + s[1..];
    }
  }

  // ---- Sorting is monotone: k-th smallest follows pointwise order ----

  lemma InsertHead(s: seq<real>)
    requires s != [] && Sorted(s)
    ensures Insert(s[0], s[1..]) == s
  {
    if |s| > 1 { assert s[0] <= s[1]; }
  }

  lemma PointwiseCons(x: real, a: seq<real>, y: real, b: seq<real>)
    requires x <= y && Pointwise(a, b)
    ensures Pointwise([x] + a, [y] + b)
  {
  }

  lemma Tails(s: seq<real>, t: seq<real>)
    requires Pointwise(s, t) && Sorted(s) && Sorted(t)
    ensures |s| == |t|
    ensures s != [] ==>
              && Pointwise(s[1..], t[1..]) && Sorted(s[1..]) && Sorted(t[1..]) && s[0] <= t[0]
              && s == [s[0]] + s[1..] && t == [t[0]] + t[1..]
  {
  }

  lemma {:induction false} InsertMonotone(x: real, s: seq<real>, y: real, t: seq<real>)
    requires x <= y && Pointwise(s, t) && Sorted(s) && Sorted(t)
    ensures Pointwise(Insert(x, s), Insert(y, t))
    decreases |s|
  {
    Tails(s, t);
    if s != [] {
      hide Pointwise, Sorted;
      if x <= s[0] && y <= t[0] {
        PointwiseCons(x, s, y, t);
      } else if x <= s[0] {
        // y goes further right than x: t[0] leads, and s shifts behind x.
        InsertMonotone(s[0], s[1..], y, t[1..]);
        InsertHead(s);
        PointwiseCons(x, s, t[0], Insert(y, t[1..]));
      } else if y <= t[0] {
        InsertMonotone(x, s[1..], t[0], t[1..]);
        InsertHead(t);
        PointwiseCons(s[0], Insert(x, s[1..]), y, t);
      } else {
        InsertMonotone(x, s[1..], y, t[1..]);
        PointwiseCons(s[0], Insert(x, s[1..]), t[0], Insert(y, t[1..]));
      }
    }
  }

  lemma {:induction false} SortMonotone(s: seq<real>, t: seq<real>)
    requires Pointwise(s, t)
    ensures Pointwise(Sort(s), Sort(t))
  {
    if s != [] {
      SortMonotone(s[1..], t[1..]);
      SortSorts(s[1..]);
      SortSorts(t[1..]);
      InsertMonotone(s[0], Sort(s[1..]), t[0], Sort(t[1..]));
    }
  }

  // ---- The quantile indices ----

  function Min(a: nat, b: nat): nat { if a <= b then a else b }

  function SaturatingMul(a: nat, b: nat): nat { Min(a * b, USIZE_MAX) }

  function SaturatingAdd(a: nat, b: nat): nat { Min(a + b, USIZE_MAX) }

  function SaturatingSub(a: nat, b: nat): nat { if a <= b then 0 else a - b }

  function LowIndex(count: nat): (i: nat)
    requires count > 0
    ensures i < count
  {
    Min(SaturatingMul(25, count) / 1000, count - 1)
  }

  function HighIndex(count: nat): (i: nat)
    requires count > 0
    ensures i < count
  {
    Min(SaturatingSub(SaturatingAdd(SaturatingMul(975, count), 999) / 1000, 1), count - 1)
  }

  /** The indices drop exactly floor(n/40) effects on each side, unless the
      machine product behind the upper index saturates. */
  lemma {:induction false} IndexArithmetic(count: nat)
    requires 0 < count <= USIZE_MAX
    ensures LowIndex(count) + HighIndex(count) == count - 1 && LowIndex(count) == count / 40
       <==> (975 * count + 999) / 1000 <= USIZE_MAX / 1000
  {
    var n := count;
    assert (25 * n) / 1000 == n / 40;
    assert n / 40 <= n - 1;
    var q := n / 40;
    var r := n % 40;
    assert n == 40 * q + r;
    assert 975 * n + 999 == 1000 * (39 * q) + 975 * r + 999;
    assert (975 * n + 999) / 1000 == 39 * q + (975 * r + 999) / 1000;
    assert (975 * r + 999) / 1000 == r;
    assert (975 * n + 999) / 1000 == n - q;
  }

  // ---- The percentile interval ----

  function IntervalLow(effects: seq<real>): real
    requires effects != []
  {
    Sort(effects)[LowIndex(|effects|)]
  }

  function IntervalHigh(effects: seq<real>): real
    requires effects != []
  {
    Sort(effects)[HighIndex(|effects|)]
  }

  /** How many entries of `s` lie in `[low, high]`. */
  function CountWithin(s: seq<real>, low: real, high: real): (c: nat)
    ensures c <= |s|
  {
    if s == [] then 0
    else (if low <= s[0] <= high then 1 else 0) + CountWithin(s[1..], low, high)
  }

  method PercentileInterval(effects: seq<real>) returns (low: real, high: real)
    requires 0 < |effects| <= USIZE_MAX
    ensures low == IntervalLow(effects) && high == IntervalHigh(effects)
  {
    var sorted := Sort(effects);
    var count := |sorted|;
    var lowIndex := SaturatingMul(25, count) / 1000;
    if lowIndex > count - 1 {
      lowIndex := count - 1;
    }
    var highIndex := SaturatingAdd(SaturatingMul(975, count), 999) / 1000;
    highIndex := SaturatingSub(highIndex, 1);
    if highIndex > count - 1 {
      highIndex := count - 1;
    }
    low, high := sorted[lowIndex], sorted[highIndex];
  }

  lemma {:induction false} CountInsert(x: real, s: seq<real>, low: real, high: real)
    ensures CountWithin(Insert(x, s), low, high)
         == (if low <= x <= high then 1 else 0) + CountWithin(s, low, high)
    decreases |s|
  {
    if s != [] && x > s[0] {
      CountInsert(x, s[1..], low, high);
      assert Insert(x, s)[1..] == Insert(x, s[1..]);
    } else {
      assert Insert(x, s)[1..] == s;
    }
  }

  lemma {:induction false} CountSort(s: seq<real>, low: real, high: real)
    ensures CountWithin(Sort(s), low, high) == CountWithin(s, low, high)
  {
    if s != [] {
      CountSort(s[1..], low, high);
      CountInsert(s[0], Sort(s[1..]), low, high);
    }
  }

  lemma {:induction false} CountRange(s: seq<real>, low: real, high: real, from: nat, to: nat)
    requires from <= to <= |s|
    requires forall i :: from <= i < to ==> low <= s[i] <= high
    ensures CountWithin(s, low, high) >= to - from
    decreases |s|
  {
    if s != [] && to > 0 {
      var from' := if from == 0 then 0 else from - 1;
      forall i | from' <= i < to - 1
        ensures low <= s[1..][i] <= high
      {
        assert s[1..][i] == s[i + 1];
      }
      CountRange(s[1..], low, high, from', to - 1);
    }
  }

  /** Both bounds are effects that occurred, they are in order, and at least 95%
      of the effects lie between them. */
  lemma {:induction false} IntervalCoverage(effects: seq<real>)
    requires 0 < |effects| && (975 * |effects| + 999) / 1000 <= USIZE_MAX / 1000
    ensures IntervalLow(effects) in effects && IntervalHigh(effects) in effects
    ensures IntervalLow(effects) <= IntervalHigh(effects)
    ensures 20 * CountWithin(effects, IntervalLow(effects), IntervalHigh(effects)) >= 19 * |effects|
  {
    var n := |effects|;
    var sorted := Sort(effects);
    SortSorts(effects);
    IndexArithmetic(n);
    var low, high := IntervalLow(effects), IntervalHigh(effects);
    assert low in multiset(sorted) && high in multiset(sorted);
    CountSort(effects, low, high);
    CountRange(sorted, low, high, LowIndex(n), HighIndex(n) + 1);
  }

  /** Raising effects pointwise lowers neither bound. */
  lemma IntervalMonotone(a: seq<real>, b: seq<real>)
    requires a != [] && Pointwise(a, b)
    ensures IntervalLow(a) <= IntervalLow(b) && IntervalHigh(a) <= IntervalHigh(b)
  {
    SortMonotone(a, b);
  }

  /** Each bound is one of the effects. */
  lemma IntervalBoundsOccur(effects: seq<real>)
    requires effects != []
    ensures IntervalLow(effects) in effects && IntervalHigh(effects) in effects
  {
    SortSorts(effects);
    assert IntervalLow(effects) in multiset(Sort(effects));
    assert IntervalHigh(effects) in multiset(Sort(effects));
  }
}
