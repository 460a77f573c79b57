/**
  Sums and means of finite lists (`arithmetic_mean` in comparison.rs), over exact reals.
 */
module Averages {
  import opened OrderStatistics

  function Sum(values: seq<real>): real {
    if values == [] then 0.0 else values[0] + Sum(values[1..])
  }

  function Average(values: seq<real>): real
    requires values != []
  {
    Sum(values) / |values| as real
  }

  // ---- Sums ----

  lemma {:induction false} SumConcat(a: seq<real>, b: seq<real>)
    ensures Sum(a + b) == Sum(a) + Sum(b)
    decreases |a|
  {
    if a == [] {
      assert a + b == b;
    } else {
      SumConcat(a[1..], b);
      assert (a + b)[1..] == a[1..] + b;
    }
  }

  lemma SumSnoc(a: seq<real>, x: real)
    ensures Sum(a + [x]) == Sum(a) + x
  {
    SumConcat(a, [x]);
    assert Sum([x]) == x + Sum([]);
  }

  lemma {:induction false} SumMonotone(a: seq<real>, b: seq<real>)
    requires Pointwise(a, b)
    ensures Sum(a) <= Sum(b)
    decreases |a|
  {
    if a != [] {
      SumMonotone(a[1..], b[1..]);
    }
  }

  lemma SumWithout(s: seq<real>, k: nat)
    requires k < |s|
    ensures Sum(s) == s[k] + Sum(s[..k] + s[k + 1..])
  {
    hide Sum;
    var left, right := s[..k], s[k + 1..];
    assert s == (left + [s[k]]) + right;
    SumConcat(left + [s[k]], right);
    SumSnoc(left, s[k]);
    SumConcat(left, right);
  }

  lemma Cancel<T>(x: T, p: multiset<T>, q: multiset<T>)
    requires multiset{x} + p == multiset{x} + q
    ensures p == q
  {
    forall y
      ensures p[y] == q[y]
    {
      assert (multiset{x} + p)[y] == (multiset{x} + q)[y];
    }
  }

  lemma TakeFirst<T>(a: seq<T>, b: seq<T>) returns (k: nat)
    requires multiset(a) == multiset(b) && a != []
    ensures k < |b| && b[k] == a[0] && multiset(a[1..]) == multiset(b[..k] + b[k + 1..])
  {
    assert a == [a[0]] + a[1..];
    assert a[0] in multiset(b);
    k :| 0 <= k < |b| && b[k] == a[0];
    var left, right := b[..k], b[k + 1..];
    assert b == left + [b[k]] + right;
    Cancel(a[0], multiset(a[1..]), multiset(left + right));
  }

  /** A sum does not depend on the order of its terms. */
  lemma {:induction false} SumOrderFree(a: seq<real>, b: seq<real>)
    requires multiset(a) == multiset(b)
    ensures Sum(a) == Sum(b)
    decreases |a|
  {
    if a == [] {
      assert |multiset(b)| == 0;
    } else {
      var k := TakeFirst(a, b);
      SumOrderFree(a[1..], b[..k] + b[k + 1..]);
      SumWithout(b, k);
    }
  }

  function Times(n: nat, x: real): real { n as real * x }

  lemma {:induction false} SumAffine(a: seq<real>, b: seq<real>, negate: bool, shift: real)
    requires |a| == |b| && forall i :: 0 <= i < |a| ==> b[i] == (if negate then -a[i] else a[i]) + shift
    ensures Sum(b) == (if negate then -Sum(a) else Sum(a)) + Times(|a|, shift)
    decreases |a|
  {
    hide Times;
    OneMore(|a|, shift);
    if a != [] {
      SumAffine(a[1..], b[1..], negate, shift);
    }
  }

  lemma OneMore(n: nat, x: real)
    ensures Times(0, x) == 0.0
    ensures n > 0 ==> Times(n, x) == Times(n - 1, x) + x
  {
  }

  lemma {:induction false} SumBounds(a: seq<real>, least: real, greatest: real)
    requires forall i :: 0 <= i < |a| ==> least <= a[i] <= greatest
    ensures Times(|a|, least) <= Sum(a) <= Times(|a|, greatest)
    decreases |a|
  {
    hide Times;
    OneMore(|a|, least);
    OneMore(|a|, greatest);
    if a != [] {
      SumBounds(a[1..], least, greatest);
    }
  }

  // ---- Means ----

  /** The sum, then one division. */
  method TakeMean(values: seq<real>) returns (mean: real)
    requires values != []
    ensures mean == Average(values)
  {
    var sum := 0.0;
    for i := 0 to |values|
      invariant sum == Sum(values[..i])
    {
      assert values[..i + 1] == values[..i] + [values[i]];
      SumSnoc(values[..i], values[i]);
      sum := sum + values[i];
    }
    assert values[..|values|] == values;
    mean := sum / |values| as real;
  }

  lemma DivideMonotone(x: real, y: real, n: real)
    requires n > 0.0 && x <= y
    ensures x / n <= y / n
  {
  }

  lemma DivideExact(n: real, q: real)
    requires n > 0.0
    ensures (n * q) / n == q
  {
  }

  lemma DivideAffine(x: real, shift: real, n: real)
    requires n > 0.0
    ensures (x + n * shift) / n == x / n + shift
    ensures (-x + n * shift) / n == -(x / n) + shift
  {
    var q := x / n;
    assert x == n * q;
    assert x + n * shift == n * (q + shift);
    assert -x + n * shift == n * (-q + shift);
    DivideExact(n, q + shift);
    DivideExact(n, -q + shift);
  }

  lemma AverageMonotone(a: seq<real>, b: seq<real>)
    requires a != [] && Pointwise(a, b)
    ensures Average(a) <= Average(b)
  {
    SumMonotone(a, b);
    DivideMonotone(Sum(a), Sum(b), |a| as real);
  }

  lemma AverageAffine(a: seq<real>, b: seq<real>, negate: bool, shift: real)
    requires a != [] && |a| == |b|
    requires forall i :: 0 <= i < |a| ==> b[i] == (if negate then -a[i] else a[i]) + shift
    ensures Average(b) == (if negate then -Average(a) else Average(a)) + shift
  {
    SumAffine(a, b, negate, shift);
    DivideAffine(Sum(a), shift, |a| as real);
  }

  lemma AverageBounds(values: seq<real>, least: real, greatest: real)
    requires values != [] && forall i :: 0 <= i < |values| ==> least <= values[i] <= greatest
    ensures least <= Average(values) <= greatest
  {
    hide Sum;
    SumBounds(values, least, greatest);
    var n := |values| as real;
    assert Times(|values|, least) == n * least && Times(|values|, greatest) == n * greatest;
    DivideMonotone(n * least, Sum(values), n);
    DivideMonotone(Sum(values), n * greatest, n);
    DivideExact(n, least);
    DivideExact(n, greatest);
  }

  lemma AverageTimesCount(values: seq<real>)
    requires values != []
    ensures Average(values) * |values| as real == Sum(values)
  {
    hide Sum;
  }

  /** A mean does not depend on the order of the values. */
  lemma AverageOrderFree(a: seq<real>, b: seq<real>)
    requires a != [] && multiset(a) == multiset(b)
    ensures b != [] && Average(a) == Average(b)
  {
    hide Sum;
    SumOrderFree(a, b);
    assert |a| == |multiset(a)| == |multiset(b)| == |b|;
  }

  /** A mean times the count gives the sum, which adds up value by value, and it lies within
      the range of the values. */
  lemma AverageMeaning(a: seq<real>, x: real, least: real, greatest: real)
    requires forall i :: 0 <= i < |a + [x]| ==> least <= (a + [x])[i] <= greatest
    ensures Average(a + [x]) * (|a| + 1) as real == Sum(a) + x && Sum([]) == 0.0
    ensures least <= Average(a + [x]) <= greatest
  {
    hide Average;
    AverageTimesCount(a + [x]);
    SumSnoc(a, x);
    AverageBounds(a + [x], least, greatest);
  }
}
