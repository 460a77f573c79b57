/**
  Laws of the bootstrap intervals that no single call shows.  All rest on lockstep: which positions are drawn depends
  on the seed and the sample sizes only, so two runs over samples of the same sizes draw the same positions.
 */
module BootstrapLaws {
  import opened SplitMix
  import opened Averages
  import opened OrderStatistics
  import opened Bootstrap

  ghost predicate AllPositive(values: seq<real>) {
    forall i :: 0 <= i < |values| ==> values[i] > 0.0
  }

  // ---- Resampled means ----

  lemma MeanMonotone(a: seq<real>, b: seq<real>, seed: bv64, from: nat)
    requires a != [] && Pointwise(a, b)
    ensures Average(Drawn(a, seed, from)) <= Average(Drawn(b, seed, from))
  {
    hide Word;
    AverageMonotone(Drawn(a, seed, from), Drawn(b, seed, from));
  }

  lemma MeanAffine(a: seq<real>, b: seq<real>, negate: bool, shift: real, seed: bv64, from: nat)
    requires a != [] && |a| == |b|
    requires forall i :: 0 <= i < |a| ==> b[i] == (if negate then -a[i] else a[i]) + shift
    ensures Average(Drawn(b, seed, from))
         == (if negate then -Average(Drawn(a, seed, from)) else Average(Drawn(a, seed, from))) + shift
  {
    hide Word, Average;
    AverageAffine(Drawn(a, seed, from), Drawn(b, seed, from), negate, shift);
  }

  /** A resampled mean stays within the sample's range. */
  lemma MeanBounds(a: seq<real>, least: real, greatest: real, seed: bv64, from: nat)
    requires a != [] && forall i :: 0 <= i < |a| ==> least <= a[i] <= greatest
    ensures least <= Average(Drawn(a, seed, from)) <= greatest
  {
    hide Word, Average;
    AverageBounds(Drawn(a, seed, from), least, greatest);
  }

  // ---- Monotonicity ----

  /** `worse` is nowhere better than `values` under `direction`. */
  ghost predicate NowhereBetter(worse: seq<real>, values: seq<real>, direction: MetricDirection) {
    match direction
    case LowerIsBetter => Pointwise(values, worse)
    case HigherIsBetter => Pointwise(worse, values)
    case TargetRange(_, _) => |worse| == |values|
    case Informational => |worse| == |values|
  }

  lemma EffectMonotone(candidate: seq<real>, worse: seq<real>, baseline: seq<real>,
                       direction: MetricDirection, log: Logarithms, seed: bv64, from: nat)
    requires log.Valid() && candidate != [] && baseline != []
    requires NowhereBetter(worse, candidate, direction)
    ensures EffectOf(candidate, baseline, direction, log.exp, seed, from)
         <= EffectOf(worse, baseline, direction, log.exp, seed, from)
  {
    hide Average, Drawn;
    if direction.LowerIsBetter? {
      MeanMonotone(candidate, worse, seed, from);
    } else if direction.HigherIsBetter? {
      MeanMonotone(worse, candidate, seed, from);
    }
    var b := Average(Drawn(baseline, seed, from + |candidate|));
    LogEffectMonotone(log, direction, Average(Drawn(candidate, seed, from)), b, Average(Drawn(worse, seed, from)), b);
  }

  lemma EffectsMonotone(candidate: seq<real>, worse: seq<real>, baseline: seq<real>,
                        direction: MetricDirection, log: Logarithms, seed: bv64, resamples: nat)
    requires log.Valid() && candidate != [] && baseline != []
    requires NowhereBetter(worse, candidate, direction)
    ensures Pointwise(Effects(candidate, baseline, direction, log.exp, seed, resamples),
                      Effects(worse, baseline, direction, log.exp, seed, resamples))
  {
    hide EffectOf, Start;
    forall r | 0 <= r < resamples
      ensures Effects(candidate, baseline, direction, log.exp, seed, resamples)[r]
           <= Effects(worse, baseline, direction, log.exp, seed, resamples)[r]
    {
      EffectMonotone(candidate, worse, baseline, direction, log, seed, Start(r, |candidate| + |baseline|));
    }
  }

  lemma PairedEffectsMonotone(a: seq<real>, b: seq<real>, log: Logarithms, seed: bv64, resamples: nat)
    requires log.Valid() && a != [] && Pointwise(a, b)
    ensures Pointwise(PairedEffects(a, log.exp, seed, resamples), PairedEffects(b, log.exp, seed, resamples))
  {
    hide Average, Drawn, Start;
    forall r | 0 <= r < resamples
      ensures PairedEffects(a, log.exp, seed, resamples)[r] <= PairedEffects(b, log.exp, seed, resamples)[r]
    {
      MeanMonotone(a, b, seed, Start(r, |a|));
    }
  }

  lemma LogsPointwise(log: Logarithms, a: seq<real>, b: seq<real>)
    requires log.Valid() && AllPositive(a) && Pointwise(a, b)
    ensures Pointwise(Logs(a, log.ln), Logs(b, log.ln))
  {
    forall i | 0 <= i < |a|
      ensures log.ln(a[i]) <= log.ln(b[i])
    {
      assert 0.0 < a[i] <= b[i];
    }
  }

  lemma LogsNowhereBetter(log: Logarithms, worse: seq<real>, values: seq<real>, direction: MetricDirection)
    requires log.Valid() && AllPositive(values) && AllPositive(worse)
    requires NowhereBetter(worse, values, direction)
    ensures NowhereBetter(Logs(worse, log.ln), Logs(values, log.ln), direction)
  {
    if direction.LowerIsBetter? {
      LogsPointwise(log, values, worse);
    } else if direction.HigherIsBetter? {
      LogsPointwise(log, worse, values);
    }
  }

  // The interval of the unpaired bootstrap, as a function of its inputs.
  function UnpairedEffects(candidate: seq<real>, baseline: seq<real>, direction: MetricDirection,
                           log: Logarithms, seed: bv64, resamples: nat): seq<real>
    requires candidate != [] && baseline != []
  {
    Effects(Logs(candidate, log.ln), Logs(baseline, log.ln), direction, log.exp, seed, resamples)
  }

  /** Making candidate values worse, one by one, lowers neither bound. */
  lemma {:induction false} IntervalWorsens(candidate: seq<real>, worse: seq<real>, baseline: seq<real>,
                        direction: MetricDirection, log: Logarithms, seed: bv64, resamples: nat)
    requires log.Valid() && candidate != [] && baseline != [] && resamples > 0
    requires AllPositive(candidate) && AllPositive(worse) && NowhereBetter(worse, candidate, direction)
    ensures var before := UnpairedEffects(candidate, baseline, direction, log, seed, resamples);
            var after := UnpairedEffects(worse, baseline, direction, log, seed, resamples);
            && IntervalLow(before) <= IntervalLow(after)
            && IntervalHigh(before) <= IntervalHigh(after)
  {
    LogsNowhereBetter(log, worse, candidate, direction);
    EffectsMonotone(Logs(candidate, log.ln), Logs(worse, log.ln), Logs(baseline, log.ln),
                    direction, log, seed, resamples);
    IntervalMonotone(UnpairedEffects(candidate, baseline, direction, log, seed, resamples),
                     UnpairedEffects(worse, baseline, direction, log, seed, resamples));
  }

  lemma {:induction false} PairedIntervalWorsens(differences: seq<real>, worse: seq<real>, log: Logarithms, seed: bv64,
                                                 resamples: nat)
    requires log.Valid() && differences != [] && resamples > 0 && Pointwise(differences, worse)
    ensures var before := PairedEffects(differences, log.exp, seed, resamples);
            var after := PairedEffects(worse, log.exp, seed, resamples);
            && IntervalLow(before) <= IntervalLow(after)
            && IntervalHigh(before) <= IntervalHigh(after)
  {
    PairedEffectsMonotone(differences, worse, log, seed, resamples);
    IntervalMonotone(PairedEffects(differences, log.exp, seed, resamples),
                     PairedEffects(worse, log.exp, seed, resamples));
  }

  // ---- Unanimous evidence ----

  /** Degradation of one candidate value against one baseline value. */
  function Degradation(candidate: real, baseline: real, direction: MetricDirection): real {
    match direction
    case LowerIsBetter => Quotient(candidate, baseline) - 1.0
    case HigherIsBetter => Quotient(baseline, candidate) - 1.0
    case TargetRange(_, _) => 0.0
    case Informational => 0.0
  }

  /** Effect of one candidate log value against one baseline log value. */
  function SingleEffect(c: real, b: real, direction: MetricDirection, log: Logarithms): real {
    log.exp(LogEffect(c, b, direction)) - 1.0
  }

  lemma DegradationIsLogEffect(log: Logarithms, candidate: real, baseline: real, direction: MetricDirection)
    requires log.Valid() && candidate > 0.0 && baseline > 0.0 && Directed(direction)
    ensures SingleEffect(log.ln(candidate), log.ln(baseline), direction, log)
         == Degradation(candidate, baseline, direction)
  {
    var c, b := log.ln(candidate), log.ln(baseline);
    assert log.exp(c - b) == Quotient(log.exp(c), log.exp(b));
    assert log.exp(b - c) == Quotient(log.exp(b), log.exp(c));
  }

  lemma {:induction false} Extremes(a: seq<real>) returns (least: nat, greatest: nat)
    requires a != []
    ensures least < |a| && greatest < |a|
    ensures forall i :: 0 <= i < |a| ==> a[least] <= a[i] <= a[greatest]
  {
    least, greatest := 0, 0;
    for k := 1 to |a|
      invariant least < |a| && greatest < |a|
      invariant forall i :: 0 <= i < k ==> a[least] <= a[i] <= a[greatest]
    {
      if a[k] < a[least] { least := k; }
      if a[greatest] < a[k] { greatest := k; }
    }
  }

  /** Every effect lies between the effects of two single combinations. */
  lemma EffectBetween(c: seq<real>, b: seq<real>, direction: MetricDirection, log: Logarithms, seed: bv64, from: nat)
    returns (i: nat, j: nat, k: nat, l: nat)
    requires log.Valid() && c != [] && b != []
    ensures i < |c| && j < |b| && k < |c| && l < |b|
    ensures SingleEffect(c[i], b[j], direction, log) <= EffectOf(c, b, direction, log.exp, seed, from)
    ensures EffectOf(c, b, direction, log.exp, seed, from) <= SingleEffect(c[k], b[l], direction, log)
  {
    hide Average, Drawn;
    var cLeast, cGreatest := Extremes(c);
    var bLeast, bGreatest := Extremes(b);
    MeanBounds(c, c[cLeast], c[cGreatest], seed, from);
    MeanBounds(b, b[bLeast], b[bGreatest], seed, from + |c|);
    i, j, k, l := cLeast, bGreatest, cGreatest, bLeast;
    if direction.HigherIsBetter? {
      i, j, k, l := k, l, i, j;
    }
    var x, y := Average(Drawn(c, seed, from)), Average(Drawn(b, seed, from + |c|));
    LogEffectMonotone(log, direction, c[i], b[j], x, y);
    LogEffectMonotone(log, direction, x, y, c[k], b[l]);
  }

  lemma LogEffectMonotone(log: Logarithms, direction: MetricDirection, c: real, b: real, c': real, b': real)
    requires log.Valid()
    requires direction.LowerIsBetter? ==> c <= c' && b' <= b
    requires direction.HigherIsBetter? ==> c' <= c && b <= b'
    ensures log.exp(LogEffect(c, b, direction)) <= log.exp(LogEffect(c', b', direction))
  {
    assert LogEffect(c, b, direction) <= LogEffect(c', b', direction);
  }

  ghost predicate AllAtMost(effects: seq<real>, threshold: real) {
    forall e :: e in effects ==> e <= threshold
  }

  ghost predicate AllAbove(effects: seq<real>, threshold: real) {
    forall e :: e in effects ==> e > threshold
  }

  lemma UnanimousEffects(c: seq<real>, b: seq<real>, direction: MetricDirection,
                         log: Logarithms, threshold: real, seed: bv64, resamples: nat)
    requires log.Valid() && c != [] && b != []
    ensures (forall i, j :: 0 <= i < |c| && 0 <= j < |b| ==> SingleEffect(c[i], b[j], direction, log) <= threshold)
            ==> AllAtMost(Effects(c, b, direction, log.exp, seed, resamples), threshold)
    ensures (forall i, j :: 0 <= i < |c| && 0 <= j < |b| ==> SingleEffect(c[i], b[j], direction, log) > threshold)
            ==> AllAbove(Effects(c, b, direction, log.exp, seed, resamples), threshold)
  {
    hide EffectOf, SingleEffect, Start, Logarithms.Valid;
    var effects := Effects(c, b, direction, log.exp, seed, resamples);
    forall e | e in effects
      ensures exists i, j :: 0 <= i < |c| && 0 <= j < |b| && SingleEffect(c[i], b[j], direction, log) <= e
      ensures exists k, l :: 0 <= k < |c| && 0 <= l < |b| && e <= SingleEffect(c[k], b[l], direction, log)
    {
      var r :| 0 <= r < resamples && effects[r] == e;
      var i, j, k, l := EffectBetween(c, b, direction, log, seed, Start(r, |c| + |b|));
    }
  }

  /** Every candidate/baseline combination is within the threshold. */
  ghost predicate AllWithin(candidate: seq<real>, baseline: seq<real>, direction: MetricDirection, threshold: real) {
    forall i, j :: 0 <= i < |candidate| && 0 <= j < |baseline| ==>
      Degradation(candidate[i], baseline[j], direction) <= threshold
  }

  ghost predicate AllBeyond(candidate: seq<real>, baseline: seq<real>, direction: MetricDirection, threshold: real) {
    forall i, j :: 0 <= i < |candidate| && 0 <= j < |baseline| ==>
      Degradation(candidate[i], baseline[j], direction) > threshold
  }

  /** If every combination is within the threshold then both bounds are, for every
      seed; if every one exceeds it then both bounds do. */
  lemma {:induction false} UnanimousInterval(candidate: seq<real>, baseline: seq<real>, direction: MetricDirection,
                          log: Logarithms, threshold: real, seed: bv64, resamples: nat)
    requires log.Valid() && candidate != [] && baseline != [] && resamples > 0 && Directed(direction)
    requires AllPositive(candidate) && AllPositive(baseline)
    ensures var effects := UnpairedEffects(candidate, baseline, direction, log, seed, resamples);
            && (AllWithin(candidate, baseline, direction, threshold) ==>
                  IntervalLow(effects) <= threshold && IntervalHigh(effects) <= threshold)
            && (AllBeyond(candidate, baseline, direction, threshold) ==>
                  IntervalLow(effects) > threshold && IntervalHigh(effects) > threshold)
  {
    hide Effects, SingleEffect, Degradation, IntervalLow, IntervalHigh, AllAtMost, AllAbove;
    var c, b := Logs(candidate, log.ln), Logs(baseline, log.ln);
    SingleEffectsAreDegradations(candidate, baseline, direction, log);
    UnanimousEffects(c, b, direction, log, threshold, seed, resamples);
    BoundsFollow(Effects(c, b, direction, log.exp, seed, resamples), threshold);
  }

  lemma {:induction false} SingleEffectsAreDegradations(candidate: seq<real>, baseline: seq<real>,
                                                        direction: MetricDirection, log: Logarithms)
    requires log.Valid() && AllPositive(candidate) && AllPositive(baseline) && Directed(direction)
    ensures forall i, j :: 0 <= i < |candidate| && 0 <= j < |baseline| ==>
              SingleEffect(Logs(candidate, log.ln)[i], Logs(baseline, log.ln)[j], direction, log)
              == Degradation(candidate[i], baseline[j], direction)
  {
    hide SingleEffect, Degradation;
    forall i, j | 0 <= i < |candidate| && 0 <= j < |baseline|
      ensures SingleEffect(Logs(candidate, log.ln)[i], Logs(baseline, log.ln)[j], direction, log)
           == Degradation(candidate[i], baseline[j], direction)
    {
      DegradationIsLogEffect(log, candidate[i], baseline[j], direction);
    }
  }

  lemma BoundsFollow(effects: seq<real>, threshold: real)
    requires effects != []
    ensures AllAtMost(effects, threshold) ==> IntervalLow(effects) <= threshold && IntervalHigh(effects) <= threshold
    ensures AllAbove(effects, threshold) ==> IntervalLow(effects) > threshold && IntervalHigh(effects) > threshold
  {
    IntervalBoundsOccur(effects);
  }

  lemma UnanimousPairedEffects(differences: seq<real>, log: Logarithms, threshold: real, seed: bv64, resamples: nat)
    requires log.Valid() && differences != []
    ensures (forall i :: 0 <= i < |differences| ==> log.exp(differences[i]) - 1.0 <= threshold)
            ==> AllAtMost(PairedEffects(differences, log.exp, seed, resamples), threshold)
    ensures (forall i :: 0 <= i < |differences| ==> log.exp(differences[i]) - 1.0 > threshold)
            ==> AllAbove(PairedEffects(differences, log.exp, seed, resamples), threshold)
  {
    hide Average, Drawn, Start, Logarithms.Valid;
    var effects := PairedEffects(differences, log.exp, seed, resamples);
    var least, greatest := Extremes(differences);
    forall e | e in effects
      ensures log.exp(differences[least]) - 1.0 <= e <= log.exp(differences[greatest]) - 1.0
    {
      var r :| 0 <= r < resamples && effects[r] == e;
      var mean := Average(Drawn(differences, seed, Start(r, |differences|)));
      MeanBounds(differences, differences[least], differences[greatest], seed, Start(r, |differences|));
      ExpOrder(log, differences[least], mean);
      ExpOrder(log, mean, differences[greatest]);
    }
  }

  lemma ExpOrder(log: Logarithms, x: real, y: real)
    requires log.Valid() && x <= y
    ensures log.exp(x) <= log.exp(y)
  {
  }

  /** Paired form: one combination per complete pair. */
  lemma {:induction false} UnanimousPairedInterval(differences: seq<real>, log: Logarithms, threshold: real,
                                                   seed: bv64, resamples: nat)
    requires log.Valid() && differences != [] && resamples > 0
    ensures var effects := PairedEffects(differences, log.exp, seed, resamples);
            && ((forall i :: 0 <= i < |differences| ==> log.exp(differences[i]) - 1.0 <= threshold)
                ==> IntervalLow(effects) <= threshold && IntervalHigh(effects) <= threshold)
            && ((forall i :: 0 <= i < |differences| ==> log.exp(differences[i]) - 1.0 > threshold)
                ==> IntervalLow(effects) > threshold && IntervalHigh(effects) > threshold)
  {
    hide AllAtMost, AllAbove, IntervalLow, IntervalHigh;
    UnanimousPairedEffects(differences, log, threshold, seed, resamples);
    BoundsFollow(PairedEffects(differences, log.exp, seed, resamples), threshold);
  }

  // ---- Scale and orientation ----

  function Scaled(values: seq<real>, factor: real): seq<real> {
    seq(|values|, i requires 0 <= i < |values| => Product(factor, values[i]))
  }

  function Inverted(values: seq<real>): seq<real> {
    seq(|values|, i requires 0 <= i < |values| => Quotient(1.0, values[i]))
  }

  function Opposite(direction: MetricDirection): MetricDirection {
    match direction
    case LowerIsBetter => HigherIsBetter
    case HigherIsBetter => LowerIsBetter
    case TargetRange(_, _) => direction
    case Informational => direction
  }

  /** The same affine change of both log samples, with the matching change of
      direction, leaves every effect unchanged. */
  lemma EffectsAffine(c: seq<real>, c': seq<real>, b: seq<real>, b': seq<real>, direction: MetricDirection,
                      negate: bool, shift: real, exp: real -> real, seed: bv64, resamples: nat)
    requires c != [] && b != [] && |c'| == |c| && |b'| == |b|
    requires forall i :: 0 <= i < |c| ==> c'[i] == (if negate then -c[i] else c[i]) + shift
    requires forall i :: 0 <= i < |b| ==> b'[i] == (if negate then -b[i] else b[i]) + shift
    ensures Effects(c', b', if negate then Opposite(direction) else direction, exp, seed, resamples)
         == Effects(c, b, direction, exp, seed, resamples)
  {
    hide Average, Drawn, Start;
    forall r | 0 <= r < resamples
      ensures Effects(c', b', if negate then Opposite(direction) else direction, exp, seed, resamples)[r]
           == Effects(c, b, direction, exp, seed, resamples)[r]
    {
      var from := Start(r, |c| + |b|);
      MeanAffine(c, c', negate, shift, seed, from);
      MeanAffine(b, b', negate, shift, seed, from + |c|);
    }
  }

  /** Measuring every value in another unit changes no effect, so no interval. */
  lemma {:induction false} ScaleInvariance(candidate: seq<real>, baseline: seq<real>, factor: real,
                                           direction: MetricDirection,
                        log: Logarithms, seed: bv64, resamples: nat)
    requires log.Valid() && factor > 0.0 && candidate != [] && baseline != []
    requires AllPositive(candidate) && AllPositive(baseline)
    ensures UnpairedEffects(Scaled(candidate, factor), Scaled(baseline, factor), direction, log, seed, resamples)
         == UnpairedEffects(candidate, baseline, direction, log, seed, resamples)
  {
    EffectsAffine(Logs(candidate, log.ln), Logs(Scaled(candidate, factor), log.ln),
                  Logs(baseline, log.ln), Logs(Scaled(baseline, factor), log.ln),
                  direction, false, log.ln(factor), log.exp, seed, resamples);
  }

  lemma InverseProduct(x: real)
    requires x > 0.0
    ensures Quotient(1.0, x) > 0.0 && Product(x, Quotient(1.0, x)) == 1.0
    ensures Product(1.0, 1.0) == 1.0
  {
  }

  lemma LnOfInverse(log: Logarithms, x: real)
    requires log.Valid() && x > 0.0
    ensures log.ln(Quotient(1.0, x)) == -log.ln(x)
  {
    var y := Quotient(1.0, x);
    InverseProduct(x);
    assert log.ln(Product(x, y)) == log.ln(x) + log.ln(y);
    assert log.ln(Product(1.0, 1.0)) == log.ln(1.0) + log.ln(1.0);
  }

  /** Lower-is-better on x is higher-is-better on 1/x, and conversely. */
  lemma {:induction false} OrientationInvariance(candidate: seq<real>, baseline: seq<real>, direction: MetricDirection,
                              log: Logarithms, seed: bv64, resamples: nat)
    requires log.Valid() && candidate != [] && baseline != []
    requires AllPositive(candidate) && AllPositive(baseline)
    ensures UnpairedEffects(Inverted(candidate), Inverted(baseline), Opposite(direction), log, seed, resamples)
         == UnpairedEffects(candidate, baseline, direction, log, seed, resamples)
  {
    forall i | 0 <= i < |candidate| { LnOfInverse(log, candidate[i]); }
    forall i | 0 <= i < |baseline| { LnOfInverse(log, baseline[i]); }
    EffectsAffine(Logs(candidate, log.ln), Logs(Inverted(candidate), log.ln),
                  Logs(baseline, log.ln), Logs(Inverted(baseline), log.ln),
                  direction, true, 0.0, log.exp, seed, resamples);
  }
}
