/**
  Bootstrap resampling (`bootstrap_interval`, `paired_bootstrap_interval` and `resampled_mean_log` in comparison.rs)
  over exact reals.  Each method is tied to a function of the seed: the oriented effects, one per resample.
 */
module Bootstrap {
  import opened SplitMix
  import opened Averages
  import opened OrderStatistics

  datatype MetricDirection =
    | HigherIsBetter
    | LowerIsBetter
    | TargetRange(min: real, max: real)
    | Informational

  predicate Directed(direction: MetricDirection) {
    direction.HigherIsBetter? || direction.LowerIsBetter?
  }

  /** The platform's natural logarithm and exponential, known by their laws. */
  datatype Logarithms = Logarithms(ln: real -> real, exp: real -> real) {
    ghost predicate Valid() {
      && (forall x, y :: x <= y ==> exp(x) <= exp(y))
      && (forall x :: exp(x) > 0.0)
      && (forall x, y :: exp(x - y) == Quotient(exp(x), exp(y)))
      && (forall x :: x > 0.0 ==> exp(ln(x)) == x)
      && (forall x, y :: 0.0 < x <= y ==> ln(x) <= ln(y))
      && (forall x, y :: 0.0 < x && 0.0 < y ==> ln(Product(x, y)) == ln(x) + ln(y))
    }
  }

  function Quotient(x: real, y: real): real {
    if y == 0.0 then 0.0 else x / y
  }

  function Product(x: real, y: real): real { x * y }

  /** What one resample of `values` draws when it starts at draw number `from`: each word of
      the generator picks the position that is its remainder by the sample size. */
  function Drawn(values: seq<real>, seed: bv64, from: nat): (drawn: seq<real>)
    requires values != []
    ensures |drawn| == |values|
  {
    seq(|values|, k requires 0 <= k < |values| => values[Word(seed, from + k) % |values|])
  }

  function LogEffect(candidateMean: real, baselineMean: real, direction: MetricDirection): real {
    match direction
    case LowerIsBetter => candidateMean - baselineMean
    case HigherIsBetter => baselineMean - candidateMean
    case TargetRange(_, _) => 0.0
    case Informational => 0.0
  }

  /** The effect of one unpaired resample that starts at draw number `from`: candidate draws
      come first. */
  function EffectOf(candidate: seq<real>, baseline: seq<real>, direction: MetricDirection,
                    exp: real -> real, seed: bv64, from: nat): real
    requires candidate != [] && baseline != []
  {
    var candidateMean := Average(Drawn(candidate, seed, from));
    var baselineMean := Average(Drawn(baseline, seed, from + |candidate|));
    exp(LogEffect(candidateMean, baselineMean, direction)) - 1.0
  }

  /** All effects; resample number `r` starts where the one before it stopped. */
  function Effects(candidate: seq<real>, baseline: seq<real>, direction: MetricDirection,
                   exp: real -> real, seed: bv64, resamples: nat): (effects: seq<real>)
    requires candidate != [] && baseline != []
    ensures |effects| == resamples
  {
    seq(resamples, r requires 0 <= r < resamples =>
      EffectOf(candidate, baseline, direction, exp, seed, Start(r, |candidate| + |baseline|)))
  }

  /** The first draw of resample number `r`. */
  function Start(r: nat, draws: nat): nat { r * draws }

  function PairedEffects(differences: seq<real>, exp: real -> real, seed: bv64, resamples: nat): (effects: seq<real>)
    requires differences != []
    ensures |effects| == resamples
  {
    seq(resamples, r requires 0 <= r < resamples =>
      exp(Average(Drawn(differences, seed, Start(r, |differences|)))) - 1.0)
  }

  function Logs(values: seq<real>, ln: real -> real): (logs: seq<real>)
    ensures |logs| == |values|
    ensures forall i :: 0 <= i < |values| ==> logs[i] == ln(values[i])
  {
    if values == [] then [] else [ln(values[0])] + Logs(values[1..], ln)
  }

  // ---- The algorithms ----

  lemma DrawnPrefix(values: seq<real>, seed: bv64, from: nat, i: nat)
    requires i < |values|
    ensures Drawn(values, seed, from)[..i + 1]
         == Drawn(values, seed, from)[..i] + [values[Word(seed, from + i) % |values|]]
  {
    hide Word;
  }

  /** Mean of as many draws as there are values; `seed` and `from` say where the generator is. */
  method ResampledMeanLog(logs: seq<real>, rng: SplitMix64, ghost seed: bv64, ghost from: nat) returns (mean: real)
    requires logs != [] && rng.state == Walk(seed, from)
    modifies rng
    ensures mean == Average(Drawn(logs, seed, from))
    ensures rng.state == Walk(seed, from + |logs|)
  {
    hide Walk, Mix, Step, Average, Sum;
    var sum := 0.0;
    SumOfNone();
    for i := 0 to |logs|
      invariant rng.state == Walk(seed, from + i)
      invariant sum == Sum(Drawn(logs, seed, from)[..i])
    {
      DrawnPrefix(logs, seed, from, i);
      SumSnoc(Drawn(logs, seed, from)[..i], logs[Word(seed, from + i) % |logs|]);
      NextWord(seed, from + i);
      var word := rng.Next();
      var index := (word as nat) % |logs|;
      if index > |logs| - 1 {
        index := |logs| - 1;
      }
      sum := sum + logs[index];
    }
    assert Drawn(logs, seed, from)[..|logs|] == Drawn(logs, seed, from);
    mean := sum / |logs| as real;
    assert mean == Average(Drawn(logs, seed, from)) by { AverageIsQuotient(Drawn(logs, seed, from)); }
  }

  lemma SumOfNone()
    ensures Sum([]) == 0.0
  {
  }

  lemma AverageIsQuotient(values: seq<real>)
    requires values != []
    ensures Average(values) == Sum(values) / |values| as real
  {
  }

  method Resample(candidateLogs: seq<real>, baselineLogs: seq<real>, direction: MetricDirection,
                  exp: real -> real, rng: SplitMix64, ghost seed: bv64, ghost from: nat)
    returns (effect: real)
    requires candidateLogs != [] && baselineLogs != [] && rng.state == Walk(seed, from)
    modifies rng
    ensures effect == EffectOf(candidateLogs, baselineLogs, direction, exp, seed, from)
    ensures rng.state == Walk(seed, from + |candidateLogs| + |baselineLogs|)
  {
    hide Drawn, Average, Walk;
    var candidateMean := ResampledMeanLog(candidateLogs, rng, seed, from);
    var baselineMean := ResampledMeanLog(baselineLogs, rng, seed, from + |candidateLogs|);
    var logEffect := 0.0;
    match direction {
      case LowerIsBetter => logEffect := candidateMean - baselineMean;
      case HigherIsBetter => logEffect := baselineMean - candidateMean;
      case TargetRange(_, _) =>
      case Informational =>
    }
    effect := exp(logEffect) - 1.0;
  }

  lemma NextStart(r: nat, draws: nat)
    ensures Start(0, draws) == 0 && Start(r + 1, draws) == Start(r, draws) + draws
  {
  }

  /** The resampling loop of the unpaired interval, over log values. */
  method CollectEffects(candidateLogs: seq<real>, baselineLogs: seq<real>, direction: MetricDirection,
                        exp: real -> real, resamples: nat, seed: bv64)
    returns (effects: seq<real>)
    requires candidateLogs != [] && baselineLogs != []
    ensures effects == Effects(candidateLogs, baselineLogs, direction, exp, seed, resamples)
  {
    hide EffectOf, Walk, Start;
    var rng := new SplitMix64(seed);
    effects := [];
    ghost var draws := |candidateLogs| + |baselineLogs|;
    NextStart(0, draws);
    WalkNowhere(seed);
    for i := 0 to resamples
      invariant rng.state == Walk(seed, Start(i, draws))
      invariant effects == Effects(candidateLogs, baselineLogs, direction, exp, seed, i)
    {
      NextStart(i, draws);
      var effect := Resample(candidateLogs, baselineLogs, direction, exp, rng, seed, Start(i, draws));
      effects := effects + [effect];
    }
  }

  method BootstrapInterval(candidate: seq<real>, baseline: seq<real>, direction: MetricDirection,
                           resamples: nat, seed: bv64, log: Logarithms)
    returns (low: real, high: real)
    requires candidate != [] && baseline != [] && 0 < resamples <= USIZE_MAX
    ensures var effects := Effects(Logs(candidate, log.ln), Logs(baseline, log.ln), direction, log.exp, seed,
                                   resamples);
            low == IntervalLow(effects) && high == IntervalHigh(effects)
  {
    var effects := CollectEffects(Logs(candidate, log.ln), Logs(baseline, log.ln), direction, log.exp, resamples, seed);
    low, high := PercentileInterval(effects);
  }

  method PairedBootstrapInterval(differences: seq<real>, resamples: nat, seed: bv64, log: Logarithms)
    returns (low: real, high: real)
    requires differences != [] && 0 < resamples <= USIZE_MAX
    ensures var effects := PairedEffects(differences, log.exp, seed, resamples);
            low == IntervalLow(effects) && high == IntervalHigh(effects)
  {
    var effects := CollectPairedEffects(differences, log.exp, resamples, seed);
    low, high := PercentileInterval(effects);
  }

  /** The resampling loop of the paired interval. */
  method CollectPairedEffects(differences: seq<real>, exp: real -> real, resamples: nat, seed: bv64)
    returns (effects: seq<real>)
    requires differences != []
    ensures effects == PairedEffects(differences, exp, seed, resamples)
  {
    hide Drawn, Average, Walk, Start;
    var rng := new SplitMix64(seed);
    effects := [];
    NextStart(0, |differences|);
    WalkNowhere(seed);
    for i := 0 to resamples
      invariant rng.state == Walk(seed, Start(i, |differences|))
      invariant effects == PairedEffects(differences, exp, seed, i)
    {
      NextStart(i, |differences|);
      var mean := ResampledMeanLog(differences, rng, seed, Start(i, |differences|));
      effects := effects + [exp(mean) - 1.0];
    }
  }
}
