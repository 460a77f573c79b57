/**
  What a gate disposition means, and how it moves with the evidence.
 */
module GateLaws {
  import opened Basics
  import opened Averages
  import opened OrderStatistics
  import opened Bootstrap
  import opened BootstrapLaws
  import opened Evaluation

  // ---- Which trials contribute ----

  /** A trial contributes `v` when it completed and the first observation it has of the metric
      was observed with that value. */
  ghost predicate Contributes(trial: Trial, metric: string, v: Scalar) {
    && trial.terminal == Completed && trial.metrics.Some?
    && var observations := trial.metrics.value.observations;
       exists i :: 0 <= i < |observations| && observations[i].name == metric && observations[i].state == Observed(v)
                   && forall j :: 0 <= j < i ==> observations[j].name != metric
  }

  lemma ContributionMeaning(trial: Trial, metric: string, v: Scalar)
    ensures Contributes(trial, metric, v) <==> Usable(trial, metric) == Ok(v)
  {
    if trial.metrics.Some? {
      var observations := trial.metrics.value.observations;
      var found := Find(observations, metric);
      if found.Some? {
        var i :| 0 <= i < |observations| && observations[i] == found.value && found.value.name == metric
                 && forall j :: 0 <= j < i ==> observations[j].name != metric;
        forall k | 0 <= k < |observations| && observations[k].name == metric
                   && forall j :: 0 <= j < k ==> observations[j].name != metric
          ensures k == i
        {
        }
      }
    }
  }

  /** The positions of the contributing trials, in order. */
  ghost predicate Positions(at: seq<nat>, trials: seq<Trial>, metric: string) {
    && (forall j :: 0 <= j < |at| ==> at[j] < |trials|)
    && (forall i, j :: 0 <= i < j < |at| ==> at[i] < at[j])
    && forall k: nat :: k < |trials| ==> (k in at <==> exists v :: Contributes(trials[k], metric, v))
  }

  /** The values and the included trials are those of the contributing trials, in trial order,
      and every other trial is excluded. */
  lemma {:induction false} SelectionMeaning(trials: seq<Trial>, metric: string) returns (at: seq<nat>)
    ensures Positions(at, trials, metric)
    ensures |Values(trials, metric)| == |Included(trials, metric)| == |at|
    ensures |ExcludedTrials(trials, metric)| == |trials| - |at|
    ensures forall j :: 0 <= j < |at| ==> Contributes(trials[at[j]], metric, Values(trials, metric)[j])
    ensures forall j :: 0 <= j < |at| ==> Included(trials, metric)[j] == trials[at[j]].id
    decreases |trials|
  {
    hide Contributes, Usable;
    at := [];
    if trials != [] {
      var n := |trials| - 1;
      var before := SelectionMeaning(trials[..n], metric);
      forall v
        ensures Contributes(trials[n], metric, v) <==> Usable(trials[n], metric) == Ok(v)
      {
        ContributionMeaning(trials[n], metric, v);
      }
      at := before + if Usable(trials[n], metric).Ok? then [n] else [];
      assert forall k :: 0 <= k < n ==> trials[..n][k] == trials[k];
    }
  }

  // ---- Baseline semantics ----

  ghost predicate Coherent(trials: seq<Trial>, request: MetricRequest) {
    && (forall i :: 0 <= i < |trials| && Carried(trials[i], request.name).Some? ==>
          Agrees(Carried(trials[i], request.name).value, request))
    && (forall i, j :: (0 <= i < |trials| && 0 <= j < |trials| && Carried(trials[i], request.name).Some?
                        && Carried(trials[j], request.name).Some?) ==>
          Carried(trials[i], request.name).value.aggregation == Carried(trials[j], request.name).value.aggregation)
  }

  ghost predicate Absent(trials: seq<Trial>, metric: string) {
    forall i :: 0 <= i < |trials| ==> Carried(trials[i], metric).None?
  }

  lemma CategoriesDiffer()
    ensures "baseline_metric_absent" != "metric_semantics_mismatch"
    ensures "baseline_metric_absent" != "baseline_metric_semantics_divergent"
  {
    assert |"baseline_metric_absent"| == 22 && |"metric_semantics_mismatch"| == 25;
    assert |"baseline_metric_semantics_divergent"| == 35;
  }

  lemma {:induction false} SemanticsScan(trials: seq<Trial>, request: MetricRequest, reference: Option<Observation>)
    requires reference.Some? ==> Agrees(reference.value, request)
    ensures var error := SemanticsError(trials, request, reference);
            && (error == Some("baseline_metric_absent") <==> Absent(trials, request.name) && reference.None?)
            && (error.None? <==>
                  && Coherent(trials, request)
                  && (reference.Some? || !Absent(trials, request.name))
                  && (reference.Some? ==> forall i :: 0 <= i < |trials| && Carried(trials[i], request.name).Some? ==>
                        Carried(trials[i], request.name).value.aggregation == reference.value.aggregation))
    decreases |trials|
  {
    hide Carried;
    if trials != [] {
      var rest := trials[1..];
      var found := Carried(trials[0], request.name);
      CategoriesDiffer();
      var next := if found.Some? && Agrees(found.value, request) && reference.None? then found else reference;
      SemanticsScan(rest, request, next);
      assert forall i :: 0 <= i < |trials| ==> trials[i] == if i == 0 then trials[0] else rest[i - 1];
      assert forall i :: 0 <= i < |rest| ==> rest[i] == trials[i + 1];
    }
  }

  /** The scan accepts a baseline exactly when some trial carries the metric, every
      carrier agrees with the request and the carriers agree with each other. */
  lemma SemanticsAccepts(trials: seq<Trial>, request: MetricRequest)
    ensures SemanticsError(trials, request, None).None?
       <==> Coherent(trials, request) && !Absent(trials, request.name)
    ensures SemanticsError(trials, request, None) == Some("baseline_metric_absent")
       <==> Absent(trials, request.name)
  {
    SemanticsScan(trials, request, None);
  }

  // ---- What a statistical pass means ----

  /** Every value is finite and strictly positive. */
  ghost predicate AllAboveZero(values: seq<Scalar>) {
    forall i :: 0 <= i < |values| ==> values[i].Finite? && values[i].r > 0.0
  }

  lemma AboveZero(values: seq<Scalar>)
    ensures AllStrictlyPositive(values) <==> values != [] && AllAboveZero(values)
  {
    if AllStrictlyPositive(values) {
      assert forall i :: 0 <= i < |values| ==> values[i] in values;
    }
  }

  /** Everything a relative or statistical gate demands before it judges: comparable testbeds, a
      direction, a coherent baseline that carries the metric, and positive values only. */
  ghost predicate Judgeable(request: MetricRequest, candidate: seq<Trial>, baseline: Option<seq<Trial>>,
                            policy: EnvironmentPolicy, critical: bool) {
    && request.intent == Primary && baseline.Some?
    && policy != CrossTestbedDescriptive && !critical
    && Coherent(baseline.value, request) && !Absent(baseline.value, request.name)
    && (request.direction.LowerIsBetter? || request.direction.HigherIsBetter?)
    && var c, b := Values(candidate, request.name), Values(baseline.value, request.name);
       c != [] && AllAboveZero(c) && b != [] && AllAboveZero(b)
  }

  /** What a statistical gate demands: enough values on each side as well. */
  ghost predicate StatisticallyEvaluable(request: MetricRequest, candidate: seq<Trial>, baseline: Option<seq<Trial>>,
                                         policy: EnvironmentPolicy, critical: bool) {
    && request.gate.Some? && request.gate.value.StatisticalRelative?
    && Judgeable(request, candidate, baseline, policy, critical)
    && var c, b := Values(candidate, request.name), Values(baseline.value, request.name);
       && |c| >= MIN_OBSERVATIONS_PER_SIDE && |c| >= request.gate.value.minTrials
       && |b| >= MIN_OBSERVATIONS_PER_SIDE && |b| >= request.gate.value.minTrials
  }

  function UnpairedInterval(request: MetricRequest, candidate: seq<Trial>, baseline: seq<Trial>, seed: bv64,
                            log: Logarithms)
    : (real, real)
    requires AllAboveZero(Values(candidate, request.name)) && AllAboveZero(Values(baseline, request.name))
    requires Values(candidate, request.name) != [] && Values(baseline, request.name) != []
  {
    AboveZero(Values(candidate, request.name));
    AboveZero(Values(baseline, request.name));
    var effects := UnpairedEffects(Reals(Values(candidate, request.name)), Reals(Values(baseline, request.name)),
                                   request.direction, log, seed, BOOTSTRAP_RESAMPLES);
    (IntervalLow(effects), IntervalHigh(effects))
  }

  /** A statistical gate reaches Pass, Fail or Inconclusive exactly on evaluable
      evidence, and then the interval alone decides which; otherwise the record
      is Invalid, or Descriptive under a non-strict policy. */
  lemma {:induction false} StatisticalVerdictMeaning(request: MetricRequest, candidate: seq<Trial>,
                                                     baseline: Option<seq<Trial>>,
                                  policy: EnvironmentPolicy, critical: bool, seed: bv64, log: Logarithms)
    requires request.gate.Some? && request.gate.value.StatisticalRelative?
    ensures var record := Evaluate(request, candidate, baseline, policy, critical, seed, log);
            && (StatisticallyEvaluable(request, candidate, baseline, policy, critical) ==>
                  var (low, high) := UnpairedInterval(request, candidate, baseline.value, seed, log);
                  var threshold := request.gate.value.allowance as real / 10_000.0;
                  && (record.disposition == Some(Fail) <==> low > threshold)
                  && (record.disposition == Some(Pass) <==> low <= threshold && high <= threshold)
                  && (record.disposition == Some(Inconclusive) <==> low <= threshold < high)
                  && record.confidenceLow == Some(low) && record.confidenceHigh == Some(high))
            && (!StatisticallyEvaluable(request, candidate, baseline, policy, critical) ==>
                  && (record.disposition == Some(Invalid) || record.disposition == Some(Descriptive))
                  && (record.disposition == Some(Descriptive) ==> policy != StrictSameTestbed)
                  && record.confidenceLow.None? && record.confidenceHigh.None?)
  {
    hide StatisticallyEvaluable, UnpairedInterval, Evaluate;
    if StatisticallyEvaluable(request, candidate, baseline, policy, critical) {
      EvaluableVerdict(request, candidate, baseline, policy, critical, seed, log);
    } else {
      UnevaluableVerdict(request, candidate, baseline, policy, critical, seed, log);
    }
  }

  lemma {:induction false} EvaluableVerdict(request: MetricRequest, candidate: seq<Trial>, baseline: Option<seq<Trial>>,
                         policy: EnvironmentPolicy, critical: bool, seed: bv64, log: Logarithms)
    requires StatisticallyEvaluable(request, candidate, baseline, policy, critical)
    ensures var record := Evaluate(request, candidate, baseline, policy, critical, seed, log);
            var (low, high) := UnpairedInterval(request, candidate, baseline.value, seed, log);
            && record.disposition
                 == Some(IntervalDisposition(low, high, request.gate.value.allowance as real / 10_000.0))
            && record.confidenceLow == Some(low) && record.confidenceHigh == Some(high)
  {
    hide UnpairedEffects, IntervalLow, IntervalHigh, Coherent, Absent, GeometricMean, Values, Reals,
         AllStrictlyPositive, AllAboveZero, Included, ExcludedTrials, ArithmeticMean, Degradation, IntervalDisposition;
    SemanticsAccepts(baseline.value, request);
    AboveZero(Values(candidate, request.name));
    AboveZero(Values(baseline.value, request.name));
  }

  lemma {:induction false} UnevaluableVerdict(request: MetricRequest, candidate: seq<Trial>,
                                              baseline: Option<seq<Trial>>,
                           policy: EnvironmentPolicy, critical: bool, seed: bv64, log: Logarithms)
    requires request.gate.Some? && request.gate.value.StatisticalRelative?
    requires !StatisticallyEvaluable(request, candidate, baseline, policy, critical)
    ensures var record := Evaluate(request, candidate, baseline, policy, critical, seed, log);
            && (record.disposition == Some(Invalid) || record.disposition == Some(Descriptive))
            && (record.disposition == Some(Descriptive) ==> policy != StrictSameTestbed)
            && record.confidenceLow.None? && record.confidenceHigh.None?
  {
    hide StatisticallyEvaluable, RelativeOutcome, FreshRecord, AbsoluteOutcome, Values, Reals, AllStrictlyPositive,
         SemanticsError,
         EnoughTrials, UnpairedEffects, IntervalLow, IntervalHigh;
    FreshRecordFacts(request, candidate);
    EvaluableIsEligible(request, candidate, baseline, policy, critical);
    if request.intent == Primary {
      EvaluateDisposition(request, candidate, baseline, policy, critical, seed, log);
      NoIntervalUnlessEligible(FreshRecord(request, candidate), request, Values(candidate, request.name),
                               baseline, policy, critical, seed, log);
    }
  }

  lemma FreshRecordFacts(request: MetricRequest, candidate: seq<Trial>)
    ensures FreshRecord(request, candidate).threshold == Threshold(request.gate)
    ensures FreshRecord(request, candidate).direction == request.direction
    ensures FreshRecord(request, candidate).disposition.None?
    ensures FreshRecord(request, candidate).confidenceLow.None? && FreshRecord(request, candidate).confidenceHigh.None?
  {
  }

  lemma JudgeableIsEligible(request: MetricRequest, candidate: seq<Trial>, baseline: Option<seq<Trial>>,
                            policy: EnvironmentPolicy, critical: bool)
    ensures Judgeable(request, candidate, baseline, policy, critical)
       <==> && request.intent == Primary && BaselineGated(policy, critical)
            && Eligible(request, Values(candidate, request.name), baseline)
  {
    hide Coherent, Absent, SemanticsError, Values, AllStrictlyPositive, AllAboveZero;
    AboveZero(Values(candidate, request.name));
    if baseline.Some? {
      SemanticsAccepts(baseline.value, request);
      AboveZero(Values(baseline.value, request.name));
    }
  }

  lemma EvaluableIsEligible(request: MetricRequest, candidate: seq<Trial>, baseline: Option<seq<Trial>>,
                            policy: EnvironmentPolicy, critical: bool)
    requires request.gate.Some? && request.gate.value.StatisticalRelative?
    ensures StatisticallyEvaluable(request, candidate, baseline, policy, critical)
       <==> && request.intent == Primary && BaselineGated(policy, critical)
            && Eligible(request, Values(candidate, request.name), baseline)
            && EnoughTrials(request.gate.value.minTrials, Reals(Values(candidate, request.name)),
                            Reals(Values(baseline.value, request.name)))
  {
    hide Judgeable, SemanticsError, Values, AllStrictlyPositive;
    JudgeableIsEligible(request, candidate, baseline, policy, critical);
  }

  lemma NoIntervalUnlessEligible(record: MetricRecord, request: MetricRequest, candidate: seq<Scalar>,
                                 baseline: Option<seq<Trial>>, policy: EnvironmentPolicy, critical: bool,
                                 seed: bv64, log: Logarithms)
    requires request.gate.Some? && request.gate.value.StatisticalRelative?
    requires record.threshold == Threshold(request.gate)
    requires record.confidenceLow.None? && record.confidenceHigh.None?
    ensures var outcome := RelativeOutcome(record, request, candidate, baseline, policy, critical, seed, log);
            || (outcome.confidenceLow.None? && outcome.confidenceHigh.None?)
            || (Eligible(request, candidate, baseline) && BaselineGated(policy, critical)
                && EnoughTrials(request.gate.value.minTrials, Reals(candidate),
                                Reals(Values(baseline.value, request.name))))
  {
    hide UnpairedEffects, IntervalLow, IntervalHigh, IntervalDisposition, GeometricMean, Degradation, SemanticsError,
         Included, ExcludedTrials, Values, EnoughTrials, Reals;
  }

  // ---- What a relative pass means ----

  /** A side's geometric mean, written out. */
  function MeanOfLogs(values: seq<Scalar>, log: Logarithms): real
    requires values != [] && AllAboveZero(values)
  {
    log.exp(Average(seq(|values|, i requires 0 <= i < |values| => log.ln(values[i].r))))
  }

  lemma MeanOfLogsIsEstimate(values: seq<Scalar>, log: Logarithms)
    requires values != [] && AllAboveZero(values)
    ensures GeometricMean(values, log) == Some(MeanOfLogs(values, log))
  {
    hide Average;
    AboveZero(values);
    assert Logs(Reals(values), log.ln) == seq(|values|, i requires 0 <= i < |values| => log.ln(values[i].r));
  }

  /** A relative gate passes or fails exactly on judgeable evidence, and then by the ratio of
      the two geometric means alone, which the record reports; otherwise it is Invalid, or
      Descriptive under a non-strict policy. */
  lemma RelativeVerdictMeaning(request: MetricRequest, candidate: seq<Trial>, baseline: Option<seq<Trial>>,
                               policy: EnvironmentPolicy, critical: bool, seed: bv64, log: Logarithms)
    requires request.gate.Some? && request.gate.value.RelativeRegression?
    ensures var record := Evaluate(request, candidate, baseline, policy, critical, seed, log);
            && (Judgeable(request, candidate, baseline, policy, critical) ==>
                  var c := MeanOfLogs(Values(candidate, request.name), log);
                  var b := MeanOfLogs(Values(baseline.value, request.name), log);
                  var worse := if request.direction.LowerIsBetter? then Quotient(c, b) else Quotient(b, c);
                  var passes := worse - 1.0 <= request.gate.value.allowance as real / 10_000.0;
                  && record.disposition == Some(if passes then Pass else Fail)
                  && record.degradation == Some(worse - 1.0) && record.baselineEstimate == Some(b))
            && (!Judgeable(request, candidate, baseline, policy, critical) ==>
                  && record.disposition in {Some(Invalid), Some(Descriptive)}
                  && (record.disposition == Some(Descriptive) ==> policy != StrictSameTestbed))
  {
    hide Judgeable, Evaluate, MeanOfLogs;
    if Judgeable(request, candidate, baseline, policy, critical) {
      JudgeableVerdict(request, candidate, baseline, policy, critical, seed, log);
    } else {
      UnjudgeableVerdict(request, candidate, baseline, policy, critical, seed, log);
    }
  }

  lemma JudgeableVerdict(request: MetricRequest, candidate: seq<Trial>, baseline: Option<seq<Trial>>,
                         policy: EnvironmentPolicy, critical: bool, seed: bv64, log: Logarithms)
    requires request.gate.Some? && request.gate.value.RelativeRegression?
    requires Judgeable(request, candidate, baseline, policy, critical)
    ensures var record := Evaluate(request, candidate, baseline, policy, critical, seed, log);
            var c := MeanOfLogs(Values(candidate, request.name), log);
            var b := MeanOfLogs(Values(baseline.value, request.name), log);
            var worse := if request.direction.LowerIsBetter? then Quotient(c, b) else Quotient(b, c);
            var passes := worse - 1.0 <= request.gate.value.allowance as real / 10_000.0;
            && record.disposition == Some(if passes then Pass else Fail)
            && record.degradation == Some(worse - 1.0) && record.baselineEstimate == Some(b)
  {
    hide Coherent, Absent, GeometricMean, Values, Reals, AllStrictlyPositive, AllAboveZero, Included, ExcludedTrials,
         ArithmeticMean, MeanOfLogs, Quotient;
    SemanticsAccepts(baseline.value, request);
    AboveZero(Values(candidate, request.name));
    AboveZero(Values(baseline.value, request.name));
    MeanOfLogsIsEstimate(Values(candidate, request.name), log);
    MeanOfLogsIsEstimate(Values(baseline.value, request.name), log);
  }

  lemma UnjudgeableVerdict(request: MetricRequest, candidate: seq<Trial>, baseline: Option<seq<Trial>>,
                           policy: EnvironmentPolicy, critical: bool, seed: bv64, log: Logarithms)
    requires request.gate.Some? && request.gate.value.RelativeRegression?
    requires !Judgeable(request, candidate, baseline, policy, critical)
    ensures var disposition := Evaluate(request, candidate, baseline, policy, critical, seed, log).disposition;
            && disposition in {Some(Invalid), Some(Descriptive)}
            && (disposition == Some(Descriptive) ==> policy != StrictSameTestbed)
  {
    hide Judgeable, RelativeOutcome, FreshRecord, AbsoluteOutcome, Values, AllStrictlyPositive, SemanticsError,
         SampleVerdict;
    FreshRecordFacts(request, candidate);
    JudgeableIsEligible(request, candidate, baseline, policy, critical);
    if request.intent == Primary {
      EvaluateDisposition(request, candidate, baseline, policy, critical, seed, log);
    }
  }

  // ---- What an absolute pass means ----

  /** An absolute gate needs no baseline: it passes or fails exactly on finite values of a
      primary metric with a direction, by the mean of the values alone. */
  lemma AbsoluteVerdictMeaning(request: MetricRequest, candidate: seq<Trial>, baseline: Option<seq<Trial>>,
                               policy: EnvironmentPolicy, critical: bool, seed: bv64, log: Logarithms)
    requires request.gate.Some? && request.gate.value.Absolute?
    ensures var record := Evaluate(request, candidate, baseline, policy, critical, seed, log);
            var values, bound := Values(candidate, request.name), request.gate.value.value;
            if request.intent == Primary && (request.direction.LowerIsBetter? || request.direction.HigherIsBetter?)
               && values != [] && forall i :: 0 <= i < |values| ==> values[i].Finite?
            then
              var mean := Average(seq(|values|, i requires 0 <= i < |values| => values[i].r));
              && record.candidateEstimate == Some(mean)
              && record.disposition
                   == Some(if (if request.direction.LowerIsBetter? then mean <= bound else mean >= bound) then Pass
                           else Fail)
            else record.disposition == Some(Invalid)
  {
    hide Values, Included, ExcludedTrials, Average;
    var values := Values(candidate, request.name);
    if forall i :: 0 <= i < |values| ==> values[i].Finite? {
      assert AllFinite(values);
      assert Reals(values) == seq(|values|, i requires 0 <= i < |values| => values[i].r);
    } else {
      var i :| 0 <= i < |values| && !values[i].Finite?;
      assert values[i] in values;
    }
  }

  // ---- Unanimous evidence decides whatever the seed ----

  lemma {:induction false} UnanimousEvidenceDecides(request: MetricRequest, candidate: seq<Trial>,
                                                    baseline: Option<seq<Trial>>,
                                 policy: EnvironmentPolicy, critical: bool, seed: bv64, log: Logarithms)
    requires log.Valid() && StatisticallyEvaluable(request, candidate, baseline, policy, critical)
    ensures var c := Reals(Values(candidate, request.name));
            var b := Reals(Values(baseline.value, request.name));
            var threshold := request.gate.value.allowance as real / 10_000.0;
            var record := Evaluate(request, candidate, baseline, policy, critical, seed, log);
            && (AllWithin(c, b, request.direction, threshold) ==> record.disposition == Some(Pass))
            && (AllBeyond(c, b, request.direction, threshold) ==> record.disposition == Some(Fail))
  {
    hide UnpairedEffects, IntervalLow, IntervalHigh, Coherent, Absent, Evaluate, AllWithin, AllBeyond;
    StatisticalVerdictMeaning(request, candidate, baseline, policy, critical, seed, log);
    UnanimousInterval(Reals(Values(candidate, request.name)), Reals(Values(baseline.value, request.name)),
                      request.direction, log, request.gate.value.allowance as real / 10_000.0, seed,
                      BOOTSTRAP_RESAMPLES);
  }

  // ---- Worse evidence never improves a verdict ----

  predicate NoBetterScalar(before: Scalar, after: Scalar, direction: MetricDirection) {
    || before == after
    || (before.Finite? && after.Finite?
        && match direction
           case LowerIsBetter => before.r <= after.r
           case HigherIsBetter => after.r <= before.r
           case TargetRange(_, _) => false
           case Informational => false)
  }

  /** Both trials contribute a value and the second is no better, or neither does. */
  predicate NoBetterOutcome(before: Result<Scalar, string>, after: Result<Scalar, string>, direction: MetricDirection) {
    match (before, after)
    case (Ok(v), Ok(w)) => NoBetterScalar(v, w, direction)
    case (Err(_), Err(_)) => true
    case _ => false
  }

  /** `after` is the same trials with no value of `metric` better than before. */
  ghost predicate NoBetterTrials(before: seq<Trial>, after: seq<Trial>, metric: string, direction: MetricDirection) {
    && |before| == |after|
    && forall i :: 0 <= i < |before| ==> NoBetterOutcome(Usable(before[i], metric), Usable(after[i], metric), direction)
  }

  ghost predicate NoBetterValues(before: seq<Scalar>, after: seq<Scalar>, direction: MetricDirection) {
    |before| == |after| && forall i :: 0 <= i < |before| ==> NoBetterScalar(before[i], after[i], direction)
  }

  lemma {:induction false} ValuesNoBetter(before: seq<Trial>, after: seq<Trial>, metric: string,
                                          direction: MetricDirection)
    requires NoBetterTrials(before, after, metric, direction)
    ensures NoBetterValues(Values(before, metric), Values(after, metric), direction)
    decreases |before|
  {
    hide Usable, NoBetterScalar;
    if before != [] {
      var n := |before| - 1;
      ValuesNoBetter(before[..n], after[..n], metric, direction);
    }
  }

  lemma FinitenessKept(before: seq<Scalar>, after: seq<Scalar>, direction: MetricDirection)
    requires NoBetterValues(before, after, direction)
    ensures AllFinite(before) <==> AllFinite(after)
  {
    forall i | 0 <= i < |before|
      ensures before[i].Finite? <==> after[i].Finite?
    {
      assert NoBetterScalar(before[i], after[i], direction);
    }
    assert (forall v :: v in before ==> v.Finite?) <==> (forall i :: 0 <= i < |before| ==> before[i].Finite?);
    assert (forall v :: v in after ==> v.Finite?) <==> (forall i :: 0 <= i < |after| ==> after[i].Finite?);
  }

  lemma RealsNoBetter(before: seq<Scalar>, after: seq<Scalar>, direction: MetricDirection)
    requires NoBetterValues(before, after, direction)
    requires AllStrictlyPositive(before) && AllStrictlyPositive(after)
    ensures AllPositive(Reals(before)) && AllPositive(Reals(after))
    ensures NowhereBetter(Reals(after), Reals(before), direction)
  {
    var b, a := Reals(before), Reals(after);
    forall i | 0 <= i < |before|
      ensures b[i] > 0.0 && a[i] > 0.0
      ensures NoBetterScalar(before[i], after[i], direction)
    {
      assert before[i] in before && after[i] in after;
    }
  }

  /** Pass, then Inconclusive, then Fail; other dispositions are not comparable. */
  function Severity(disposition: Option<GateDisposition>): Option<nat> {
    match disposition
    case Some(Pass) => Some(0)
    case Some(Inconclusive) => Some(1)
    case Some(Fail) => Some(2)
    case _ => None
  }

  ghost predicate NoMilder(before: Option<GateDisposition>, after: Option<GateDisposition>) {
    if Severity(before).Some? then Severity(after).Some? && Severity(before).value <= Severity(after).value
    else after == before
  }

  /** A verdict that can only get worse, or become Invalid. */
  ghost predicate WorseOrInvalid(before: Option<GateDisposition>, after: Option<GateDisposition>) {
    Severity(before).Some? ==> after == Some(Invalid) || NoMilder(before, after)
  }

  lemma {:induction false} AbsoluteWorsens(request: MetricRequest, before: seq<Trial>, after: seq<Trial>)
    requires request.gate.Some? && request.gate.value.Absolute?
    requires NoBetterTrials(before, after, request.name, request.direction)
    ensures NoMilder(
              AbsoluteOutcome(FreshRecord(request, before), Values(before, request.name),
                              request.gate.value.value).disposition,
              AbsoluteOutcome(FreshRecord(request, after), Values(after, request.name),
                              request.gate.value.value).disposition)
  {
    var b, a := Values(before, request.name), Values(after, request.name);
    ValuesNoBetter(before, after, request.name, request.direction);
    FinitenessKept(b, a, request.direction);
    if b != [] && AllFinite(b) && Directed(request.direction) {
      assert forall i :: 0 <= i < |b| ==> NoBetterScalar(b[i], a[i], request.direction);
      if request.direction.LowerIsBetter? {
        AverageMonotone(Reals(b), Reals(a));
      } else {
        AverageMonotone(Reals(a), Reals(b));
      }
    }
  }

  lemma QuotientMonotone(x: real, y: real, z: real, w: real)
    requires 0.0 < x <= y && 0.0 < z <= w
    ensures Quotient(x, w) <= Quotient(y, z)
  {
    assert x / w <= y / w;
    assert y / w <= y / z by {
      assert (y / z) * z == y;
      assert (y / z) * w >= (y / z) * z;
      assert ((y / z) * w) / w == y / z;
    }
  }

  lemma {:induction false} DegradationWorsens(before: seq<Scalar>, after: seq<Scalar>, baseline: seq<Scalar>,
                           direction: MetricDirection, log: Logarithms)
    requires log.Valid() && Directed(direction) && NoBetterValues(before, after, direction)
    requires AllStrictlyPositive(before) && AllStrictlyPositive(after) && AllStrictlyPositive(baseline)
    ensures OrientedDegradation(GeometricMean(before, log), GeometricMean(baseline, log), direction).value
         <= OrientedDegradation(GeometricMean(after, log), GeometricMean(baseline, log), direction).value
  {
    RealsNoBetter(before, after, direction);
    LogsNowhereBetter(log, Reals(after), Reals(before), direction);
    var x, y := Logs(Reals(before), log.ln), Logs(Reals(after), log.ln);
    var b := GeometricMean(baseline, log).value;
    if direction.LowerIsBetter? {
      AverageMonotone(x, y);
      ExpOrder(log, Average(x), Average(y));
      QuotientMonotone(log.exp(Average(x)), log.exp(Average(y)), b, b);
    } else {
      AverageMonotone(y, x);
      ExpOrder(log, Average(y), Average(x));
      QuotientMonotone(b, b, log.exp(Average(y)), log.exp(Average(x)));
    }
  }

  /** Whether a relative or statistical gate gets as far as a same-testbed verdict. */
  predicate Eligible(request: MetricRequest, candidate: seq<Scalar>, baseline: Option<seq<Trial>>) {
    && baseline.Some? && SemanticsError(baseline.value, request, None).None?
    && AllStrictlyPositive(candidate) && AllStrictlyPositive(Values(baseline.value, request.name))
    && Directed(request.direction)
  }

  /** The verdict of a gate with this threshold on two positive samples. */
  function SampleVerdict(gate: Gate, threshold: real, direction: MetricDirection, candidate: seq<Scalar>,
                         baseline: seq<Scalar>, seed: bv64, log: Logarithms): GateDisposition
    requires AllStrictlyPositive(candidate) && AllStrictlyPositive(baseline) && Directed(direction)
  {
    match gate
    case Absolute(_) => Invalid
    case RelativeRegression(_) =>
      if OrientedDegradation(GeometricMean(candidate, log), GeometricMean(baseline, log), direction).value <= threshold
      then Pass else Fail
    case StatisticalRelative(_, minTrials) =>
      if !EnoughTrials(minTrials, Reals(candidate), Reals(baseline)) then Invalid
      else
        var effects := UnpairedEffects(Reals(candidate), Reals(baseline), direction, log, seed, BOOTSTRAP_RESAMPLES);
        IntervalDisposition(IntervalLow(effects), IntervalHigh(effects), threshold)
  }

  /** The disposition of a relative or statistical gate, apart from the record around it. */
  function RelativeDisposition(request: MetricRequest, candidate: seq<Scalar>, baseline: Option<seq<Trial>>,
                               policy: EnvironmentPolicy, critical: bool, seed: bv64, log: Logarithms): GateDisposition
    requires request.gate.Some? && !request.gate.value.Absolute?
  {
    if !Eligible(request, candidate, baseline) then Invalid
    else if !BaselineGated(policy, critical) then if policy == StrictSameTestbed then Invalid else Descriptive
    else SampleVerdict(request.gate.value, Threshold(request.gate).value, request.direction, candidate,
                       Values(baseline.value, request.name), seed, log)
  }

  lemma StatisticalOutcomeDisposition(record: MetricRecord, minTrials: nat, candidate: seq<real>, baseline: seq<real>,
                                      seed: bv64, log: Logarithms)
    requires record.threshold.Some?
    ensures StatisticalOutcome(record, minTrials, candidate, baseline, seed, log).disposition
         == Some(if !EnoughTrials(minTrials, candidate, baseline) then Invalid
                 else
                   var effects := UnpairedEffects(candidate, baseline, record.direction, log, seed,
                                                  BOOTSTRAP_RESAMPLES);
                   IntervalDisposition(IntervalLow(effects), IntervalHigh(effects), record.threshold.value))
  {
    hide UnpairedEffects, IntervalLow, IntervalHigh, IntervalDisposition;
  }

  lemma RelativeOutcomeDisposition(record: MetricRecord, request: MetricRequest, candidate: seq<Scalar>,
                                   baseline: Option<seq<Trial>>, policy: EnvironmentPolicy, critical: bool,
                                   seed: bv64, log: Logarithms)
    requires request.gate.Some? && !request.gate.value.Absolute?
    requires record.threshold == Threshold(request.gate) && record.direction == request.direction
    ensures RelativeOutcome(record, request, candidate, baseline, policy, critical, seed, log).disposition
         == Some(RelativeDisposition(request, candidate, baseline, policy, critical, seed, log))
  {
    hide UnpairedEffects, IntervalLow, IntervalHigh, IntervalDisposition, GeometricMean, Degradation, SemanticsError,
         Included, ExcludedTrials, Values, EnoughTrials, StatisticalOutcome, Reals;
    if Eligible(request, candidate, baseline) && BaselineGated(policy, critical)
       && request.gate.value.StatisticalRelative? {
      var values := Values(baseline.value, request.name);
      var joined := record.(baselineIncluded := Included(baseline.value, request.name),
                            baselineExcluded := ExcludedTrials(baseline.value, request.name));
      var baselineEstimate := GeometricMean(values, log);
      var degradation := OrientedDegradation(GeometricMean(candidate, log), baselineEstimate, request.direction);
      var estimated := joined.(baselineEstimate := baselineEstimate, degradation := degradation);
      StatisticalOutcomeDisposition(estimated, request.gate.value.minTrials, Reals(candidate), Reals(values), seed,
                                    log);
    }
  }

  lemma {:induction false} SampleVerdictWorsens(gate: Gate, threshold: real, direction: MetricDirection,
                                                before: seq<Scalar>,
                             after: seq<Scalar>, baseline: seq<Scalar>, seed: bv64, log: Logarithms)
    requires log.Valid() && Directed(direction) && NoBetterValues(before, after, direction)
    requires AllStrictlyPositive(before) && AllStrictlyPositive(after) && AllStrictlyPositive(baseline)
    ensures NoMilder(Some(SampleVerdict(gate, threshold, direction, before, baseline, seed, log)),
                     Some(SampleVerdict(gate, threshold, direction, after, baseline, seed, log)))
  {
    hide UnpairedEffects, IntervalLow, IntervalHigh, GeometricMean, Degradation;
    RealsNoBetter(before, after, direction);
    DegradationWorsens(before, after, baseline, direction, log);
    IntervalWorsens(Reals(before), Reals(after), Reals(baseline), direction, log, seed, BOOTSTRAP_RESAMPLES);
  }

  lemma {:induction false} RelativeWorsens(request: MetricRequest, before: seq<Trial>, after: seq<Trial>,
                                           baseline: Option<seq<Trial>>,
                        policy: EnvironmentPolicy, critical: bool, seed: bv64, log: Logarithms)
    requires log.Valid() && request.gate.Some? && !request.gate.value.Absolute?
    requires NoBetterTrials(before, after, request.name, request.direction)
    ensures var b, a := Values(before, request.name), Values(after, request.name);
            var x := Some(RelativeDisposition(request, b, baseline, policy, critical, seed, log));
            var y := Some(RelativeDisposition(request, a, baseline, policy, critical, seed, log));
            && WorseOrInvalid(x, y)
            && ((AllStrictlyPositive(b) <==> AllStrictlyPositive(a)) ==> NoMilder(x, y))
  {
    hide SampleVerdict, SemanticsError, Values, AllStrictlyPositive;
    var b, a := Values(before, request.name), Values(after, request.name);
    ValuesNoBetter(before, after, request.name, request.direction);
    if Eligible(request, b, baseline) && Eligible(request, a, baseline) {
      SampleVerdictWorsens(request.gate.value, Threshold(request.gate).value, request.direction, b, a,
                           Values(baseline.value, request.name), seed, log);
    }
  }

  /** The disposition of `Evaluate`, gate by gate. */
  lemma EvaluateDisposition(request: MetricRequest, candidate: seq<Trial>, baseline: Option<seq<Trial>>,
                            policy: EnvironmentPolicy, critical: bool, seed: bv64, log: Logarithms)
    requires request.gate.Some? && request.intent == Primary && !request.gate.value.Absolute?
    ensures Evaluate(request, candidate, baseline, policy, critical, seed, log).disposition
         == Some(RelativeDisposition(request, Values(candidate, request.name), baseline, policy, critical, seed, log))
  {
    hide RelativeOutcome, RelativeDisposition, AbsoluteOutcome, Included, ExcludedTrials, ArithmeticMean, Values;
    RelativeOutcomeDisposition(FreshRecord(request, candidate), request, Values(candidate, request.name),
                               baseline, policy, critical, seed, log);
  }

  /** With the seed and the baseline fixed, worsening candidate values never makes a
      verdict milder, for every kind of gate: a Fail stays a Fail and an Inconclusive
      never passes.  A relative gate turns Invalid when a value stops being positive;
      where that does not change, no other disposition changes either. */
  lemma WorseEvidenceNeverHelps(request: MetricRequest, before: seq<Trial>, after: seq<Trial>,
                                baseline: Option<seq<Trial>>,
                                policy: EnvironmentPolicy, critical: bool, seed: bv64, log: Logarithms)
    requires log.Valid() && NoBetterTrials(before, after, request.name, request.direction)
    ensures var x := Evaluate(request, before, baseline, policy, critical, seed, log).disposition;
            var y := Evaluate(request, after, baseline, policy, critical, seed, log).disposition;
            && WorseOrInvalid(x, y)
            && var b, a := Values(before, request.name), Values(after, request.name);
               (|| request.gate.None? || request.gate.value.Absolute?
                || (AllStrictlyPositive(b) <==> AllStrictlyPositive(a))
                ==> NoMilder(x, y))
  {
    hide RelativeOutcome, AbsoluteOutcome, RelativeDisposition, NoBetterTrials, NoMilder, Values, AllStrictlyPositive;
    if request.gate.Some? && request.intent == Primary {
      if request.gate.value.Absolute? {
        AbsoluteWorsens(request, before, after);
      } else {
        RelativeWorsens(request, before, after, baseline, policy, critical, seed, log);
        EvaluateDisposition(request, before, baseline, policy, critical, seed, log);
        EvaluateDisposition(request, after, baseline, policy, critical, seed, log);
      }
    } else {
      SameIsNoMilder(Evaluate(request, before, baseline, policy, critical, seed, log).disposition);
    }
  }

  lemma SameIsNoMilder(disposition: Option<GateDisposition>)
    ensures NoMilder(disposition, disposition)
  {
  }

  // ---- A larger allowance never hurts ----

  /** The same request with another allowance; absolute gates have none. */
  function WithAllowance(request: MetricRequest, allowance: nat): MetricRequest {
    match request.gate
    case Some(RelativeRegression(_)) => request.(gate := Some(RelativeRegression(allowance)))
    case Some(StatisticalRelative(_, minTrials)) => request.(gate := Some(StatisticalRelative(allowance, minTrials)))
    case _ => request
  }

  predicate AllowanceAtMost(request: MetricRequest, allowance: nat) {
    match request.gate
    case Some(RelativeRegression(current)) => current <= allowance
    case Some(StatisticalRelative(current, _)) => current <= allowance
    case _ => true
  }

  lemma {:induction false} SemanticsIgnoreGate(trials: seq<Trial>, request: MetricRequest, other: MetricRequest,
                                               reference: Option<Observation>)
    requires other.name == request.name && other.unit == request.unit && other.direction == request.direction
    ensures SemanticsError(trials, request, reference) == SemanticsError(trials, other, reference)
    decreases |trials|
  {
    if trials != [] {
      var found := Carried(trials[0], request.name);
      SemanticsIgnoreGate(trials[1..], request, other, if reference.None? then found else reference);
      SemanticsIgnoreGate(trials[1..], request, other, reference);
    }
  }

  lemma ThresholdGrows(request: MetricRequest, allowance: nat)
    requires AllowanceAtMost(request, allowance)
    ensures Threshold(request.gate).None? <==> Threshold(WithAllowance(request, allowance).gate).None?
    ensures Threshold(request.gate).Some? ==>
              Threshold(request.gate).value <= Threshold(WithAllowance(request, allowance).gate).value
  {
  }

  /** On the same evidence and seed, raising the allowance never turns a verdict into a
      worse one: a Pass stays a Pass and an Inconclusive never becomes a Fail. */
  lemma {:induction false} LargerAllowanceNeverHurts(request: MetricRequest, allowance: nat, candidate: seq<Trial>,
                                  baseline: Option<seq<Trial>>, policy: EnvironmentPolicy, critical: bool,
                                  seed: bv64, log: Logarithms)
    requires AllowanceAtMost(request, allowance)
    ensures NoMilder(
              Evaluate(WithAllowance(request, allowance), candidate, baseline, policy, critical, seed, log).disposition,
              Evaluate(request, candidate, baseline, policy, critical, seed, log).disposition)
  {
    hide RelativeOutcome, AbsoluteOutcome, Threshold, SemanticsError, Values, UnpairedEffects, IntervalLow,
         IntervalHigh,
         GeometricMean, Degradation;
    var other := WithAllowance(request, allowance);
    if request.gate.Some? && request.intent == Primary && !request.gate.value.Absolute? {
      ThresholdGrows(request, allowance);
      EvaluateDisposition(request, candidate, baseline, policy, critical, seed, log);
      EvaluateDisposition(other, candidate, baseline, policy, critical, seed, log);
      if baseline.Some? {
        SemanticsIgnoreGate(baseline.value, request, other, None);
      }
    }
  }
}
