/**
  Gating one metric over complete pairs (`evaluate_paired_metric` and
  `drift_diagnostics` in comparison.rs), and how the verdict moves with the evidence.
 */
module PairedEvaluation {
  import opened Basics
  import opened Averages
  import opened OrderStatistics
  import opened Bootstrap
  import opened BootstrapLaws
  import opened Evaluation
  import opened GateLaws
  import opened PairJoin

  datatype Trend = Up | Down | Flat | Insufficient

  datatype Drift = Drift(firstHalf: Option<real>, secondHalf: Option<real>, trend: Trend)

  datatype PairEffect = PairEffect(pairId: nat, effect: real)

  /** The paired section of a receipt, for one metric. */
  datatype PairedMetric = PairedMetric(
    name: string, complete: seq<nat>, excluded: seq<nat>, effects: seq<PairEffect>, drift: Drift,
    effectiveSeed: Option<bv64>)

  predicate Positive(v: Scalar) {
    v.Finite? && v.r > 0.0
  }

  /** Relative gates need a pair, and only finite strictly positive values. */
  predicate DomainValid(pairs: seq<CompletePair>) {
    pairs != [] && forall p :: p in pairs ==> Positive(p.candidateValue) && Positive(p.baselineValue)
  }

  /** Oriented log-difference of one pair: positive means the candidate is worse. */
  function Difference(pair: CompletePair, direction: MetricDirection, log: Logarithms): real
    requires Positive(pair.candidateValue) && Positive(pair.baselineValue)
  {
    LogEffect(log.ln(pair.candidateValue.r), log.ln(pair.baselineValue.r), direction)
  }

  function Differences(pairs: seq<CompletePair>, direction: MetricDirection, log: Logarithms): (r: seq<real>)
    requires forall p :: p in pairs ==> Positive(p.candidateValue) && Positive(p.baselineValue)
    ensures |r| == |pairs|
    ensures forall i :: 0 <= i < |r| ==> r[i] == Difference(pairs[i], direction, log)
  {
    if pairs == [] then [] else [Difference(pairs[0], direction, log)] + Differences(pairs[1..], direction, log)
  }

  // ---- Descriptive evidence ----

  function CandidateValues(pairs: seq<CompletePair>): seq<Scalar> {
    seq(|pairs|, i requires 0 <= i < |pairs| => pairs[i].candidateValue)
  }

  function BaselineValues(pairs: seq<CompletePair>): seq<Scalar> {
    seq(|pairs|, i requires 0 <= i < |pairs| => pairs[i].baselineValue)
  }

  function CandidateTrials(pairs: seq<CompletePair>): seq<nat> {
    seq(|pairs|, i requires 0 <= i < |pairs| => pairs[i].candidateTrial)
  }

  function BaselineTrials(pairs: seq<CompletePair>): seq<nat> {
    seq(|pairs|, i requires 0 <= i < |pairs| => pairs[i].baselineTrial)
  }

  function PairIds(pairs: seq<CompletePair>): seq<nat> {
    seq(|pairs|, i requires 0 <= i < |pairs| => pairs[i].pairId)
  }

  /** Oriented effect of each pair, in pair order. */
  function PairEffects(pairs: seq<CompletePair>, direction: MetricDirection, log: Logarithms): seq<PairEffect>
    requires forall p :: p in pairs ==> Positive(p.candidateValue) && Positive(p.baselineValue)
  {
    if pairs == [] then []
    else
      var last := pairs[|pairs| - 1];
      PairEffects(pairs[..|pairs| - 1], direction, log)
      + [PairEffect(last.pairId, log.exp(Difference(last, direction, log)) - 1.0)]
  }

  function EffectValues(effects: seq<PairEffect>): seq<real> {
    seq(|effects|, i requires 0 <= i < |effects| => effects[i].effect)
  }

  /** Means of the two halves in execution order; of an odd number the second half holds
      one more. */
  function DriftOf(effects: seq<PairEffect>): Drift {
    if |effects| < 2 then Drift(None, None, Insufficient)
    else
      var half := |effects| / 2;
      var first := Average(EffectValues(effects[..half]));
      var second := Average(EffectValues(effects[half..]));
      Drift(Some(first), Some(second), if second > first then Up else if second < first then Down else Flat)
  }

  /** The record before any gate is consulted. */
  function FreshPaired(request: MetricRequest, selection: PairSelection, log: Logarithms): MetricRecord {
    MetricRecord(request.name, request.unit, request.direction, request.intent, request.gate,
                 CandidateTrials(selection.complete), selection.candidateExcluded,
                 BaselineTrials(selection.complete), selection.baselineExcluded,
                 ArithmeticMean(CandidateValues(selection.complete)),
                 GeometricMean(BaselineValues(selection.complete), log),
                 None, None, None, Threshold(request.gate), None, None, None, None)
  }

  function SectionOf(request: MetricRequest, selection: PairSelection, seed: Option<bv64>,
                     log: Logarithms): PairedMetric {
    var effects := if Directed(request.direction) && DomainValid(selection.complete)
                   then PairEffects(selection.complete, request.direction, log) else [];
    PairedMetric(request.name, PairIds(selection.complete), selection.excludedPairs, effects, DriftOf(effects), seed)
  }

  // ---- Gates ----

  function Rejected(record: MetricRecord, reason: string): MetricRecord {
    record.(disposition := Some(Invalid), reason := Some(reason))
  }

  function PairedStatistical(record: MetricRecord, differences: seq<real>, minTrials: nat, threshold: real,
                             seed: bv64, log: Logarithms): MetricRecord
    requires differences != []
  {
    if |differences| < MinObservations(minTrials) then Rejected(record, "insufficient_pairs")
    else
      var effects := PairedEffects(differences, log.exp, seed, BOOTSTRAP_RESAMPLES);
      var low, high := IntervalLow(effects), IntervalHigh(effects);
      record.(confidenceLow := Some(low), confidenceHigh := Some(high),
              resamples := Some(BOOTSTRAP_RESAMPLES), effectiveSeed := Some(seed),
              disposition := Some(IntervalDisposition(low, high, threshold)))
  }

  function PairedGate(record: MetricRecord, request: MetricRequest, pairs: seq<CompletePair>, seed: bv64,
                      log: Logarithms)
    : MetricRecord
    requires request.gate.Some? && !request.gate.value.Absolute? && DomainValid(pairs)
  {
    var differences := Differences(pairs, request.direction, log);
    var degradation := log.exp(Average(differences)) - 1.0;
    var estimated := record.(degradation := Some(degradation));
    match request.gate.value
    case RelativeRegression(allowance) =>
      estimated.(disposition := Some(if degradation <= allowance as real / 10_000.0 then Pass else Fail))
    case StatisticalRelative(allowance, minTrials) =>
      PairedStatistical(estimated, differences, minTrials, allowance as real / 10_000.0, seed, log)
  }

  function EvaluatePaired(request: MetricRequest, trials: seq<Trial>, seed: bv64, log: Logarithms): MetricRecord {
    var selection := Join(trials, request.name);
    var record := FreshPaired(request, selection, log);
    if request.gate.None? then record
    else if request.intent != Primary then Rejected(record, "diagnostic_metric_cannot_gate")
    else if request.gate.value.Absolute? then Rejected(record, "absolute_gate_unsupported_for_paired_evidence")
    else if SemanticsError(trials, request, None).Some? then
      Rejected(record, SemanticsError(trials, request, None).value)
    else if !Directed(request.direction) then Rejected(record, "unsupported_direction_for_relative_gate")
    else if !DomainValid(selection.complete) then Rejected(record, "nonpositive_relative_value")
    else PairedGate(record, request, selection.complete, seed, log)
  }

  /** The warnings that evaluating one paired metric adds. */
  function PairedWarnings(record: MetricRecord): seq<Warning> {
    if record.confidenceLow.Some? && |record.candidateIncluded| < RECOMMENDED_OBSERVATIONS_PER_SIDE
    then [Warning("below_recommended_pair_count", record.name)]
    else []
  }

  /** `oriented_log_difference`. */
  method MeasureDifference(pair: CompletePair, direction: MetricDirection, log: Logarithms) returns (difference: real)
    requires Positive(pair.candidateValue) && Positive(pair.baselineValue)
    ensures difference == Difference(pair, direction, log)
  {
    var candidate, baseline := pair.candidateValue.r, pair.baselineValue.r;
    match direction {
      case LowerIsBetter => return log.ln(candidate) - log.ln(baseline);
      case HigherIsBetter => return log.ln(baseline) - log.ln(candidate);
      case TargetRange(_, _) => return 0.0;
      case Informational => return 0.0;
    }
  }

  /** `complete_pairs_domain_valid`. */
  method CheckPairs(pairs: seq<CompletePair>) returns (ok: bool)
    ensures ok == DomainValid(pairs)
  {
    return pairs != []
           && forall p :: p in pairs ==>
                p.candidateValue.Finite? && p.baselineValue.Finite? && p.candidateValue.r > 0.0
                && p.baselineValue.r > 0.0;
  }

  method CollectDifferences(pairs: seq<CompletePair>, direction: MetricDirection, log: Logarithms)
    returns (differences: seq<real>)
    requires forall p :: p in pairs ==> Positive(p.candidateValue) && Positive(p.baselineValue)
    ensures differences == Differences(pairs, direction, log)
  {
    hide Difference, Differences;
    differences := [];
    for i := 0 to |pairs|
      invariant differences == Differences(pairs, direction, log)[..i]
    {
      assert pairs[i] in pairs;
      var difference := MeasureDifference(pairs[i], direction, log);
      differences := differences + [difference];
    }
  }

  /** `drift_diagnostics`. */
  method MeasureDrift(effects: seq<PairEffect>) returns (drift: Drift)
    ensures drift == DriftOf(effects)
  {
    hide Average;
    if |effects| < 2 {
      return Drift(None, None, Insufficient);
    }
    var half := |effects| / 2;
    var firstHalf := seq(half, i requires 0 <= i < half => effects[i].effect);
    var secondHalf := seq(|effects| - half, i requires 0 <= i < |effects| - half => effects[half + i].effect);
    assert firstHalf == EffectValues(effects[..half]) && secondHalf == EffectValues(effects[half..]);
    var first := TakeMean(firstHalf);
    var second := TakeMean(secondHalf);
    var trend := Flat;
    if second > first {
      trend := Up;
    } else if second < first {
      trend := Down;
    }
    return Drift(Some(first), Some(second), trend);
  }

  /** The record of a metric before its gate is consulted. */
  method StartRecord(request: MetricRequest, selection: PairSelection, log: Logarithms) returns (record: MetricRecord)
    ensures record == FreshPaired(request, selection, log)
  {
    hide ArithmeticMean, GeometricMean, Threshold;
    var pairs := selection.complete;
    var candidateTrials := seq(|pairs|, i requires 0 <= i < |pairs| => pairs[i].candidateTrial);
    var baselineTrials := seq(|pairs|, i requires 0 <= i < |pairs| => pairs[i].baselineTrial);
    var candidateValues := seq(|pairs|, i requires 0 <= i < |pairs| => pairs[i].candidateValue);
    var baselineValues := seq(|pairs|, i requires 0 <= i < |pairs| => pairs[i].baselineValue);
    assert candidateTrials == CandidateTrials(pairs) && baselineTrials == BaselineTrials(pairs);
    assert candidateValues == CandidateValues(pairs) && baselineValues == BaselineValues(pairs);
    var candidateEstimate := MeasureMean(candidateValues);
    var baselineEstimate := MeasureGeometricMean(baselineValues, log);
    record := MetricRecord(request.name, request.unit, request.direction, request.intent, request.gate,
                           candidateTrials, selection.candidateExcluded, baselineTrials, selection.baselineExcluded,
                           candidateEstimate, baselineEstimate, None, None, None, Threshold(request.gate),
                           None, None, None, None);
  }

  method CollectPairEffects(pairs: seq<CompletePair>, direction: MetricDirection, log: Logarithms)
    returns (effects: seq<PairEffect>)
    requires forall p :: p in pairs ==> Positive(p.candidateValue) && Positive(p.baselineValue)
    ensures effects == PairEffects(pairs, direction, log)
  {
    effects := [];
    for i := 0 to |pairs|
      invariant effects == PairEffects(pairs[..i], direction, log)
    {
      assert pairs[..i + 1][..i] == pairs[..i] && pairs[i] in pairs;
      var difference := MeasureDifference(pairs[i], direction, log);
      effects := effects + [PairEffect(pairs[i].pairId, log.exp(difference) - 1.0)];
    }
    assert pairs[..|pairs|] == pairs;
  }

  method EvaluatePairedMetric(request: MetricRequest, trials: seq<Trial>, seed: bv64, log: Logarithms)
    returns (record: MetricRecord, paired: PairedMetric, warnings: seq<Warning>)
    ensures record == EvaluatePaired(request, trials, seed, log)
    ensures paired == SectionOf(request, Join(trials, request.name), record.effectiveSeed, log)
    ensures warnings == PairedWarnings(record)
  {
    hide PairedGate, SemanticsError, Join, DomainValid, PairEffects, DriftOf, ArithmeticMean, GeometricMean;
    var selection := SelectPairs(trials, request.name);
    var effects: seq<PairEffect> := [];
    var domainValid := CheckPairs(selection.complete);
    if (request.direction.HigherIsBetter? || request.direction.LowerIsBetter?) && domainValid {
      DomainMembers(selection.complete);
      effects := CollectPairEffects(selection.complete, request.direction, log);
    }
    var drift := MeasureDrift(effects);
    var ids := seq(|selection.complete|, i requires 0 <= i < |selection.complete| => selection.complete[i].pairId);
    assert ids == PairIds(selection.complete);
    paired := PairedMetric(request.name, ids, selection.excludedPairs, effects, drift, None);
    record, warnings := GateMetric(request, selection, trials, seed, log);
    paired := paired.(effectiveSeed := record.effectiveSeed);
  }

  lemma DomainMembers(pairs: seq<CompletePair>)
    requires DomainValid(pairs)
    ensures forall p :: p in pairs ==> Positive(p.candidateValue) && Positive(p.baselineValue)
  {
  }

  /** The gate preconditions in order, then the gate. */
  method GateMetric(request: MetricRequest, selection: PairSelection, trials: seq<Trial>, seed: bv64, log: Logarithms)
    returns (record: MetricRecord, warnings: seq<Warning>)
    requires selection == Join(trials, request.name)
    ensures record == EvaluatePaired(request, trials, seed, log)
    ensures warnings == PairedWarnings(record)
  {
    hide PairedGate, SemanticsError, Join, DomainValid, ArithmeticMean, GeometricMean;
    warnings := [];
    record := StartRecord(request, selection, log);
    if request.gate.None? {
      return;
    }
    if request.intent != Primary {
      record := record.(disposition := Some(Invalid), reason := Some("diagnostic_metric_cannot_gate"));
      return;
    }
    if request.gate.value.Absolute? {
      record := record.(disposition := Some(Invalid), reason := Some("absolute_gate_unsupported_for_paired_evidence"));
      return;
    }
    var error := CheckMetricSemantics(request, trials);
    if error.Some? {
      record := record.(disposition := Some(Invalid), reason := error);
      return;
    }
    if !request.direction.HigherIsBetter? && !request.direction.LowerIsBetter? {
      record := record.(disposition := Some(Invalid), reason := Some("unsupported_direction_for_relative_gate"));
      return;
    }
    var domainValid := CheckPairs(selection.complete);
    if !domainValid {
      record := record.(disposition := Some(Invalid), reason := Some("nonpositive_relative_value"));
      return;
    }
    record, warnings := GatePairs(record, request, selection.complete, seed, log);
  }

  /** The gated branch, once every precondition holds. */
  method GatePairs(initial: MetricRecord, request: MetricRequest, pairs: seq<CompletePair>, seed: bv64, log: Logarithms)
    returns (record: MetricRecord, warnings: seq<Warning>)
    requires request.gate.Some? && !request.gate.value.Absolute? && DomainValid(pairs)
    requires initial.confidenceLow.None? && |initial.candidateIncluded| == |pairs|
    ensures record == PairedGate(initial, request, pairs, seed, log)
    ensures warnings == PairedWarnings(record)
  {
    hide PairedEffects, IntervalLow, IntervalHigh, Average, Differences;
    warnings := [];
    DomainMembers(pairs);
    var differences := CollectDifferences(pairs, request.direction, log);
    var meanDifference := TakeMean(differences);
    record := initial.(degradation := Some(log.exp(meanDifference) - 1.0));
    match request.gate.value {
      case RelativeRegression(allowance) =>
        var passed := record.degradation.value <= allowance as real / 10_000.0;
        record := record.(disposition := Some(if passed then Pass else Fail));
      case StatisticalRelative(allowance, minTrials) =>
        if |pairs| < MIN_OBSERVATIONS_PER_SIDE || |pairs| < minTrials {
          record := record.(disposition := Some(Invalid), reason := Some("insufficient_pairs"));
          return;
        }
        if |pairs| < RECOMMENDED_OBSERVATIONS_PER_SIDE {
          warnings := [Warning("below_recommended_pair_count", record.name)];
        }
        var low, high := PairedBootstrapInterval(differences, BOOTSTRAP_RESAMPLES, seed, log);
        record := record.(confidenceLow := Some(low), confidenceHigh := Some(high));
        record := record.(resamples := Some(BOOTSTRAP_RESAMPLES), effectiveSeed := Some(seed));
        var threshold := allowance as real / 10_000.0;
        if low > threshold {
          record := record.(disposition := Some(Fail));
        } else if high <= threshold {
          record := record.(disposition := Some(Pass));
        } else {
          record := record.(disposition := Some(Inconclusive));
        }
    }
  }

  // ---- The disposition, apart from the record around it ----

  /** The verdict of a relative or statistical gate on domain-valid pairs. */
  function PairVerdict(gate: Gate, direction: MetricDirection, pairs: seq<CompletePair>, seed: bv64, log: Logarithms)
    : GateDisposition
    requires DomainValid(pairs)
  {
    var differences := Differences(pairs, direction, log);
    match gate
    case Absolute(_) => Invalid
    case RelativeRegression(allowance) =>
      if log.exp(Average(differences)) - 1.0 <= allowance as real / 10_000.0 then Pass else Fail
    case StatisticalRelative(allowance, minTrials) =>
      if |pairs| < MinObservations(minTrials) then Invalid
      else
        var effects := PairedEffects(differences, log.exp, seed, BOOTSTRAP_RESAMPLES);
        IntervalDisposition(IntervalLow(effects), IntervalHigh(effects), allowance as real / 10_000.0)
  }

  /** Whether a paired gate gets as far as its verdict. */
  predicate PairEligible(request: MetricRequest, trials: seq<Trial>) {
    && request.intent == Primary && SemanticsError(trials, request, None).None?
    && Directed(request.direction) && DomainValid(Join(trials, request.name).complete)
  }

  function PairedDisposition(request: MetricRequest, trials: seq<Trial>, seed: bv64,
                             log: Logarithms): Option<GateDisposition> {
    if request.gate.None? then None
    else if !PairEligible(request, trials) then Some(Invalid)
    else Some(PairVerdict(request.gate.value, request.direction, Join(trials, request.name).complete, seed, log))
  }

  lemma PairedGateDisposition(record: MetricRecord, request: MetricRequest, pairs: seq<CompletePair>, seed: bv64,
                              log: Logarithms)
    requires request.gate.Some? && !request.gate.value.Absolute? && DomainValid(pairs)
    ensures PairedGate(record, request, pairs, seed, log).disposition
         == Some(PairVerdict(request.gate.value, request.direction, pairs, seed, log))
  {
    hide PairedEffects, IntervalLow, IntervalHigh, Average, IntervalDisposition;
  }

  lemma EvaluatePairedDisposition(request: MetricRequest, trials: seq<Trial>, seed: bv64, log: Logarithms)
    ensures EvaluatePaired(request, trials, seed, log).disposition == PairedDisposition(request, trials, seed, log)
  {
    hide PairedGate, SemanticsError, Join, DomainValid, PairVerdict, ArithmeticMean, GeometricMean;
    if request.gate.Some? && !request.gate.value.Absolute? && PairEligible(request, trials) {
      var selection := Join(trials, request.name);
      PairedGateDisposition(FreshPaired(request, selection, log), request, selection.complete, seed, log);
    }
    AbsolutePairs(request, trials, seed, log);
  }

  lemma AbsolutePairs(request: MetricRequest, trials: seq<Trial>, seed: bv64, log: Logarithms)
    ensures request.gate.Some? && request.gate.value.Absolute? ==>
              PairedDisposition(request, trials, seed, log) == Some(Invalid)
  {
    hide SemanticsError, Join, DomainValid, Average;
  }

  // ---- What a paired verdict means ----

  /** Both values of every pair are finite and strictly positive. */
  ghost predicate PairsAboveZero(pairs: seq<CompletePair>) {
    forall i :: 0 <= i < |pairs| ==>
      && pairs[i].candidateValue.Finite? && pairs[i].candidateValue.r > 0.0
      && pairs[i].baselineValue.Finite? && pairs[i].baselineValue.r > 0.0
  }

  lemma DomainMeaning(pairs: seq<CompletePair>)
    ensures DomainValid(pairs) <==> pairs != [] && PairsAboveZero(pairs)
  {
    if DomainValid(pairs) {
      assert forall i :: 0 <= i < |pairs| ==> pairs[i] in pairs;
    }
  }

  /** Everything a relative or statistical gate demands of a paired run before it judges. */
  ghost predicate PairsJudgeable(request: MetricRequest, trials: seq<Trial>) {
    && request.intent == Primary && (request.direction.LowerIsBetter? || request.direction.HigherIsBetter?)
    && Coherent(trials, request) && !Absent(trials, request.name)
    && Join(trials, request.name).complete != [] && PairsAboveZero(Join(trials, request.name).complete)
  }

  /** What a statistical gate demands: enough pairs as well. */
  ghost predicate PairedEvaluable(request: MetricRequest, trials: seq<Trial>) {
    && request.gate.Some? && request.gate.value.StatisticalRelative?
    && PairsJudgeable(request, trials)
    && var pairs := Join(trials, request.name).complete;
       |pairs| >= MIN_OBSERVATIONS_PER_SIDE && |pairs| >= request.gate.value.minTrials
  }

  lemma PairsJudgeableIsEligible(request: MetricRequest, trials: seq<Trial>)
    ensures PairsJudgeable(request, trials) <==> PairEligible(request, trials)
  {
    hide Coherent, Absent, Join, DomainValid, SemanticsError, PairsAboveZero;
    DomainMeaning(Join(trials, request.name).complete);
    SemanticsAccepts(trials, request);
  }

  function PairedInterval(request: MetricRequest, trials: seq<Trial>, seed: bv64, log: Logarithms): (real, real)
    requires DomainValid(Join(trials, request.name).complete)
  {
    var effects := PairedEffects(Differences(Join(trials, request.name).complete, request.direction, log),
                                 log.exp, seed, BOOTSTRAP_RESAMPLES);
    (IntervalLow(effects), IntervalHigh(effects))
  }

  /** A statistical gate over a paired run reaches Pass, Fail or Inconclusive exactly on
      evaluable evidence, and then the interval alone decides which; otherwise the
      record is Invalid. */
  lemma {:induction false} PairedVerdictMeaning(request: MetricRequest, trials: seq<Trial>, seed: bv64, log: Logarithms)
    requires request.gate.Some? && request.gate.value.StatisticalRelative?
    ensures var disposition := EvaluatePaired(request, trials, seed, log).disposition;
            && (PairedEvaluable(request, trials) ==>
                  var (low, high) := PairedInterval(request, trials, seed, log);
                  var threshold := request.gate.value.allowance as real / 10_000.0;
                  && (disposition == Some(Fail) <==> low > threshold)
                  && (disposition == Some(Pass) <==> low <= threshold && high <= threshold)
                  && (disposition == Some(Inconclusive) <==> low <= threshold < high))
            && (!PairedEvaluable(request, trials) ==> disposition == Some(Invalid))
  {
    hide PairedEffects, IntervalLow, IntervalHigh, PairsJudgeable, Join, DomainValid, SemanticsError, Average,
         EvaluatePaired, Differences;
    EvaluatePairedDisposition(request, trials, seed, log);
    PairsJudgeableIsEligible(request, trials);
  }

  /** A relative gate over a paired run passes or fails exactly on judgeable pairs, by the mean
      log-difference of candidate and baseline value alone; otherwise it is Invalid. */
  lemma PairedRelativeMeaning(request: MetricRequest, trials: seq<Trial>, seed: bv64, log: Logarithms)
    requires request.gate.Some? && request.gate.value.RelativeRegression?
    ensures var pairs := Join(trials, request.name).complete;
            var disposition := EvaluatePaired(request, trials, seed, log).disposition;
            if PairsJudgeable(request, trials) then
              var c := Average(seq(|pairs|, i requires 0 <= i < |pairs| => log.ln(pairs[i].candidateValue.r)
                                                                          - log.ln(pairs[i].baselineValue.r)));
              var worse := if request.direction.LowerIsBetter? then c else -c;
              disposition
                == Some(if log.exp(worse) - 1.0 <= request.gate.value.allowance as real / 10_000.0 then Pass else Fail)
            else disposition == Some(Invalid)
  {
    hide PairsJudgeable, Join, SemanticsError, Average, EvaluatePaired, DomainValid;
    EvaluatePairedDisposition(request, trials, seed, log);
    PairsJudgeableIsEligible(request, trials);
    if PairsJudgeable(request, trials) {
      MeanDifference(Join(trials, request.name).complete, request.direction, log);
    }
  }

  lemma MeanDifference(pairs: seq<CompletePair>, direction: MetricDirection, log: Logarithms)
    requires DomainValid(pairs) && Directed(direction)
    ensures PairsAboveZero(pairs)
    ensures var c := Average(seq(|pairs|, i requires 0 <= i < |pairs| => log.ln(pairs[i].candidateValue.r)
                                                                        - log.ln(pairs[i].baselineValue.r)));
            Average(Differences(pairs, direction, log)) == if direction.LowerIsBetter? then c else -c
  {
    hide Average;
    DomainMeaning(pairs);
    var plain := seq(|pairs|, i requires 0 <= i < |pairs| => log.ln(pairs[i].candidateValue.r)
                                                             - log.ln(pairs[i].baselineValue.r));
    AverageAffine(plain, Differences(pairs, direction, log), direction.HigherIsBetter?, 0.0);
  }

  // ---- Unanimous pairs decide whatever the seed ----

  function PairDegradation(pair: CompletePair, direction: MetricDirection): real
    requires Positive(pair.candidateValue) && Positive(pair.baselineValue)
  {
    Degradation(pair.candidateValue.r, pair.baselineValue.r, direction)
  }

  lemma DifferenceIsDegradation(pair: CompletePair, direction: MetricDirection, log: Logarithms)
    requires log.Valid() && Directed(direction)
    requires Positive(pair.candidateValue) && Positive(pair.baselineValue)
    ensures log.exp(Difference(pair, direction, log)) - 1.0 == PairDegradation(pair, direction)
  {
    hide Logarithms.Valid, Degradation;
    DegradationIsLogEffect(log, pair.candidateValue.r, pair.baselineValue.r, direction);
  }

  lemma DifferencesAreDegradations(pairs: seq<CompletePair>, direction: MetricDirection, log: Logarithms)
    requires log.Valid() && Directed(direction) && DomainValid(pairs)
    ensures forall i :: 0 <= i < |pairs| ==>
              log.exp(Differences(pairs, direction, log)[i]) - 1.0 == PairDegradation(pairs[i], direction)
  {
    hide Logarithms.Valid, Difference, PairDegradation;
    forall i | 0 <= i < |pairs|
      ensures log.exp(Differences(pairs, direction, log)[i]) - 1.0 == PairDegradation(pairs[i], direction)
    {
      assert pairs[i] in pairs;
      DifferenceIsDegradation(pairs[i], direction, log);
    }
  }

  /** If every complete pair is within the allowance the gate passes for every seed; if
      every one exceeds it the gate fails for every seed. */
  lemma {:induction false} UnanimousPairsDecide(request: MetricRequest, trials: seq<Trial>, seed: bv64, log: Logarithms)
    requires log.Valid() && PairedEvaluable(request, trials)
    ensures var threshold := request.gate.value.allowance as real / 10_000.0;
            var pairs := Join(trials, request.name).complete;
            var disposition := EvaluatePaired(request, trials, seed, log).disposition;
            && ((forall i :: 0 <= i < |pairs| ==> PairDegradation(pairs[i], request.direction) <= threshold)
                ==> disposition == Some(Pass))
            && ((forall i :: 0 <= i < |pairs| ==> PairDegradation(pairs[i], request.direction) > threshold)
                ==> disposition == Some(Fail))
  {
    hide PairedEffects, IntervalLow, IntervalHigh, PairDegradation, Average, Join, EvaluatePaired, Coherent, Absent,
         Difference, Logarithms.Valid;
    var pairs := Join(trials, request.name).complete;
    var threshold := request.gate.value.allowance as real / 10_000.0;
    DifferencesAreDegradations(pairs, request.direction, log);
    UnanimousPairedInterval(Differences(pairs, request.direction, log), log, threshold, seed, BOOTSTRAP_RESAMPLES);
    PairedVerdictMeaning(request, trials, seed, log);
  }

  // ---- Effects and drift ----

  /** Every complete pair is reported, in order, with its degradation. */
  lemma {:induction false} PairEffectsMeaning(pairs: seq<CompletePair>, direction: MetricDirection, log: Logarithms)
    requires log.Valid() && Directed(direction)
    requires forall p :: p in pairs ==> Positive(p.candidateValue) && Positive(p.baselineValue)
    ensures |PairEffects(pairs, direction, log)| == |pairs|
    ensures forall i :: 0 <= i < |pairs| ==>
              && PairEffects(pairs, direction, log)[i].pairId == pairs[i].pairId
              && pairs[i] in pairs
              && PairEffects(pairs, direction, log)[i].effect == PairDegradation(pairs[i], direction)
    decreases |pairs|
  {
    hide Difference, Logarithms.Valid, PairDegradation;
    if pairs != [] {
      var n := |pairs| - 1;
      assert pairs[n] in pairs;
      PairEffectsMeaning(pairs[..n], direction, log);
      DifferenceIsDegradation(pairs[n], direction, log);
      assert forall i :: 0 <= i < n ==> pairs[..n][i] == pairs[i];
    }
  }

  /** Drift compares the first half of the effects with the rest: the two means, each times its
      count, add up to all effects, and the trend is the sign of their difference. */
  lemma DriftMeaning(effects: seq<PairEffect>)
    ensures |effects| < 2 <==> DriftOf(effects).trend == Insufficient
    ensures |effects| >= 2 ==>
              var drift, half := DriftOf(effects), |effects| / 2;
              && drift.firstHalf.Some? && drift.secondHalf.Some?
              && drift.firstHalf.value * half as real == Sum(EffectValues(effects[..half]))
              && drift.firstHalf.value * half as real + drift.secondHalf.value * (|effects| - half) as real
                   == Sum(EffectValues(effects))
              && (drift.trend == Up <==> drift.secondHalf.value > drift.firstHalf.value)
              && (drift.trend == Down <==> drift.secondHalf.value < drift.firstHalf.value)
  {
    hide Average, Sum;
    if |effects| >= 2 {
      var half := |effects| / 2;
      AverageTimesCount(EffectValues(effects[..half]));
      AverageTimesCount(EffectValues(effects[half..]));
      SumConcat(EffectValues(effects[..half]), EffectValues(effects[half..]));
      assert EffectValues(effects) == EffectValues(effects[..half]) + EffectValues(effects[half..]);
    }
  }

  // ---- Scale and orientation ----

  /** The same pair measured in another unit. */
  ghost predicate Rescaled(pair: CompletePair, scaled: CompletePair, factor: real) {
    && scaled.candidateValue.Finite? && scaled.baselineValue.Finite?
    && pair.candidateValue.Finite? && scaled.candidateValue.r == factor * pair.candidateValue.r
    && pair.baselineValue.Finite? && scaled.baselineValue.r == factor * pair.baselineValue.r
  }

  function InvertedPair(pair: CompletePair): CompletePair
    requires Positive(pair.candidateValue) && Positive(pair.baselineValue)
  {
    pair.(candidateValue := Finite(Quotient(1.0, pair.candidateValue.r)),
          baselineValue := Finite(Quotient(1.0, pair.baselineValue.r)))
  }

  lemma ScaledDifference(pair: CompletePair, scaled: CompletePair, factor: real, direction: MetricDirection,
                         log: Logarithms)
    requires log.Valid() && factor > 0.0 && Positive(pair.candidateValue) && Positive(pair.baselineValue)
    requires Rescaled(pair, scaled, factor)
    ensures Positive(scaled.candidateValue) && Positive(scaled.baselineValue)
    ensures Difference(scaled, direction, log) == Difference(pair, direction, log)
  {
    hide Logarithms.Valid;
    LnOfProduct(log, factor, pair.candidateValue.r);
    LnOfProduct(log, factor, pair.baselineValue.r);
    assert scaled.candidateValue.r == Product(factor, pair.candidateValue.r);
    assert scaled.baselineValue.r == Product(factor, pair.baselineValue.r);
  }

  lemma LnOfProduct(log: Logarithms, x: real, y: real)
    requires log.Valid() && x > 0.0 && y > 0.0
    ensures Product(x, y) > 0.0
    ensures log.ln(Product(x, y)) == log.ln(x) + log.ln(y)
  {
  }

  lemma InvertedDifference(pair: CompletePair, direction: MetricDirection, log: Logarithms)
    requires log.Valid() && Positive(pair.candidateValue) && Positive(pair.baselineValue)
    ensures Positive(InvertedPair(pair).candidateValue) && Positive(InvertedPair(pair).baselineValue)
    ensures Difference(InvertedPair(pair), Opposite(direction), log) == Difference(pair, direction, log)
  {
    InverseProduct(pair.candidateValue.r);
    InverseProduct(pair.baselineValue.r);
    LnOfInverse(log, pair.candidateValue.r);
    LnOfInverse(log, pair.baselineValue.r);
  }

  /** Measuring every pair in another unit changes no verdict. */
  lemma PairedScaleInvariance(gate: Gate, direction: MetricDirection, pairs: seq<CompletePair>,
                              scaled: seq<CompletePair>,
                              factor: real, seed: bv64, log: Logarithms)
    requires log.Valid() && factor > 0.0 && DomainValid(pairs) && |scaled| == |pairs|
    requires forall i :: 0 <= i < |pairs| ==> pairs[i] in pairs && Rescaled(pairs[i], scaled[i], factor)
    ensures DomainValid(scaled)
    ensures Differences(scaled, direction, log) == Differences(pairs, direction, log)
    ensures PairVerdict(gate, direction, scaled, seed, log) == PairVerdict(gate, direction, pairs, seed, log)
  {
    hide Difference, Logarithms.Valid, PairedEffects, IntervalLow, IntervalHigh, Average, Rescaled;
    forall i | 0 <= i < |pairs|
      ensures Positive(scaled[i].candidateValue) && Positive(scaled[i].baselineValue)
      ensures Difference(scaled[i], direction, log) == Difference(pairs[i], direction, log)
    {
      ScaledDifference(pairs[i], scaled[i], factor, direction, log);
    }
  }

  /** Lower-is-better on x gives the verdict of higher-is-better on 1/x, and conversely. */
  lemma PairedOrientationInvariance(gate: Gate, direction: MetricDirection, pairs: seq<CompletePair>,
                                    inverted: seq<CompletePair>, seed: bv64, log: Logarithms)
    requires log.Valid() && DomainValid(pairs) && |inverted| == |pairs|
    requires forall i :: 0 <= i < |pairs| ==> pairs[i] in pairs && inverted[i] == InvertedPair(pairs[i])
    ensures DomainValid(inverted)
    ensures Differences(inverted, Opposite(direction), log) == Differences(pairs, direction, log)
    ensures PairVerdict(gate, Opposite(direction), inverted, seed, log)
         == PairVerdict(gate, direction, pairs, seed, log)
  {
    hide Difference, Logarithms.Valid, PairedEffects, IntervalLow, IntervalHigh, Average, InvertedPair, Opposite;
    forall i | 0 <= i < |pairs|
      ensures Positive(inverted[i].candidateValue) && Positive(inverted[i].baselineValue)
      ensures Difference(inverted[i], Opposite(direction), log) == Difference(pairs[i], direction, log)
    {
      InvertedDifference(pairs[i], direction, log);
    }
  }

  // ---- Worse candidate evidence never improves a verdict ----

  /** The same run with no candidate-arm value better than before and every other
      trial unchanged. */
  ghost predicate NoBetterRun(before: seq<Trial>, after: seq<Trial>, metric: string, direction: MetricDirection) {
    && |before| == |after|
    && forall i :: 0 <= i < |before| ==> NoBetterTrial(before[i], after[i], metric, direction)
  }

  ghost predicate NoBetterTrial(b: Trial, a: Trial, metric: string, direction: MetricDirection) {
    && b.id == a.id && b.arm == a.arm && b.pairId == a.pairId
    && (Carried(b, metric).None? <==> Carried(a, metric).None?)
    && (Carried(b, metric).Some? ==>
          var x, y := Carried(b, metric).value, Carried(a, metric).value;
          x.unit == y.unit && x.direction == y.direction && x.aggregation == y.aggregation)
    && if b.arm != Some(CandidateArm) then Usable(b, metric) == Usable(a, metric)
       else NoBetterOutcome(Usable(b, metric), Usable(a, metric), direction)
  }

  lemma {:induction false} SemanticsUnmoved(before: seq<Trial>, after: seq<Trial>, request: MetricRequest,
                                            x: Option<Observation>, y: Option<Observation>)
    requires NoBetterRun(before, after, request.name, request.direction)
    requires x.None? <==> y.None?
    requires x.Some? ==> x.value.unit == y.value.unit && x.value.direction == y.value.direction
                         && x.value.aggregation == y.value.aggregation
    ensures SemanticsError(before, request, x) == SemanticsError(after, request, y)
    decreases |before|
  {
    if before != [] {
      assert NoBetterTrial(before[0], after[0], request.name, request.direction);
      var found, found' := Carried(before[0], request.name), Carried(after[0], request.name);
      if found.Some? && x.None? {
        SemanticsUnmoved(before[1..], after[1..], request, found, found');
      } else {
        SemanticsUnmoved(before[1..], after[1..], request, x, y);
      }
    }
  }

  /** Same pairs, same trials; candidate values no better, baseline values equal. */
  ghost predicate NoBetterArm(before: Contributions, after: Contributions, direction: MetricDirection) {
    && before.Keys == after.Keys
    && forall p :: p in before ==> before[p].0 == after[p].0 && NoBetterScalar(before[p].1, after[p].1, direction)
  }

  lemma SeenUnmoved(before: seq<Trial>, after: seq<Trial>, metric: string, direction: MetricDirection, arm: Arm,
                    pair: nat)
    requires NoBetterRun(before, after, metric, direction)
    ensures Seen(before, arm, pair) <==> Seen(after, arm, pair)
  {
    if Seen(before, arm, pair) {
      var t :| t in before && TaggedAs(t, arm, pair);
      var i :| 0 <= i < |before| && before[i] == t;
      assert NoBetterTrial(before[i], after[i], metric, direction);
      assert after[i] in after && TaggedAs(after[i], arm, pair);
    }
    if Seen(after, arm, pair) {
      var t :| t in after && TaggedAs(t, arm, pair);
      var i :| 0 <= i < |after| && after[i] == t;
      assert NoBetterTrial(before[i], after[i], metric, direction);
      assert before[i] in before && TaggedAs(before[i], arm, pair);
    }
  }

  lemma {:induction false} ArmsNoBetter(before: seq<Trial>, after: seq<Trial>, metric: string,
                                        direction: MetricDirection)
    requires NoBetterRun(before, after, metric, direction)
    ensures NoBetterArm(ArmValues(before, CandidateArm, metric), ArmValues(after, CandidateArm, metric), direction)
    ensures ArmValues(before, BaselineArm, metric) == ArmValues(after, BaselineArm, metric)
    decreases |before|
  {
    if before != [] {
      var n := |before| - 1;
      ArmsNoBetter(before[..n], after[..n], metric, direction);
      assert NoBetterTrial(before[n], after[n], metric, direction);
      if Tagged(before[n]) {
        SeenUnmoved(before[..n], after[..n], metric, direction, before[n].arm.value, before[n].pairId.value);
      }
    }
  }

  ghost predicate NoBetterPairs(before: seq<CompletePair>, after: seq<CompletePair>, direction: MetricDirection) {
    && |before| == |after|
    && forall i :: 0 <= i < |before| ==>
         NoBetterScalar(before[i].candidateValue, after[i].candidateValue, direction)
         && before[i].baselineValue == after[i].baselineValue
  }

  lemma {:induction false} PairsNoBetter(ids: seq<nat>, before: Contributions, after: Contributions,
                                         baseline: Contributions, direction: MetricDirection)
    requires NoBetterArm(before, after, direction)
    ensures NoBetterPairs(CompleteOf(ids, before, baseline), CompleteOf(ids, after, baseline), direction)
    decreases |ids|
  {
    if ids != [] {
      PairsNoBetter(ids[..|ids| - 1], before, after, baseline, direction);
    }
  }

  lemma DifferenceGrows(before: CompletePair, after: CompletePair, direction: MetricDirection, log: Logarithms)
    requires log.Valid() && Directed(direction)
    requires Positive(before.candidateValue) && Positive(before.baselineValue) && Positive(after.candidateValue)
    requires NoBetterScalar(before.candidateValue, after.candidateValue, direction)
    requires before.baselineValue == after.baselineValue
    ensures Difference(before, direction, log) <= Difference(after, direction, log)
  {
    var x, y := before.candidateValue.r, after.candidateValue.r;
    assert x <= y ==> log.ln(x) <= log.ln(y);
    assert y <= x ==> log.ln(y) <= log.ln(x);
  }

  lemma DifferencesGrow(before: seq<CompletePair>, after: seq<CompletePair>, direction: MetricDirection,
                        log: Logarithms)
    requires log.Valid() && NoBetterPairs(before, after, direction) && Directed(direction)
    requires DomainValid(before) && DomainValid(after)
    ensures Pointwise(Differences(before, direction, log), Differences(after, direction, log))
  {
    hide Difference, NoBetterScalar;
    forall i | 0 <= i < |before|
      ensures Difference(before[i], direction, log) <= Difference(after[i], direction, log)
    {
      assert before[i] in before && after[i] in after;
      DifferenceGrows(before[i], after[i], direction, log);
    }
  }

  lemma {:induction false} VerdictWorsens(gate: Gate, direction: MetricDirection, before: seq<CompletePair>,
                                          after: seq<CompletePair>, seed: bv64, log: Logarithms)
    requires log.Valid() && NoBetterPairs(before, after, direction) && Directed(direction)
    requires DomainValid(before) && DomainValid(after)
    ensures NoMilder(Some(PairVerdict(gate, direction, before, seed, log)),
                     Some(PairVerdict(gate, direction, after, seed, log)))
  {
    hide PairedEffects, IntervalLow, IntervalHigh, Average, Difference, NoBetterScalar, NoBetterPairs;
    DifferencesGrow(before, after, direction, log);
    var b, a := Differences(before, direction, log), Differences(after, direction, log);
    AverageMonotone(b, a);
    ExpOrder(log, Average(b), Average(a));
    PairedIntervalWorsens(b, a, log, seed, BOOTSTRAP_RESAMPLES);
  }

  /** With the seed fixed, worsening candidate-arm values of a paired run never makes the
      verdict milder; it turns Invalid when a pair stops being positive, and where that
      does not change no other disposition changes either. */
  lemma {:induction false} WorsePairsNeverHelp(request: MetricRequest, before: seq<Trial>, after: seq<Trial>,
                                               seed: bv64,
                                               log: Logarithms)
    requires log.Valid() && NoBetterRun(before, after, request.name, request.direction)
    ensures var x := EvaluatePaired(request, before, seed, log).disposition;
            var y := EvaluatePaired(request, after, seed, log).disposition;
            && WorseOrInvalid(x, y)
            && ((DomainValid(Join(before, request.name).complete) <==> DomainValid(Join(after, request.name).complete))
                ==> NoMilder(x, y))
  {
    hide EvaluatePaired, PairVerdict, SemanticsError, DomainValid, Join, NoBetterPairs;
    EvaluatePairedDisposition(request, before, seed, log);
    EvaluatePairedDisposition(request, after, seed, log);
    SemanticsUnmoved(before, after, request, None, None);
    JoinsNoBetter(before, after, request.name, request.direction);
    if PairEligible(request, before) && PairEligible(request, after) && request.gate.Some? {
      VerdictWorsens(request.gate.value, request.direction, Join(before, request.name).complete,
                     Join(after, request.name).complete, seed, log);
    }
  }

  lemma JoinsNoBetter(before: seq<Trial>, after: seq<Trial>, metric: string, direction: MetricDirection)
    requires NoBetterRun(before, after, metric, direction)
    ensures NoBetterPairs(Join(before, metric).complete, Join(after, metric).complete, direction)
  {
    hide ArmValues, ArmExcluded, CompleteOf, IncompleteOf, InOrder, NoBetterRun, NoBetterPairs;
    ArmsNoBetter(before, after, metric, direction);
    var baseline := ArmValues(before, BaselineArm, metric);
    PairsNoBetter(InOrder(ArmValues(before, CandidateArm, metric).Keys + baseline.Keys),
                  ArmValues(before, CandidateArm, metric), ArmValues(after, CandidateArm, metric), baseline, direction);
  }
}
