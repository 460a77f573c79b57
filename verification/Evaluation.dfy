/**
  Evaluation of one metric request against candidate and baseline evidence (`select_trials`, `check_metric_semantics`,
  `evaluate_metric` and the gate evaluators in comparison.rs).  Each algorithm is a method that fills in a record step
  by step; the function it is tied to is what the laws in `GateLaws` speak about.
 */
module Evaluation {
  import opened Basics
  import opened Averages
  import opened OrderStatistics
  import opened Bootstrap
  import opened BootstrapLaws

  const BOOTSTRAP_RESAMPLES: nat := 10_000
  const MIN_OBSERVATIONS_PER_SIDE: nat := 5
  const RECOMMENDED_OBSERVATIONS_PER_SIDE: nat := 7

  /** A measured scalar: the code tests finiteness, so the tag is kept. */
  datatype Scalar = Finite(r: real) | NonFinite

  datatype TrialStatus = Completed | Failed | TimedOut | Cancelled

  datatype Aggregation =
    | Direct | Minimum | Maximum | Mean | Total | Rate | Ratio
    | Percentile(basisPoints: nat)

  datatype ObservationState =
    | Observed(value: Scalar)
    | Missing(missingReason: string)
    | Unusable(invalidReason: string, detail: string)

  datatype Observation = Observation(
    name: string, unit: string, direction: MetricDirection, intent: MetricIntent,
    aggregation: Aggregation, state: ObservationState, provenance: string)

  datatype TrialMetrics = TrialMetrics(
    observations: seq<Observation>, histograms: seq<string>,
    errorDistribution: seq<(string, nat)>, warnings: seq<string>)

  datatype Arm = BaselineArm | CandidateArm

  datatype Trial = Trial(
    id: nat, terminal: TrialStatus, arm: Option<Arm>, pairId: Option<nat>,
    metrics: Option<TrialMetrics>)

  datatype MetricIntent = Primary | Diagnostic

  datatype Gate =
    | Absolute(value: real)
    | RelativeRegression(allowance: nat)
    | StatisticalRelative(allowance: nat, minTrials: nat)

  datatype MetricRequest = MetricRequest(
    name: string, unit: string, direction: MetricDirection, intent: MetricIntent, gate: Option<Gate>)

  datatype EnvironmentPolicy = StrictSameTestbed | WarnOnMismatch | CrossTestbedDescriptive

  datatype GateDisposition = Pass | Fail | Inconclusive | Invalid | Descriptive

  datatype Excluded = Excluded(trial: nat, reason: string)

  datatype Warning = Warning(category: string, subject: string)

  datatype MetricRecord = MetricRecord(
    name: string, unit: string, direction: MetricDirection, intent: MetricIntent, gate: Option<Gate>,
    candidateIncluded: seq<nat>, candidateExcluded: seq<Excluded>,
    baselineIncluded: seq<nat>, baselineExcluded: seq<Excluded>,
    candidateEstimate: Option<real>, baselineEstimate: Option<real>,
    degradation: Option<real>, confidenceLow: Option<real>, confidenceHigh: Option<real>,
    threshold: Option<real>, resamples: Option<nat>, effectiveSeed: Option<bv64>,
    disposition: Option<GateDisposition>, reason: Option<string>)

  // ---- Selecting trials ----

  function Find(observations: seq<Observation>, metric: string): (found: Option<Observation>)
    ensures found.Some? ==>
              exists i :: 0 <= i < |observations| && observations[i] == found.value && found.value.name == metric
                          && forall j :: 0 <= j < i ==> observations[j].name != metric
    ensures found.None? <==> forall o :: o in observations ==> o.name != metric
  {
    if observations == [] then None
    else if observations[0].name == metric then Some(observations[0])
    else Find(observations[1..], metric)
  }

  /** The observation of `metric` a trial carries, if any. */
  function Carried(trial: Trial, metric: string): Option<Observation> {
    match trial.metrics
    case None => None
    case Some(metrics) => Find(metrics.observations, metric)
  }

  /** The scalar a trial contributes, or the reason it contributes none. */
  function Usable(trial: Trial, metric: string): Result<Scalar, string> {
    if trial.metrics.None? then Err("no_normalized_metrics")
    else if Carried(trial, metric).None? then Err("metric_not_requested")
    else if trial.terminal != Completed then Err("trial_not_completed")
    else match Carried(trial, metric).value.state
      case Observed(value) => Ok(value)
      case Missing(reason) => Err(reason)
      case Unusable(reason, _) => Err(reason)
  }

  function Values(trials: seq<Trial>, metric: string): seq<Scalar> {
    if trials == [] then []
    else
      var last := trials[|trials| - 1];
      Values(trials[..|trials| - 1], metric)
      + match Usable(last, metric) case Ok(v) => [v] case Err(_) => []
  }

  function Included(trials: seq<Trial>, metric: string): seq<nat> {
    if trials == [] then []
    else
      var last := trials[|trials| - 1];
      Included(trials[..|trials| - 1], metric) + if Usable(last, metric).Ok? then [last.id] else []
  }

  function ExcludedTrials(trials: seq<Trial>, metric: string): seq<Excluded> {
    if trials == [] then []
    else
      var last := trials[|trials| - 1];
      ExcludedTrials(trials[..|trials| - 1], metric)
      + match Usable(last, metric) case Ok(_) => [] case Err(reason) => [Excluded(last.id, reason)]
  }

  method SelectTrials(trials: seq<Trial>, metric: string)
    returns (values: seq<Scalar>, included: seq<nat>, excluded: seq<Excluded>)
    ensures values == Values(trials, metric)
    ensures included == Included(trials, metric)
    ensures excluded == ExcludedTrials(trials, metric)
  {
    values, included, excluded := [], [], [];
    for i := 0 to |trials|
      invariant values == Values(trials[..i], metric)
      invariant included == Included(trials[..i], metric)
      invariant excluded == ExcludedTrials(trials[..i], metric)
    {
      var trial := trials[i];
      assert trials[..i + 1][..i] == trials[..i];
      if trial.metrics.None? {
        excluded := excluded + [Excluded(trial.id, "no_normalized_metrics")];
        continue;
      }
      var observation := Find(trial.metrics.value.observations, metric);
      if observation.None? {
        excluded := excluded + [Excluded(trial.id, "metric_not_requested")];
        continue;
      }
      if trial.terminal != Completed {
        excluded := excluded + [Excluded(trial.id, "trial_not_completed")];
        continue;
      }
      match observation.value.state
      case Observed(value) =>
        values := values + [value];
        included := included + [trial.id];
      case Missing(reason) =>
        excluded := excluded + [Excluded(trial.id, reason)];
      case Unusable(reason, _) =>
        excluded := excluded + [Excluded(trial.id, reason)];
    }
    assert trials[..|trials|] == trials;
  }

  // ---- Baseline semantics ----

  predicate Agrees(observation: Observation, request: MetricRequest) {
    observation.unit == request.unit && observation.direction == request.direction
  }

  /** Scan of the trials from `trials[0]`, with the first carrier seen so far. */
  function SemanticsError(trials: seq<Trial>, request: MetricRequest, reference: Option<Observation>): Option<string> {
    if trials == [] then
      if reference.None? then Some("baseline_metric_absent") else None
    else match Carried(trials[0], request.name)
      case None => SemanticsError(trials[1..], request, reference)
      case Some(observation) =>
        if !Agrees(observation, request) then Some("metric_semantics_mismatch")
        else if reference.None? then SemanticsError(trials[1..], request, Some(observation))
        else if observation.unit != reference.value.unit || observation.direction != reference.value.direction
                || observation.aggregation != reference.value.aggregation
        then Some("baseline_metric_semantics_divergent")
        else SemanticsError(trials[1..], request, reference)
  }

  method CheckMetricSemantics(request: MetricRequest, trials: seq<Trial>) returns (error: Option<string>)
    ensures error == SemanticsError(trials, request, None)
  {
    var reference: Option<Observation> := None;
    for i := 0 to |trials|
      invariant SemanticsError(trials[i..], request, reference) == SemanticsError(trials, request, None)
    {
      assert trials[i..][1..] == trials[i + 1..];
      if trials[i].metrics.None? {
        continue;
      }
      var found := Find(trials[i].metrics.value.observations, request.name);
      if found.None? {
        continue;
      }
      var observation := found.value;
      if observation.unit != request.unit || observation.direction != request.direction {
        return Some("metric_semantics_mismatch");
      }
      if reference.None? {
        reference := Some(observation);
      } else if observation.unit != reference.value.unit
                || observation.direction != reference.value.direction
                || observation.aggregation != reference.value.aggregation {
        return Some("baseline_metric_semantics_divergent");
      }
    }
    if reference.None? {
      return Some("baseline_metric_absent");
    }
    return None;
  }

  // ---- Estimates ----

  predicate AllFinite(values: seq<Scalar>) {
    forall v :: v in values ==> v.Finite?
  }

  predicate AllStrictlyPositive(values: seq<Scalar>) {
    values != [] && forall v :: v in values ==> v.Finite? && v.r > 0.0
  }

  function Reals(values: seq<Scalar>): (r: seq<real>)
    requires AllFinite(values)
    ensures |r| == |values| && forall i :: 0 <= i < |r| ==> r[i] == values[i].r
  {
    if values == [] then [] else [values[0].r] + Reals(values[1..])
  }

  /** None when empty or when any value is not finite. */
  function ArithmeticMean(values: seq<Scalar>): Option<real> {
    if values == [] || !AllFinite(values) then None else Some(Average(Reals(values)))
  }

  function GeometricMean(values: seq<Scalar>, log: Logarithms): Option<real> {
    if !AllStrictlyPositive(values) then None
    else Some(log.exp(Average(Logs(Reals(values), log.ln))))
  }

  function OrientedDegradation(candidate: Option<real>, baseline: Option<real>,
                               direction: MetricDirection): Option<real> {
    if candidate.None? || baseline.None? || !Directed(direction) then None
    else Some(Degradation(candidate.value, baseline.value, direction))
  }

  function Threshold(gate: Option<Gate>): Option<real> {
    match gate
    case None => None
    case Some(Absolute(_)) => None
    case Some(RelativeRegression(allowance)) => Some(allowance as real / 10_000.0)
    case Some(StatisticalRelative(allowance, _)) => Some(allowance as real / 10_000.0)
  }

  function MinObservations(minTrials: nat): nat {
    if minTrials <= MIN_OBSERVATIONS_PER_SIDE then MIN_OBSERVATIONS_PER_SIDE else minTrials
  }

  /** Whether same-testbed verdicts are permitted. */
  predicate BaselineGated(policy: EnvironmentPolicy, critical: bool) {
    policy != CrossTestbedDescriptive && !critical
  }

  // ---- Gates ----

  function IntervalDisposition(low: real, high: real, threshold: real): GateDisposition {
    if low > threshold then Fail else if high <= threshold then Pass else Inconclusive
  }

  function AbsoluteOutcome(record: MetricRecord, values: seq<Scalar>, value: real): MetricRecord {
    if record.candidateEstimate.None? then
      record.(disposition := Some(Invalid), reason := Some("no_valid_candidate_observations"))
    else if !AllFinite(values) then
      record.(disposition := Some(Invalid), reason := Some("nonfinite_candidate_value"))
    else match record.direction
      case LowerIsBetter =>
        record.(disposition := Some(if record.candidateEstimate.value <= value then Pass else Fail))
      case HigherIsBetter =>
        record.(disposition := Some(if record.candidateEstimate.value >= value then Pass else Fail))
      case TargetRange(_, _) =>
        record.(disposition := Some(Invalid), reason := Some("target_range_absolute_unsupported"))
      case Informational =>
        record.(disposition := Some(Invalid), reason := Some("informational_metric_cannot_gate"))
  }

  /** Outcome of a relative or statistical gate. */
  function RelativeOutcome(record: MetricRecord, request: MetricRequest, candidate: seq<Scalar>,
                           baseline: Option<seq<Trial>>, policy: EnvironmentPolicy, critical: bool,
                           seed: bv64, log: Logarithms): MetricRecord
    requires request.gate.Some? && !request.gate.value.Absolute? && record.threshold == Threshold(request.gate)
  {
    if baseline.None? then
      record.(disposition := Some(Invalid), reason := Some("baseline_required"))
    else
      var values := Values(baseline.value, request.name);
      var joined := record.(baselineIncluded := Included(baseline.value, request.name),
                            baselineExcluded := ExcludedTrials(baseline.value, request.name));
      var error := SemanticsError(baseline.value, request, None);
      if error.Some? then
        joined.(disposition := Some(Invalid), reason := error)
      else if !AllStrictlyPositive(candidate) || !AllStrictlyPositive(values) then
        joined.(disposition := Some(Invalid), reason := Some("nonpositive_relative_value"))
      else if !Directed(request.direction) then
        joined.(disposition := Some(Invalid), reason := Some("unsupported_direction_for_relative_gate"))
      else
        PositiveOutcome(joined, request, candidate, values, policy, critical, seed, log)
  }

  /** Its last part, on positive values with a direction. */
  function PositiveOutcome(record: MetricRecord, request: MetricRequest, candidate: seq<Scalar>, baseline: seq<Scalar>,
                           policy: EnvironmentPolicy, critical: bool, seed: bv64, log: Logarithms): MetricRecord
    requires request.gate.Some? && !request.gate.value.Absolute? && record.threshold == Threshold(request.gate)
    requires AllStrictlyPositive(candidate) && AllStrictlyPositive(baseline) && Directed(request.direction)
  {
    var baselineEstimate := GeometricMean(baseline, log);
    var degradation := OrientedDegradation(GeometricMean(candidate, log), baselineEstimate, request.direction);
    var estimated := record.(baselineEstimate := baselineEstimate, degradation := degradation);
    if !BaselineGated(policy, critical) then
      DescriptiveOutcome(estimated, policy)
    else if request.gate.value.RelativeRegression? then
      estimated.(disposition := Some(if degradation.value <= record.threshold.value then Pass else Fail))
    else
      StatisticalOutcome(estimated, request.gate.value.minTrials, Reals(candidate), Reals(baseline), seed, log)
  }

  function DescriptiveOutcome(record: MetricRecord, policy: EnvironmentPolicy): MetricRecord {
    match policy
    case StrictSameTestbed => record.(disposition := Some(Invalid), reason := Some("comparability_mismatch"))
    case CrossTestbedDescriptive =>
      record.(disposition := Some(Descriptive), reason := Some("cross_testbed_descriptive"))
    case WarnOnMismatch =>
      record.(disposition := Some(Descriptive), reason := Some("comparability_mismatch_descriptive"))
  }

  predicate EnoughTrials(minTrials: nat, candidate: seq<real>, baseline: seq<real>) {
    |candidate| >= MinObservations(minTrials) && |baseline| >= MinObservations(minTrials)
  }

  function StatisticalOutcome(record: MetricRecord, minTrials: nat, candidate: seq<real>, baseline: seq<real>,
                              seed: bv64, log: Logarithms): MetricRecord
    requires record.threshold.Some?
  {
    if !EnoughTrials(minTrials, candidate, baseline) then
      record.(disposition := Some(Invalid), reason := Some("insufficient_trials"))
    else
      var effects := UnpairedEffects(candidate, baseline, record.direction, log, seed, BOOTSTRAP_RESAMPLES);
      var low, high := IntervalLow(effects), IntervalHigh(effects);
      record.(confidenceLow := Some(low), confidenceHigh := Some(high),
              resamples := Some(BOOTSTRAP_RESAMPLES), effectiveSeed := Some(seed),
              disposition := Some(IntervalDisposition(low, high, record.threshold.value)))
  }

  function FreshRecord(request: MetricRequest, candidate: seq<Trial>): MetricRecord {
    MetricRecord(request.name, request.unit, request.direction, request.intent, request.gate,
                 Included(candidate, request.name), ExcludedTrials(candidate, request.name), [], [],
                 ArithmeticMean(Values(candidate, request.name)), None, None, None, None,
                 Threshold(request.gate), None, None, None, None)
  }

  /** The record of one metric: the whole decision of `evaluate_metric`. */
  function Evaluate(request: MetricRequest, candidate: seq<Trial>, baseline: Option<seq<Trial>>,
                    policy: EnvironmentPolicy, critical: bool, seed: bv64, log: Logarithms): MetricRecord {
    var record := FreshRecord(request, candidate);
    if request.gate.None? then record
    else if request.intent != Primary then
      record.(disposition := Some(Invalid), reason := Some("diagnostic_metric_cannot_gate"))
    else if request.gate.value.Absolute? then
      AbsoluteOutcome(record, Values(candidate, request.name), request.gate.value.value)
    else
      RelativeOutcome(record, request, Values(candidate, request.name), baseline, policy, critical, seed, log)
  }

  /** The warnings that evaluating one metric adds. */
  function EvaluationWarnings(record: MetricRecord): seq<Warning> {
    if record.confidenceLow.Some?
       && (|record.candidateIncluded| < RECOMMENDED_OBSERVATIONS_PER_SIDE
           || |record.baselineIncluded| < RECOMMENDED_OBSERVATIONS_PER_SIDE)
    then [Warning("below_recommended_trial_count", record.name)]
    else []
  }

  // ---- The algorithms ----

  lemma {:induction false} SelectionSizes(trials: seq<Trial>, metric: string)
    ensures |Values(trials, metric)| == |Included(trials, metric)|
    ensures |Included(trials, metric)| + |ExcludedTrials(trials, metric)| == |trials|
  {
    if trials != [] {
      SelectionSizes(trials[..|trials| - 1], metric);
    }
  }

  /** `all_strictly_positive`. */
  method CheckPositive(values: seq<Scalar>) returns (ok: bool)
    ensures ok == AllStrictlyPositive(values)
  {
    return values != [] && !exists v :: v in values && (v.NonFinite? || v.r <= 0.0);
  }

  /** `arithmetic_mean`: a value that is not finite makes the sum so. */
  method MeasureMean(values: seq<Scalar>) returns (mean: Option<real>)
    ensures mean == ArithmeticMean(values)
  {
    if values == [] {
      return None;
    }
    var sum: Scalar := Finite(0.0);
    for i := 0 to |values|
      invariant sum.Finite? <==> AllFinite(values[..i])
      invariant sum.Finite? ==> sum.r == Sum(Reals(values[..i]))
    {
      assert values[..i + 1] == values[..i] + [values[i]];
      RealsSnoc(values[..i], values[i]);
      sum := if sum.Finite? && values[i].Finite? then Finite(sum.r + values[i].r) else NonFinite;
    }
    assert values[..|values|] == values;
    return if sum.Finite? then Some(sum.r / |values| as real) else None;
  }

  lemma RealsSnoc(values: seq<Scalar>, last: Scalar)
    ensures AllFinite(values + [last]) <==> AllFinite(values) && last.Finite?
    ensures AllFinite(values + [last]) ==> Reals(values + [last]) == Reals(values) + [last.r]
    ensures AllFinite(values + [last]) ==> Sum(Reals(values + [last])) == Sum(Reals(values)) + last.r
  {
    hide Sum, Reals;
    assert forall v :: v in values + [last] <==> v in values || v == last;
    if AllFinite(values + [last]) {
      assert Reals(values + [last]) == Reals(values) + [last.r];
      SumSnoc(Reals(values), last.r);
    }
  }

  /** `geometric_mean`: through the mean of logarithms. */
  method MeasureGeometricMean(values: seq<Scalar>, log: Logarithms) returns (mean: Option<real>)
    ensures mean == GeometricMean(values, log)
  {
    var positive := CheckPositive(values);
    if !positive {
      return None;
    }
    ghost var logs := Logs(Reals(values), log.ln);
    var sum := 0.0;
    SumOfNone();
    for i := 0 to |values|
      invariant sum == Sum(logs[..i])
    {
      assert logs[..i + 1] == logs[..i] + [logs[i]];
      SumSnoc(logs[..i], logs[i]);
      assert values[i] in values;
      sum := sum + log.ln(values[i].r);
    }
    assert logs[..|values|] == logs;
    return Some(log.exp(sum / |values| as real));
  }

  method MeasureDegradation(candidate: Option<real>, baseline: Option<real>, direction: MetricDirection)
    returns (degradation: Option<real>)
    ensures degradation == OrientedDegradation(candidate, baseline, direction)
  {
    if candidate.None? || baseline.None? {
      return None;
    }
    match direction {
      case LowerIsBetter => return Some(Quotient(candidate.value, baseline.value) - 1.0);
      case HigherIsBetter => return Some(Quotient(baseline.value, candidate.value) - 1.0);
      case TargetRange(_, _) => return None;
      case Informational => return None;
    }
  }

  method EvaluateAbsolute(initial: MetricRecord, values: seq<Scalar>, value: real) returns (record: MetricRecord)
    ensures record == AbsoluteOutcome(initial, values, value)
  {
    record := initial;
    if record.candidateEstimate.None? {
      record := record.(disposition := Some(Invalid), reason := Some("no_valid_candidate_observations"));
      return;
    }
    var estimate := record.candidateEstimate.value;
    if exists v :: v in values && !v.Finite? {
      record := record.(disposition := Some(Invalid), reason := Some("nonfinite_candidate_value"));
      return;
    }
    var pass;
    match record.direction {
      case LowerIsBetter => pass := estimate <= value;
      case HigherIsBetter => pass := estimate >= value;
      case TargetRange(_, _) =>
        record := record.(disposition := Some(Invalid), reason := Some("target_range_absolute_unsupported"));
        return;
      case Informational =>
        record := record.(disposition := Some(Invalid), reason := Some("informational_metric_cannot_gate"));
        return;
    }
    record := record.(disposition := Some(if pass then Pass else Fail));
  }

  method EvaluateRelative(initial: MetricRecord, request: MetricRequest, candidateValues: seq<Scalar>,
                          baseline: Option<seq<Trial>>, policy: EnvironmentPolicy, critical: bool,
                          seed: bv64, log: Logarithms)
    returns (record: MetricRecord, warnings: seq<Warning>)
    requires request.gate.Some? && !request.gate.value.Absolute?
    requires initial.threshold == Threshold(request.gate) && initial.direction == request.direction
    requires initial.name == request.name && initial.confidenceLow.None?
    requires |candidateValues| == |initial.candidateIncluded|
    ensures record == RelativeOutcome(initial, request, candidateValues, baseline, policy, critical, seed, log)
    ensures warnings == EvaluationWarnings(record)
  {
    hide Values, Included, ExcludedTrials, SemanticsError, PositiveOutcome;
    record, warnings := initial, [];
    if baseline.None? {
      record := record.(disposition := Some(Invalid), reason := Some("baseline_required"));
      return;
    }
    var baselineValues, included, excluded := SelectTrials(baseline.value, request.name);
    SelectionSizes(baseline.value, request.name);
    record := record.(baselineIncluded := included, baselineExcluded := excluded);
    var error := CheckMetricSemantics(request, baseline.value);
    if error.Some? {
      record := record.(disposition := Some(Invalid), reason := error);
      return;
    }
    var candidatePositive := CheckPositive(candidateValues);
    var baselinePositive := CheckPositive(baselineValues);
    if !candidatePositive || !baselinePositive {
      record := record.(disposition := Some(Invalid), reason := Some("nonpositive_relative_value"));
      return;
    }
    if !request.direction.HigherIsBetter? && !request.direction.LowerIsBetter? {
      record := record.(disposition := Some(Invalid), reason := Some("unsupported_direction_for_relative_gate"));
      return;
    }
    record, warnings := EvaluatePositive(record, request, candidateValues, baselineValues, policy, critical, seed, log);
  }

  /** The part of `evaluate_relative` behind its preconditions. */
  method EvaluatePositive(initial: MetricRecord, request: MetricRequest, candidateValues: seq<Scalar>,
                          baselineValues: seq<Scalar>, policy: EnvironmentPolicy, critical: bool, seed: bv64,
                          log: Logarithms)
    returns (record: MetricRecord, warnings: seq<Warning>)
    requires request.gate.Some? && !request.gate.value.Absolute? && initial.threshold == Threshold(request.gate)
    requires AllStrictlyPositive(candidateValues) && AllStrictlyPositive(baselineValues) && Directed(request.direction)
    requires initial.direction == request.direction && initial.confidenceLow.None?
    requires |candidateValues| == |initial.candidateIncluded| && |baselineValues| == |initial.baselineIncluded|
    ensures record == PositiveOutcome(initial, request, candidateValues, baselineValues, policy, critical, seed, log)
    ensures warnings == EvaluationWarnings(record)
  {
    hide Degradation, StatisticalOutcome, GeometricMean, Reals, AllStrictlyPositive;
    record, warnings := initial, [];
    var candidateGeomean := MeasureGeometricMean(candidateValues, log);
    var baselineGeomean := MeasureGeometricMean(baselineValues, log);
    GeometricMeansExist(candidateValues, baselineValues, log);
    record := record.(baselineEstimate := baselineGeomean);
    var degradation := MeasureDegradation(candidateGeomean, baselineGeomean, request.direction);
    record := record.(degradation := degradation);
    if policy == CrossTestbedDescriptive || critical {
      match policy {
        case StrictSameTestbed =>
          record := record.(disposition := Some(Invalid), reason := Some("comparability_mismatch"));
        case CrossTestbedDescriptive =>
          record := record.(disposition := Some(Descriptive), reason := Some("cross_testbed_descriptive"));
        case WarnOnMismatch =>
          record := record.(disposition := Some(Descriptive), reason := Some("comparability_mismatch_descriptive"));
      }
      return;
    }
    match request.gate.value
    case RelativeRegression(_) =>
      record := record.(disposition := Some(if degradation.value <= record.threshold.value then Pass else Fail));
    case StatisticalRelative(_, minTrials) =>
      record, warnings := EvaluateStatistical(record, minTrials, candidateValues, baselineValues, seed, log);
  }

  lemma GeometricMeansExist(candidate: seq<Scalar>, baseline: seq<Scalar>, log: Logarithms)
    requires AllStrictlyPositive(candidate) && AllStrictlyPositive(baseline)
    ensures GeometricMean(candidate, log).Some? && GeometricMean(baseline, log).Some?
  {
  }

  method EvaluateStatistical(initial: MetricRecord, minTrials: nat, candidateValues: seq<Scalar>,
                             baselineValues: seq<Scalar>, seed: bv64, log: Logarithms)
    returns (record: MetricRecord, warnings: seq<Warning>)
    requires initial.threshold.Some? && initial.confidenceLow.None?
    requires AllStrictlyPositive(candidateValues) && AllStrictlyPositive(baselineValues)
    requires |candidateValues| == |initial.candidateIncluded|
    requires |baselineValues| == |initial.baselineIncluded|
    ensures record == StatisticalOutcome(initial, minTrials, Reals(candidateValues), Reals(baselineValues), seed, log)
    ensures warnings == EvaluationWarnings(record)
  {
    hide Effects, IntervalLow, IntervalHigh;
    record, warnings := initial, [];
    var required := MIN_OBSERVATIONS_PER_SIDE;
    if minTrials > required {
      required := minTrials;
    }
    if |candidateValues| < required || |baselineValues| < required {
      record := record.(disposition := Some(Invalid), reason := Some("insufficient_trials"));
      return;
    }
    if |candidateValues| < RECOMMENDED_OBSERVATIONS_PER_SIDE || |baselineValues| < RECOMMENDED_OBSERVATIONS_PER_SIDE {
      warnings := warnings + [Warning("below_recommended_trial_count", record.name)];
    }
    var low, high := BootstrapInterval(Reals(candidateValues), Reals(baselineValues), record.direction,
                                       BOOTSTRAP_RESAMPLES, seed, log);
    record := record.(confidenceLow := Some(low), confidenceHigh := Some(high));
    record := record.(resamples := Some(BOOTSTRAP_RESAMPLES), effectiveSeed := Some(seed));
    if low > record.threshold.value {
      record := record.(disposition := Some(Fail));
    } else if high <= record.threshold.value {
      record := record.(disposition := Some(Pass));
    } else {
      record := record.(disposition := Some(Inconclusive));
    }
  }

  method EvaluateMetric(request: MetricRequest, candidate: seq<Trial>, baseline: Option<seq<Trial>>,
                        policy: EnvironmentPolicy, critical: bool, seed: bv64, log: Logarithms)
    returns (record: MetricRecord, warnings: seq<Warning>)
    ensures record == Evaluate(request, candidate, baseline, policy, critical, seed, log)
    ensures warnings == EvaluationWarnings(record)
  {
    var values, included, excluded := SelectTrials(candidate, request.name);
    SelectionSizes(candidate, request.name);
    var estimate := MeasureMean(values);
    warnings := [];
    record := MetricRecord(request.name, request.unit, request.direction, request.intent, request.gate,
                           included, excluded, [], [], estimate, None, None, None, None,
                           Threshold(request.gate), None, None, None, None);
    if request.gate.None? {
      return;
    }
    if request.intent != Primary {
      record := record.(disposition := Some(Invalid), reason := Some("diagnostic_metric_cannot_gate"));
      return;
    }
    match request.gate.value
    case Absolute(value) =>
      record := EvaluateAbsolute(record, values, value);
    case RelativeRegression(_) =>
      record, warnings := EvaluateRelative(record, request, values, baseline, policy, critical, seed, log);
    case StatisticalRelative(_, _) =>
      record, warnings := EvaluateRelative(record, request, values, baseline, policy, critical, seed, log);
  }
}
