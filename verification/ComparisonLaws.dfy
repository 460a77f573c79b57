/**
  Laws of the unpaired comparison: which inputs it depends on, and what a passing
  receipt guarantees.
 */
module ComparisonLaws {
  import opened Basics
  import opened Bootstrap
  import opened BootstrapLaws
  import opened Evaluation
  import opened GateLaws
  import opened OrderStatistics
  import opened Verdicts
  import opened Comparison

  // ---- Non-interference ----

  /** Two observations that differ at most in intent, provenance and in the detail
      text of an unusable value. */
  ghost predicate SameObservation(a: Observation, b: Observation) {
    && a.name == b.name && a.unit == b.unit && a.direction == b.direction && a.aggregation == b.aggregation
    && match (a.state, b.state)
       case (Observed(v), Observed(w)) => v == w
       case (Missing(v), Missing(w)) => v == w
       case (Unusable(v, _), Unusable(w, _)) => v == w
       case _ => false
  }

  ghost predicate SameObservations(a: seq<Observation>, b: seq<Observation>) {
    |a| == |b| && forall i :: 0 <= i < |a| ==> SameObservation(a[i], b[i])
  }

  /** Two trials that differ at most in what comparison ignores: histograms, error
      counts, warnings, pair identity and the above. */
  ghost predicate SameTrial(a: Trial, b: Trial) {
    && a.id == b.id && a.terminal == b.terminal
    && (a.metrics.None? <==> b.metrics.None?)
    && (a.metrics.Some? ==> SameObservations(a.metrics.value.observations, b.metrics.value.observations))
  }

  ghost predicate SameTrials(a: seq<Trial>, b: seq<Trial>) {
    |a| == |b| && forall i :: 0 <= i < |a| ==> SameTrial(a[i], b[i])
  }

  /** Candidates that differ at most in identity, ignored trial evidence, network-path
      evidence and correctness. */
  ghost predicate SameCandidate(a: Evidence, b: Evidence) {
    && a.metrics == b.metrics && a.policy == b.policy && a.environment == b.environment
    && a.paired == b.paired && SameTrials(a.trials, b.trials)
  }

  /** Baselines that may differ, besides, in their own metrics, gates, policy and pairing. */
  ghost predicate SameBaseline(a: Option<Evidence>, b: Option<Evidence>) {
    match (a, b)
    case (None, None) => true
    case (Some(x), Some(y)) => x.environment == y.environment && SameTrials(x.trials, y.trials)
    case _ => false
  }

  lemma {:induction false} FindAgrees(a: seq<Observation>, b: seq<Observation>, metric: string)
    requires SameObservations(a, b)
    ensures Find(a, metric).None? <==> Find(b, metric).None?
    ensures Find(a, metric).Some? ==> SameObservation(Find(a, metric).value, Find(b, metric).value)
    decreases |a|
  {
    if a != [] {
      assert SameObservation(a[0], b[0]);
      FindAgrees(a[1..], b[1..], metric);
    }
  }

  lemma UsableAgrees(a: Trial, b: Trial, metric: string)
    requires SameTrial(a, b)
    ensures Usable(a, metric) == Usable(b, metric)
    ensures Carried(a, metric).None? <==> Carried(b, metric).None?
    ensures Carried(a, metric).Some? ==> SameObservation(Carried(a, metric).value, Carried(b, metric).value)
  {
    if a.metrics.Some? {
      FindAgrees(a.metrics.value.observations, b.metrics.value.observations, metric);
    }
  }

  lemma {:induction false} SelectionAgrees(a: seq<Trial>, b: seq<Trial>, metric: string)
    requires SameTrials(a, b)
    ensures Values(a, metric) == Values(b, metric)
    ensures Included(a, metric) == Included(b, metric)
    ensures ExcludedTrials(a, metric) == ExcludedTrials(b, metric)
    decreases |a|
  {
    if a != [] {
      var n := |a| - 1;
      SelectionAgrees(a[..n], b[..n], metric);
      UsableAgrees(a[n], b[n], metric);
    }
  }

  lemma {:induction false} SemanticsAgree(a: seq<Trial>, b: seq<Trial>, request: MetricRequest,
                                          x: Option<Observation>, y: Option<Observation>)
    requires SameTrials(a, b)
    requires x.None? <==> y.None?
    requires x.Some? ==> SameObservation(x.value, y.value)
    ensures SemanticsError(a, request, x) == SemanticsError(b, request, y)
    decreases |a|
  {
    if a != [] {
      UsableAgrees(a[0], b[0], request.name);
      var found := Carried(a[0], request.name);
      var found' := Carried(b[0], request.name);
      if found.Some? && x.None? {
        SemanticsAgree(a[1..], b[1..], request, found, found');
      } else {
        SemanticsAgree(a[1..], b[1..], request, x, y);
      }
    }
  }

  lemma {:induction false} EvaluateAgrees(request: MetricRequest, a: seq<Trial>, b: seq<Trial>, x: Option<seq<Trial>>,
                                          y: Option<seq<Trial>>, policy: EnvironmentPolicy, critical: bool, seed: bv64,
                                          log: Logarithms)
    requires SameTrials(a, b)
    requires x.None? <==> y.None?
    requires x.Some? ==> SameTrials(x.value, y.value)
    ensures Evaluate(request, a, x, policy, critical, seed, log) == Evaluate(request, b, y, policy, critical, seed, log)
  {
    hide StatisticalOutcome, AbsoluteOutcome, GeometricMean, OrientedDegradation, SameTrials, Values, Included,
         ExcludedTrials, SemanticsError, AllStrictlyPositive, ArithmeticMean, Threshold;
    SelectionAgrees(a, b, request.name);
    if x.Some? {
      SelectionAgrees(x.value, y.value, request.name);
      SemanticsAgree(x.value, y.value, request, None, None);
    }
  }

  // ---- Where the seed shows ----

  lemma StatisticalSeed(record: MetricRecord, minTrials: nat, candidate: seq<real>, baseline: seq<real>,
                        s: bv64, t: bv64, log: Logarithms)
    requires record.threshold.Some? && record.confidenceLow.None?
    ensures var a := StatisticalOutcome(record, minTrials, candidate, baseline, s, log);
            var b := StatisticalOutcome(record, minTrials, candidate, baseline, t, log);
            && (a.confidenceLow.None? ==> a == b)
            && (a.confidenceLow.Some? ==> a.effectiveSeed == Some(s) && b.effectiveSeed == Some(t))
  {
    hide UnpairedEffects, IntervalLow, IntervalHigh, IntervalDisposition;
  }

  lemma {:induction false} RelativeSeed(record: MetricRecord, request: MetricRequest, candidate: seq<Scalar>,
                                        baseline: Option<seq<Trial>>, policy: EnvironmentPolicy, critical: bool,
                                        s: bv64, t: bv64, log: Logarithms)
    requires request.gate.Some? && !request.gate.value.Absolute?
    requires record.threshold == Threshold(request.gate) && record.confidenceLow.None?
    ensures var a := RelativeOutcome(record, request, candidate, baseline, policy, critical, s, log);
            var b := RelativeOutcome(record, request, candidate, baseline, policy, critical, t, log);
            && (a.confidenceLow.None? ==> a == b)
            && (a.confidenceLow.Some? ==> a.effectiveSeed == Some(s) && b.effectiveSeed == Some(t))
  {
    hide StatisticalOutcome, GeometricMean, Degradation, SemanticsError, Included, ExcludedTrials, Values, Reals;
    if request.gate.value.StatisticalRelative? && Eligible(request, candidate, baseline)
       && BaselineGated(policy, critical) {
      var values := Values(baseline.value, request.name);
      var joined := record.(baselineIncluded := Included(baseline.value, request.name),
                            baselineExcluded := ExcludedTrials(baseline.value, request.name));
      var estimate := GeometricMean(values, log);
      var degradation := OrientedDegradation(GeometricMean(candidate, log), estimate, request.direction);
      StatisticalSeed(joined.(baselineEstimate := estimate, degradation := degradation), request.gate.value.minTrials,
                      Reals(candidate), Reals(values), s, t, log);
    }
  }

  /** The seed shows in a record exactly when the record reaches an interval. */
  lemma {:induction false} SeedShows(request: MetricRequest, candidate: seq<Trial>, baseline: Option<seq<Trial>>,
                                     policy: EnvironmentPolicy, critical: bool, s: bv64, t: bv64, log: Logarithms)
    ensures var a := Evaluate(request, candidate, baseline, policy, critical, s, log);
            var b := Evaluate(request, candidate, baseline, policy, critical, t, log);
            && (a.confidenceLow.None? ==> a == b)
            && (a == b <==> a.confidenceLow.None? || s == t)
  {
    hide RelativeOutcome, AbsoluteOutcome, Threshold, Values, Included, ExcludedTrials, ArithmeticMean;
    if request.gate.Some? && request.intent == Primary && !request.gate.value.Absolute? {
      RelativeSeed(FreshRecord(request, candidate), request, Values(candidate, request.name), baseline, policy,
                   critical,
                   s, t, log);
    } else if request.gate.Some? && request.gate.value.Absolute? {
      AbsoluteHasNoInterval(FreshRecord(request, candidate), Values(candidate, request.name), request.gate.value.value);
    }
  }

  lemma AbsoluteHasNoInterval(record: MetricRecord, values: seq<Scalar>, value: real)
    ensures AbsoluteOutcome(record, values, value).confidenceLow == record.confidenceLow
  {
  }

  /** The two metric seeds agree wherever a record reaches an interval. */
  ghost predicate SeedsAgree(records: seq<MetricRecord>, s: bv64, t: bv64, sampling: Sampling) {
    forall i :: 0 <= i < |records| && records[i].confidenceLow.Some? ==>
      MetricSeed(s, records[i].name, sampling) == MetricSeed(t, records[i].name, sampling)
  }

  lemma RecordAgrees(name: string, a: Evidence, b: Evidence, x: Option<Evidence>, y: Option<Evidence>, critical: bool,
                     s: bv64, t: bv64, sampling: Sampling)
    requires FindRequest(a.metrics, name).Some?
    requires SameCandidate(a, b) && SameBaseline(x, y)
    ensures var before := RecordFor(name, a, x, critical, s, sampling);
            (before == RecordFor(name, b, y, critical, t, sampling)
            <==> before.confidenceLow.None? || MetricSeed(s, name, sampling) == MetricSeed(t, name, sampling))
  {
    hide Evaluate, MetricSeed, SameTrials;
    if !a.paired {
      var request := FindRequest(a.metrics, name).value;
      EvaluateAgrees(request, a.trials, b.trials, BaselineTrials(x), BaselineTrials(y), a.policy, critical,
                     MetricSeed(t, name, sampling), sampling.log);
      SeedShows(request, a.trials, BaselineTrials(x), a.policy, critical, MetricSeed(s, name, sampling),
                MetricSeed(t, name, sampling), sampling.log);
    }
  }

  lemma {:induction false} RecordsAgree(names: seq<string>, a: Evidence, b: Evidence, x: Option<Evidence>,
                                        y: Option<Evidence>,
                                        critical: bool, s: bv64, t: bv64, sampling: Sampling)
    requires forall name :: name in names ==> FindRequest(a.metrics, name).Some?
    requires SameCandidate(a, b) && SameBaseline(x, y)
    ensures var before := Records(names, a, x, critical, s, sampling);
            before == Records(names, b, y, critical, t, sampling) <==> SeedsAgree(before, s, t, sampling)
    decreases |names|
  {
    hide RecordFor, MetricSeed, SameTrials;
    forall i | 0 <= i < |names|
      ensures Records(names, a, x, critical, s, sampling)[i] == Records(names, b, y, critical, t, sampling)[i]
         <==> (Records(names, a, x, critical, s, sampling)[i].confidenceLow.Some? ==>
                 MetricSeed(s, names[i], sampling) == MetricSeed(t, names[i], sampling))
      ensures Records(names, a, x, critical, s, sampling)[i].name == names[i]
    {
      RecordNames(names, a, x, critical, s, sampling, i);
      RecordNames(names, b, y, critical, t, sampling, i);
      RecordAgrees(names[i], a, b, x, y, critical, s, t, sampling);
    }
  }

  /** Take two comparisons that differ at most in the baseline plan's metrics, gates,
      policy and pairing, in histograms, error counts, warnings or provenance of trial
      evidence, in correctness results and in the identities that follow from all these.
      Their metric records, and so their performance verdicts, are equal exactly when
      every record that reaches an interval got the same seed: always under a seed of
      its own, but a derived seed follows the identities. */
  lemma ComparisonNonInterference(a: Evidence, b: Evidence, x: Option<Evidence>, y: Option<Evidence>,
                                  identity: IdentityMatch, sampling: Sampling)
    requires SameCandidate(a, b) && SameBaseline(x, y)
    ensures var before, after := ReceiptMetrics(a, x, identity, sampling), ReceiptMetrics(b, y, identity, sampling);
            && (before == after <==> SeedsAgree(before, BaseSeed(a, x, sampling), BaseSeed(b, y, sampling), sampling))
            && (sampling.seed.Some? ==> before == after)
            && ((forall i :: 0 <= i < |before| ==> before[i].confidenceLow.None?) ==> before == after)
            && (before == after ==> AggregateOf(before) == AggregateOf(after))
  {
    hide Records, AggregateOf, MetricSeed, SameTrials, RequestNames, FindRequest;
    RequestNamesOrdered(a.metrics);
    RecordsAgree(Retained(RequestNames(a.metrics)), a, b, x, y, Critical(a, x, identity),
                 BaseSeed(a, x, sampling), BaseSeed(b, y, sampling), sampling);
  }

  // ---- What a passing receipt guarantees ----

  /** What a passing statistical gate vouches for: comparable testbeds, enough positive
      observations on each side, a coherent baseline, and an interval at or below
      the threshold. */
  ghost predicate Vouched(request: MetricRequest, candidate: Evidence, baseline: Option<Evidence>,
                          identity: IdentityMatch, seed: bv64, log: Logarithms) {
    && StatisticallyEvaluable(request, candidate.trials, BaselineTrials(baseline), candidate.policy, false)
    && !Critical(candidate, baseline, identity)
    && var (low, high) := UnpairedInterval(request, candidate.trials, baseline.value.trials, seed, log);
       low <= request.gate.value.allowance as real / 10_000.0
       && high <= request.gate.value.allowance as real / 10_000.0
  }

  /** What a passing receipt says about one retained metric: a primary metric passed, is
      descriptive or is ungated, and a statistical gate that passed is vouched for. */
  ghost predicate MetricSound(name: string, candidate: Evidence, baseline: Option<Evidence>, identity: IdentityMatch,
                              sampling: Sampling)
    requires FindRequest(candidate.metrics, name).Some?
  {
    var request := FindRequest(candidate.metrics, name).value;
    var base := BaseSeed(candidate, baseline, sampling);
    var record := RecordFor(name, candidate, baseline, Critical(candidate, baseline, identity), base, sampling);
    request.intent == Primary ==>
      && (record.disposition.None? || record.disposition.value in {Pass, Descriptive})
      && (request.gate.Some? && request.gate.value.StatisticalRelative? ==>
            && !candidate.paired
            && (|| (record.disposition == Some(Descriptive) && candidate.policy != StrictSameTestbed)
                || (record.disposition == Some(Pass)
                    && Vouched(request, candidate, baseline, identity, MetricSeed(base, name, sampling),
                               sampling.log))))
  }

  /** What a passing receipt guarantees as a whole: correctness was not asked for or every
      check passed, and every retained metric is sound. */
  ghost predicate ReceiptSound(candidate: Evidence, baseline: Option<Evidence>, identity: IdentityMatch,
                               sampling: Sampling) {
    && (candidate.checks.None?
        || (candidate.checks.value != [] && forall c :: c in candidate.checks.value ==> c.disposition == CheckPass))
    && forall name | name in Retained(RequestNames(candidate.metrics)) && FindRequest(candidate.metrics, name).Some? ::
         MetricSound(name, candidate, baseline, identity, sampling)
  }

  /** A receipt that passes as a whole, performance and correctness combined, is sound. */
  lemma PassingReceiptMeaning(candidate: Evidence, baseline: Option<Evidence>, identity: IdentityMatch,
                              sampling: Sampling)
    requires ReceiptFor(candidate, baseline, identity, sampling).aggregate == Some(PassVerdict)
    ensures ReceiptSound(candidate, baseline, identity, sampling)
  {
    hide AggregateOf, AggregateCorrectness, MetricSound, ReceiptMetrics, ReceiptWarnings, ReceiptTestbed, RequestNames,
         FindRequest, Critical, CorrectnessOf, BaseSeed, UnpairedPolicy;
    var performance := AggregateOf(ReceiptMetrics(candidate, baseline, identity, sampling));
    if candidate.checks.Some? {
      PassCorrectnessMeaning(candidate.checks.value);
    }
    forall name | name in Retained(RequestNames(candidate.metrics)) && FindRequest(candidate.metrics, name).Some?
      ensures MetricSound(name, candidate, baseline, identity, sampling)
    {
      PassingMetric(candidate, baseline, identity, sampling, name);
    }
  }

  lemma PassingMetric(candidate: Evidence, baseline: Option<Evidence>, identity: IdentityMatch, sampling: Sampling,
                      name: string)
    requires AggregateOf(ReceiptMetrics(candidate, baseline, identity, sampling)) in {None, Some(PassVerdict)}
    requires name in Retained(RequestNames(candidate.metrics)) && FindRequest(candidate.metrics, name).Some?
    ensures MetricSound(name, candidate, baseline, identity, sampling)
  {
    hide Evaluate, StatisticallyEvaluable, UnpairedInterval, Critical, RequestNames, MetricSeed, BaseSeed, Retained,
         AggregateOf, ReceiptMetrics;
    var critical, base := Critical(candidate, baseline, identity), BaseSeed(candidate, baseline, sampling);
    var request := FindRequest(candidate.metrics, name).value;
    PassingRecord(candidate, baseline, identity, sampling, name);
    RecordKeepsRequest(request, candidate.trials, BaselineTrials(baseline), candidate.policy, critical,
                       MetricSeed(base, name, sampling), sampling.log);
    if request.gate.Some? && request.gate.value.StatisticalRelative? {
      StatisticalPass(request, candidate.trials, BaselineTrials(baseline), candidate.policy, critical,
                      MetricSeed(base, name, sampling), sampling.log);
    }
  }

  lemma NoPrimaryFailure(records: seq<MetricRecord>, i: nat)
    requires AggregateOf(records) in {None, Some(PassVerdict)}
    requires i < |records| && records[i].intent == Primary
    ensures records[i].disposition.None? || records[i].disposition.value in {Pass, Descriptive}
  {
    if records[i].disposition.Some? {
      assert PrimaryHas(records, records[i].disposition.value);
      match records[i].disposition.value {
        case Pass => case Fail => case Inconclusive => case Invalid => case Descriptive =>
      }
    }
  }

  lemma {:induction false} PassingRecord(candidate: Evidence, baseline: Option<Evidence>, identity: IdentityMatch,
                                         sampling: Sampling, name: string)
    requires AggregateOf(ReceiptMetrics(candidate, baseline, identity, sampling)) in {None, Some(PassVerdict)}
    requires name in Retained(RequestNames(candidate.metrics)) && FindRequest(candidate.metrics, name).Some?
    ensures var record := RecordFor(name, candidate, baseline, Critical(candidate, baseline, identity),
                                    BaseSeed(candidate, baseline, sampling), sampling);
            record.intent == Primary ==> record.disposition.None? || record.disposition.value in {Pass, Descriptive}
  {
    hide RecordFor, Critical, AggregateOf, RequestNames, FindRequest, BaseSeed;
    RequestNamesOrdered(candidate.metrics);
    var names := Retained(RequestNames(candidate.metrics));
    var k :| 0 <= k < |names| && names[k] == name;
    var base := BaseSeed(candidate, baseline, sampling);
    RecordNames(names, candidate, baseline, Critical(candidate, baseline, identity), base, sampling, k);
    var records := ReceiptMetrics(candidate, baseline, identity, sampling);
    if records[k].intent == Primary {
      NoPrimaryFailure(records, k);
    }
  }

  lemma {:induction false} StatisticalPass(request: MetricRequest, candidate: seq<Trial>, baseline: Option<seq<Trial>>,
                                           policy: EnvironmentPolicy, critical: bool, seed: bv64, log: Logarithms)
    requires request.gate.Some? && request.gate.value.StatisticalRelative?
    ensures var disposition := Evaluate(request, candidate, baseline, policy, critical, seed, log).disposition;
            && disposition.Some?
            && (disposition == Some(Descriptive) ==> policy != StrictSameTestbed)
            && (disposition == Some(Pass) ==>
                  && baseline.Some?
                  && StatisticallyEvaluable(request, candidate, baseline, policy, critical) && !critical
                  && StatisticallyEvaluable(request, candidate, baseline, policy, false)
                  && var (low, high) := UnpairedInterval(request, candidate, baseline.value, seed, log);
                     low <= request.gate.value.allowance as real / 10_000.0
                     && high <= request.gate.value.allowance as real / 10_000.0)
  {
    hide Evaluate, Coherent, Absent, UnpairedInterval;
    StatisticalVerdictMeaning(request, candidate, baseline, policy, critical, seed, log);
  }
}
