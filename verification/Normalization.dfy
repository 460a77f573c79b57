/**
  Normalization of one trial's raw driver output (`normalize_trial_metrics`,
  `normalize_one_request` and `TrialMetrics::validate` in metrics.rs).

  The methods group, classify, sort and validate step by step; `Normalized` says what
  the outcome is, one requested metric at a time, and `WellFormed` when there is one.
 */
module Normalization {
  import opened Basics
  import opened Bootstrap
  import opened Evaluation
  import opened Ordering

  const MAX_NORMALIZED_METRICS_PER_TRIAL: nat := 256
  const MAX_RAW_OBSERVATIONS_PER_INVOCATION: nat := 256
  const MAX_HISTOGRAM_REFERENCES_PER_TRIAL: nat := 16
  const MAX_RAW_ARTIFACT_REFS_PER_METRIC: nat := 8
  const MAX_ERROR_CATEGORIES_PER_TRIAL: nat := 32
  const MAX_METRIC_WARNINGS_PER_TRIAL: nat := 16
  const MAX_PROVENANCE_FIELD_LEN: nat := 128
  const MAX_METRIC_DETAIL_LEN: nat := 512
  const MAX_HISTOGRAM_FORMAT_LEN: nat := 64

  datatype RawObservation = RawObservation(
    name: string, unit: string, value: Scalar, aggregation: Aggregation, sourceField: Option<string>,
    producer: Option<string>, producerVersion: Option<string>, artifacts: seq<string>)

  datatype RawHistogram = RawHistogram(
    metric: string, artifact: string, format: string, unit: string, correction: Option<string>)

  datatype Provenance = Provenance(
    producer: string, producerVersion: Option<string>, sourceField: Option<string>, artifacts: seq<string>)

  datatype Record = Record(
    name: string, unit: string, direction: MetricDirection, intent: MetricIntent,
    aggregation: Aggregation, state: ObservationState, provenance: Provenance)

  datatype Histogram = Histogram(
    metric: string, path: string, format: string, unit: string, correction: Option<string>)

  /** `artifacts` maps the names of staged artifacts to their paths. */
  datatype Input = Input(
    requests: seq<MetricRequest>, completed: bool, raws: seq<RawObservation>, histograms: seq<RawHistogram>,
    errorCounts: seq<(string, nat)>, artifacts: map<string, string>,
    producer: string, producerVersion: Option<string>)

  datatype Output = Output(
    records: seq<Record>, histograms: seq<Histogram>, errors: seq<(string, nat)>, warnings: seq<Warning>)

  // ---- The built-in vocabulary ----

  datatype Builtin = Builtin(unit: string, aggregation: Aggregation, direction: Option<MetricDirection>)

  function BuiltinMetric(name: string): Option<Builtin> {
    if name == "throughput" then Some(Builtin("rps", Rate, Some(HigherIsBetter)))
    else if name == "latency_min" then Some(Builtin("ms", Minimum, Some(LowerIsBetter)))
    else if name == "latency_mean" then Some(Builtin("ms", Mean, Some(LowerIsBetter)))
    else if name == "latency_p50" then Some(Builtin("ms", Percentile(5000), Some(LowerIsBetter)))
    else if name == "latency_p90" then Some(Builtin("ms", Percentile(9000), Some(LowerIsBetter)))
    else if name == "latency_p95" then Some(Builtin("ms", Percentile(9500), Some(LowerIsBetter)))
    else if name == "latency_p99" then Some(Builtin("ms", Percentile(9900), Some(LowerIsBetter)))
    else if name == "latency_p999" then Some(Builtin("ms", Percentile(9990), Some(LowerIsBetter)))
    else if name == "error_rate" || name == "timeout_rate" then Some(Builtin("ratio", Ratio, Some(LowerIsBetter)))
    else if name == "bytes_sent" || name == "bytes_received" then Some(Builtin("bytes", Total, None))
    else if name == "cpu_percent" then Some(Builtin("percent", Mean, None))
    else if name == "rss_bytes" then Some(Builtin("bytes", Maximum, None))
    else None
  }

  /** The documented vocabulary: unit, aggregation and, where it is fixed, direction. */
  const VOCABULARY: map<string, Builtin> := map[
    "throughput" := Builtin("rps", Rate, Some(HigherIsBetter)),
    "latency_min" := Builtin("ms", Minimum, Some(LowerIsBetter)),
    "latency_mean" := Builtin("ms", Mean, Some(LowerIsBetter)),
    "latency_p50" := Builtin("ms", Percentile(5000), Some(LowerIsBetter)),
    "latency_p90" := Builtin("ms", Percentile(9000), Some(LowerIsBetter)),
    "latency_p95" := Builtin("ms", Percentile(9500), Some(LowerIsBetter)),
    "latency_p99" := Builtin("ms", Percentile(9900), Some(LowerIsBetter)),
    "latency_p999" := Builtin("ms", Percentile(9990), Some(LowerIsBetter)),
    "error_rate" := Builtin("ratio", Ratio, Some(LowerIsBetter)),
    "timeout_rate" := Builtin("ratio", Ratio, Some(LowerIsBetter)),
    "bytes_sent" := Builtin("bytes", Total, None),
    "bytes_received" := Builtin("bytes", Total, None),
    "cpu_percent" := Builtin("percent", Mean, None),
    "rss_bytes" := Builtin("bytes", Maximum, None)]

  /** The code agrees with its documentation, and the metrics held to [0, 1] are the ones
      whose unit and aggregation are a ratio. */
  lemma VocabularyIsDocumented(name: string)
    ensures BuiltinMetric(name) == if name in VOCABULARY then Some(VOCABULARY[name]) else None
    ensures IsRatioMetric(name) <==> name in VOCABULARY && VOCABULARY[name].unit == "ratio"
    ensures IsRatioMetric(name) <==> name in VOCABULARY && VOCABULARY[name].aggregation == Ratio
  {
    assert "ratio"[0] == 'r' && "rps"[1] == 'p' && "ratio"[1] == 'a' && "ms"[0] == 'm';
    assert "bytes"[0] == 'b' && "percent"[0] == 'p';
  }

  predicate IsRatioMetric(name: string) {
    name == "error_rate" || name == "timeout_rate"
  }

  predicate AggregationMatches(expected: Aggregation, actual: Aggregation) {
    (expected.Percentile? && actual.Percentile?) || expected == actual
  }

  predicate AggregationValid(aggregation: Aggregation) {
    aggregation.Percentile? ==> 1 <= aggregation.basisPoints <= 10_000
  }

  function Fallback(name: string): Aggregation {
    match BuiltinMetric(name) case None => Direct case Some(builtin) => builtin.aggregation
  }

  // ---- Provenance ----

  /** Provenance of a record without a source of its own. */
  function BaseProvenance(input: Input, sourceField: Option<string>): Provenance {
    Provenance(input.producer, input.producerVersion, sourceField, [])
  }

  /** Provenance of one raw observation; its own producer label wins, with its version. */
  function SourceProvenance(raw: RawObservation, paths: seq<string>, input: Input): Result<Provenance, string> {
    match raw.producer
    case None => Ok(Provenance(input.producer, input.producerVersion, raw.sourceField, paths))
    case Some(producer) =>
      if NameOk(producer) then Ok(Provenance(producer, raw.producerVersion, raw.sourceField, paths))
      else Err("invalid observation producer label")
  }

  // ---- One request ----

  function Group(raws: seq<RawObservation>, name: string): seq<RawObservation> {
    if raws == [] then []
    else
      var last := raws[|raws| - 1];
      Group(raws[..|raws| - 1], name) + if last.name == name then [last] else []
  }

  /** Whether the plan's unit and direction agree with the vocabulary. */
  function VocabularyError(request: MetricRequest): Option<string> {
    match BuiltinMetric(request.name)
    case None => None
    case Some(builtin) =>
      if request.unit != builtin.unit then Some("unit_mismatch")
      else if builtin.direction.Some? && builtin.direction.value != request.direction then Some("domain_error")
      else None
  }

  function FirstUnknown(names: seq<string>, artifacts: map<string, string>): Option<string> {
    if names == [] then None
    else if names[0] !in artifacts then Some(names[0])
    else FirstUnknown(names[1..], artifacts)
  }

  function Resolved(names: seq<string>, artifacts: map<string, string>): seq<string> {
    if names == [] then []
    else
      (if names[0] in artifacts then [artifacts[names[0]]] else []) + Resolved(names[1..], artifacts)
  }

  /** Reason and detail of the first check a lone raw observation fails, if any.  Only the
      detail that can exceed its bound is kept. */
  function RawError(request: MetricRequest, raw: RawObservation, artifacts: map<string, string>)
    : Option<(string, string)>
  {
    var builtin := BuiltinMetric(request.name);
    if raw.unit != request.unit then Some(("unit_mismatch", ""))
    else if raw.value.NonFinite? then Some(("non_finite", ""))
    else if IsRatioMetric(request.name) && !(0.0 <= raw.value.r <= 1.0) then Some(("domain_error", ""))
    else if builtin.Some? && !AggregationMatches(builtin.value.aggregation, raw.aggregation) then
      Some(("aggregation_mismatch", ""))
    else match FirstUnknown(raw.artifacts, artifacts)
      case None => None
      case Some(name) => Some(("malformed_source_reference", "unknown raw artifact " + name))
  }

  function FirstOverride(group: seq<RawObservation>): Option<RawObservation> {
    if group == [] then None
    else if group[0].producer.Some? then Some(group[0])
    else FirstOverride(group[1..])
  }

  function RecordWith(request: MetricRequest, state: ObservationState, aggregation: Aggregation,
                      provenance: Provenance): Record
  {
    Record(request.name, request.unit, request.direction, request.intent, aggregation, state, provenance)
  }

  /** The record of a request with a lone raw observation, or a structural error. */
  function LoneRecord(request: MetricRequest, raw: RawObservation, input: Input): Result<Record, string> {
    if !AggregationValid(raw.aggregation) then Err("percentile basis points out of range")
    else
      var failure := RawError(request, raw, input.artifacts);
      match SourceProvenance(raw, if failure.Some? then [] else Resolved(raw.artifacts, input.artifacts), input)
      case Err(error) => Err(error)
      case Ok(provenance) =>
        var state := match failure
          case Some((reason, detail)) => Unusable(reason, detail)
          case None => Observed(raw.value);
        Ok(RecordWith(request, state, raw.aggregation, provenance))
  }

  /** The record of a request whose raw observations are not usable one by one: `speaker`
      is the observation it is attributed to. */
  function AttributedRecord(request: MetricRequest, speaker: RawObservation, input: Input): Result<Record, string> {
    match VocabularyError(request)
    case Some(reason) =>
      Ok(RecordWith(request, Unusable(reason, ""), Fallback(request.name), BaseProvenance(input, speaker.sourceField)))
    case None =>
      match SourceProvenance(speaker, [], input)
      case Err(error) => Err(error)
      case Ok(provenance) =>
        Ok(RecordWith(request, Unusable("duplicate_observation", ""), Fallback(request.name), provenance))
  }

  /** The first observation with a producer of its own, else the first; a contradiction
      with the vocabulary is attributed to the first. */
  function Speaker(request: MetricRequest, group: seq<RawObservation>): RawObservation
    requires group != []
  {
    if VocabularyError(request).Some? || FirstOverride(group).None? then group[0] else FirstOverride(group).value
  }

  /** The record of one request, or a structural error. */
  function RecordFor(request: MetricRequest, input: Input): Result<Record, string> {
    var group := Group(input.raws, request.name);
    if !input.completed then
      Ok(RecordWith(request, Missing("trial_not_completed"), Fallback(request.name), BaseProvenance(input, None)))
    else if group == [] then
      Ok(RecordWith(request, Missing("source_not_provided"), Fallback(request.name), BaseProvenance(input, None)))
    else if VocabularyError(request).Some? || |group| != 1 then
      AttributedRecord(request, Speaker(request, group), input)
    else LoneRecord(request, group[0], input)
  }

  // ---- Histograms and error counts ----

  predicate HistogramIntakeOk(raw: RawHistogram) {
    && Utf8Length(raw.metric) <= NAME_MAX_LEN && Utf8Length(raw.artifact) <= NAME_MAX_LEN
    && Utf8Length(raw.unit) <= NAME_MAX_LEN
    && raw.format != [] && Utf8Length(raw.format) <= MAX_HISTOGRAM_FORMAT_LEN
    && (raw.correction.Some? ==> Utf8Length(raw.correction.value) <= MAX_PROVENANCE_FIELD_LEN)
  }

  /** References to unknown artifacts are dropped. */
  function Histograms(raws: seq<RawHistogram>, artifacts: map<string, string>): seq<Histogram> {
    if raws == [] then []
    else
      var last := raws[|raws| - 1];
      Histograms(raws[..|raws| - 1], artifacts)
      + if last.artifact in artifacts
        then [Histogram(last.metric, artifacts[last.artifact], last.format, last.unit, last.correction)]
        else []
  }

  /** Order by metric, then path: a metric name holds no control character. */
  function HistogramKey(histogram: Histogram): string {
    histogram.metric + "\0" + histogram.path
  }

  predicate HistogramRawOk(raw: RawHistogram, artifacts: map<string, string>) {
    HistogramIntakeOk(raw) && (raw.artifact in artifacts ==> NameOk(raw.metric) && NameOk(raw.unit))
  }

  function ErrorNames(counts: seq<(string, nat)>): seq<string> {
    if counts == [] then []
    else InsertName(counts[|counts| - 1].0, ErrorNames(counts[..|counts| - 1]))
  }

  /** The last count of a category wins. */
  function ErrorCounts(counts: seq<(string, nat)>): map<string, nat> {
    if counts == [] then map[]
    else ErrorCounts(counts[..|counts| - 1])[counts[|counts| - 1].0 := counts[|counts| - 1].1]
  }

  function ErrorEntries(names: seq<string>, counts: map<string, nat>): (entries: seq<(string, nat)>)
    ensures |entries| == |names|
    ensures forall i :: 0 <= i < |names| ==> entries[i].0 == names[i]
  {
    if names == [] then []
    else
      [(names[0], if names[0] in counts then counts[names[0]] else 0)] + ErrorEntries(names[1..], counts)
  }

  function ErrorDistribution(counts: seq<(string, nat)>): seq<(string, nat)> {
    ErrorEntries(ErrorNames(counts), ErrorCounts(counts))
  }

  // ---- The whole artifact ----

  function RecordName(record: Record): string { record.name }

  function RequestName(request: MetricRequest): string { request.name }

  /** The records of the requests, in request order. */
  function RecordsFor(requests: seq<MetricRequest>, input: Input): (records: seq<Record>)
    requires forall r :: r in requests ==> RecordFor(r, input).Ok?
    ensures |records| == |requests|
    ensures forall i :: 0 <= i < |requests| ==> records[i] == RecordFor(requests[i], input).value
  {
    if requests == [] then []
    else RecordsFor(requests[..|requests| - 1], input) + [RecordFor(requests[|requests| - 1], input).value]
  }

  function RawNames(raws: seq<RawObservation>): seq<string> {
    if raws == [] then []
    else InsertName(raws[|raws| - 1].name, RawNames(raws[..|raws| - 1]))
  }

  predicate Requested(requests: seq<MetricRequest>, name: string) {
    exists r :: r in requests && r.name == name
  }

  /** Warnings in raw-name order: unrequested metrics and duplicated ones. */
  function WarningsFor(names: seq<string>, input: Input): seq<Warning> {
    if names == [] then []
    else
      var last := names[|names| - 1];
      WarningsFor(names[..|names| - 1], input)
      + if !Requested(input.requests, last) then [Warning("unrequested_raw_metric", last)]
        else if |Group(input.raws, last)| > 1 then [Warning("duplicate_raw_observation", last)]
        else []
  }

  predicate RawIntakeOk(raw: RawObservation) {
    && Utf8Length(raw.name) <= NAME_MAX_LEN && Utf8Length(raw.unit) <= NAME_MAX_LEN
    && |raw.artifacts| <= MAX_RAW_ARTIFACT_REFS_PER_METRIC
    && (raw.sourceField.Some? ==> Utf8Length(raw.sourceField.value) <= MAX_PROVENANCE_FIELD_LEN)
  }

  predicate CountsOk(input: Input) {
    && |input.requests| <= MAX_NORMALIZED_METRICS_PER_TRIAL
    && |input.raws| <= MAX_RAW_OBSERVATIONS_PER_INVOCATION
    && |input.histograms| <= MAX_HISTOGRAM_REFERENCES_PER_TRIAL
    && |input.errorCounts| <= MAX_ERROR_CATEGORIES_PER_TRIAL
    && NameOk(input.producer)
    && (input.producerVersion.Some? ==> Utf8Length(input.producerVersion.value) <= MAX_PROVENANCE_FIELD_LEN)
  }

  /** Everything the code demands of an input before it validates what it assembled. */
  ghost predicate Assembles(input: Input) {
    && CountsOk(input)
    && (forall r :: r in input.raws ==> RawIntakeOk(r))
    && DistinctKeys(input.requests, RequestName)
    && (forall r :: r in input.requests ==> RecordFor(r, input).Ok?)
    && (forall h :: h in input.histograms ==> HistogramRawOk(h, input.artifacts))
    && (forall e :: e in input.errorCounts ==> NameOk(e.0))
    && |WarningsFor(RawNames(input.raws), input)| <= MAX_METRIC_WARNINGS_PER_TRIAL
  }

  function Normalized(input: Input): Output
    requires forall r :: r in input.requests ==> RecordFor(r, input).Ok?
  {
    Output(SortBy(RecordsFor(input.requests, input), RecordName),
           SortBy(Histograms(input.histograms, input.artifacts), HistogramKey),
           ErrorDistribution(input.errorCounts),
           WarningsFor(RawNames(input.raws), input))
  }

  /** Exactly when normalization succeeds: the artifact assembles, every record can be
      stored, and the resolved histograms are distinct and carry no empty label. */
  ghost predicate WellFormed(input: Input) {
    && Assembles(input)
    && (forall r :: r in input.requests ==> RecordValid(RecordFor(r, input).value))
    && var histograms := Histograms(input.histograms, input.artifacts);
       && DistinctKeys(histograms, HistogramKey)
       && forall h :: h in histograms ==> h.correction != Some("")
  }

  // ---- The validator of normalized artifacts ----

  predicate ProvenanceValid(provenance: Provenance) {
    && (provenance.producerVersion.Some? ==>
          Utf8Length(provenance.producerVersion.value) <= MAX_PROVENANCE_FIELD_LEN)
    && (provenance.sourceField.Some? ==>
          provenance.sourceField.value != [] && Utf8Length(provenance.sourceField.value) <= MAX_PROVENANCE_FIELD_LEN)
    && |provenance.artifacts| <= MAX_RAW_ARTIFACT_REFS_PER_METRIC
  }

  predicate RecordValid(record: Record) {
    && AggregationValid(record.aggregation)
    && (record.state.Observed? ==>
          && record.state.value.Finite?
          && (IsRatioMetric(record.name) ==> 0.0 <= record.state.value.r <= 1.0))
    && (record.state.Unusable? ==> Utf8Length(record.state.detail) <= MAX_METRIC_DETAIL_LEN)
    && ProvenanceValid(record.provenance)
  }

  predicate HistogramValid(histogram: Histogram) {
    && histogram.format != [] && Utf8Length(histogram.format) <= MAX_HISTOGRAM_FORMAT_LEN
    && (histogram.correction.Some? ==>
          histogram.correction.value != [] && Utf8Length(histogram.correction.value) <= MAX_PROVENANCE_FIELD_LEN)
  }

  function ErrorName(entry: (string, nat)): string { entry.0 }

  /** What `TrialMetrics::validate` demands. */
  ghost predicate Validates(output: Output) {
    && |output.records| <= MAX_NORMALIZED_METRICS_PER_TRIAL
    && |output.histograms| <= MAX_HISTOGRAM_REFERENCES_PER_TRIAL
    && |output.errors| <= MAX_ERROR_CATEGORIES_PER_TRIAL
    && |output.warnings| <= MAX_METRIC_WARNINGS_PER_TRIAL
    && StrictlyOrdered(output.records, RecordName)
    && (forall r :: r in output.records ==> RecordValid(r))
    && StrictlyOrdered(output.histograms, HistogramKey)
    && (forall h :: h in output.histograms ==> HistogramValid(h))
    && StrictlyOrdered(output.errors, ErrorName)
  }

  /** The ordering checks of the validator: every element after the one before it. */
  method CheckOrder<T>(items: seq<T>, key: T -> string) returns (ok: bool)
    ensures ok <==> StrictlyOrdered(items, key)
  {
    hide NameLess;
    var previous: Option<string> := None;
    for i := 0 to |items|
      invariant StrictlyOrdered(items[..i], key)
      invariant previous == if i == 0 then None else Some(key(items[i - 1]))
    {
      if previous.Some? && !NameLess(previous.value, key(items[i])) {
        assert !NameLess(key(items[i - 1]), key(items[i]));
        return false;
      }
      StrictSnoc(items[..i], items[i], key);
      assert items[..i + 1] == items[..i] + [items[i]];
      previous := Some(key(items[i]));
    }
    assert items[..|items|] == items;
    return true;
  }

  lemma StrictSnoc<T>(items: seq<T>, last: T, key: T -> string)
    requires StrictlyOrdered(items, key)
    requires items != [] ==> NameLess(key(items[|items| - 1]), key(last))
    ensures StrictlyOrdered(items + [last], key)
  {
    hide NameLess;
    var longer := items + [last];
    forall i | 0 <= i < |items|
      ensures NameLess(key(items[i]), key(last))
    {
      if i < |items| - 1 {
        NameLessTransitive(key(items[i]), key(items[|items| - 1]), key(last));
      }
    }
  }

  /** `NormalizedObservation::validate`, with its provenance. */
  method ValidateRecord(record: Record) returns (ok: bool)
    ensures ok == RecordValid(record)
  {
    hide Utf8Length;
    if record.aggregation.Percentile?
       && (record.aggregation.basisPoints < 1 || record.aggregation.basisPoints > 10_000) {
      return false;
    }
    if record.state.Observed? {
      if record.state.value.NonFinite? {
        return false;
      }
      if (record.name == "error_rate" || record.name == "timeout_rate")
         && (record.state.value.r < 0.0 || record.state.value.r > 1.0) {
        return false;
      }
    }
    if record.state.Unusable? && Utf8Length(record.state.detail) > 512 {
      return false;
    }
    var provenance := record.provenance;
    if provenance.producerVersion.Some? && Utf8Length(provenance.producerVersion.value) > 128 {
      return false;
    }
    if provenance.sourceField.Some?
       && (provenance.sourceField.value == [] || Utf8Length(provenance.sourceField.value) > 128) {
      return false;
    }
    return |provenance.artifacts| <= 8;
  }

  /** `HistogramReference::validate`. */
  method ValidateHistogram(histogram: Histogram) returns (ok: bool)
    ensures ok == HistogramValid(histogram)
  {
    hide Utf8Length;
    if histogram.format == [] || Utf8Length(histogram.format) > 64 {
      return false;
    }
    return histogram.correction.None?
           || (histogram.correction.value != [] && Utf8Length(histogram.correction.value) <= 128);
  }

  method ValidateRecords(records: seq<Record>) returns (ok: bool)
    ensures ok <==> forall r :: r in records ==> RecordValid(r)
  {
    hide RecordValid;
    for i := 0 to |records|
      invariant forall r :: r in records[..i] ==> RecordValid(r)
    {
      assert records[..i + 1] == records[..i] + [records[i]];
      var recordOk := ValidateRecord(records[i]);
      if !recordOk {
        assert records[i] in records;
        return false;
      }
    }
    assert records[..|records|] == records;
    return true;
  }

  method ValidateHistograms(histograms: seq<Histogram>) returns (ok: bool)
    ensures ok <==> forall h :: h in histograms ==> HistogramValid(h)
  {
    hide HistogramValid;
    for i := 0 to |histograms|
      invariant forall h :: h in histograms[..i] ==> HistogramValid(h)
    {
      assert histograms[..i + 1] == histograms[..i] + [histograms[i]];
      var histogramOk := ValidateHistogram(histograms[i]);
      if !histogramOk {
        assert histograms[i] in histograms;
        return false;
      }
    }
    assert histograms[..|histograms|] == histograms;
    return true;
  }

  method ValidateMetrics(output: Output) returns (ok: bool)
    ensures ok <==> Validates(output)
  {
    hide RecordValid, HistogramValid, StrictlyOrdered;
    if |output.records| > MAX_NORMALIZED_METRICS_PER_TRIAL
       || |output.histograms| > MAX_HISTOGRAM_REFERENCES_PER_TRIAL
       || |output.errors| > MAX_ERROR_CATEGORIES_PER_TRIAL
       || |output.warnings| > MAX_METRIC_WARNINGS_PER_TRIAL {
      return false;
    }
    var recordsOrdered := CheckOrder(output.records, RecordName);
    var recordsValid := ValidateRecords(output.records);
    var histogramsOrdered := CheckOrder(output.histograms, HistogramKey);
    var histogramsValid := ValidateHistograms(output.histograms);
    var errorsOrdered := CheckOrder(output.errors, ErrorName);
    return recordsOrdered && recordsValid && histogramsOrdered && histogramsValid && errorsOrdered;
  }

  // ---- The algorithm ----

  method CheckRaw(raw: RawObservation) returns (ok: bool)
    ensures ok == RawIntakeOk(raw)
  {
    hide Utf8Length;
    if Utf8Length(raw.name) > 128 || Utf8Length(raw.unit) > 128 || |raw.artifacts| > 8 {
      return false;
    }
    return raw.sourceField.None? || Utf8Length(raw.sourceField.value) <= 128;
  }

  method CheckCounts(input: Input) returns (ok: bool)
    ensures ok == CountsOk(input)
  {
    hide Utf8Length, NameOk;
    if |input.requests| > 256 || |input.raws| > 256 || |input.histograms| > 16 || |input.errorCounts| > 32 {
      return false;
    }
    var labelOk := CheckName(input.producer);
    if !labelOk {
      return false;
    }
    return input.producerVersion.None? || Utf8Length(input.producerVersion.value) <= 128;
  }

  method CheckHistogram(raw: RawHistogram) returns (ok: bool)
    ensures ok == HistogramIntakeOk(raw)
  {
    hide Utf8Length;
    if Utf8Length(raw.metric) > 128 || Utf8Length(raw.artifact) > 128 || Utf8Length(raw.unit) > 128 {
      return false;
    }
    if raw.format == [] || Utf8Length(raw.format) > 64 {
      return false;
    }
    return raw.correction.None? || Utf8Length(raw.correction.value) <= 128;
  }

  /** Group raw observations by exact name, refusing oversized ones. */
  method GroupByName(raws: seq<RawObservation>)
    returns (byName: map<string, seq<RawObservation>>, names: seq<string>, ok: bool)
    ensures ok <==> forall r :: r in raws ==> RawIntakeOk(r)
    ensures ok ==> names == RawNames(raws) && Grouped(byName, raws)
  {
    hide RawIntakeOk, Grouped, Group, InsertName;
    byName, names := map[], [];
    NothingGrouped();
    for i := 0 to |raws|
      invariant names == RawNames(raws[..i]) && Grouped(byName, raws[..i])
      invariant forall r :: r in raws[..i] ==> RawIntakeOk(r)
    {
      var raw := raws[i];
      assert raws[..i + 1] == raws[..i] + [raw];
      assert raws[..i + 1][..i] == raws[..i];
      var intakeOk := CheckRaw(raw);
      if !intakeOk {
        assert raw in raws;
        return byName, names, false;
      }
      GroupSnoc(byName, raws[..i], raw);
      byName := byName[raw.name := (if raw.name in byName then byName[raw.name] else []) + [raw]];
      names := InsertName(raw.name, names);
    }
    assert raws[..|raws|] == raws;
    return byName, names, true;
  }

  ghost predicate Grouped(byName: map<string, seq<RawObservation>>, raws: seq<RawObservation>) {
    && (forall name :: name in byName <==> Group(raws, name) != [])
    && forall name :: name in byName ==> byName[name] == Group(raws, name)
  }

  lemma NothingGrouped()
    ensures Grouped(map[], [])
  {
  }

  lemma GroupSnoc(byName: map<string, seq<RawObservation>>, raws: seq<RawObservation>, raw: RawObservation)
    requires Grouped(byName, raws)
    ensures Grouped(byName[raw.name := (if raw.name in byName then byName[raw.name] else []) + [raw]], raws + [raw])
  {
    assert (raws + [raw])[..|raws|] == raws;
  }

  /** The provenance of one raw observation: its own producer label wins, with its version. */
  method Attribute(raw: RawObservation, paths: seq<string>, input: Input) returns (p: Result<Provenance, string>)
    ensures p == SourceProvenance(raw, paths, input)
  {
    hide NameOk;
    if raw.producer.None? {
      return Ok(Provenance(input.producer, input.producerVersion, raw.sourceField, paths));
    }
    var labelOk := CheckName(raw.producer.value);
    if !labelOk {
      return Err("invalid observation producer label");
    }
    return Ok(Provenance(raw.producer.value, raw.producerVersion, raw.sourceField, paths));
  }

  /** `request_aggregation_fallback`. */
  method FallbackOf(name: string) returns (aggregation: Aggregation)
    ensures aggregation == Fallback(name)
  {
    hide BuiltinMetric;
    var builtin := BuiltinMetric(name);
    return if builtin.Some? then builtin.value.aggregation else Direct;
  }

  /** `normalize_one_request`, with the case of a trial that did not complete. */
  method NormalizeRequest(request: MetricRequest, input: Input, byName: map<string, seq<RawObservation>>)
    returns (record: Result<Record, string>)
    requires Grouped(byName, input.raws)
    ensures record == RecordFor(request, input)
  {
    hide Group, BuiltinMetric, NameOk, Resolved, FirstUnknown, FirstOverride;
    var fallback := FallbackOf(request.name);
    if !input.completed {
      return Ok(Record(request.name, request.unit, request.direction, request.intent, fallback,
                       Missing("trial_not_completed"),
                       Provenance(input.producer, input.producerVersion, None, [])));
    }
    if request.name !in byName {
      return Ok(Record(request.name, request.unit, request.direction, request.intent, fallback,
                       Missing("source_not_provided"),
                       Provenance(input.producer, input.producerVersion, None, [])));
    }
    var group := byName[request.name];
    var builtin := BuiltinMetric(request.name);
    if builtin.Some? {
      var provenance := Provenance(input.producer, input.producerVersion, group[0].sourceField, []);
      if request.unit != builtin.value.unit {
        return Ok(Record(request.name, request.unit, request.direction, request.intent, fallback,
                         Unusable("unit_mismatch", ""), provenance));
      }
      if builtin.value.direction.Some? && builtin.value.direction.value != request.direction {
        return Ok(Record(request.name, request.unit, request.direction, request.intent, fallback,
                         Unusable("domain_error", ""), provenance));
      }
    }
    if |group| != 1 {
      record := NormalizeDuplicates(request, input, group);
    } else {
      record := NormalizeLone(request, input, group[0]);
    }
  }

  method NormalizeDuplicates(request: MetricRequest, input: Input, group: seq<RawObservation>)
    returns (record: Result<Record, string>)
    requires group != [] && VocabularyError(request).None?
    ensures record == AttributedRecord(request, Speaker(request, group), input)
  {
    hide NameOk, BuiltinMetric;
    var i := 0;
    while i < |group| && group[i].producer.None?
      invariant 0 <= i <= |group|
      invariant FirstOverride(group) == FirstOverride(group[i..])
    {
      assert group[i..][1..] == group[i + 1..];
      i := i + 1;
    }
    var provenance := Provenance(input.producer, input.producerVersion, group[0].sourceField, []);
    if i < |group| {
      var attributed := Attribute(group[i], [], input);
      if attributed.Err? {
        return Err(attributed.error);
      }
      provenance := attributed.value;
    } else {
      NoOverride(group);
    }
    var fallback := FallbackOf(request.name);
    return Ok(Record(request.name, request.unit, request.direction, request.intent, fallback,
                     Unusable("duplicate_observation", ""), provenance));
  }

  lemma {:induction false} NoOverride(group: seq<RawObservation>)
    ensures FirstOverride(group).None? <==> forall r :: r in group ==> r.producer.None?
    decreases |group|
  {
    if group != [] {
      NoOverride(group[1..]);
      assert group == [group[0]] + group[1..];
    }
  }

  /** The staged paths of the sources, up to the first unknown one. */
  method ResolveSources(names: seq<string>, artifacts: map<string, string>)
    returns (unknown: Option<string>, paths: seq<string>)
    ensures unknown == FirstUnknown(names, artifacts)
    ensures unknown.None? ==> paths == Resolved(names, artifacts)
  {
    paths := [];
    for i := 0 to |names|
      invariant FirstUnknown(names, artifacts) == FirstUnknown(names[i..], artifacts)
      invariant Resolved(names, artifacts) == paths + Resolved(names[i..], artifacts)
    {
      assert names[i..][0] == names[i] && names[i..][1..] == names[i + 1..];
      if names[i] !in artifacts {
        return Some(names[i]), paths;
      }
      paths := paths + [artifacts[names[i]]];
    }
    assert paths + [] == paths;
    return None, paths;
  }

  /** The checks on a lone observation in order, and its sources when it passes them. */
  method JudgeLone(request: MetricRequest, raw: RawObservation, artifacts: map<string, string>)
    returns (failure: Option<(string, string)>, paths: seq<string>)
    ensures failure == RawError(request, raw, artifacts)
    ensures failure.None? ==> paths == Resolved(raw.artifacts, artifacts)
  {
    hide BuiltinMetric;
    paths := [];
    if raw.unit != request.unit {
      return Some(("unit_mismatch", "")), [];
    }
    if raw.value.NonFinite? {
      return Some(("non_finite", "")), [];
    }
    if (request.name == "error_rate" || request.name == "timeout_rate") && !(0.0 <= raw.value.r <= 1.0) {
      return Some(("domain_error", "")), [];
    }
    var builtin := BuiltinMetric(request.name);
    if builtin.Some? && builtin.value.aggregation != raw.aggregation
       && !(builtin.value.aggregation.Percentile? && raw.aggregation.Percentile?) {
      return Some(("aggregation_mismatch", "")), [];
    }
    var unknown, resolved := ResolveSources(raw.artifacts, artifacts);
    if unknown.Some? {
      return Some(("malformed_source_reference", "unknown raw artifact " + unknown.value)), [];
    }
    return None, resolved;
  }

  method NormalizeLone(request: MetricRequest, input: Input, raw: RawObservation)
    returns (record: Result<Record, string>)
    ensures record == LoneRecord(request, raw, input)
  {
    hide RawError, Resolved, SourceProvenance;
    if raw.aggregation.Percentile? && (raw.aggregation.basisPoints < 1 || raw.aggregation.basisPoints > 10_000) {
      return Err("percentile basis points out of range");
    }
    var failure, paths := JudgeLone(request, raw, input.artifacts);
    if failure.Some? {
      var unresolved := Attribute(raw, [], input);
      if unresolved.Err? {
        return Err(unresolved.error);
      }
      return Ok(Record(request.name, request.unit, request.direction, request.intent, raw.aggregation,
                       Unusable(failure.value.0, failure.value.1), unresolved.value));
    }
    var resolved := Attribute(raw, paths, input);
    if resolved.Err? {
      return Err(resolved.error);
    }
    return Ok(Record(request.name, request.unit, request.direction, request.intent, raw.aggregation,
                     Observed(raw.value), resolved.value));
  }

  /** The request loop: one record per request, in request order. */
  method CollectRecords(input: Input, byName: map<string, seq<RawObservation>>)
    returns (records: seq<Record>, seen: set<string>, error: Option<string>)
    requires Grouped(byName, input.raws)
    ensures error.None? <==> && DistinctKeys(input.requests, RequestName)
                             && forall r :: r in input.requests ==> RecordFor(r, input).Ok?
    ensures error.None? ==> records == RecordsFor(input.requests, input)
    ensures error.None? ==> forall name :: name in seen <==> Requested(input.requests, name)
  {
    hide RecordFor, Group, Requested, DistinctKeys, Grouped;
    records, seen, error := [], {}, None;
    NothingRequested();
    for i := 0 to |input.requests|
      invariant error.None?
      invariant forall name :: name in seen <==> Requested(input.requests[..i], name)
      invariant DistinctKeys(input.requests[..i], RequestName)
      invariant forall r :: r in input.requests[..i] ==> RecordFor(r, input).Ok?
      invariant records == RecordsFor(input.requests[..i], input)
    {
      var request := input.requests[i];
      assert input.requests[..i + 1] == input.requests[..i] + [request];
      RequestedSnoc(input.requests[..i], request);
      if request.name in seen {
        RepeatedRequest(input.requests, i);
        error := Some("duplicate requested metric name");
        return;
      }
      seen := seen + {request.name};
      var record := NormalizeRequest(request, input, byName);
      if record.Err? {
        assert request in input.requests;
        error := Some(record.error);
        return;
      }
      assert input.requests[..i + 1][..i] == input.requests[..i];
      records := records + [record.value];
    }
    assert input.requests[..|input.requests|] == input.requests;
  }

  lemma NothingRequested()
    ensures DistinctKeys([], RequestName) && forall name :: !Requested([], name)
  {
  }

  lemma RepeatedRequest(requests: seq<MetricRequest>, i: nat)
    requires i < |requests| && Requested(requests[..i], requests[i].name)
    ensures !DistinctKeys(requests, RequestName)
  {
    var r :| r in requests[..i] && r.name == requests[i].name;
    var j :| 0 <= j < i && requests[..i][j] == r;
    assert RequestName(requests[j]) == RequestName(requests[i]);
  }

  lemma RequestedSnoc(requests: seq<MetricRequest>, request: MetricRequest)
    ensures forall name :: Requested(requests + [request], name) <==> Requested(requests, name) || request.name == name
    ensures DistinctKeys(requests, RequestName) && !Requested(requests, request.name) ==>
              DistinctKeys(requests + [request], RequestName)
  {
    assert forall r :: r in requests + [request] <==> r in requests || r == request;
    if DistinctKeys(requests, RequestName) && !Requested(requests, request.name) {
      forall i | 0 <= i < |requests|
        ensures RequestName(requests[i]) != RequestName(request)
      {
        assert requests[i] in requests;
      }
    }
  }

  /** The warning loop; more warnings than fit are a structural error. */
  method CollectWarnings(input: Input, byName: map<string, seq<RawObservation>>, names: seq<string>, seen: set<string>)
    returns (warnings: Option<seq<Warning>>)
    requires names == RawNames(input.raws)
    requires Grouped(byName, input.raws)
    requires forall name :: name in seen <==> Requested(input.requests, name)
    ensures warnings.Some? <==> |WarningsFor(names, input)| <= MAX_METRIC_WARNINGS_PER_TRIAL
    ensures warnings.Some? ==> warnings.value == WarningsFor(names, input)
  {
    hide Group, InsertName, RawNames, Requested;
    var collected: seq<Warning> := [];
    for i := 0 to |names|
      invariant collected == WarningsFor(names[..i], input)
      invariant |collected| <= MAX_METRIC_WARNINGS_PER_TRIAL
    {
      assert names[..i + 1][..i] == names[..i];
      WarningsGrow(names, i + 1, input);
      var name := names[i];
      RawNamesHaveGroups(input.raws, name);
      assert name in names;
      var added: seq<Warning> := [];
      if name !in seen {
        added := [Warning("unrequested_raw_metric", name)];
      } else if |byName[name]| > 1 {
        added := [Warning("duplicate_raw_observation", name)];
      }
      if added != [] && |collected| >= MAX_METRIC_WARNINGS_PER_TRIAL {
        return None;
      }
      collected := collected + added;
    }
    assert names[..|names|] == names;
    return Some(collected);
  }

  lemma {:induction false} WarningsGrow(names: seq<string>, i: nat, input: Input)
    requires i <= |names|
    ensures |WarningsFor(names[..i], input)| <= |WarningsFor(names, input)|
    decreases |names|
  {
    if i < |names| {
      WarningsGrow(names[..|names| - 1], i, input);
      assert names[..|names| - 1][..i] == names[..i];
    } else {
      assert names[..i] == names;
    }
  }

  lemma {:induction false} RawNamesHaveGroups(raws: seq<RawObservation>, name: string)
    ensures name in RawNames(raws) <==> Group(raws, name) != []
    decreases |raws|
  {
    if raws != [] {
      var init := raws[..|raws| - 1];
      RawNamesHaveGroups(init, name);
      InsertNameMembers(raws[|raws| - 1].name, RawNames(init), name);
    }
  }

  /** `normalize_histograms`. */
  method NormalizeHistograms(input: Input) returns (histograms: Option<seq<Histogram>>)
    ensures histograms.Some? <==> forall h :: h in input.histograms ==> HistogramRawOk(h, input.artifacts)
    ensures histograms.Some? ==>
              histograms.value == SortBy(Histograms(input.histograms, input.artifacts), HistogramKey)
  {
    hide HistogramIntakeOk, NameOk;
    var collected: seq<Histogram> := [];
    for i := 0 to |input.histograms|
      invariant collected == Histograms(input.histograms[..i], input.artifacts)
      invariant forall h :: h in input.histograms[..i] ==> HistogramRawOk(h, input.artifacts)
    {
      var raw := input.histograms[i];
      assert input.histograms[..i + 1] == input.histograms[..i] + [raw];
      assert input.histograms[..i + 1][..i] == input.histograms[..i];
      assert raw in input.histograms;
      var intakeOk := CheckHistogram(raw);
      if !intakeOk {
        return None;
      }
      if raw.artifact !in input.artifacts {
        continue;
      }
      var metricOk := CheckName(raw.metric);
      var unitOk := CheckName(raw.unit);
      if !metricOk || !unitOk {
        return None;
      }
      collected := collected
        + [Histogram(raw.metric, input.artifacts[raw.artifact], raw.format, raw.unit, raw.correction)];
    }
    assert input.histograms[..|input.histograms|] == input.histograms;
    return Some(SortBy(collected, HistogramKey));
  }

  /** `normalize_error_counts`. */
  method NormalizeErrorCounts(counts: seq<(string, nat)>) returns (errors: Option<seq<(string, nat)>>)
    ensures errors.Some? <==> forall e :: e in counts ==> NameOk(e.0)
    ensures errors.Some? ==> errors.value == ErrorDistribution(counts)
  {
    hide NameOk, InsertName;
    var byCategory: map<string, nat> := map[];
    var names: seq<string> := [];
    for i := 0 to |counts|
      invariant byCategory == ErrorCounts(counts[..i]) && names == ErrorNames(counts[..i])
      invariant forall e :: e in counts[..i] ==> NameOk(e.0)
    {
      assert counts[..i + 1] == counts[..i] + [counts[i]];
      assert counts[..i + 1][..i] == counts[..i];
      var nameOk := CheckName(counts[i].0);
      if !nameOk {
        assert counts[i] in counts;
        return None;
      }
      byCategory := byCategory[counts[i].0 := counts[i].1];
      names := InsertName(counts[i].0, names);
    }
    assert counts[..|counts|] == counts;
    return Some(ErrorEntries(names, byCategory));
  }

  method NormalizeTrialMetrics(input: Input) returns (output: Result<Output, string>)
    ensures output.Ok? <==> WellFormed(input)
    ensures output.Ok? ==> output.value == Normalized(input) && Validates(output.value)
  {
    hide RecordFor, RawNames, WarningsFor, Validates, Requested, DistinctKeys, Histograms, ErrorDistribution,
         RawIntakeOk, HistogramRawOk, NameOk, RecordValid, Grouped, Utf8Length, CountsOk;
    var countsOk := CheckCounts(input);
    if !countsOk {
      return Err("bound exceeded or invalid producer label");
    }
    var byName, names, intake := GroupByName(input.raws);
    if !intake {
      return Err("raw metric observation");
    }
    var records, seen, error := CollectRecords(input, byName);
    if error.Some? {
      return Err(error.value);
    }
    records := SortBy(records, RecordName);
    var histograms := NormalizeHistograms(input);
    if histograms.None? {
      return Err("raw histogram");
    }
    var errors := NormalizeErrorCounts(input.errorCounts);
    if errors.None? {
      return Err("invalid error category");
    }
    var warnings := CollectWarnings(input, byName, names, seen);
    if warnings.None? {
      return Err("metric warning count");
    }
    var metrics := Output(records, histograms.value, errors.value, warnings.value);
    AssembledValidity(input);
    var valid := ValidateMetrics(metrics);
    if !valid {
      return Err("normalized artifact");
    }
    output := Ok(metrics);
  }

  // ---- What the sorted lists hold ----

  /** A separator below every character of a metric keeps the order of metric, then path. */
  lemma {:induction false} KeyOrder(metric: string, path: string, other: string, otherPath: string)
    requires forall c :: c in metric || c in other ==> c > '\0'
    ensures NameLess(metric + "\0" + path, other + "\0" + otherPath)
       <==> NameLess(metric, other) || (metric == other && NameLess(path, otherPath))
    decreases |metric|
  {
    var x, y := metric + "\0" + path, other + "\0" + otherPath;
    if metric == [] {
      assert x[1..] == path;
      if other == [] {
        assert y[1..] == otherPath;
      } else {
        assert y[0] == other[0] && other[0] in other;
      }
    } else if other == [] {
      assert x[0] == metric[0] && metric[0] in metric;
    } else {
      assert metric[0] in metric && other[0] in other;
      assert x[1..] == metric[1..] + "\0" + path && y[1..] == other[1..] + "\0" + otherPath;
      assert metric == [metric[0]] + metric[1..] && other == [other[0]] + other[1..];
      assert forall c :: (c in metric[1..] ==> c in metric) && (c in other[1..] ==> c in other);
      KeyOrder(metric[1..], path, other[1..], otherPath);
    }
  }

  /** Histograms come in order of metric, then path. */
  lemma HistogramOrder(a: Histogram, b: Histogram)
    requires NameOk(a.metric) && NameOk(b.metric)
    ensures NameLess(HistogramKey(a), HistogramKey(b))
       <==> NameLess(a.metric, b.metric) || (a.metric == b.metric && NameLess(a.path, b.path))
  {
    forall c | c in a.metric || c in b.metric
      ensures c > '\0'
    {
      assert !IsControl(c);
    }
    KeyOrder(a.metric, a.path, b.metric, b.path);
  }

  /** The last count given for `name` is `n`. */
  ghost predicate LastCount(counts: seq<(string, nat)>, name: string, n: nat) {
    exists i :: 0 <= i < |counts| && counts[i] == (name, n) && forall j :: i < j < |counts| ==> counts[j].0 != name
  }

  lemma LastCountSnoc(counts: seq<(string, nat)>, last: (string, nat), name: string, n: nat)
    ensures LastCount(counts + [last], name, n)
       <==> if last.0 == name then last.1 == n else LastCount(counts, name, n)
  {
    var longer, m := counts + [last], |counts|;
    assert longer[m] == last && forall i :: 0 <= i < m ==> longer[i] == counts[i];
    if last.0 == name && last.1 == n {
      assert longer[m] == (name, n);
    }
    if last.0 != name && LastCount(counts, name, n) {
      var i :| 0 <= i < m && counts[i] == (name, n) && forall j :: i < j < m ==> counts[j].0 != name;
      assert longer[i] == (name, n);
    }
    if LastCount(longer, name, n) {
      var i :| 0 <= i <= m && longer[i] == (name, n) && forall j :: i < j <= m ==> longer[j].0 != name;
      if i < m {
        assert longer[m].0 != name && counts[i] == (name, n);
      }
    }
  }

  lemma {:induction false} CountsMeaning(counts: seq<(string, nat)>, name: string)
    ensures name in ErrorCounts(counts) <==> name in ErrorNames(counts)
    ensures forall n: nat ::
              name in ErrorCounts(counts) && ErrorCounts(counts)[name] == n <==> LastCount(counts, name, n)
    decreases |counts|
  {
    hide LastCount;
    if counts == [] {
      forall n: nat
        ensures !LastCount([], name, n)
      {
        NoLastCount(name, n);
      }
    } else {
      var init, last := counts[..|counts| - 1], counts[|counts| - 1];
      CountsMeaning(init, name);
      InsertNameMembers(last.0, ErrorNames(init), name);
      assert counts == init + [last];
      forall n: nat
        ensures LastCount(counts, name, n) <==> if last.0 == name then last.1 == n else LastCount(init, name, n)
      {
        LastCountSnoc(init, last, name, n);
      }
    }
  }

  lemma NoLastCount(name: string, n: nat)
    ensures !LastCount([], name, n)
  {
  }

  lemma {:induction false} EntriesMembers(names: seq<string>, counts: map<string, nat>, entry: (string, nat))
    requires forall name :: name in names ==> name in counts
    ensures entry in ErrorEntries(names, counts) <==> entry.0 in names && counts[entry.0] == entry.1
    decreases |names|
  {
    if names != [] {
      EntriesMembers(names[1..], counts, entry);
      assert names == [names[0]] + names[1..];
    }
  }

  /** The error distribution holds, for each category, the count given last, and nothing else. */
  lemma LastCountWins(counts: seq<(string, nat)>, entry: (string, nat))
    ensures entry in ErrorDistribution(counts)
       <==> exists i :: 0 <= i < |counts| && counts[i] == entry
                        && forall j :: i < j < |counts| ==> counts[j].0 != entry.0
  {
    assert LastCount(counts, entry.0, entry.1)
      <==> exists i :: 0 <= i < |counts| && counts[i] == entry
                       && forall j :: i < j < |counts| ==> counts[j].0 != entry.0;
    hide LastCount, ErrorCounts, ErrorNames, ErrorEntries;
    forall name
      ensures name in ErrorCounts(counts) <==> name in ErrorNames(counts)
    {
      CountsMeaning(counts, name);
    }
    CountsMeaning(counts, entry.0);
    EntriesMembers(ErrorNames(counts), ErrorCounts(counts), entry);
    assert entry == (entry.0, entry.1);
  }

  // ---- When the assembled artifact validates ----

  /** Exactly one record per request, in strict name order. */
  lemma SortedRecordsFacts(requests: seq<MetricRequest>, input: Input)
    requires DistinctKeys(requests, RequestName) && forall r :: r in requests ==> RecordFor(r, input).Ok?
    ensures var records := SortBy(RecordsFor(requests, input), RecordName);
            && |records| == |requests| && StrictlyOrdered(records, RecordName)
            && (forall r :: r in records <==> exists q :: q in requests && RecordFor(q, input).value == r)
  {
    hide RecordFor, NameLess;
    var unsorted := RecordsFor(requests, input);
    SortByFacts(unsorted, RecordName);
    RecordsDistinct(requests, input);
    SortByStrict(unsorted, RecordName);
    forall r
      ensures r in unsorted <==> exists q :: q in requests && RecordFor(q, input).value == r
    {
      RecordsMembers(requests, input, r);
    }
  }

  lemma RecordsDistinct(requests: seq<MetricRequest>, input: Input)
    requires DistinctKeys(requests, RequestName) && forall r :: r in requests ==> RecordFor(r, input).Ok?
    ensures DistinctKeys(RecordsFor(requests, input), RecordName)
  {
    hide RecordFor;
    var unsorted := RecordsFor(requests, input);
    forall i, j | 0 <= i < j < |unsorted|
      ensures RecordName(unsorted[i]) != RecordName(unsorted[j])
    {
      RecordKeepsName(requests[i], input);
      RecordKeepsName(requests[j], input);
      assert RequestName(requests[i]) != RequestName(requests[j]);
    }
  }

  lemma RecordsMembers(requests: seq<MetricRequest>, input: Input, r: Record)
    requires forall q :: q in requests ==> RecordFor(q, input).Ok?
    ensures r in RecordsFor(requests, input) <==> exists q :: q in requests && RecordFor(q, input).value == r
  {
    var records := RecordsFor(requests, input);
    if r in records {
      var i :| 0 <= i < |records| && records[i] == r;
      assert requests[i] in requests && RecordFor(requests[i], input).value == r;
    }
    if q :| q in requests && RecordFor(q, input).value == r {
      var i :| 0 <= i < |requests| && requests[i] == q;
      assert records[i] == r;
    }
  }

  lemma RecordKeepsName(request: MetricRequest, input: Input)
    requires RecordFor(request, input).Ok?
    ensures RecordFor(request, input).value.name == request.name
  {
  }

  lemma {:induction false} ErrorsOrdered(counts: seq<(string, nat)>)
    ensures StrictlyIncreasing(ErrorNames(counts)) && |ErrorNames(counts)| <= |counts|
    decreases |counts|
  {
    if counts != [] {
      ErrorsOrdered(counts[..|counts| - 1]);
      InsertNameOrdered(counts[|counts| - 1].0, ErrorNames(counts[..|counts| - 1]));
    }
  }

  lemma ErrorsValidate(counts: seq<(string, nat)>)
    ensures StrictlyOrdered(ErrorDistribution(counts), ErrorName) && |ErrorDistribution(counts)| <= |counts|
  {
    ErrorsOrdered(counts);
    var names, entries := ErrorNames(counts), ErrorDistribution(counts);
    forall i, j | 0 <= i < j < |entries|
      ensures NameLess(ErrorName(entries[i]), ErrorName(entries[j]))
    {
      assert NameLess(Self(names[i]), Self(names[j]));
    }
  }

  lemma {:induction false} HistogramsFromIntake(raws: seq<RawHistogram>, artifacts: map<string, string>)
    requires forall h :: h in raws ==> HistogramRawOk(h, artifacts)
    ensures |Histograms(raws, artifacts)| <= |raws|
    ensures forall h :: h in Histograms(raws, artifacts) ==> (HistogramValid(h) <==> h.correction != Some(""))
    decreases |raws|
  {
    if raws != [] {
      var init, last := raws[..|raws| - 1], raws[|raws| - 1];
      assert last in raws && forall h :: h in init ==> h in raws;
      HistogramsFromIntake(init, artifacts);
    }
  }

  lemma StrictIffDistinct<T>(items: seq<T>, key: T -> string)
    ensures StrictlyOrdered(SortBy(items, key), key) <==> DistinctKeys(items, key)
  {
    SortByFacts(items, key);
    if DistinctKeys(items, key) {
      SortByStrict(items, key);
    }
    if StrictlyOrdered(SortBy(items, key), key) {
      StrictIsOrdered(SortBy(items, key), key);
      DistinctMove(SortBy(items, key), items, key);
    }
  }

  /** The final validation adds exactly two demands to an artifact that assembles: every
      record can be stored, and the histograms are distinct and well labelled. */
  lemma AssembledValidity(input: Input)
    requires Assembles(input)
    ensures Validates(Normalized(input)) <==> WellFormed(input)
  {
    hide RecordFor, RecordValid, HistogramValid, HistogramRawOk, NameOk, Utf8Length, RawIntakeOk, StrictlyOrdered,
         DistinctKeys, WarningsFor, ErrorDistribution, SortBy, Histograms, RawNames;
    var histograms := Histograms(input.histograms, input.artifacts);
    SortedRecordsFacts(input.requests, input);
    HistogramsFromIntake(input.histograms, input.artifacts);
    SortByFacts(histograms, HistogramKey);
    StrictIffDistinct(histograms, HistogramKey);
    ErrorsValidate(input.errorCounts);
    var output := Normalized(input);
    assert (forall h :: h in output.histograms ==> HistogramValid(h))
      <==> (forall h :: h in histograms ==> h.correction != Some(""));
    RecordsValidate(input);
  }

  /** Every stored record is valid exactly when every request's record is. */
  lemma RecordsValidate(input: Input)
    requires DistinctKeys(input.requests, RequestName)
    requires forall r :: r in input.requests ==> RecordFor(r, input).Ok?
    ensures (forall r :: r in Normalized(input).records ==> RecordValid(r))
       <==> (forall q :: q in input.requests ==> RecordValid(RecordFor(q, input).value))
  {
    hide RecordFor, RecordValid;
    SortedRecordsFacts(input.requests, input);
    var records := Normalized(input).records;
    if forall r :: r in records ==> RecordValid(r) {
      forall q | q in input.requests
        ensures RecordValid(RecordFor(q, input).value)
      {
        assert RecordFor(q, input).value in records;
      }
    }
  }
}
