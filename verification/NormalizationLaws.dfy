/**
  What a normalized artifact says, and what it does not depend on.
 */
module NormalizationLaws {
  import opened Basics
  import opened Bootstrap
  import opened Evaluation
  import opened Normalization
  import opened Ordering

  // ---- When a value counts as observed ----

  lemma {:induction false} GroupMembers(raws: seq<RawObservation>, name: string)
    ensures multiset(Group(raws, name)) <= multiset(raws)
    ensures forall r :: r in Group(raws, name) <==> r in raws && r.name == name
    decreases |raws|
  {
    if raws != [] {
      var init, last := raws[..|raws| - 1], raws[|raws| - 1];
      assert raws == init + [last];
      GroupMembers(init, name);
    }
  }

  /** The plan's unit and direction agree with the vocabulary, where it has an entry. */
  predicate UnitAgrees(request: MetricRequest) {
    BuiltinMetric(request.name).Some? ==> request.unit == BuiltinMetric(request.name).value.unit
  }

  predicate DirectionAgrees(request: MetricRequest) {
    var builtin := BuiltinMetric(request.name);
    builtin.Some? && builtin.value.direction.Some? ==> request.direction == builtin.value.direction.value
  }

  predicate InDomain(request: MetricRequest, raw: RawObservation) {
    raw.value.Finite? && (IsRatioMetric(request.name) ==> 0.0 <= raw.value.r <= 1.0)
  }

  predicate AggregationAgrees(request: MetricRequest, raw: RawObservation) {
    BuiltinMetric(request.name).Some? ==>
      AggregationMatches(BuiltinMetric(request.name).value.aggregation, raw.aggregation)
  }

  predicate SourcesKnown(raw: RawObservation, artifacts: map<string, string>) {
    forall a :: a in raw.artifacts ==> a in artifacts
  }

  lemma {:induction false} UnknownMeaning(names: seq<string>, artifacts: map<string, string>)
    ensures FirstUnknown(names, artifacts).None? <==> forall a :: a in names ==> a in artifacts
    ensures FirstUnknown(names, artifacts).None? ==> |Resolved(names, artifacts)| == |names|
    ensures forall i :: FirstUnknown(names, artifacts).None? && 0 <= i < |names| ==>
              Resolved(names, artifacts)[i] == artifacts[names[i]]
    decreases |names|
  {
    if names != [] {
      UnknownMeaning(names[1..], artifacts);
      assert names == [names[0]] + names[1..];
    }
  }

  /** A record is observed exactly when the trial completed and the one and only raw
      observation of that name passes every check; then it carries its value, its
      aggregation and its resolved sources.  Unit, direction and intent always come from
      the plan. */
  lemma ObservedMeaning(request: MetricRequest, input: Input)
    requires RecordFor(request, input).Ok?
    ensures var record := RecordFor(request, input).value;
            var group := Group(input.raws, request.name);
            && record.name == request.name && record.unit == request.unit
            && record.direction == request.direction && record.intent == request.intent
            && (record.state.Observed? <==>
                  && input.completed && |group| == 1
                  && UnitAgrees(request) && DirectionAgrees(request)
                  && group[0].unit == request.unit && InDomain(request, group[0])
                  && AggregationAgrees(request, group[0]) && SourcesKnown(group[0], input.artifacts))
            && (record.state.Observed? ==>
                  && group[0] in input.raws
                  && record.state.value == group[0].value && record.aggregation == group[0].aggregation
                  && record.provenance.sourceField == group[0].sourceField
                  && |record.provenance.artifacts| == |group[0].artifacts|
                  && forall i :: 0 <= i < |group[0].artifacts| ==>
                       record.provenance.artifacts[i] == input.artifacts[group[0].artifacts[i]])
  {
    hide BuiltinMetric, NameOk, Resolved, FirstUnknown, IsRatioMetric, AggregationMatches;
    GroupMembers(input.raws, request.name);
    var group := Group(input.raws, request.name);
    if |group| == 1 {
      assert group[0] in group;
      UnknownMeaning(group[0].artifacts, input.artifacts);
    }
  }

  /** Which reason a record reports, when it reports one. */
  ghost predicate Reports(record: Record, reason: string) {
    record.state.Unusable? && record.state.invalidReason == reason
  }

  /** A lone raw observation that neither the plan nor duplicates spoil. */
  predicate Judged(request: MetricRequest, input: Input) {
    input.completed && |Group(input.raws, request.name)| == 1 && UnitAgrees(request) && DirectionAgrees(request)
  }

  /** Every reason is reported exactly when its check is the first to fail. */
  lemma ReportedReason(request: MetricRequest, input: Input)
    requires RecordFor(request, input).Ok?
    ensures var record := RecordFor(request, input).value;
            var group := Group(input.raws, request.name);
            var supplied := input.completed && group != [];
            && (record.state == Missing("trial_not_completed") <==> !input.completed)
            && (record.state == Missing("source_not_provided") <==> input.completed && group == [])
            && (Reports(record, "duplicate_observation") <==>
                  supplied && UnitAgrees(request) && DirectionAgrees(request) && |group| > 1)
            && (Reports(record, "unit_mismatch") <==>
                  supplied && (!UnitAgrees(request) || (Judged(request, input) && group[0].unit != request.unit)))
            && (Reports(record, "non_finite") <==>
                  Judged(request, input) && group[0].unit == request.unit && group[0].value.NonFinite?)
            && (Reports(record, "domain_error") <==>
                  supplied && UnitAgrees(request)
                  && (!DirectionAgrees(request)
                      || (Judged(request, input) && group[0].unit == request.unit && group[0].value.Finite?
                          && !InDomain(request, group[0]))))
            && (Reports(record, "aggregation_mismatch") <==>
                  Judged(request, input) && group[0].unit == request.unit && InDomain(request, group[0])
                  && !AggregationAgrees(request, group[0]))
            && (Reports(record, "malformed_source_reference") <==>
                  Judged(request, input) && group[0].unit == request.unit && InDomain(request, group[0])
                  && AggregationAgrees(request, group[0]) && !SourcesKnown(group[0], input.artifacts))
  {
    hide BuiltinMetric, NameOk, Resolved, FirstUnknown, IsRatioMetric, AggregationMatches, Group, FirstOverride;
    var group := Group(input.raws, request.name);
    assert |"unit_mismatch"| == 13 && |"non_finite"| == 10 && |"domain_error"| == 12;
    assert |"aggregation_mismatch"| == 20 && |"malformed_source_reference"| == 26 && |"duplicate_observation"| == 21;
    assert "trial_not_completed"[0] != "source_not_provided"[0];
    if |group| == 1 {
      UnknownMeaning(group[0].artifacts, input.artifacts);
    }
  }

  // ---- What warnings and histograms report ----

  lemma {:induction false} WarningsMembers(names: seq<string>, input: Input, w: Warning)
    ensures w in WarningsFor(names, input)
       <==> && w.subject in names
            && if !Requested(input.requests, w.subject) then w.category == "unrequested_raw_metric"
               else |Group(input.raws, w.subject)| > 1 && w.category == "duplicate_raw_observation"
    decreases |names|
  {
    hide Group, Requested;
    if names != [] {
      var init, last := names[..|names| - 1], names[|names| - 1];
      WarningsMembers(init, input, w);
      assert names == init + [last];
    }
  }

  /** A warning is raised for each name that occurs among the raw observations but not among
      the requests, and for each requested name that occurs more than once. */
  lemma WarningsMeaning(input: Input, w: Warning)
    ensures w in WarningsFor(RawNames(input.raws), input)
       <==> && (exists r :: r in input.raws && r.name == w.subject)
            && if forall q :: q in input.requests ==> q.name != w.subject then w.category == "unrequested_raw_metric"
               else |Group(input.raws, w.subject)| > 1 && w.category == "duplicate_raw_observation"
  {
    hide Group, RawNames;
    WarningsMembers(RawNames(input.raws), input, w);
    RawNamesHaveGroups(input.raws, w.subject);
    GroupMembers(input.raws, w.subject);
    if Group(input.raws, w.subject) != [] {
      assert Group(input.raws, w.subject)[0] in input.raws;
    }
  }

  /** A raw histogram whose artifact was staged gives `h`. */
  ghost predicate Gives(raw: RawHistogram, artifacts: map<string, string>, h: Histogram) {
    && raw.artifact in artifacts && h.path == artifacts[raw.artifact]
    && h.metric == raw.metric && h.format == raw.format && h.unit == raw.unit && h.correction == raw.correction
  }

  lemma {:induction false} HistogramMembers(raws: seq<RawHistogram>, artifacts: map<string, string>, h: Histogram)
    ensures h in Histograms(raws, artifacts) <==> exists raw :: raw in raws && Gives(raw, artifacts, h)
    decreases |raws|
  {
    if raws != [] {
      var init, last := raws[..|raws| - 1], raws[|raws| - 1];
      HistogramMembers(init, artifacts, h);
      assert raws == init + [last];
      assert forall raw :: raw in raws <==> raw in init || raw == last;
      assert h in Histograms(raws, artifacts) <==> h in Histograms(init, artifacts) || Gives(last, artifacts, h);
    }
  }

  /** The histograms are the raw ones whose artifact was staged, each with the staged path. */
  lemma HistogramsMeaning(raws: seq<RawHistogram>, artifacts: map<string, string>, h: Histogram)
    ensures h in SortBy(Histograms(raws, artifacts), HistogramKey)
       <==> exists raw :: raw in raws && Gives(raw, artifacts, h)
  {
    hide Histograms, Gives;
    var unsorted := Histograms(raws, artifacts);
    HistogramMembers(raws, artifacts, h);
    SortByFacts(unsorted, HistogramKey);
    SameMembers(unsorted, SortBy(unsorted, HistogramKey));
  }

  // ---- The order of the requests does not matter ----

  lemma {:induction false} WarningsUnmoved(names: seq<string>, a: Input, b: Input)
    requires forall name :: Requested(a.requests, name) <==> Requested(b.requests, name)
    requires forall name :: |Group(a.raws, name)| == |Group(b.raws, name)|
    ensures WarningsFor(names, a) == WarningsFor(names, b)
    decreases |names|
  {
    if names != [] {
      WarningsUnmoved(names[..|names| - 1], a, b);
    }
  }

  /** Permuting the requests changes neither success nor any part of the output. */
  lemma RequestOrderFree(input: Input, requests: seq<MetricRequest>)
    requires multiset(requests) == multiset(input.requests)
    ensures WellFormed(input) <==> WellFormed(input.(requests := requests))
    ensures WellFormed(input) ==> Normalized(input.(requests := requests)) == Normalized(input)
  {
    hide RecordFor, Group, RawNames, RecordValid, Histograms, RawIntakeOk, HistogramRawOk, NameOk,
         Utf8Length, DistinctKeys, SortBy, ErrorDistribution, Requested, InsertBy;
    var other := input.(requests := requests);
    SameMembers(input.requests, requests);
    forall name
      ensures Requested(input.requests, name) <==> Requested(requests, name)
    {
      RequestedMoves(input.requests, requests, name);
    }
    forall r: MetricRequest
      ensures RecordFor(r, input) == RecordFor(r, other)
    {
      RecordIgnoresRequests(input, requests, r);
    }
    if DistinctKeys(input.requests, RequestName) {
      DistinctMove(input.requests, requests, RequestName);
    }
    if DistinctKeys(requests, RequestName) {
      DistinctMove(requests, input.requests, RequestName);
    }
    WarningsUnmoved(RawNames(input.raws), input, other);
    if WellFormed(input) {
      SortedRecordsFacts(input.requests, input);
      SortedRecordsFacts(requests, other);
      SameRecords(input.requests, requests, input, other);
    }
  }

  lemma RecordIgnoresRequests(input: Input, requests: seq<MetricRequest>, request: MetricRequest)
    ensures RecordFor(request, input.(requests := requests)) == RecordFor(request, input)
  {
    hide Group, VocabularyError, NameOk, RawError, Speaker, Resolved, Fallback;
  }

  lemma RequestedMoves(a: seq<MetricRequest>, b: seq<MetricRequest>, name: string)
    requires forall r :: r in a <==> r in b
    ensures Requested(a, name) <==> Requested(b, name)
  {
  }

  lemma SameRecords(a: seq<MetricRequest>, b: seq<MetricRequest>, x: Input, y: Input)
    requires DistinctKeys(a, RequestName) && DistinctKeys(b, RequestName) && forall r :: r in a <==> r in b
    requires forall r :: r in a ==> RecordFor(r, x).Ok?
    requires forall r :: r in a ==> RecordFor(r, y) == RecordFor(r, x)
    ensures SortBy(RecordsFor(a, x), RecordName) == SortBy(RecordsFor(b, y), RecordName)
  {
    hide RecordFor, NameLess;
    SortedRecordsFacts(a, x);
    SortedRecordsFacts(b, y);
    var left, right := SortBy(RecordsFor(a, x), RecordName), SortBy(RecordsFor(b, y), RecordName);
    forall r
      ensures r in left <==> r in right
    {
      if r in left {
        var q :| q in a && RecordFor(q, x).value == r;
        assert q in b && RecordFor(q, y).value == r;
      }
      if r in right {
        var q :| q in b && RecordFor(q, y).value == r;
        assert q in a && RecordFor(q, x).value == r;
      }
    }
    StrictUnique(left, right, RecordName);
  }

  // ---- Reordering raw observations ----

  lemma {:induction false} GroupCount(raws: seq<RawObservation>, name: string, r: RawObservation)
    ensures multiset(Group(raws, name))[r] == if r.name == name then multiset(raws)[r] else 0
    decreases |raws|
  {
    if raws != [] {
      var init, last := raws[..|raws| - 1], raws[|raws| - 1];
      assert raws == init + [last];
      GroupCount(init, name, r);
    }
  }

  lemma GroupsMove(a: seq<RawObservation>, b: seq<RawObservation>, name: string)
    requires multiset(a) == multiset(b)
    ensures multiset(Group(a, name)) == multiset(Group(b, name))
    ensures |Group(a, name)| == |Group(b, name)|
    ensures |Group(a, name)| == 1 ==> Group(a, name) == Group(b, name)
    ensures forall r :: r in Group(a, name) <==> r in Group(b, name)
  {
    hide Group;
    GroupMultisetsMove(a, b, name);
    var x, y := Group(a, name), Group(b, name);
    SameMembers(x, y);
    if |x| == 1 {
      assert x[0] in y;
    }
  }

  lemma GroupMultisetsMove(a: seq<RawObservation>, b: seq<RawObservation>, name: string)
    requires multiset(a) == multiset(b)
    ensures multiset(Group(a, name)) == multiset(Group(b, name))
  {
    hide Group;
    forall r
      ensures multiset(Group(a, name))[r] == multiset(Group(b, name))[r]
    {
      GroupCount(a, name, r);
      GroupCount(b, name, r);
    }
  }

  lemma {:induction false} RawNamesOrdered(raws: seq<RawObservation>)
    ensures StrictlyIncreasing(RawNames(raws))
    decreases |raws|
  {
    if raws != [] {
      RawNamesOrdered(raws[..|raws| - 1]);
      InsertNameOrdered(raws[|raws| - 1].name, RawNames(raws[..|raws| - 1]));
    }
  }

  lemma RawNamesMove(a: seq<RawObservation>, b: seq<RawObservation>)
    requires multiset(a) == multiset(b)
    ensures RawNames(a) == RawNames(b)
  {
    forall name
      ensures name in RawNames(a) <==> name in RawNames(b)
    {
      RawNamesHaveGroups(a, name);
      RawNamesHaveGroups(b, name);
      GroupsMove(a, b, name);
    }
    RawNamesOrdered(a);
    RawNamesOrdered(b);
    StrictUnique(RawNames(a), RawNames(b), Self);
  }

  /** A request whose record is attributed to one of several raw observations. */
  ghost predicate Contested(request: MetricRequest, input: Input) {
    && input.completed && Group(input.raws, request.name) != []
    && (VocabularyError(request).Some? || |Group(input.raws, request.name)| != 1)
  }

  /** The observations some order attributes the record to. */
  ghost predicate CanSpeak(request: MetricRequest, group: seq<RawObservation>, raw: RawObservation) {
    && raw in group
    && (VocabularyError(request).Some? || raw.producer.Some? || forall r :: r in group ==> r.producer.None?)
  }

  /** A record attributed to `raw` has a well-formed provenance. */
  predicate Acceptable(request: MetricRequest, raw: RawObservation, input: Input) {
    AttributedRecord(request, raw, input).Ok? && RecordValid(AttributedRecord(request, raw, input).value)
  }

  /** What acceptability comes to for a raw observation that passed intake: its source
      field is not empty, and where its own producer is attributed the label is a valid
      name and the version fits. */
  lemma AcceptableMeaning(request: MetricRequest, raw: RawObservation, input: Input)
    requires CountsOk(input) && RawIntakeOk(raw)
    ensures Acceptable(request, raw, input) <==>
              && raw.sourceField != Some("")
              && (VocabularyError(request).None? && raw.producer.Some? ==>
                    && NameOk(raw.producer.value)
                    && (raw.producerVersion.Some? ==>
                          Utf8Length(raw.producerVersion.value) <= MAX_PROVENANCE_FIELD_LEN))
  {
    hide VocabularyError, NameOk;
    assert AggregationValid(Fallback(request.name));
    assert Utf8Length("") == 0;
  }

  /** The demands of `WellFormed` that no order of the raw observations touches. */
  ghost predicate OtherwiseWellFormed(input: Input) {
    && CountsOk(input)
    && (forall r :: r in input.raws ==> RawIntakeOk(r))
    && DistinctKeys(input.requests, RequestName)
    && (forall r :: r in input.requests && !Contested(r, input) ==>
          RecordFor(r, input).Ok? && RecordValid(RecordFor(r, input).value))
    && (forall h :: h in input.histograms ==> HistogramRawOk(h, input.artifacts))
    && (forall e :: e in input.errorCounts ==> NameOk(e.0))
    && |WarningsFor(RawNames(input.raws), input)| <= MAX_METRIC_WARNINGS_PER_TRIAL
    && var histograms := Histograms(input.histograms, input.artifacts);
       && DistinctKeys(histograms, HistogramKey)
       && forall h :: h in histograms ==> h.correction != Some("")
  }

  ghost predicate SpeakersAcceptable(input: Input) {
    forall r :: r in input.requests && Contested(r, input) ==>
      Acceptable(r, Speaker(r, Group(input.raws, r.name)), input)
  }

  lemma WellFormedSplit(input: Input)
    ensures WellFormed(input) <==> OtherwiseWellFormed(input) && SpeakersAcceptable(input)
  {
    hide AttributedRecord, LoneRecord, Group, RawNames, RecordValid, Histograms, RawIntakeOk, HistogramRawOk, NameOk,
         DistinctKeys, WarningsFor, CountsOk, Speaker, VocabularyError;
    forall r | Contested(r, input)
      ensures RecordFor(r, input) == AttributedRecord(r, Speaker(r, Group(input.raws, r.name)), input)
    {
    }
  }

  lemma RestMoves(input: Input, raws: seq<RawObservation>)
    requires multiset(raws) == multiset(input.raws)
    ensures OtherwiseWellFormed(input) <==> OtherwiseWellFormed(input.(raws := raws))
    ensures forall r :: Contested(r, input) <==> Contested(r, input.(raws := raws))
    ensures forall r :: !Contested(r, input) ==> RecordFor(r, input) == RecordFor(r, input.(raws := raws))
    ensures WarningsFor(RawNames(raws), input.(raws := raws)) == WarningsFor(RawNames(input.raws), input)
  {
    hide LoneRecord, Group, RawNames, RecordValid, Histograms, RawIntakeOk, HistogramRawOk, NameOk, Requested,
         DistinctKeys, VocabularyError, Utf8Length, AttributedRecord, Speaker;
    var other := input.(raws := raws);
    SameMembers(raws, input.raws);
    forall name
      ensures |Group(input.raws, name)| == |Group(raws, name)|
      ensures |Group(input.raws, name)| == 1 ==> Group(input.raws, name) == Group(raws, name)
    {
      GroupsMove(input.raws, raws, name);
    }
    LoneUnmoved(input, raws);
    RawNamesMove(input.raws, raws);
    WarningsUnmoved(RawNames(raws), input, other);
  }

  lemma LoneUnmoved(input: Input, raws: seq<RawObservation>)
    requires forall name :: |Group(input.raws, name)| == |Group(raws, name)|
    requires forall name :: |Group(input.raws, name)| == 1 ==> Group(input.raws, name) == Group(raws, name)
    ensures forall r :: Contested(r, input) <==> Contested(r, input.(raws := raws))
    ensures forall r :: !Contested(r, input) ==> RecordFor(r, input) == RecordFor(r, input.(raws := raws))
  {
    hide Group, VocabularyError, NameOk, AttributedRecord, Speaker, RawError;
    forall r: MetricRequest
      ensures Contested(r, input) <==> Contested(r, input.(raws := raws))
      ensures !Contested(r, input) ==> RecordFor(r, input) == RecordFor(r, input.(raws := raws))
    {
      assert |Group(input.raws, r.name)| == |Group(raws, r.name)|;
    }
  }

  lemma {:induction false} OverrideMember(group: seq<RawObservation>)
    ensures FirstOverride(group).Some? ==>
              FirstOverride(group).value in group && FirstOverride(group).value.producer.Some?
    decreases |group|
  {
    if group != [] {
      OverrideMember(group[1..]);
    }
  }

  lemma SpeakerCanSpeak(request: MetricRequest, group: seq<RawObservation>)
    requires group != []
    ensures CanSpeak(request, group, Speaker(request, group))
  {
    hide VocabularyError;
    OverrideMember(group);
    NoOverride(group);
  }

  /** The same observations with the one at `k` moved to the front. */
  function Fronted(raws: seq<RawObservation>, k: nat): (r: seq<RawObservation>)
    requires k < |raws|
    ensures multiset(r) == multiset(raws)
  {
    assert raws == raws[..k] + [raws[k]] + raws[k + 1..];
    [raws[k]] + raws[..k] + raws[k + 1..]
  }

  lemma GroupEmpty(name: string)
    ensures Group([], name) == []
  {
  }

  lemma GroupSnocs(raws: seq<RawObservation>, last: RawObservation, name: string)
    ensures Group(raws + [last], name) == Group(raws, name) + if last.name == name then [last] else []
  {
    assert (raws + [last])[..|raws|] == raws;
  }

  lemma {:induction false} GroupConcat(a: seq<RawObservation>, b: seq<RawObservation>, name: string)
    ensures Group(a + b, name) == Group(a, name) + Group(b, name)
    decreases |b|
  {
    hide Group;
    if b == [] {
      assert a + b == a;
      assert Group([], name) == [] by { GroupEmpty(name); }
    } else {
      var init, last := b[..|b| - 1], b[|b| - 1];
      GroupConcat(a, init, name);
      GroupSnocs(a + init, last, name);
      GroupSnocs(init, last, name);
      assert a + b == (a + init) + [last] && b == init + [last];
    }
  }

  lemma FrontedGroups(raws: seq<RawObservation>, k: nat, name: string)
    requires k < |raws|
    ensures raws[k].name == name ==>
              Group(Fronted(raws, k), name) != [] && Group(Fronted(raws, k), name)[0] == raws[k]
    ensures raws[k].name != name ==> Group(Fronted(raws, k), name) == Group(raws, name)
  {
    var a, x, b := raws[..k], [raws[k]], raws[k + 1..];
    assert raws == (a + x) + b && Fronted(raws, k) == (x + a) + b;
    GroupConcat(a + x, b, name);
    GroupConcat(a, x, name);
    GroupConcat(x + a, b, name);
    GroupConcat(x, a, name);
    assert x[..0] == [];
    assert Group(x, name) == if raws[k].name == name then x else [];
  }

  /** Whoever can speak does so when it comes first. */
  lemma FrontSpeaks(request: MetricRequest, raws: seq<RawObservation>, k: nat)
    requires k < |raws| && CanSpeak(request, Group(raws, request.name), raws[k])
    ensures Group(Fronted(raws, k), request.name) != []
    ensures Speaker(request, Group(Fronted(raws, k), request.name)) == raws[k]
  {
    hide VocabularyError;
    GroupMembers(raws, request.name);
    FrontedGroups(raws, k, request.name);
    GroupsMove(raws, Fronted(raws, k), request.name);
    NoOverride(Group(Fronted(raws, k), request.name));
  }

  // ---- When the order decides between success and failure ----

  ghost predicate Reordered(a: seq<RawObservation>, b: seq<RawObservation>) {
    multiset(a) == multiset(b)
  }

  ghost predicate SucceedsAs(input: Input, raws: seq<RawObservation>) {
    WellFormed(input.(raws := raws))
  }

  /** Whoever can speak for a contested request is acceptable. */
  ghost predicate AllSpeakersAcceptable(input: Input) {
    forall r, raw :: r in input.requests && Contested(r, input) && CanSpeak(r, Group(input.raws, r.name), raw) ==>
      Acceptable(r, raw, input)
  }

  /** Each contested request has an acceptable observation that can speak for it. */
  ghost predicate SomeSpeakersAcceptable(input: Input) {
    forall r :: r in input.requests && Contested(r, input) ==>
      exists raw :: CanSpeak(r, Group(input.raws, r.name), raw) && Acceptable(r, raw, input)
  }

  lemma SucceedsMeaning(input: Input, raws: seq<RawObservation>)
    requires Reordered(raws, input.raws)
    ensures SucceedsAs(input, raws) <==>
              && OtherwiseWellFormed(input)
              && forall r :: r in input.requests && Contested(r, input) ==>
                   && Group(raws, r.name) != []
                   && Acceptable(r, Speaker(r, Group(raws, r.name)), input)
  {
    hide OtherwiseWellFormed, WellFormed, Group, RawNames, WarningsFor, RecordFor, Speaker, AttributedRecord,
         RecordValid,
         VocabularyError;
    var other := input.(raws := raws);
    WellFormedSplit(other);
    RestMoves(input, raws);
    forall r: MetricRequest | Contested(r, other)
      ensures Acceptable(r, Speaker(r, Group(raws, r.name)), other)
         <==> Acceptable(r, Speaker(r, Group(raws, r.name)), input)
    {
      AcceptableIgnoresRaws(r, Speaker(r, Group(raws, r.name)), input, raws);
    }
  }

  lemma AcceptableIgnoresRaws(request: MetricRequest, raw: RawObservation, input: Input, raws: seq<RawObservation>)
    ensures Acceptable(request, raw, input.(raws := raws)) <==> Acceptable(request, raw, input)
  {
    hide VocabularyError, NameOk, RecordValid, Fallback;
  }

  lemma CanSpeakMoves(request: MetricRequest, a: seq<RawObservation>, b: seq<RawObservation>, raw: RawObservation)
    requires Reordered(a, b)
    ensures CanSpeak(request, Group(a, request.name), raw) <==> CanSpeak(request, Group(b, request.name), raw)
  {
    hide Group, VocabularyError;
    GroupsMove(a, b, request.name);
  }

  /** Normalization succeeds in every order of the raw observations exactly when nothing
      else is wrong and every observation that could be attributed is acceptable. */
  lemma EveryOrderSucceeds(input: Input)
    ensures (forall raws :: Reordered(raws, input.raws) ==> SucceedsAs(input, raws))
       <==> OtherwiseWellFormed(input) && AllSpeakersAcceptable(input)
  {
    hide OtherwiseWellFormed, SucceedsAs, Speaker, Acceptable, Contested, CanSpeak, Group;
    if OtherwiseWellFormed(input) && AllSpeakersAcceptable(input) {
      forall raws | Reordered(raws, input.raws)
        ensures SucceedsAs(input, raws)
      {
        AcceptableInThisOrder(input, raws);
      }
    }
    if forall raws :: Reordered(raws, input.raws) ==> SucceedsAs(input, raws) {
      assert Reordered(input.raws, input.raws);
      SucceedsMeaning(input, input.raws);
      forall r, raw | r in input.requests && Contested(r, input) && CanSpeak(r, Group(input.raws, r.name), raw)
        ensures Acceptable(r, raw, input)
      {
        var k := IndexOf(input.raws, r, raw);
        FrontSpeaks(r, input.raws, k);
        assert Reordered(Fronted(input.raws, k), input.raws);
        SucceedsMeaning(input, Fronted(input.raws, k));
      }
    }
  }

  lemma IndexOf(raws: seq<RawObservation>, request: MetricRequest, raw: RawObservation) returns (k: nat)
    requires CanSpeak(request, Group(raws, request.name), raw)
    ensures k < |raws| && raws[k] == raw
  {
    GroupMembers(raws, request.name);
    k :| 0 <= k < |raws| && raws[k] == raw;
  }

  lemma AcceptableInThisOrder(input: Input, raws: seq<RawObservation>)
    requires Reordered(raws, input.raws) && OtherwiseWellFormed(input) && AllSpeakersAcceptable(input)
    ensures SucceedsAs(input, raws)
  {
    hide OtherwiseWellFormed, SucceedsAs, Speaker, Acceptable, CanSpeak, VocabularyError, Group;
    SucceedsMeaning(input, raws);
    forall r | r in input.requests && Contested(r, input)
      ensures Group(raws, r.name) != []
      ensures Acceptable(r, Speaker(r, Group(raws, r.name)), input)
    {
      GroupsMove(raws, input.raws, r.name);
      SpeakerCanSpeak(r, Group(raws, r.name));
      CanSpeakMoves(r, raws, input.raws, Speaker(r, Group(raws, r.name)));
    }
  }

  /** Bring an acceptable observation to the front for each of the first `n` requests. */
  lemma {:induction false} Arrange(input: Input, n: nat) returns (raws: seq<RawObservation>)
    requires n <= |input.requests| && DistinctKeys(input.requests, RequestName)
    requires SomeSpeakersAcceptable(input)
    ensures Reordered(raws, input.raws)
    ensures forall i :: 0 <= i < n && Contested(input.requests[i], input) ==>
              && Group(raws, input.requests[i].name) != []
              && Acceptable(input.requests[i], Speaker(input.requests[i], Group(raws, input.requests[i].name)), input)
  {
    hide Speaker, Acceptable, CanSpeak, Group, Contested, Fronted;
    raws := input.raws;
    if n > 0 {
      raws := Arrange(input, n - 1);
      var request := input.requests[n - 1];
      if Contested(request, input) {
        var before := raws;
        assert request in input.requests;
        var raw :| CanSpeak(request, Group(input.raws, request.name), raw) && Acceptable(request, raw, input);
        CanSpeakMoves(request, before, input.raws, raw);
        var k := IndexOf(before, request, raw);
        FrontSpeaks(request, before, k);
        SpeakerName(before, request, raw);
        raws := Fronted(before, k);
        forall i | 0 <= i < n - 1
          ensures Group(raws, input.requests[i].name) == Group(before, input.requests[i].name)
        {
          assert RequestName(input.requests[i]) != RequestName(request);
          FrontedGroups(before, k, input.requests[i].name);
        }
      }
    }
  }

  lemma SpeakerName(raws: seq<RawObservation>, request: MetricRequest, raw: RawObservation)
    requires CanSpeak(request, Group(raws, request.name), raw)
    ensures raw.name == request.name
  {
    GroupMembers(raws, request.name);
  }

  /** Normalization succeeds in some order exactly when nothing else is wrong and each
      contested request has an acceptable observation to attribute it to. */
  lemma SomeOrderSucceeds(input: Input)
    ensures (exists raws :: Reordered(raws, input.raws) && SucceedsAs(input, raws))
       <==> OtherwiseWellFormed(input) && SomeSpeakersAcceptable(input)
  {
    hide OtherwiseWellFormed, SucceedsAs, Speaker, Acceptable, Contested, CanSpeak, Group;
    if OtherwiseWellFormed(input) && SomeSpeakersAcceptable(input) {
      RestHasDistinctRequests(input);
      var raws := Arrange(input, |input.requests|);
      SucceedsMeaning(input, raws);
      assert Reordered(raws, input.raws) && SucceedsAs(input, raws);
    }
    if raws :| Reordered(raws, input.raws) && SucceedsAs(input, raws) {
      SucceedsMeaning(input, raws);
      forall r | r in input.requests && Contested(r, input)
        ensures exists raw :: CanSpeak(r, Group(input.raws, r.name), raw) && Acceptable(r, raw, input)
      {
        var speaker := Speaker(r, Group(raws, r.name));
        SpeakerCanSpeak(r, Group(raws, r.name));
        CanSpeakMoves(r, raws, input.raws, speaker);
      }
    }
  }

  lemma RestHasDistinctRequests(input: Input)
    requires OtherwiseWellFormed(input)
    ensures DistinctKeys(input.requests, RequestName)
  {
  }

  /** Success does not depend on the order of the raw observations exactly when every
      observation that could be attributed is acceptable, or when no order succeeds. */
  lemma SuccessOrderFree(input: Input)
    ensures (forall raws | Reordered(raws, input.raws) :: SucceedsAs(input, raws) <==> SucceedsAs(input, input.raws))
       <==> || AllSpeakersAcceptable(input) || !OtherwiseWellFormed(input) || !SomeSpeakersAcceptable(input)
  {
    hide OtherwiseWellFormed, SucceedsAs, AllSpeakersAcceptable, SomeSpeakersAcceptable;
    EveryOrderSucceeds(input);
    SomeOrderSucceeds(input);
    assert Reordered(input.raws, input.raws);
  }

  // ---- What every successful order agrees on ----

  /** The same record up to its provenance. */
  predicate SameFinding(a: Record, b: Record) {
    a.(provenance := b.provenance) == b
  }

  lemma {:induction false} InsertAlike(x: Record, a: seq<Record>, y: Record, b: seq<Record>)
    requires SameFinding(x, y)
    requires |a| == |b| && forall i :: 0 <= i < |a| ==> SameFinding(a[i], b[i])
    ensures forall i :: 0 <= i <= |a| ==> SameFinding(InsertBy(x, a, RecordName)[i], InsertBy(y, b, RecordName)[i])
    decreases |a|
  {
    hide NameLess;
    if a != [] && !NameLess(RecordName(x), RecordName(a[0])) {
      assert SameFinding(a[0], b[0]);
      InsertAlike(x, a[1..], y, b[1..]);
    }
  }

  lemma {:induction false} SortAlike(a: seq<Record>, b: seq<Record>)
    requires |a| == |b| && forall i :: 0 <= i < |a| ==> SameFinding(a[i], b[i])
    ensures forall i :: 0 <= i < |a| ==> SameFinding(SortBy(a, RecordName)[i], SortBy(b, RecordName)[i])
    decreases |a|
  {
    if a != [] {
      var n := |a| - 1;
      SortAlike(a[..n], b[..n]);
      InsertAlike(a[n], SortBy(a[..n], RecordName), b[n], SortBy(b[..n], RecordName));
    }
  }

  lemma FindingUnmoved(input: Input, raws: seq<RawObservation>, request: MetricRequest)
    requires Reordered(raws, input.raws)
    requires RecordFor(request, input).Ok? && RecordFor(request, input.(raws := raws)).Ok?
    ensures SameFinding(RecordFor(request, input).value, RecordFor(request, input.(raws := raws)).value)
  {
    hide OtherwiseWellFormed, Group, VocabularyError, LoneRecord, RawNames, WarningsFor, Speaker, NameOk, Fallback;
    RestMoves(input, raws);
    GroupsMove(raws, input.raws, request.name);
  }

  /** Whatever the order, two successes agree on every record's name, unit, direction,
      intent, aggregation and state, and on histograms, errors and warnings; only the
      provenance of an attributed record can differ. */
  lemma RawOrderFree(input: Input, raws: seq<RawObservation>)
    requires Reordered(raws, input.raws) && SucceedsAs(input, input.raws) && SucceedsAs(input, raws)
    ensures var a, b := Normalized(input), Normalized(input.(raws := raws));
            && |a.records| == |b.records|
            && (forall i :: 0 <= i < |a.records| ==> SameFinding(a.records[i], b.records[i]))
            && a.histograms == b.histograms && a.errors == b.errors && a.warnings == b.warnings
  {
    hide OtherwiseWellFormed, RecordFor, RawNames, WarningsFor, ErrorDistribution, Histograms, SortBy, SameFinding,
         CountsOk, RawIntakeOk, HistogramRawOk, NameOk, RecordValid, DistinctKeys;
    RestMoves(input, raws);
    assert input.(raws := input.raws) == input;
    var other := input.(raws := raws);
    forall i | 0 <= i < |input.requests|
      ensures SameFinding(RecordsFor(input.requests, input)[i], RecordsFor(input.requests, other)[i])
    {
      assert input.requests[i] in input.requests;
      FindingUnmoved(input, raws, input.requests[i]);
    }
    SortAlike(RecordsFor(input.requests, input), RecordsFor(input.requests, other));
  }

  // ---- An input whose success depends on the order ----

  function Sourced(field: string): RawObservation {
    RawObservation("m", "u", Finite(1.0), Direct, Some(field), None, None, [])
  }

  function TwoSources(first: string, second: string): Input {
    Input([MetricRequest("m", "u", Informational, Diagnostic, None)], true, [Sourced(first), Sourced(second)],
          [], [], map[], "p", None)
  }

  lemma TwoSourcesGroup(first: string, second: string)
    ensures Group(TwoSources(first, second).raws, "m") == [Sourced(first), Sourced(second)]
    ensures RawNames(TwoSources(first, second).raws) == ["m"]
  {
    var a, b := Sourced(first), Sourced(second);
    assert [a, b][..1] == [a] && [a][..0] == [];
    assert Group([a], "m") == [a];
    assert RawNames([a]) == InsertName("m", []) == ["m"];
  }

  lemma TwoSourcesSucceed(first: string, second: string)
    requires |first| <= 1 && |second| <= 1
    requires forall c :: c in first || c in second ==> c < '\U{80}'
    ensures WellFormed(TwoSources(first, second)) <==> first != []
  {
    var input := TwoSources(first, second);
    var request := input.requests[0];
    TwoSourcesGroup(first, second);
    Utf8LengthBounds(first);
    Utf8LengthBounds(second);
    Utf8LengthBounds("m");
    Utf8LengthBounds("u");
    Utf8LengthBounds("p");
    assert 'p' in "p" && !IsWhitespace('p');
    assert NameOk("p");
    assert BuiltinMetric("m").None?;
    assert FirstOverride(Group(input.raws, "m")).None? by { NoOverride(Group(input.raws, "m")); }
    assert RecordFor(request, input)
        == Ok(RecordWith(request, Unusable("duplicate_observation", ""), Direct, BaseProvenance(input, Some(first))));
    assert request in input.requests && Requested(input.requests, "m");
    assert ["m"][..0] == [];
    assert |WarningsFor(RawNames(input.raws), input)| == 1;
    assert Utf8Length("") == 0;
  }

  /** A duplicated metric is attributed to the first observation, and an empty source
      field is refused only when it is attributed: this pair succeeds in one order. */
  lemma OrderDecides()
    ensures Reordered(TwoSources("x", "").raws, TwoSources("", "x").raws)
    ensures WellFormed(TwoSources("x", "")) && !WellFormed(TwoSources("", "x"))
  {
    TwoSourcesSucceed("x", "");
    TwoSourcesSucceed("", "x");
    var a, b := Sourced("x"), Sourced("");
    assert multiset([a, b]) == multiset{a, b} == multiset([b, a]);
  }
}
