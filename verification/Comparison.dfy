/**
  The unpaired comparison of two evidence bundles (`compare` and
  `evaluate_comparability` in comparison.rs).
 */
module Comparison {
  import opened Basics
  import opened Ordering
  import opened Bootstrap
  import opened BootstrapLaws
  import opened Evaluation
  import opened OrderStatistics
  import opened Verdicts

  const MAX_RECEIPT_METRICS: nat := 256

  datatype FieldClass = ComparisonCritical | WarningOnly | InformationalField

  datatype Field = Field(name: string, value: string, fieldClass: FieldClass)

  datatype FieldOutcome = Equal | Unequal | MissingCandidate | MissingBaseline | WarningMismatch

  datatype FieldComparison = FieldComparison(
    field: string, candidate: Option<string>, baseline: Option<string>, outcome: FieldOutcome)

  /** Verdicts of the workload, driver and topology identity checks. */
  datatype IdentityMatch = IdentityMatch(workload: bool, driver: bool, topology: bool)

  /** One side of a comparison: `identity` is the digest of its manifest, `networkPath`
      says whether it has network-path evidence or plans, and `environment` is in
      field-name order. */
  datatype Evidence = Evidence(
    identity: string, networkPath: bool,
    metrics: seq<MetricRequest>, policy: EnvironmentPolicy, environment: seq<Field>,
    trials: seq<Trial>, paired: bool, checks: Option<seq<Check>>)

  datatype CorrectnessSection = CorrectnessSection(policy: string, aggregate: AggregateVerdict, checks: seq<Check>)

  datatype Receipt = Receipt(
    policy: string, candidateIdentity: string, baselineIdentity: Option<string>,
    environmentPolicy: EnvironmentPolicy, testbed: seq<FieldComparison>, critical: bool, baseSeed: bv64,
    metrics: seq<MetricRecord>, performance: Option<AggregateVerdict>, correctness: Option<CorrectnessSection>,
    aggregate: Option<AggregateVerdict>, warnings: seq<Warning>)

  /** Where randomness comes from: the seed asked for, if any, the hash that derives seeds
      from texts, and the platform's logarithms. */
  datatype Sampling = Sampling(seed: Option<bv64>, hash: string -> bv64, log: Logarithms)

  const COMPARISON_POLICY_V1: string := "eggbench.trial-bootstrap.v1"
  const COMPARISON_POLICY_NETWORK_PATH_V1: string := "eggbench.trial-bootstrap-network-path.v1"
  const SECURITY_CORRECTNESS_POLICY_V1: string := "eggbench.security-correctness.v1"
  const SECURITY_CORRECTNESS_POLICY_V2: string := "eggbench.security-correctness.v2"
  const FAMILY_HTTP_OBSERVABLE: string := "http_observable"

  // ---- Policies and seeds ----

  /** `unpaired_policy_id`. */
  function UnpairedPolicy(candidate: Evidence, baseline: Option<Evidence>): string {
    if candidate.networkPath || (baseline.Some? && baseline.value.networkPath) then COMPARISON_POLICY_NETWORK_PATH_V1
    else COMPARISON_POLICY_V1
  }

  /** Without a seed of its own a comparison derives one from both identities. */
  function BaseSeed(candidate: Evidence, baseline: Option<Evidence>, sampling: Sampling): bv64 {
    match sampling.seed
    case Some(seed) => seed
    case None => sampling.hash(BaseSeedText(candidate, baseline))
  }

  function BaseSeedText(candidate: Evidence, baseline: Option<Evidence>): string {
    var other := if baseline.Some? then baseline.value.identity else "absolute-only";
    candidate.identity + "|" + other + "|" + UnpairedPolicy(candidate, baseline)
  }

  function LittleEndian(n: nat, width: nat): (bytes: string)
    ensures |bytes| == width
  {
    if width == 0 then [] else [(n % 256) as char] + LittleEndian(n / 256, width - 1)
  }

  /** The seed of one metric. */
  function MetricSeed(base: bv64, metric: string, sampling: Sampling): bv64 {
    sampling.hash(MetricSeedText(base as nat, metric))
  }

  function MetricSeedText(base: nat, metric: string): string {
    LittleEndian(base, 8) + "|" + metric
  }

  /** `correctness_section`. */
  function CorrectnessOf(candidate: Evidence): Option<CorrectnessSection> {
    match candidate.checks
    case None => None
    case Some(checks) =>
      Some(CorrectnessSection(
        if exists c :: c in checks && c.family == FAMILY_HTTP_OBSERVABLE then SECURITY_CORRECTNESS_POLICY_V2
        else SECURITY_CORRECTNESS_POLICY_V1,
        AggregateCorrectness(checks), checks))
  }

  function CorrectnessVerdict(candidate: Evidence): Option<AggregateVerdict> {
    match candidate.checks case None => None case Some(checks) => Some(AggregateCorrectness(checks))
  }

  // ---- What a derived seed depends on ----

  function FromLittleEndian(bytes: string): nat {
    if bytes == [] then 0 else bytes[0] as nat + 256 * FromLittleEndian(bytes[1..])
  }

  function Power256(width: nat): nat {
    if width == 0 then 1 else 256 * Power256(width - 1)
  }

  lemma {:induction false} LittleEndianValue(n: nat, width: nat)
    requires n < Power256(width)
    ensures FromLittleEndian(LittleEndian(n, width)) == n
    decreases width
  {
    if width > 0 {
      LittleEndianValue(n / 256, width - 1);
      assert LittleEndian(n, width)[1..] == LittleEndian(n / 256, width - 1);
    }
  }

  /** The text behind the seed of a metric determines base seed and metric name. */
  lemma MetricSeedTextInjective(base: nat, metric: string, other: nat, otherMetric: string)
    requires base < 0x1_0000_0000_0000_0000 && other < 0x1_0000_0000_0000_0000
    ensures MetricSeedText(base, metric) == MetricSeedText(other, otherMetric)
       <==> base == other && metric == otherMetric
  {
    hide LittleEndian;
    var x, y := MetricSeedText(base, metric), MetricSeedText(other, otherMetric);
    assert x[..8] == LittleEndian(base, 8) && y[..8] == LittleEndian(other, 8);
    assert x[9..] == metric && y[9..] == otherMetric;
    assert Power256(8) == 0x1_0000_0000_0000_0000;
    LittleEndianValue(base, 8);
    LittleEndianValue(other, 8);
  }

  /** Whether either side has network-path evidence. */
  predicate OverNetworkPath(candidate: Evidence, baseline: Option<Evidence>) {
    candidate.networkPath || (baseline.Some? && baseline.value.networkPath)
  }

  /** The text behind a derived base seed determines both identities, whether there is a
      baseline, and the policy: identities are digests of 64 characters. */
  lemma BaseSeedTextInjective(a: Evidence, x: Option<Evidence>, b: Evidence, y: Option<Evidence>)
    requires |a.identity| == |b.identity| == 64
    requires (x.Some? ==> |x.value.identity| == 64) && (y.Some? ==> |y.value.identity| == 64)
    ensures BaseSeedText(a, x) == BaseSeedText(b, y)
       <==> && a.identity == b.identity
            && (x.Some? <==> y.Some?) && (x.Some? ==> x.value.identity == y.value.identity)
            && (OverNetworkPath(a, x) <==> OverNetworkPath(b, y))
  {
    var s, t := BaseSeedText(a, x), BaseSeedText(b, y);
    SeedTextParts(a, x);
    SeedTextParts(b, y);
    assert |COMPARISON_POLICY_V1| == 27 && |COMPARISON_POLICY_NETWORK_PATH_V1| == 40;
  }

  lemma SeedTextParts(candidate: Evidence, baseline: Option<Evidence>)
    requires |candidate.identity| == 64 && (baseline.Some? ==> |baseline.value.identity| == 64)
    ensures var text := BaseSeedText(candidate, baseline);
            && |text| == 66 + (if baseline.Some? then 64 else 13) + (if OverNetworkPath(candidate, baseline) then 40
                                                                      else 27)
            && text[..64] == candidate.identity
            && (baseline.Some? ==> text[65..129] == baseline.value.identity)
  {
    assert |COMPARISON_POLICY_V1| == 27 && |COMPARISON_POLICY_NETWORK_PATH_V1| == 40 && |"absolute-only"| == 13;
  }

  // ---- Comparability ----

  function FindField(fields: seq<Field>, name: string): Option<Field> {
    if fields == [] then None
    else if fields[0].name == name then Some(fields[0])
    else FindField(fields[1..], name)
  }

  /** The class that decides a mismatch: the candidate's, else the baseline's. */
  function DecidingClass(candidate: Option<Field>, baseline: Option<Field>): Option<FieldClass> {
    if candidate.Some? then Some(candidate.value.fieldClass)
    else if baseline.Some? then Some(baseline.value.fieldClass)
    else None
  }

  /** Outcome for one field; None when the field is not reported. */
  function Outcome(candidate: Option<Field>, baseline: Option<Field>): Option<FieldOutcome> {
    if candidate.None? && baseline.None? then None
    else if candidate.Some? && baseline.Some? && candidate.value.value == baseline.value.value then Some(Equal)
    else match DecidingClass(candidate, baseline)
      case Some(WarningOnly) => Some(WarningMismatch)
      case Some(InformationalField) => None
      case _ => Some(if candidate.None? then MissingCandidate else if baseline.None? then MissingBaseline else Unequal)
  }

  predicate CriticalOutcome(outcome: Option<FieldOutcome>) {
    outcome.Some? && outcome.value in {Unequal, MissingCandidate, MissingBaseline}
  }

  function FieldNames(fields: seq<Field>, names: seq<string>): seq<string> {
    if fields == [] then names
    else InsertName(fields[|fields| - 1].name, FieldNames(fields[..|fields| - 1], names))
  }

  lemma {:induction false} FieldNamesMembers(fields: seq<Field>, names: seq<string>, name: string)
    ensures name in FieldNames(fields, names) <==> name in names || FindField(fields, name).Some?
    decreases |fields|
  {
    if fields != [] {
      var init := fields[..|fields| - 1];
      var last := fields[|fields| - 1];
      FieldNamesMembers(init, names, name);
      InsertNameMembers(last.name, FieldNames(init, names), name);
      FindFieldSnoc(init, last, name);
      assert init + [last] == fields;
    }
  }

  lemma {:induction false} FindFieldSnoc(fields: seq<Field>, last: Field, name: string)
    ensures FindField(fields + [last], name).Some? <==> FindField(fields, name).Some? || last.name == name
    decreases |fields|
  {
    if fields != [] {
      FindFieldSnoc(fields[1..], last, name);
      assert (fields + [last])[1..] == fields[1..] + [last];
    }
  }

  /** Every field name of either side, in order. */
  function AllFieldNames(candidate: seq<Field>, baseline: seq<Field>): seq<string> {
    FieldNames(baseline, FieldNames(candidate, []))
  }

  function ValueOf(field: Option<Field>): Option<string> {
    match field case None => None case Some(present) => Some(present.value)
  }

  /** The entry of one field, if it is reported. */
  function Compared(name: string, candidate: Option<Field>, baseline: Option<Field>): seq<FieldComparison> {
    match Outcome(candidate, baseline)
    case None => []
    case Some(outcome) => [FieldComparison(name, ValueOf(candidate), ValueOf(baseline), outcome)]
  }

  function Testbed(names: seq<string>, candidate: seq<Field>, baseline: seq<Field>): seq<FieldComparison> {
    if names == [] then []
    else
      var last := names[|names| - 1];
      Testbed(names[..|names| - 1], candidate, baseline)
      + Compared(last, FindField(candidate, last), FindField(baseline, last))
  }

  predicate CriticalField(names: seq<string>, candidate: seq<Field>, baseline: seq<Field>) {
    exists name :: name in names && CriticalOutcome(Outcome(FindField(candidate, name), FindField(baseline, name)))
  }

  predicate CriticalMismatch(candidate: seq<Field>, baseline: seq<Field>, identity: IdentityMatch) {
    || CriticalField(AllFieldNames(candidate, baseline), candidate, baseline)
    || !identity.workload || !identity.driver || !identity.topology
  }

  method EvaluateComparability(candidate: seq<Field>, baseline: seq<Field>, identity: IdentityMatch)
    returns (testbed: seq<FieldComparison>, critical: bool)
    ensures testbed == Testbed(AllFieldNames(candidate, baseline), candidate, baseline)
    ensures critical == CriticalMismatch(candidate, baseline, identity)
  {
    testbed, critical := [], false;
    var names := AllFieldNames(candidate, baseline);
    for i := 0 to |names|
      invariant testbed == Testbed(names[..i], candidate, baseline)
      invariant critical == CriticalField(names[..i], candidate, baseline)
    {
      assert names[..i + 1] == names[..i] + [names[i]];
      assert names[..i + 1][..i] == names[..i];
      var left, right := FindField(candidate, names[i]), FindField(baseline, names[i]);
      var outcome := Outcome(left, right);
      if outcome.None? {
        continue;
      }
      if CriticalOutcome(outcome) {
        critical := true;
      }
      testbed := testbed + [FieldComparison(names[i], ValueOf(left), ValueOf(right), outcome.value)];
    }
    assert names[..|names|] == names;
    if !identity.workload || !identity.driver || !identity.topology {
      critical := true;
    }
  }

  // ---- What comparability means for two lists of fields ----

  /** The fields of one side: a map from names. */
  ghost predicate DistinctFields(fields: seq<Field>) {
    forall i, j :: 0 <= i < j < |fields| ==> fields[i].name != fields[j].name
  }

  ghost predicate Lacks(fields: seq<Field>, name: string) {
    forall f :: f in fields ==> f.name != name
  }

  /** How a difference of this class is reported, if it is. */
  ghost predicate ReportedAs(outcome: FieldOutcome, fieldClass: FieldClass, critical: FieldOutcome) {
    match fieldClass
    case ComparisonCritical => outcome == critical
    case WarningOnly => outcome == WarningMismatch
    case InformationalField => false
  }

  /** The entry of a field of both sides, of the candidate only, or of the baseline only.
      A difference is judged by the candidate's class where there is one. */
  ghost predicate EntryOfBoth(e: FieldComparison, c: Field, b: Field) {
    && e.field == c.name == b.name && e.candidate == Some(c.value) && e.baseline == Some(b.value)
    && if c.value == b.value then e.outcome == Equal else ReportedAs(e.outcome, c.fieldClass, Unequal)
  }

  ghost predicate EntryOfCandidate(e: FieldComparison, c: Field, baseline: seq<Field>) {
    && e.field == c.name && e.candidate == Some(c.value) && e.baseline == None
    && Lacks(baseline, c.name) && ReportedAs(e.outcome, c.fieldClass, MissingBaseline)
  }

  ghost predicate EntryOfBaseline(e: FieldComparison, candidate: seq<Field>, b: Field) {
    && e.field == b.name && e.candidate == None && e.baseline == Some(b.value)
    && Lacks(candidate, b.name) && ReportedAs(e.outcome, b.fieldClass, MissingCandidate)
  }

  lemma {:induction false} FindFieldMeaning(fields: seq<Field>, name: string)
    requires DistinctFields(fields)
    ensures FindField(fields, name).None? <==> Lacks(fields, name)
    ensures forall f :: FindField(fields, name) == Some(f) <==> f in fields && f.name == name
    decreases |fields|
  {
    if fields != [] {
      FindFieldMeaning(fields[1..], name);
      assert fields == [fields[0]] + fields[1..];
      forall f | f in fields[1..]
        ensures f.name != fields[0].name
      {
        var i :| 0 <= i < |fields[1..]| && fields[1..][i] == f;
        assert fields[i + 1] == f;
      }
    }
  }

  lemma {:induction false} TestbedMembers(names: seq<string>, candidate: seq<Field>, baseline: seq<Field>,
                                          e: FieldComparison)
    ensures e in Testbed(names, candidate, baseline)
       <==> e.field in names && e in Compared(e.field, FindField(candidate, e.field), FindField(baseline, e.field))
    decreases |names|
  {
    hide FindField, Outcome;
    if names != [] {
      var init, last := names[..|names| - 1], names[|names| - 1];
      TestbedMembers(init, candidate, baseline, e);
      assert names == init + [last];
    }
  }

  lemma ComparedMeaning(candidate: seq<Field>, baseline: seq<Field>, e: FieldComparison)
    requires DistinctFields(candidate) && DistinctFields(baseline)
    ensures e in Compared(e.field, FindField(candidate, e.field), FindField(baseline, e.field))
       <==> || (exists c, b :: c in candidate && b in baseline && EntryOfBoth(e, c, b))
            || (exists c :: c in candidate && EntryOfCandidate(e, c, baseline))
            || (exists b :: b in baseline && EntryOfBaseline(e, candidate, b))
  {
    hide FindField, Lacks, DistinctFields;
    FindFieldMeaning(candidate, e.field);
    FindFieldMeaning(baseline, e.field);
    var c, b := FindField(candidate, e.field), FindField(baseline, e.field);
    if c.Some? && b.Some? {
      assert EntryOfBoth(e, c.value, b.value) <==> e in Compared(e.field, c, b);
    } else if c.Some? {
      assert EntryOfCandidate(e, c.value, baseline) <==> e in Compared(e.field, c, b);
    } else if b.Some? {
      assert EntryOfBaseline(e, candidate, b.value) <==> e in Compared(e.field, c, b);
    }
  }

  /** The testbed section reports exactly these entries. */
  lemma TestbedMeaning(candidate: seq<Field>, baseline: seq<Field>, e: FieldComparison)
    requires DistinctFields(candidate) && DistinctFields(baseline)
    ensures e in Testbed(AllFieldNames(candidate, baseline), candidate, baseline)
       <==> || (exists c, b :: c in candidate && b in baseline && EntryOfBoth(e, c, b))
            || (exists c :: c in candidate && EntryOfCandidate(e, c, baseline))
            || (exists b :: b in baseline && EntryOfBaseline(e, candidate, b))
  {
    hide FindField, DistinctFields, EntryOfBoth, EntryOfCandidate, EntryOfBaseline, Testbed;
    var names := AllFieldNames(candidate, baseline);
    TestbedMembers(names, candidate, baseline, e);
    ComparedMeaning(candidate, baseline, e);
    FieldNamesMembers(candidate, [], e.field);
    FieldNamesMembers(baseline, FieldNames(candidate, []), e.field);
  }

  lemma {:induction false} FieldNamesOrdered(fields: seq<Field>, names: seq<string>)
    requires StrictlyIncreasing(names)
    ensures StrictlyIncreasing(FieldNames(fields, names))
    decreases |fields|
  {
    if fields != [] {
      FieldNamesOrdered(fields[..|fields| - 1], names);
      InsertNameOrdered(fields[|fields| - 1].name, FieldNames(fields[..|fields| - 1], names));
    }
  }

  function FieldOf(e: FieldComparison): string { e.field }

  /** At most one more entry, behind all others. */
  lemma OneMoreEntry(before: seq<FieldComparison>, added: seq<FieldComparison>, name: string)
    requires StrictlyOrdered(before, FieldOf) && forall e :: e in before ==> NameLess(e.field, name)
    requires |added| <= 1 && forall e :: e in added ==> e.field == name
    ensures StrictlyOrdered(before + added, FieldOf)
  {
    hide NameLess;
    var all := before + added;
    forall i, j | 0 <= i < j < |all|
      ensures NameLess(FieldOf(all[i]), FieldOf(all[j]))
    {
      assert all[i] == before[i];
      if j < |before| {
        assert all[j] == before[j];
      } else {
        assert all[j] == added[0];
      }
    }
  }

  lemma NamesBelow(names: seq<string>, n: nat, name: string)
    requires StrictlyIncreasing(names) && n < |names| && name in names[..n]
    ensures NameLess(name, names[n])
  {
    var k :| 0 <= k < n && names[..n][k] == name;
    assert NameLess(Self(names[k]), Self(names[n]));
  }

  lemma {:induction false} TestbedFollowsNames(names: seq<string>, candidate: seq<Field>, baseline: seq<Field>)
    requires StrictlyIncreasing(names)
    ensures StrictlyOrdered(Testbed(names, candidate, baseline), FieldOf)
    ensures forall e :: e in Testbed(names, candidate, baseline) ==> e.field in names
    decreases |names|
  {
    hide FindField, Outcome, NameLess, StrictlyOrdered;
    if names == [] {
      assert StrictlyOrdered([], FieldOf) by { NothingReported(); }
    } else {
      var n := |names| - 1;
      FirstNames(names);
      TestbedFollowsNames(names[..n], candidate, baseline);
      var before := Testbed(names[..n], candidate, baseline);
      assert names == names[..n] + [names[n]];
      forall e | e in before
        ensures NameLess(e.field, names[n])
      {
        NamesBelow(names, n, e.field);
      }
      OneMoreEntry(before, Compared(names[n], FindField(candidate, names[n]), FindField(baseline, names[n])), names[n]);
    }
  }

  lemma FirstNames(names: seq<string>)
    requires StrictlyIncreasing(names) && names != []
    ensures StrictlyIncreasing(names[..|names| - 1])
  {
    hide NameLess;
  }

  lemma NothingReported()
    ensures StrictlyOrdered([], FieldOf)
  {
  }

  /** Entries come in strict order of their names, so no field is reported twice. */
  lemma TestbedOrdered(candidate: seq<Field>, baseline: seq<Field>)
    ensures StrictlyOrdered(Testbed(AllFieldNames(candidate, baseline), candidate, baseline), FieldOf)
  {
    FieldNamesOrdered(candidate, []);
    FieldNamesOrdered(baseline, FieldNames(candidate, []));
    TestbedFollowsNames(AllFieldNames(candidate, baseline), candidate, baseline);
  }

  /** Two sides are comparable exactly when their plans match, every critical field of the
      candidate has the same value in the baseline, and no critical field of the baseline
      is missing from the candidate. */
  lemma ComparabilityMeaning(candidate: seq<Field>, baseline: seq<Field>, identity: IdentityMatch)
    requires DistinctFields(candidate) && DistinctFields(baseline)
    ensures !CriticalMismatch(candidate, baseline, identity)
       <==> && identity == IdentityMatch(true, true, true)
            && (forall c :: c in candidate && c.fieldClass == ComparisonCritical ==>
                  exists b :: b in baseline && b.name == c.name && b.value == c.value)
            && (forall b :: b in baseline && b.fieldClass == ComparisonCritical ==> !Lacks(candidate, b.name))
  {
    hide FindField, DistinctFields, Lacks, AllFieldNames;
    forall name
      ensures CriticalOutcome(Outcome(FindField(candidate, name), FindField(baseline, name)))
         <==> CriticalAt(candidate, baseline, name)
      ensures CriticalAt(candidate, baseline, name) ==> name in AllFieldNames(candidate, baseline)
    {
      CriticalAtMeaning(candidate, baseline, name);
    }
    forall c | c in candidate && c.fieldClass == ComparisonCritical
      ensures CriticalAt(candidate, baseline, c.name)
         <==> !exists b :: b in baseline && b.name == c.name && b.value == c.value
    {
      CriticalOfCandidate(candidate, baseline, c);
    }
    forall b | b in baseline && b.fieldClass == ComparisonCritical && Lacks(candidate, b.name)
      ensures CriticalAt(candidate, baseline, b.name)
    {
    }
  }

  /** A critical field of the candidate that the baseline does not repeat, or a critical
      field of the baseline that the candidate lacks. */
  ghost predicate CriticalAt(candidate: seq<Field>, baseline: seq<Field>, name: string) {
    || (exists c :: c in candidate && c.name == name && c.fieldClass == ComparisonCritical
                    && forall b :: b in baseline && b.name == name ==> b.value != c.value)
    || (Lacks(candidate, name) && exists b :: b in baseline && b.name == name && b.fieldClass == ComparisonCritical)
  }

  lemma CriticalAtMeaning(candidate: seq<Field>, baseline: seq<Field>, name: string)
    requires DistinctFields(candidate) && DistinctFields(baseline)
    ensures CriticalOutcome(Outcome(FindField(candidate, name), FindField(baseline, name)))
       <==> CriticalAt(candidate, baseline, name)
    ensures CriticalAt(candidate, baseline, name) ==> name in AllFieldNames(candidate, baseline)
  {
    hide FindField, DistinctFields, Lacks;
    FindFieldMeaning(candidate, name);
    FindFieldMeaning(baseline, name);
    FieldNamesMembers(candidate, [], name);
    FieldNamesMembers(baseline, FieldNames(candidate, []), name);
  }

  lemma CriticalOfCandidate(candidate: seq<Field>, baseline: seq<Field>, c: Field)
    requires DistinctFields(candidate) && c in candidate && c.fieldClass == ComparisonCritical
    ensures CriticalAt(candidate, baseline, c.name)
       <==> !exists b :: b in baseline && b.name == c.name && b.value == c.value
  {
    hide FindField;
    FindFieldMeaning(candidate, c.name);
  }

  // ---- Metric records ----

  function RequestNames(requests: seq<MetricRequest>): seq<string> {
    if requests == [] then []
    else InsertName(requests[|requests| - 1].name, RequestNames(requests[..|requests| - 1]))
  }

  function FindRequest(requests: seq<MetricRequest>, name: string): (found: Option<MetricRequest>)
    ensures found.Some? ==>
              exists i :: 0 <= i < |requests| && requests[i] == found.value && found.value.name == name
                          && forall j :: 0 <= j < i ==> requests[j].name != name
    ensures found.None? <==> forall r :: r in requests ==> r.name != name
  {
    if requests == [] then None
    else if requests[0].name == name then Some(requests[0])
    else FindRequest(requests[1..], name)
  }

  lemma {:induction false} RequestNamesOrdered(requests: seq<MetricRequest>)
    ensures StrictlyIncreasing(RequestNames(requests))
    ensures forall name :: name in RequestNames(requests) <==> FindRequest(requests, name).Some?
    decreases |requests|
  {
    if requests != [] {
      var init, last := requests[..|requests| - 1], requests[|requests| - 1];
      RequestNamesOrdered(init);
      InsertNameOrdered(last.name, RequestNames(init));
      assert requests == init + [last];
      forall name
        ensures name in RequestNames(requests) <==> FindRequest(requests, name).Some?
      {
        InsertNameMembers(last.name, RequestNames(init), name);
        assert (forall r :: r in requests ==> r.name != name)
          <==> (forall r :: r in init ==> r.name != name) && last.name != name;
      }
    }
  }

  function PairedRejection(request: MetricRequest): MetricRecord {
    MetricRecord(request.name, request.unit, request.direction, request.intent, request.gate,
                 [], [], [], [], None, None, None, None, None, Threshold(request.gate), None, None,
                 Some(Invalid), Some("paired_evidence_requires_paired_comparison"))
  }

  /** The record for one metric name of the candidate's plan. */
  function RecordFor(name: string, candidate: Evidence, baseline: Option<Evidence>, critical: bool,
                     base: bv64, sampling: Sampling): MetricRecord
    requires FindRequest(candidate.metrics, name).Some?
  {
    var request := FindRequest(candidate.metrics, name).value;
    if candidate.paired then PairedRejection(request)
    else Evaluate(request, candidate.trials, BaselineTrials(baseline), candidate.policy, critical,
                  MetricSeed(base, name, sampling), sampling.log)
  }

  function BaselineTrials(baseline: Option<Evidence>): Option<seq<Trial>> {
    match baseline case None => None case Some(side) => Some(side.trials)
  }

  function Records(names: seq<string>, candidate: Evidence, baseline: Option<Evidence>, critical: bool,
                   base: bv64, sampling: Sampling): (records: seq<MetricRecord>)
    requires forall name :: name in names ==> FindRequest(candidate.metrics, name).Some?
    ensures |records| == |names|
  {
    if names == [] then []
    else
      Records(names[..|names| - 1], candidate, baseline, critical, base, sampling)
      + [RecordFor(names[|names| - 1], candidate, baseline, critical, base, sampling)]
  }

  function Retained(names: seq<string>): seq<string> {
    if |names| <= MAX_RECEIPT_METRICS then names else names[..MAX_RECEIPT_METRICS]
  }

  predicate Critical(candidate: Evidence, baseline: Option<Evidence>, identity: IdentityMatch) {
    baseline.Some? && CriticalMismatch(candidate.environment, baseline.value.environment, identity)
  }

  /** The metric records of a receipt, in metric-name order. */
  ghost function ReceiptMetrics(candidate: Evidence, baseline: Option<Evidence>, identity: IdentityMatch,
                                sampling: Sampling): seq<MetricRecord> {
    RequestNamesOrdered(candidate.metrics);
    Records(Retained(RequestNames(candidate.metrics)), candidate, baseline,
            Critical(candidate, baseline, identity), BaseSeed(candidate, baseline, sampling), sampling)
  }

  // ---- Warnings ----

  const TRUNCATION: Warning := Warning("metric_receipt_truncated", "")

  function ReceiptTestbed(candidate: Evidence, baseline: Option<Evidence>): seq<FieldComparison> {
    match baseline
    case None => []
    case Some(side) =>
      Testbed(AllFieldNames(candidate.environment, side.environment), candidate.environment, side.environment)
  }

  /** One warning per warning-only field that differs. */
  function TestbedWarnings(testbed: seq<FieldComparison>): seq<Warning> {
    if testbed == [] then []
    else
      var last := testbed[|testbed| - 1];
      TestbedWarnings(testbed[..|testbed| - 1])
      + if last.outcome == WarningMismatch then [Warning("environment_warning_mismatch", last.field)] else []
  }

  /** The warnings of the retained records, in record order. */
  function RecordWarnings(records: seq<MetricRecord>): seq<Warning> {
    if records == [] then []
    else RecordWarnings(records[..|records| - 1]) + EvaluationWarnings(records[|records| - 1])
  }

  /** The warnings raised before any metric is evaluated. */
  function EvidenceWarnings(testbed: seq<FieldComparison>, critical: bool, paired: bool): seq<Warning> {
    TestbedWarnings(testbed)
    + (if critical then [Warning("environment_critical_mismatch", "")] else [])
    + (if paired then [Warning("paired_bundle_requires_paired_comparison", "")] else [])
  }

  /** `push_metric_truncation_warning`. */
  function TruncationWarnings(total: nat): seq<Warning> {
    if total > MAX_RECEIPT_METRICS then [TRUNCATION] else []
  }

  /** Every warning of a receipt, in order. */
  ghost function ReceiptWarnings(candidate: Evidence, baseline: Option<Evidence>, identity: IdentityMatch,
                                 sampling: Sampling): seq<Warning> {
    EvidenceWarnings(ReceiptTestbed(candidate, baseline), Critical(candidate, baseline, identity), candidate.paired)
    + RecordWarnings(ReceiptMetrics(candidate, baseline, identity, sampling))
    + TruncationWarnings(|RequestNames(candidate.metrics)|)
  }

  /** The whole receipt. */
  ghost function ReceiptFor(candidate: Evidence, baseline: Option<Evidence>, identity: IdentityMatch,
                            sampling: Sampling): Receipt {
    var metrics := ReceiptMetrics(candidate, baseline, identity, sampling);
    Receipt(UnpairedPolicy(candidate, baseline), candidate.identity, IdentityOf(baseline), candidate.policy,
            ReceiptTestbed(candidate, baseline), Critical(candidate, baseline, identity),
            BaseSeed(candidate, baseline, sampling), metrics, AggregateOf(metrics), CorrectnessOf(candidate),
            Combine(AggregateOf(metrics), CorrectnessVerdict(candidate)),
            ReceiptWarnings(candidate, baseline, identity, sampling))
  }

  function IdentityOf(baseline: Option<Evidence>): Option<string> {
    match baseline case None => None case Some(side) => Some(side.identity)
  }

  // ---- The algorithm ----

  method Compare(candidate: Evidence, baseline: Option<Evidence>, identity: IdentityMatch, sampling: Sampling)
    returns (receipt: Receipt)
    ensures receipt == ReceiptFor(candidate, baseline, identity, sampling)
  {
    hide RecordWarnings, TestbedWarnings, Records, Testbed, CriticalMismatch, Retained, RequestNames, AllFieldNames,
         AggregateOf, AggregateCorrectness, Combine, FindRequest, EvidenceWarnings, TruncationWarnings, BaseSeed,
         UnpairedPolicy;
    var policy := ChoosePolicy(candidate, baseline);
    var base := DeriveBaseSeed(candidate, baseline, policy, sampling);
    var testbed: seq<FieldComparison> := [];
    var critical := false;
    if baseline.Some? {
      testbed, critical := EvaluateComparability(candidate.environment, baseline.value.environment, identity);
    }
    var warnings := WarnOnEvidence(testbed, critical, candidate.paired);
    var metrics, evaluationWarnings := CollectRecords(candidate, baseline, critical, base, sampling);
    warnings := warnings + evaluationWarnings + TruncationWarnings(|RequestNames(candidate.metrics)|);
    var performance := Aggregate(metrics);
    var correctness := SummarizeCorrectness(candidate);
    var verdict := match correctness case None => None case Some(section) => Some(section.aggregate);
    var baselineIdentity: Option<string> := match baseline case None => None case Some(side) => Some(side.identity);
    receipt := Receipt(policy, candidate.identity, baselineIdentity, candidate.policy,
                       testbed, critical, base, metrics, performance, correctness,
                       Combine(performance, verdict), warnings);
  }

  /** `correctness_section`: the policy follows the families of the checks. */
  method SummarizeCorrectness(candidate: Evidence) returns (section: Option<CorrectnessSection>)
    ensures section == CorrectnessOf(candidate)
  {
    if candidate.checks.None? {
      return None;
    }
    var checks := candidate.checks.value;
    var policy := "eggbench.security-correctness.v1";
    if exists c :: c in checks && c.family == "http_observable" {
      policy := "eggbench.security-correctness.v2";
    }
    var aggregate := AggregateChecks(checks);
    return Some(CorrectnessSection(policy, aggregate, checks));
  }

  method ChoosePolicy(candidate: Evidence, baseline: Option<Evidence>) returns (policy: string)
    ensures policy == UnpairedPolicy(candidate, baseline)
  {
    var networkPath := candidate.networkPath;
    if baseline.Some? && baseline.value.networkPath {
      networkPath := true;
    }
    return if networkPath then "eggbench.trial-bootstrap-network-path.v1" else "eggbench.trial-bootstrap.v1";
  }

  /** `derive_base_seed`, unless the caller gives a seed. */
  method DeriveBaseSeed(candidate: Evidence, baseline: Option<Evidence>, policy: string, sampling: Sampling)
    returns (seed: bv64)
    requires policy == UnpairedPolicy(candidate, baseline)
    ensures seed == BaseSeed(candidate, baseline, sampling)
  {
    hide UnpairedPolicy;
    if sampling.seed.Some? {
      return sampling.seed.value;
    }
    var text := candidate.identity + "|";
    if baseline.Some? {
      text := text + baseline.value.identity;
    } else {
      text := text + "absolute-only";
    }
    text := text + "|" + policy;
    assert text == BaseSeedText(candidate, baseline);
    return sampling.hash(text);
  }

  /** `derive_metric_seed`. */
  method DeriveMetricSeed(base: bv64, metric: string, sampling: Sampling) returns (seed: bv64)
    ensures seed == MetricSeed(base, metric, sampling)
  {
    hide LittleEndian;
    return sampling.hash(LittleEndian(base as nat, 8) + "|" + metric);
  }

  method WarnOnEvidence(testbed: seq<FieldComparison>, critical: bool, paired: bool) returns (warnings: seq<Warning>)
    ensures warnings == EvidenceWarnings(testbed, critical, paired)
  {
    hide TestbedWarnings;
    warnings := WarnOnFields(testbed);
    if critical {
      warnings := warnings + [Warning("environment_critical_mismatch", "")];
    }
    if paired {
      warnings := warnings + [Warning("paired_bundle_requires_paired_comparison", "")];
    }
  }

  method WarnOnFields(testbed: seq<FieldComparison>) returns (warnings: seq<Warning>)
    ensures warnings == TestbedWarnings(testbed)
  {
    warnings := [];
    for i := 0 to |testbed|
      invariant warnings == TestbedWarnings(testbed[..i])
    {
      assert testbed[..i + 1][..i] == testbed[..i];
      if testbed[i].outcome == WarningMismatch {
        warnings := warnings + [Warning("environment_warning_mismatch", testbed[i].field)];
      }
    }
    assert testbed[..|testbed|] == testbed;
  }

  method RecordMetric(name: string, candidate: Evidence, baseline: Option<Evidence>, critical: bool,
                      base: bv64, sampling: Sampling)
    returns (record: MetricRecord, warnings: seq<Warning>)
    requires FindRequest(candidate.metrics, name).Some?
    ensures record == RecordFor(name, candidate, baseline, critical, base, sampling)
    ensures warnings == EvaluationWarnings(record)
  {
    hide Evaluate, Threshold, MetricSeed;
    var request := FindRequest(candidate.metrics, name).value;
    if candidate.paired {
      record := MetricRecord(request.name, request.unit, request.direction, request.intent, request.gate,
                             [], [], [], [], None, None, None, None, None, Threshold(request.gate), None, None,
                             Some(Invalid), Some("paired_evidence_requires_paired_comparison"));
      return record, [];
    }
    var trials: Option<seq<Trial>> := match baseline case None => None case Some(side) => Some(side.trials);
    var seed := DeriveMetricSeed(base, name, sampling);
    record, warnings := EvaluateMetric(request, candidate.trials, trials, candidate.policy, critical, seed,
                                       sampling.log);
  }

  lemma RecordWarningsEmpty()
    ensures RecordWarnings([]) == []
  {
  }

  lemma RecordWarningsSnoc(records: seq<MetricRecord>, record: MetricRecord)
    ensures RecordWarnings(records + [record]) == RecordWarnings(records) + EvaluationWarnings(record)
  {
    assert (records + [record])[..|records|] == records;
  }

  /** The metric loop of `compare`, stopping at the receipt bound. */
  method CollectRecords(candidate: Evidence, baseline: Option<Evidence>, critical: bool,
                        base: bv64, sampling: Sampling)
    returns (metrics: seq<MetricRecord>, warnings: seq<Warning>)
    ensures forall name :: name in RequestNames(candidate.metrics) ==> FindRequest(candidate.metrics, name).Some?
    ensures metrics == Records(Retained(RequestNames(candidate.metrics)), candidate, baseline, critical, base, sampling)
    ensures warnings == RecordWarnings(metrics)
  {
    hide RecordFor, RequestNames, FindRequest, StrictlyIncreasing, EvaluationWarnings, RecordWarnings;
    RecordWarningsEmpty();
    metrics, warnings := [], [];
    var names := RequestNames(candidate.metrics);
    RequestNamesOrdered(candidate.metrics);
    var i := 0;
    while i < |names|
      invariant 0 <= i <= |names| && i < MAX_RECEIPT_METRICS
      invariant metrics == Records(names[..i], candidate, baseline, critical, base, sampling)
      invariant warnings == RecordWarnings(metrics)
    {
      assert names[..i + 1][..i] == names[..i];
      var record, added := RecordMetric(names[i], candidate, baseline, critical, base, sampling);
      RecordWarningsSnoc(metrics, record);
      metrics := metrics + [record];
      warnings := warnings + added;
      i := i + 1;
      if |metrics| >= MAX_RECEIPT_METRICS {
        break;
      }
    }
    assert names[..i] == Retained(names);
  }

  // ---- When truncation is reported ----

  lemma CategoriesDiffer()
    ensures TRUNCATION.category != "below_recommended_trial_count"
    ensures TRUNCATION.category != "environment_warning_mismatch"
    ensures TRUNCATION.category != "environment_critical_mismatch"
    ensures TRUNCATION.category != "paired_bundle_requires_paired_comparison"
  {
    assert "metric_receipt_truncated"[0] == 'm';
    assert "below_recommended_trial_count"[0] == 'b' && "environment_warning_mismatch"[0] == 'e';
    assert "environment_critical_mismatch"[0] == 'e' && "paired_bundle_requires_paired_comparison"[0] == 'p';
  }

  /** The truncation warning appears exactly when metrics are omitted. */
  lemma TruncationIsReported(candidate: Evidence, baseline: Option<Evidence>, identity: IdentityMatch,
                             sampling: Sampling)
    ensures TRUNCATION in ReceiptWarnings(candidate, baseline, identity, sampling)
       <==> |ReceiptMetrics(candidate, baseline, identity, sampling)| < |RequestNames(candidate.metrics)|
  {
    hide TestbedWarnings, RecordWarnings, RequestNames, Critical, ReceiptTestbed;
    CategoriesDiffer();
    FieldsNeverTruncate(ReceiptTestbed(candidate, baseline));
    RecordsNeverTruncate(ReceiptMetrics(candidate, baseline, identity, sampling));
  }

  lemma {:induction false} FieldsNeverTruncate(testbed: seq<FieldComparison>)
    ensures TRUNCATION !in TestbedWarnings(testbed)
    decreases |testbed|
  {
    CategoriesDiffer();
    if testbed != [] {
      FieldsNeverTruncate(testbed[..|testbed| - 1]);
    }
  }

  lemma {:induction false} RecordsNeverTruncate(records: seq<MetricRecord>)
    ensures TRUNCATION !in RecordWarnings(records)
    decreases |records|
  {
    CategoriesDiffer();
    if records != [] {
      RecordsNeverTruncate(records[..|records| - 1]);
    }
  }

  // ---- Which metrics a receipt holds ----

  /** The receipt holds the name-smallest metrics of the plan, at most 256 of them,
      each exactly once and in name order. */
  lemma ReceiptHoldsSmallestNames(candidate: Evidence, baseline: Option<Evidence>, identity: IdentityMatch,
                                  sampling: Sampling)
    ensures var metrics := ReceiptMetrics(candidate, baseline, identity, sampling);
            && (forall i, j :: 0 <= i < j < |metrics| ==> NameLess(metrics[i].name, metrics[j].name))
            && |metrics| <= MAX_RECEIPT_METRICS
            && (forall r :: r in candidate.metrics ==>
                  || (exists i :: 0 <= i < |metrics| && metrics[i].name == r.name)
                  || (|metrics| == MAX_RECEIPT_METRICS
                      && forall i :: 0 <= i < |metrics| ==> NameLess(metrics[i].name, r.name)))
  {
    hide RequestNames, FindRequest, NameLess, Critical, BaseSeed, RecordFor;
    var names := RequestNames(candidate.metrics);
    RequestNamesOrdered(candidate.metrics);
    var kept := Retained(names);
    var metrics := ReceiptMetrics(candidate, baseline, identity, sampling);
    forall i | 0 <= i < |kept|
      ensures metrics[i].name == kept[i]
    {
      RecordNames(kept, candidate, baseline, Critical(candidate, baseline, identity),
                  BaseSeed(candidate, baseline, sampling), sampling, i);
    }
    forall i, j | 0 <= i < j < |names|
      ensures NameLess(names[i], names[j])
    {
      assert NameLess(Self(names[i]), Self(names[j]));
    }
    forall r | r in candidate.metrics
      ensures || (exists i :: 0 <= i < |metrics| && metrics[i].name == r.name)
              || (|metrics| == MAX_RECEIPT_METRICS
                  && forall i :: 0 <= i < |metrics| ==> NameLess(metrics[i].name, r.name))
    {
      assert FindRequest(candidate.metrics, r.name).Some?;
      assert r.name in names;
      var k :| 0 <= k < |names| && names[k] == r.name;
      if k < |kept| {
        assert metrics[k].name == r.name;
      }
    }
  }

  lemma {:induction false} RecordNames(names: seq<string>, candidate: Evidence, baseline: Option<Evidence>,
                                       critical: bool,
                                       base: bv64, sampling: Sampling, i: nat)
    requires i < |names| && forall name :: name in names ==> FindRequest(candidate.metrics, name).Some?
    ensures Records(names, candidate, baseline, critical, base, sampling)[i]
         == RecordFor(names[i], candidate, baseline, critical, base, sampling)
    ensures Records(names, candidate, baseline, critical, base, sampling)[i].name == names[i]
    decreases |names|
  {
    hide Evaluate, MetricSeed;
    if i == |names| - 1 {
      RecordKeepsRequest(FindRequest(candidate.metrics, names[i]).value, candidate.trials, BaselineTrials(baseline),
                         candidate.policy, critical, MetricSeed(base, names[i], sampling), sampling.log);
    } else {
      RecordNames(names[..|names| - 1], candidate, baseline, critical, base, sampling, i);
    }
  }

  /** A record carries the name and intent of its request. */
  lemma {:induction false} RecordKeepsRequest(request: MetricRequest, candidate: seq<Trial>,
                                              baseline: Option<seq<Trial>>,
                                              policy: EnvironmentPolicy, critical: bool, seed: bv64, log: Logarithms)
    ensures var record := Evaluate(request, candidate, baseline, policy, critical, seed, log);
            record.name == request.name && record.intent == request.intent
  {
    hide RelativeOutcome, AbsoluteOutcome, Threshold, Included, ExcludedTrials, ArithmeticMean, Values;
    var record := FreshRecord(request, candidate);
    if request.gate.Some? && request.gate.value.Absolute? {
      AbsoluteKeepsRequest(record, Values(candidate, request.name), request.gate.value.value);
    } else if request.gate.Some? {
      RelativeKeepsRequest(record, request, Values(candidate, request.name), baseline, policy, critical, seed, log);
    }
  }

  lemma AbsoluteKeepsRequest(record: MetricRecord, values: seq<Scalar>, value: real)
    ensures var outcome := AbsoluteOutcome(record, values, value);
            outcome.name == record.name && outcome.intent == record.intent
  {
  }

  lemma {:induction false} RelativeKeepsRequest(record: MetricRecord, request: MetricRequest, candidate: seq<Scalar>,
                                                baseline: Option<seq<Trial>>, policy: EnvironmentPolicy, critical: bool,
                                                seed: bv64, log: Logarithms)
    requires request.gate.Some? && !request.gate.value.Absolute? && record.threshold == Threshold(request.gate)
    ensures var outcome := RelativeOutcome(record, request, candidate, baseline, policy, critical, seed, log);
            outcome.name == record.name && outcome.intent == record.intent
  {
    hide UnpairedEffects, IntervalLow, IntervalHigh, IntervalDisposition, GeometricMean, Degradation, SemanticsError,
         Included, ExcludedTrials, Values, EnoughTrials, Reals;
  }
}
