/**
  A qualification suite (`qualify_run` and `qualify_inspect` in main.rs).

  `QualifyRun` walks the scenarios serially, asks an oracle what each run and each
  comparison produced, and assembles a receipt next to the evidence.
  `QualifyInspect` is the independent check of such a receipt.
 */
module Suite {
  import opened Basics
  import opened Verdicts

  datatype ScenarioStatus = Completed | Invalid | Cancelled | NotRun

  /** One scenario of the frozen expansion. */
  datatype Scenario = Scenario(id: string, planSha256: string, driver: Option<string>, baseline: Option<string>)

  datatype Expansion = Expansion(inputs: string, scenarios: seq<Scenario>)

  /** A published bundle: its identity and the workload driver that ran. */
  datatype Bundle = Bundle(identity: string, driver: Option<string>)

  /** A typed comparison receipt. */
  datatype Comparison = Comparison(
    candidate: string, baseline: Option<string>,
    performance: Option<AggregateVerdict>, correctness: Option<AggregateVerdict>,
    aggregate: Option<AggregateVerdict>)

  datatype Record = Record(
    id: string, planSha256: string, driver: Option<string>, status: ScenarioStatus,
    bundlePath: Option<string>, bundleIdentity: Option<string>, baselineIdentity: Option<string>,
    comparisonPath: Option<string>, comparisonSha256: Option<string>,
    performance: Option<AggregateVerdict>, correctness: Option<AggregateVerdict>, combined: Option<AggregateVerdict>)

  datatype Receipt = Receipt(
    inputs: string, expansionSha256: string, scenarios: seq<Record>,
    aggregate: AggregateVerdict, complete: bool)

  /** Evidence under the suite directory. */
  datatype Store = Store(expansion: Expansion, bundles: map<string, Bundle>, comparisons: map<string, Comparison>)

  /** Digests of the stored texts. */
  datatype Digests = Digests(ofExpansion: Expansion -> string, ofComparison: Comparison -> string)

  /** What running and comparing one scenario yielded. */
  datatype RunOutcome =
    | NotPublished(cancelled: bool)
    | PublishedButFailed(cancelled: bool, bundle: Bundle)
    | PublishedUncompared(bundle: Bundle)
    | Compared(bundle: Bundle, comparison: Comparison)

  // ---- Assembling the records ----

  function BundlePath(id: string): string { "scenarios/" + id + ".eggb" }

  function ComparisonPath(id: string): string { "scenarios/" + id + ".comparison.json" }

  function BlankRecord(scenario: Scenario, status: ScenarioStatus): Record {
    Record(scenario.id, scenario.planSha256, scenario.driver, status,
           None, None, scenario.baseline, None, None, None, None, None)
  }

  /** Whether a scenario yields a typed receipt, so that the suite goes on. */
  predicate Typed(outcome: RunOutcome) { outcome.Compared? }

  function RecordOf(scenario: Scenario, outcome: RunOutcome, digests: Digests): Record {
    match outcome
    case NotPublished(cancelled) =>
      BlankRecord(scenario, if cancelled then Cancelled else Invalid)
    case PublishedButFailed(cancelled, _) =>
      BlankRecord(scenario, if cancelled then Cancelled else Invalid).(bundlePath := Some(BundlePath(scenario.id)))
    case PublishedUncompared(_) =>
      BlankRecord(scenario, Invalid).(bundlePath := Some(BundlePath(scenario.id)))
    case Compared(_, comparison) =>
      Record(scenario.id, scenario.planSha256, scenario.driver,
             if comparison.aggregate.Some? then Completed else Invalid,
             Some(BundlePath(scenario.id)), Some(comparison.candidate), comparison.baseline,
             Some(ComparisonPath(scenario.id)), Some(digests.ofComparison(comparison)),
             comparison.performance, comparison.correctness, comparison.aggregate)
  }

  /** The records of the scenarios so far; once one yields no typed receipt, the rest
      are not run. */
  function RecordsOf(scenarios: seq<Scenario>, outcomes: seq<RunOutcome>, digests: Digests): (records: seq<Record>)
    requires |scenarios| == |outcomes|
    ensures |records| == |scenarios|
  {
    if scenarios == [] then []
    else
      var n := |scenarios| - 1;
      RecordsOf(scenarios[..n], outcomes[..n], digests)
      + [if StoppedBefore(outcomes, n) then BlankRecord(scenarios[n], NotRun)
         else RecordOf(scenarios[n], outcomes[n], digests)]
  }

  predicate StoppedBefore(outcomes: seq<RunOutcome>, n: nat)
    requires n <= |outcomes|
  {
    exists i :: 0 <= i < n && !Typed(outcomes[i])
  }

  /** A receipt against another baseline than the frozen one aborts the whole suite. */
  predicate BaselineDiffers(scenarios: seq<Scenario>, outcomes: seq<RunOutcome>, n: nat)
    requires n < |scenarios| == |outcomes|
  {
    !StoppedBefore(outcomes, n) && outcomes[n].Compared? && outcomes[n].comparison.baseline != scenarios[n].baseline
  }

  predicate Aborted(scenarios: seq<Scenario>, outcomes: seq<RunOutcome>)
    requires |scenarios| == |outcomes|
  {
    exists n :: 0 <= n < |scenarios| && BaselineDiffers(scenarios, outcomes, n)
  }

  /** `aggregate_qualification_scenarios`. */
  function AggregateScenarios(records: seq<Record>): AggregateVerdict {
    if records == [] || exists r :: r in records && (r.status != Completed || r.combined.None?) then InvalidVerdict
    else QualificationVerdict(CombinedVerdicts(records))
  }

  function CombinedVerdicts(records: seq<Record>): seq<AggregateVerdict> {
    if records == [] then []
    else
      var last := records[|records| - 1];
      CombinedVerdicts(records[..|records| - 1]) + if last.combined.Some? then [last.combined.value] else []
  }

  predicate AllCompleted(records: seq<Record>) {
    forall r :: r in records ==> r.status == Completed
  }

  function ReceiptOf(expansion: Expansion, outcomes: seq<RunOutcome>, digests: Digests): Receipt
    requires |expansion.scenarios| == |outcomes|
  {
    var records := RecordsOf(expansion.scenarios, outcomes, digests);
    Receipt(expansion.inputs, digests.ofExpansion(expansion), records, AggregateScenarios(records),
            AllCompleted(records))
  }

  method AggregateQualificationScenarios(records: seq<Record>) returns (verdict: AggregateVerdict)
    ensures verdict == AggregateScenarios(records)
  {
    if records == [] || exists r :: r in records && (r.status != Completed || r.combined.None?) {
      return InvalidVerdict;
    }
    verdict := AggregateQualificationVerdicts(CombinedVerdicts(records));
  }

  /** The suite loop.  The oracle's answer for a scenario is consulted only when the
      scenario is reached. */
  method QualifyRun(expansion: Expansion, outcomes: seq<RunOutcome>, digests: Digests)
    returns (published: Option<(Receipt, Store)>)
    requires |outcomes| == |expansion.scenarios|
    ensures published.Some? <==> 1 <= |expansion.scenarios| <= 32 && !Aborted(expansion.scenarios, outcomes)
    ensures published.Some? ==>
              && published.value.0 == ReceiptOf(expansion, outcomes, digests)
              && published.value.1 == StoreOf(expansion, outcomes)
  {
    var scenarios := expansion.scenarios;
    if scenarios == [] || |scenarios| > 32 {
      return None;
    }
    hide RecordOf, StoppedBefore, RecordsOf, BundlesOf, ComparisonsOf, BundlePath, ComparisonPath, CombinedVerdicts,
         AggregateScenarios;
    var bundles, comparisons := map[], map[];
    var records: seq<Record> := [];
    var stopped := false;
    for i := 0 to |scenarios|
      invariant stopped <==> StoppedBefore(outcomes, i)
      invariant records == RecordsOf(scenarios[..i], outcomes[..i], digests)
      invariant bundles == BundlesOf(scenarios[..i], outcomes[..i])
      invariant comparisons == ComparisonsOf(scenarios[..i], outcomes[..i])
      invariant forall n :: 0 <= n < i ==> !BaselineDiffers(scenarios, outcomes, n)
    {
      SuiteStep(scenarios, outcomes, digests, i);
      var scenario := scenarios[i];
      if stopped {
        records := records + [Record(scenario.id, scenario.planSha256, scenario.driver, NotRun, None, None,
                                     scenario.baseline, None, None, None, None, None)];
        continue;
      }
      if !outcomes[i].NotPublished? {
        bundles := bundles[BundlePath(scenario.id) := outcomes[i].bundle];
      }
      var record := RecordScenario(scenario, outcomes[i], digests);
      if !outcomes[i].Compared? {
        records := records + [record];
        stopped := true;
        continue;
      }
      var comparison := outcomes[i].comparison;
      comparisons := comparisons[ComparisonPath(scenario.id) := comparison];
      if comparison.baseline != scenario.baseline {
        assert BaselineDiffers(scenarios, outcomes, i);
        return None;
      }
      records := records + [record];
    }
    assert scenarios[..|scenarios|] == scenarios && outcomes[..|scenarios|] == outcomes;
    var complete := forall r :: r in records ==> r.status == Completed;
    var aggregate := AggregateQualificationScenarios(records);
    var receipt := Receipt(expansion.inputs, digests.ofExpansion(expansion), records, aggregate, complete);
    return Some((receipt, Store(expansion, bundles, comparisons)));
  }

  /** The record of a scenario that was run. */
  method RecordScenario(scenario: Scenario, outcome: RunOutcome, digests: Digests) returns (record: Record)
    ensures record == RecordOf(scenario, outcome, digests)
  {
    var bundlePath, comparisonPath := "scenarios/" + scenario.id + ".eggb",
                                      "scenarios/" + scenario.id + ".comparison.json";
    if outcome.NotPublished? || outcome.PublishedButFailed? {
      var path := if outcome.PublishedButFailed? then Some(bundlePath) else None;
      return Record(scenario.id, scenario.planSha256, scenario.driver, if outcome.cancelled then Cancelled else Invalid,
                    path, None, scenario.baseline, None, None, None, None, None);
    }
    if outcome.PublishedUncompared? {
      return Record(scenario.id, scenario.planSha256, scenario.driver, Invalid, Some(bundlePath), None,
                    scenario.baseline, None, None, None, None, None);
    }
    var comparison := outcome.comparison;
    var hasVerdict := comparison.aggregate.Some?;
    return Record(scenario.id, scenario.planSha256, scenario.driver, if hasVerdict then Completed else Invalid,
                  Some(bundlePath), Some(comparison.candidate), comparison.baseline,
                  Some(comparisonPath), Some(digests.ofComparison(comparison)),
                  comparison.performance, comparison.correctness, comparison.aggregate);
  }

  /** What one more scenario adds to the records and to the store. */
  lemma SuiteStep(scenarios: seq<Scenario>, outcomes: seq<RunOutcome>, digests: Digests, i: nat)
    requires i < |scenarios| == |outcomes|
    ensures StoppedBefore(outcomes, i + 1) <==> StoppedBefore(outcomes, i) || !Typed(outcomes[i])
    ensures RecordsOf(scenarios[..i + 1], outcomes[..i + 1], digests)
         == RecordsOf(scenarios[..i], outcomes[..i], digests)
            + [if StoppedBefore(outcomes, i) then BlankRecord(scenarios[i], NotRun)
               else RecordOf(scenarios[i], outcomes[i], digests)]
    ensures BundlesOf(scenarios[..i + 1], outcomes[..i + 1])
         == if StoppedBefore(outcomes, i) || outcomes[i].NotPublished? then BundlesOf(scenarios[..i], outcomes[..i])
            else BundlesOf(scenarios[..i], outcomes[..i])[BundlePath(scenarios[i].id) := outcomes[i].bundle]
    ensures ComparisonsOf(scenarios[..i + 1], outcomes[..i + 1])
         == if StoppedBefore(outcomes, i) || !outcomes[i].Compared? then ComparisonsOf(scenarios[..i], outcomes[..i])
            else ComparisonsOf(scenarios[..i], outcomes[..i])[ComparisonPath(scenarios[i].id) := outcomes[i].comparison]
  {
    hide RecordOf, StoppedBefore, BundlePath, ComparisonPath;
    PrefixFacts(scenarios, outcomes, i);
  }

  lemma PrefixFacts(scenarios: seq<Scenario>, outcomes: seq<RunOutcome>, i: nat)
    requires i < |scenarios| == |outcomes|
    ensures scenarios[..i + 1][..i] == scenarios[..i] && outcomes[..i + 1][..i] == outcomes[..i]
    ensures scenarios[..i + 1][i] == scenarios[i] && outcomes[..i + 1][i] == outcomes[i]
    ensures StoppedBefore(outcomes[..i + 1], i) <==> StoppedBefore(outcomes, i)
    ensures StoppedBefore(outcomes, i + 1) <==> StoppedBefore(outcomes, i) || !Typed(outcomes[i])
  {
    assert forall k :: 0 <= k < i ==> outcomes[..i + 1][k] == outcomes[k];
  }

  function BundlesOf(scenarios: seq<Scenario>, outcomes: seq<RunOutcome>): map<string, Bundle>
    requires |scenarios| == |outcomes|
  {
    if scenarios == [] then map[]
    else
      var n := |scenarios| - 1;
      var before := BundlesOf(scenarios[..n], outcomes[..n]);
      if StoppedBefore(outcomes, n) || outcomes[n].NotPublished? then before
      else before[BundlePath(scenarios[n].id) := outcomes[n].bundle]
  }

  function ComparisonsOf(scenarios: seq<Scenario>, outcomes: seq<RunOutcome>): map<string, Comparison>
    requires |scenarios| == |outcomes|
  {
    if scenarios == [] then map[]
    else
      var n := |scenarios| - 1;
      var before := ComparisonsOf(scenarios[..n], outcomes[..n]);
      if StoppedBefore(outcomes, n) || !outcomes[n].Compared? then before
      else before[ComparisonPath(scenarios[n].id) := outcomes[n].comparison]
  }

  function StoreOf(expansion: Expansion, outcomes: seq<RunOutcome>): Store
    requires |expansion.scenarios| == |outcomes|
  {
    Store(expansion, BundlesOf(expansion.scenarios, outcomes), ComparisonsOf(expansion.scenarios, outcomes))
  }

  // ---- The inspector ----

  /** What the profile validator allows in a scenario id. */
  predicate NameAllowed(id: string) {
    id != [] && |id| <= 64 && forall c :: c in id ==> IsAlphanumeric(c) || c in "-_."
  }

  /** What the inspector allows in a scenario id. */
  predicate ReferenceAllowed(id: string) {
    id != [] && forall c :: c in id ==> IsAlphanumeric(c) || c in "-_"
  }

  /** The inspector's checks on one record. */
  predicate RecordInspects(expanded: Scenario, record: Record, store: Store, digests: Digests) {
    && expanded.driver == record.driver
    && expanded.baseline == record.baselineIdentity
    && ReferenceAllowed(record.id)
    && (record.bundlePath.Some? ==> record.bundlePath.value == BundlePath(record.id))
    && (record.comparisonPath.Some? ==> record.comparisonPath.value == ComparisonPath(record.id))
    && (record.status == Completed ==> EvidenceInspects(expanded, record, store, digests))
  }

  predicate EvidenceInspects(expanded: Scenario, record: Record, store: Store, digests: Digests) {
    && record.bundlePath.Some? && record.bundlePath.value in store.bundles
    && var bundle := store.bundles[record.bundlePath.value];
    && (expanded.driver.Some? ==> bundle.driver == expanded.driver)
    && record.bundleIdentity == Some(bundle.identity)
    && record.comparisonPath.Some? && record.comparisonPath.value in store.comparisons
    && var comparison := store.comparisons[record.comparisonPath.value];
    && record.comparisonSha256 == Some(digests.ofComparison(comparison))
    && comparison.candidate == bundle.identity && comparison.baseline == record.baselineIdentity
    && comparison.performance == record.performance && comparison.correctness == record.correctness
    && comparison.aggregate == record.combined
  }

  predicate Inspects(receipt: Receipt, store: Store, digests: Digests) {
    && digests.ofExpansion(store.expansion) == receipt.expansionSha256
    && store.expansion.inputs == receipt.inputs
    && |store.expansion.scenarios| == |receipt.scenarios|
    && (forall i :: 0 <= i < |receipt.scenarios| ==>
          store.expansion.scenarios[i].id == receipt.scenarios[i].id
          && store.expansion.scenarios[i].planSha256 == receipt.scenarios[i].planSha256)
    && (forall i :: 0 <= i < |receipt.scenarios| ==>
          RecordInspects(store.expansion.scenarios[i], receipt.scenarios[i], store, digests))
    && receipt.complete == AllCompleted(receipt.scenarios)
    && receipt.aggregate == AggregateScenarios(receipt.scenarios)
  }

  method QualifyInspect(receipt: Receipt, store: Store, digests: Digests) returns (accepted: bool)
    ensures accepted <==> Inspects(receipt, store, digests)
  {
    hide RecordInspects, AggregateScenarios;
    if digests.ofExpansion(store.expansion) != receipt.expansionSha256 {
      return false;
    }
    var expansion := store.expansion;
    if expansion.inputs != receipt.inputs || |expansion.scenarios| != |receipt.scenarios| {
      return false;
    }
    if exists i :: 0 <= i < |receipt.scenarios|
         && (expansion.scenarios[i].id != receipt.scenarios[i].id
             || expansion.scenarios[i].planSha256 != receipt.scenarios[i].planSha256) {
      return false;
    }
    for i := 0 to |receipt.scenarios|
      invariant forall j :: 0 <= j < i ==> RecordInspects(expansion.scenarios[j], receipt.scenarios[j], store, digests)
    {
      var inspected := InspectRecord(expansion.scenarios[i], receipt.scenarios[i], store, digests);
      if !inspected {
        return false;
      }
    }
    var complete := forall r :: r in receipt.scenarios ==> r.status == Completed;
    if receipt.complete != complete {
      return false;
    }
    var aggregate := AggregateQualificationScenarios(receipt.scenarios);
    return aggregate == receipt.aggregate;
  }

  /** The checks on one record, and on its evidence when it is completed. */
  method InspectRecord(expanded: Scenario, record: Record, store: Store, digests: Digests) returns (accepted: bool)
    ensures accepted <==> RecordInspects(expanded, record, store, digests)
  {
    if expanded.driver != record.driver || expanded.baseline != record.baselineIdentity {
      return false;
    }
    if record.id == [] || exists c :: c in record.id && !(IsAlphanumeric(c) || c == '-' || c == '_') {
      return false;
    }
    var bundlePath, comparisonPath := "scenarios/" + record.id + ".eggb",
                                      "scenarios/" + record.id + ".comparison.json";
    if (record.bundlePath.Some? && record.bundlePath.value != bundlePath)
       || (record.comparisonPath.Some? && record.comparisonPath.value != comparisonPath) {
      return false;
    }
    if record.status != Completed {
      return true;
    }
    if record.bundlePath.None? || bundlePath !in store.bundles {
      return false;
    }
    var bundle := store.bundles[bundlePath];
    if expanded.driver.Some? && bundle.driver != expanded.driver {
      return false;
    }
    if record.bundleIdentity != Some(bundle.identity) {
      return false;
    }
    if record.comparisonPath.None? || comparisonPath !in store.comparisons {
      return false;
    }
    var comparison := store.comparisons[comparisonPath];
    if record.comparisonSha256 != Some(digests.ofComparison(comparison)) {
      return false;
    }
    return comparison.candidate == bundle.identity && comparison.baseline == record.baselineIdentity
      && comparison.performance == record.performance && comparison.correctness == record.correctness
      && comparison.aggregate == record.combined;
  }

  // ---- The suite as a state machine ----

  lemma {:induction false} RecordAt(scenarios: seq<Scenario>, outcomes: seq<RunOutcome>, digests: Digests, k: nat)
    requires k < |scenarios| == |outcomes|
    ensures RecordsOf(scenarios, outcomes, digests)[k]
         == if StoppedBefore(outcomes, k) then BlankRecord(scenarios[k], NotRun)
            else RecordOf(scenarios[k], outcomes[k], digests)
    decreases |scenarios|
  {
    var n := |scenarios| - 1;
    if k < n {
      RecordAt(scenarios[..n], outcomes[..n], digests, k);
      assert forall i :: 0 <= i < k ==> outcomes[..n][i] == outcomes[i];
    }
  }

  /** Records match the expansion one to one and in order, and the unrun records are
      exactly the suffix behind the first scenario that produced no typed receipt. */
  lemma {:induction false} SuiteShape(scenarios: seq<Scenario>, outcomes: seq<RunOutcome>, digests: Digests)
    requires |scenarios| == |outcomes|
    ensures var records := RecordsOf(scenarios, outcomes, digests);
            && (forall k :: 0 <= k < |records| ==>
                  records[k].id == scenarios[k].id && records[k].planSha256 == scenarios[k].planSha256
                  && records[k].driver == scenarios[k].driver)
            && (forall k :: 0 <= k < |records| ==>
                  (records[k].status == NotRun <==> exists i :: 0 <= i < k && !Typed(outcomes[i])))
            && (forall j, k :: 0 <= j < k < |records| && records[j].status == NotRun ==> records[k].status == NotRun)
            && (forall k :: 0 <= k < |records| - 1 && records[k].status != NotRun ==>
                  (records[k + 1].status == NotRun <==> !Typed(outcomes[k])))
  {
    var records := RecordsOf(scenarios, outcomes, digests);
    forall k | 0 <= k < |records|
      ensures records[k].id == scenarios[k].id && records[k].planSha256 == scenarios[k].planSha256
      ensures records[k].driver == scenarios[k].driver
      ensures records[k].status == NotRun <==> StoppedBefore(outcomes, k)
    {
      RecordAt(scenarios, outcomes, digests, k);
    }
    forall k | 0 <= k < |records| - 1 && records[k].status != NotRun
      ensures records[k + 1].status == NotRun <==> !Typed(outcomes[k])
    {
      PrefixFacts(scenarios, outcomes, k);
    }
  }

  /** What each record says of its run: an unrun or failed scenario has no verdict, a scenario
      is completed exactly when its comparison gave a combined verdict, and then the record
      has the identities and verdicts of that comparison. */
  lemma RecordMeaning(scenarios: seq<Scenario>, outcomes: seq<RunOutcome>, digests: Digests, k: nat)
    requires k < |scenarios| == |outcomes|
    ensures var r, outcome := RecordsOf(scenarios, outcomes, digests)[k], outcomes[k];
            var ran := forall i :: 0 <= i < k ==> outcomes[i].Compared?;
            && (r.status == NotRun <==> !ran)
            && (r.status == Completed <==> ran && outcome.Compared? && outcome.comparison.aggregate.Some?)
            && (r.status == Cancelled <==> ran && (outcome.NotPublished? || outcome.PublishedButFailed?)
                                               && outcome.cancelled)
            && (r.bundlePath == if ran && !outcome.NotPublished? then Some("scenarios/" + scenarios[k].id + ".eggb")
                                else None)
            && (ran && outcome.Compared? ==>
                  && r.bundleIdentity == Some(outcome.comparison.candidate)
                  && r.baselineIdentity == outcome.comparison.baseline
                  && r.comparisonPath == Some("scenarios/" + scenarios[k].id + ".comparison.json")
                  && r.comparisonSha256 == Some(digests.ofComparison(outcome.comparison))
                  && r.performance == outcome.comparison.performance
                  && r.correctness == outcome.comparison.correctness && r.combined == outcome.comparison.aggregate)
            && (!ran || !outcome.Compared? ==>
                  && r.bundleIdentity == r.comparisonPath == r.comparisonSha256 == None
                  && r.performance == r.correctness == r.combined == None
                  && r.baselineIdentity == scenarios[k].baseline)
  {
    RecordAt(scenarios, outcomes, digests, k);
  }

  // ---- The inspector agrees with the runner ----

  ghost predicate DistinctIds(scenarios: seq<Scenario>) {
    forall i, j :: 0 <= i < j < |scenarios| ==> scenarios[i].id != scenarios[j].id
  }

  /** A run honours the selected driver, and a comparison names the bundle it read. */
  ghost predicate Honest(scenarios: seq<Scenario>, outcomes: seq<RunOutcome>)
    requires |scenarios| == |outcomes|
  {
    forall i :: 0 <= i < |scenarios| && outcomes[i].Compared? ==>
      && (scenarios[i].driver.Some? ==> outcomes[i].bundle.driver == scenarios[i].driver)
      && outcomes[i].comparison.candidate == outcomes[i].bundle.identity
  }

  lemma PathsAreDistinct(a: string, b: string)
    requires a != b
    ensures BundlePath(a) != BundlePath(b) && ComparisonPath(a) != ComparisonPath(b)
  {
    assert forall x: string :: BundlePath(x)[10..|BundlePath(x)| - 5] == x;
    assert forall x: string :: ComparisonPath(x)[10..|ComparisonPath(x)| - 16] == x;
  }

  lemma {:induction false} StoreHolds(scenarios: seq<Scenario>, outcomes: seq<RunOutcome>, k: nat)
    requires k < |scenarios| == |outcomes| && DistinctIds(scenarios)
    requires !StoppedBefore(outcomes, k) && outcomes[k].Compared?
    ensures var bundles, comparisons := BundlesOf(scenarios, outcomes), ComparisonsOf(scenarios, outcomes);
            && BundlePath(scenarios[k].id) in bundles && bundles[BundlePath(scenarios[k].id)] == outcomes[k].bundle
            && ComparisonPath(scenarios[k].id) in comparisons
            && comparisons[ComparisonPath(scenarios[k].id)] == outcomes[k].comparison
    decreases |scenarios|
  {
    var n := |scenarios| - 1;
    if k < n {
      assert forall i :: 0 <= i < k ==> outcomes[..n][i] == outcomes[i];
      StoreHolds(scenarios[..n], outcomes[..n], k);
      PathsAreDistinct(scenarios[k].id, scenarios[n].id);
    }
  }

  lemma CompletedRecordInspects(expansion: Expansion, outcomes: seq<RunOutcome>, digests: Digests, k: nat)
    requires k < |expansion.scenarios| == |outcomes|
    requires DistinctIds(expansion.scenarios) && Honest(expansion.scenarios, outcomes)
    requires !Aborted(expansion.scenarios, outcomes)
    ensures var record := RecordsOf(expansion.scenarios, outcomes, digests)[k];
            (RecordInspects(expansion.scenarios[k], record, StoreOf(expansion, outcomes), digests)
            <==> ReferenceAllowed(expansion.scenarios[k].id))
  {
    RecordAt(expansion.scenarios, outcomes, digests, k);
    if !StoppedBefore(outcomes, k) && outcomes[k].Compared? {
      StoreHolds(expansion.scenarios, outcomes, k);
      assert !BaselineDiffers(expansion.scenarios, outcomes, k);
    }
  }

  /** Over an unchanged store the inspector accepts every receipt the runner publishes,
      exactly when every scenario id is free of dots; the validator of profiles
      allows dots, so some published suites never inspect. */
  lemma {:induction false} InspectorAcceptsRunner(expansion: Expansion, outcomes: seq<RunOutcome>, digests: Digests)
    requires |expansion.scenarios| == |outcomes|
    requires DistinctIds(expansion.scenarios) && Honest(expansion.scenarios, outcomes)
    requires !Aborted(expansion.scenarios, outcomes)
    requires forall s :: s in expansion.scenarios ==> NameAllowed(s.id)
    ensures Inspects(ReceiptOf(expansion, outcomes, digests), StoreOf(expansion, outcomes), digests)
       <==> forall s :: s in expansion.scenarios ==> '.' !in s.id
  {
    hide RecordInspects, BundlesOf, ComparisonsOf, AggregateScenarios, Honest, Aborted;
    var scenarios := expansion.scenarios;
    var records := RecordsOf(scenarios, outcomes, digests);
    SuiteShape(scenarios, outcomes, digests);
    forall k | 0 <= k < |scenarios|
      ensures RecordInspects(scenarios[k], records[k], StoreOf(expansion, outcomes), digests)
         <==> '.' !in scenarios[k].id
    {
      CompletedRecordInspects(expansion, outcomes, digests, k);
      assert scenarios[k] in scenarios;
    }
  }

  /** The comparison stored for a scenario of a suite. */
  ghost predicate Stored(store: Store, id: string, comparison: Comparison) {
    var path := "scenarios/" + id + ".comparison.json";
    path in store.comparisons && store.comparisons[path] == comparison
  }

  ghost predicate StoredBundle(store: Store, id: string, bundle: Bundle) {
    var path := "scenarios/" + id + ".eggb";
    path in store.bundles && store.bundles[path] == bundle
  }

  /** A receipt that inspects says nothing that the stored evidence does not: a completed
      record has the digest, the identities and the verdicts of the stored comparison, which
      read the stored bundle and the frozen baseline. */
  lemma InspectedRecordIsBacked(receipt: Receipt, store: Store, digests: Digests, k: nat)
    requires Inspects(receipt, store, digests) && k < |receipt.scenarios|
    requires receipt.scenarios[k].status == Completed
    ensures var r, expanded := receipt.scenarios[k], store.expansion.scenarios[k];
            exists bundle, comparison ::
              && StoredBundle(store, expanded.id, bundle) && Stored(store, expanded.id, comparison)
              && r.comparisonSha256 == Some(digests.ofComparison(comparison))
              && r.bundleIdentity == Some(bundle.identity) == Some(comparison.candidate)
              && r.baselineIdentity == comparison.baseline == expanded.baseline
              && (expanded.driver.Some? ==> bundle.driver == expanded.driver)
              && r.performance == comparison.performance && r.correctness == comparison.correctness
              && r.combined == comparison.aggregate
  {
    var id := store.expansion.scenarios[k].id;
    var bundle, comparison := store.bundles[BundlePath(id)], store.comparisons[ComparisonPath(id)];
    assert StoredBundle(store, id, bundle) && Stored(store, id, comparison);
  }

  /** So a Pass cannot be forged: a receipt that inspects and passes has, for every frozen
      scenario, a stored comparison that passes. */
  lemma InspectedPassIsBacked(receipt: Receipt, store: Store, digests: Digests)
    requires Inspects(receipt, store, digests) && receipt.aggregate == PassVerdict
    ensures receipt.complete && store.expansion.scenarios != []
    ensures forall s :: s in store.expansion.scenarios ==>
              exists comparison :: Stored(store, s.id, comparison) && comparison.aggregate == Some(PassVerdict)
  {
    hide Stored, StoredBundle, RecordInspects;
    SuitePassMeaning(receipt.scenarios);
    forall s | s in store.expansion.scenarios
      ensures exists comparison :: Stored(store, s.id, comparison) && comparison.aggregate == Some(PassVerdict)
    {
      var k :| 0 <= k < |store.expansion.scenarios| && store.expansion.scenarios[k] == s;
      assert receipt.scenarios[k] in receipt.scenarios;
      InspectedRecordIsBacked(receipt, store, digests, k);
    }
  }

  /** One scenario whose id has a dot, and an outcome that completes it. */
  function DottedExpansion(): Expansion {
    Expansion("inputs", [Scenario("a.b", "plan", None, None)])
  }

  function CleanOutcome(): RunOutcome {
    Compared(Bundle("bundle", None), Comparison("bundle", None, Some(PassVerdict), None, Some(PassVerdict)))
  }

  /** A suite with a dotted scenario id that runs, passes, is published, and is refused. */
  lemma DottedSuiteRefused(digests: Digests)
    ensures var expansion, outcomes := DottedExpansion(), [CleanOutcome()];
            && NameAllowed(expansion.scenarios[0].id)
            && !Aborted(expansion.scenarios, outcomes)
            && ReceiptOf(expansion, outcomes, digests).aggregate == PassVerdict
            && !Inspects(ReceiptOf(expansion, outcomes, digests), StoreOf(expansion, outcomes), digests)
  {
    hide NameAllowed, ReceiptOf, Inspects, StoreOf, Aborted, Honest, DistinctIds;
    var expansion, outcomes := DottedExpansion(), [CleanOutcome()];
    DottedId();
    OneScenarioPasses(expansion, outcomes, digests);
    assert expansion.scenarios[0] in expansion.scenarios;
    InspectorAcceptsRunner(expansion, outcomes, digests);
  }

  lemma DottedId()
    ensures NameAllowed("a.b") && '.' in "a.b"
  {
    assert "a.b"[1] == '.';
  }

  lemma OneScenarioPasses(expansion: Expansion, outcomes: seq<RunOutcome>, digests: Digests)
    requires |expansion.scenarios| == 1 && outcomes == [CleanOutcome()]
    requires expansion.scenarios[0].driver.None? && expansion.scenarios[0].baseline.None?
    ensures DistinctIds(expansion.scenarios) && Honest(expansion.scenarios, outcomes)
    ensures !Aborted(expansion.scenarios, outcomes)
    ensures ReceiptOf(expansion, outcomes, digests).aggregate == PassVerdict
  {
    var records := RecordsOf(expansion.scenarios, outcomes, digests);
    RecordAt(expansion.scenarios, outcomes, digests, 0);
    SuitePassMeaning(records);
  }

  // ---- What a passing suite means ----

  lemma {:induction false} CombinedVerdictsMembers(records: seq<Record>)
    requires forall r :: r in records ==> r.combined.Some?
    ensures forall r :: r in records ==> r.combined.value in CombinedVerdicts(records)
    ensures forall v :: v in CombinedVerdicts(records) ==> exists r :: r in records && r.combined == Some(v)
    decreases |records|
  {
    if records != [] {
      var init, last := records[..|records| - 1], records[|records| - 1];
      assert records == init + [last];
      CombinedVerdictsMembers(init);
    }
  }

  /** A suite passes exactly when it has scenarios and every one of them completed with
      a combined Pass. */
  lemma SuitePassMeaning(records: seq<Record>)
    ensures AggregateScenarios(records) == PassVerdict
       <==> records != [] && forall r :: r in records ==> r.status == Completed && r.combined == Some(PassVerdict)
  {
    if records != [] && forall r :: r in records ==> r.status == Completed && r.combined.Some? {
      CombinedVerdictsMembers(records);
      QualificationConcatenates(CombinedVerdicts(records), []);
      assert CombinedVerdicts(records) + [] == CombinedVerdicts(records);
    }
  }

  /** In a published suite that passes, every scenario ran, was compared, and its typed
      receipt passed as a whole. */
  lemma PassingSuiteRanEverything(expansion: Expansion, outcomes: seq<RunOutcome>, digests: Digests, k: nat)
    requires k < |expansion.scenarios| == |outcomes|
    requires ReceiptOf(expansion, outcomes, digests).aggregate == PassVerdict
    ensures outcomes[k].Compared? && outcomes[k].comparison.aggregate == Some(PassVerdict)
    ensures ReceiptOf(expansion, outcomes, digests).complete
  {
    var records := RecordsOf(expansion.scenarios, outcomes, digests);
    SuitePassMeaning(records);
    RecordAt(expansion.scenarios, outcomes, digests, k);
    assert records[k] in records;
  }
}
