/**
  The verdict algebra: aggregation of metric dispositions, of correctness
  records and of qualification scenarios, and their conservative combination.
 */
module Verdicts {
  import opened Basics
  import opened Evaluation

  datatype AggregateVerdict = InvalidVerdict | FailVerdict | InconclusiveVerdict | PassVerdict

  datatype CorrectnessDisposition = CheckPass | CheckFail | CheckInvalid

  /** One correctness record: the family of its check and what came out. */
  datatype Check = Check(family: string, disposition: CorrectnessDisposition)

  function Combine(performance: Option<AggregateVerdict>,
                   correctness: Option<AggregateVerdict>): Option<AggregateVerdict> {
    match (performance, correctness)
    case (Some(InvalidVerdict), _) => Some(InvalidVerdict)
    case (_, Some(InvalidVerdict)) => Some(InvalidVerdict)
    case (Some(FailVerdict), _) => Some(FailVerdict)
    case (_, Some(FailVerdict)) => Some(FailVerdict)
    case (Some(InconclusiveVerdict), _) => Some(InconclusiveVerdict)
    case (_, Some(InconclusiveVerdict)) => Some(InconclusiveVerdict)
    case (None, None) => None
    case _ => Some(PassVerdict)
  }

  /** Precedence in the combination; no verdict at all is the weakest. */
  function Strength(verdict: Option<AggregateVerdict>): nat {
    match verdict
    case None => 0
    case Some(PassVerdict) => 1
    case Some(InconclusiveVerdict) => 2
    case Some(FailVerdict) => 3
    case Some(InvalidVerdict) => 4
  }

  /** Combination keeps the stronger verdict, so it is commutative, associative
      and idempotent, with "no verdict" as its unit. */
  lemma CombineIsStrongest(a: Option<AggregateVerdict>, b: Option<AggregateVerdict>, c: Option<AggregateVerdict>)
    ensures Strength(None) < Strength(Some(PassVerdict)) < Strength(Some(InconclusiveVerdict))
         < Strength(Some(FailVerdict)) < Strength(Some(InvalidVerdict))
    ensures Combine(a, b) == a || Combine(a, b) == b
    ensures Strength(Combine(a, b)) >= Strength(a) && Strength(Combine(a, b)) >= Strength(b)
    ensures Combine(a, b) == Combine(b, a)
    ensures Combine(Combine(a, b), c) == Combine(a, Combine(b, c))
    ensures Combine(a, a) == a && Combine(a, None) == a
  {
  }

  // ---- Metric dispositions ----

  predicate PrimaryHas(records: seq<MetricRecord>, disposition: GateDisposition) {
    exists i :: 0 <= i < |records| && records[i].intent == Primary && records[i].disposition == Some(disposition)
  }

  /** Invalid beats Fail beats Inconclusive beats Pass, over primary metrics only. */
  function AggregateOf(records: seq<MetricRecord>): Option<AggregateVerdict> {
    if PrimaryHas(records, Invalid) then Some(InvalidVerdict)
    else if PrimaryHas(records, Fail) then Some(FailVerdict)
    else if PrimaryHas(records, Inconclusive) then Some(InconclusiveVerdict)
    else if PrimaryHas(records, Pass) then Some(PassVerdict)
    else None
  }

  method Aggregate(records: seq<MetricRecord>) returns (verdict: Option<AggregateVerdict>)
    ensures verdict == AggregateOf(records)
  {
    var sawPass, sawInconclusive, sawFail, sawInvalid := false, false, false, false;
    for i := 0 to |records|
      invariant sawPass <==> PrimaryHas(records[..i], Pass)
      invariant sawInconclusive <==> PrimaryHas(records[..i], Inconclusive)
      invariant sawFail <==> PrimaryHas(records[..i], Fail)
      invariant sawInvalid <==> PrimaryHas(records[..i], Invalid)
    {
      var record := records[i];
      PrimaryHasSnoc(records[..i], record);
      assert records[..i + 1] == records[..i] + [record];
      if record.intent != Primary {
        continue;
      }
      match record.disposition {
        case Some(Invalid) => sawInvalid := true;
        case Some(Fail) => sawFail := true;
        case Some(Inconclusive) => sawInconclusive := true;
        case Some(Pass) => sawPass := true;
        case Some(Descriptive) =>
        case None =>
      }
    }
    assert records[..|records|] == records;
    verdict := if sawInvalid then Some(InvalidVerdict)
               else if sawFail then Some(FailVerdict)
               else if sawInconclusive then Some(InconclusiveVerdict)
               else if sawPass then Some(PassVerdict)
               else None;
  }

  lemma PrimaryHasSnoc(records: seq<MetricRecord>, record: MetricRecord)
    ensures forall d :: PrimaryHas(records + [record], d)
              <==> PrimaryHas(records, d) || (record.intent == Primary && record.disposition == Some(d))
  {
    PrimaryHasConcat(records, [record]);
    assert [record][0] == record;
  }

  lemma PrimaryHasConcat(a: seq<MetricRecord>, b: seq<MetricRecord>)
    ensures forall d :: PrimaryHas(a + b, d) <==> PrimaryHas(a, d) || PrimaryHas(b, d)
  {
    forall d
      ensures PrimaryHas(a + b, d) <==> PrimaryHas(a, d) || PrimaryHas(b, d)
    {
      if PrimaryHas(a, d) {
        var i :| 0 <= i < |a| && a[i].intent == Primary && a[i].disposition == Some(d);
        assert (a + b)[i] == a[i];
      }
      if PrimaryHas(b, d) {
        var i :| 0 <= i < |b| && b[i].intent == Primary && b[i].disposition == Some(d);
        assert (a + b)[|a| + i] == b[i];
      }
      if PrimaryHas(a + b, d) {
        var i :| 0 <= i < |a + b| && (a + b)[i].intent == Primary && (a + b)[i].disposition == Some(d);
        assert (a + b)[i] == if i < |a| then a[i] else b[i - |a|];
      }
    }
  }

  /** Aggregating a concatenation combines the aggregates of its parts. */
  lemma AggregateConcatenates(a: seq<MetricRecord>, b: seq<MetricRecord>)
    ensures AggregateOf(a + b) == Combine(AggregateOf(a), AggregateOf(b))
  {
    PrimaryHasConcat(a, b);
  }

  /** The verdict of a single disposition; descriptive ones give none. */
  function VerdictOf(disposition: GateDisposition): Option<AggregateVerdict> {
    match disposition
    case Pass => Some(PassVerdict)
    case Fail => Some(FailVerdict)
    case Inconclusive => Some(InconclusiveVerdict)
    case Invalid => Some(InvalidVerdict)
    case Descriptive => None
  }

  /** A lone record gives the verdict of its own disposition, if it is primary and gated;
      with concatenation, this fixes every aggregate. */
  lemma AggregateOfOne(record: MetricRecord)
    ensures AggregateOf([]) == None
    ensures AggregateOf([record])
         == if record.intent == Primary && record.disposition.Some? then VerdictOf(record.disposition.value) else None
  {
    forall d
      ensures PrimaryHas([record], d) <==> record.intent == Primary && record.disposition == Some(d)
    {
      assert [record][0] == record;
    }
  }

  /** A Pass means that some primary metric passed and none did worse. */
  lemma PassAggregateMeaning(records: seq<MetricRecord>)
    ensures AggregateOf(records) == Some(PassVerdict)
       <==> && PrimaryHas(records, Pass)
            && forall i :: 0 <= i < |records| && records[i].intent == Primary ==>
                 records[i].disposition.None? || records[i].disposition.value in {Pass, Descriptive}
  {
    if AggregateOf(records) == Some(PassVerdict) {
      forall i | 0 <= i < |records| && records[i].intent == Primary
        ensures records[i].disposition.None? || records[i].disposition.value in {Pass, Descriptive}
      {
        if records[i].disposition.Some? {
          assert PrimaryHas(records, records[i].disposition.value);
          match records[i].disposition.value {
            case Pass => case Fail => case Inconclusive => case Invalid => case Descriptive =>
          }
        }
      }
    }
  }

  // ---- Correctness ----

  predicate AnyCheck(checks: seq<Check>, disposition: CorrectnessDisposition) {
    exists i :: 0 <= i < |checks| && checks[i].disposition == disposition
  }

  function AggregateCorrectness(checks: seq<Check>): AggregateVerdict {
    if checks == [] || AnyCheck(checks, CheckInvalid) then InvalidVerdict
    else if AnyCheck(checks, CheckFail) then FailVerdict
    else PassVerdict
  }

  /** `aggregate_correctness`. */
  method AggregateChecks(checks: seq<Check>) returns (verdict: AggregateVerdict)
    ensures verdict == AggregateCorrectness(checks)
  {
    if checks == [] || exists c :: c in checks && c.disposition == CheckInvalid {
      return InvalidVerdict;
    }
    if exists c :: c in checks && c.disposition == CheckFail {
      return FailVerdict;
    }
    return PassVerdict;
  }

  /** Correctness passes exactly when there are checks and every one of them passed. */
  lemma PassCorrectnessMeaning(checks: seq<Check>)
    ensures AggregateCorrectness(checks) == PassVerdict
       <==> checks != [] && forall c :: c in checks ==> c.disposition == CheckPass
  {
    if AggregateCorrectness(checks) == PassVerdict {
      forall i | 0 <= i < |checks|
        ensures checks[i].disposition == CheckPass
      {
        assert AnyCheck(checks, checks[i].disposition);
      }
    }
  }

  /** A lone check gives its own verdict, and no check at all is Invalid. */
  lemma CorrectnessOfOne(check: Check)
    ensures AggregateCorrectness([]) == InvalidVerdict
    ensures AggregateCorrectness([check]) == match check.disposition
                                             case CheckPass => PassVerdict
                                             case CheckFail => FailVerdict
                                             case CheckInvalid => InvalidVerdict
  {
    assert [check][0] == check;
  }

  lemma AnyCheckConcat(a: seq<Check>, b: seq<Check>)
    ensures forall d :: AnyCheck(a + b, d) <==> AnyCheck(a, d) || AnyCheck(b, d)
  {
    forall d
      ensures AnyCheck(a + b, d) <==> AnyCheck(a, d) || AnyCheck(b, d)
    {
      if AnyCheck(a, d) {
        var i :| 0 <= i < |a| && a[i].disposition == d;
        assert (a + b)[i] == a[i];
      }
      if AnyCheck(b, d) {
        var i :| 0 <= i < |b| && b[i].disposition == d;
        assert (a + b)[|a| + i] == b[i];
      }
      if AnyCheck(a + b, d) {
        var i :| 0 <= i < |a + b| && (a + b)[i].disposition == d;
        assert (a + b)[i] == if i < |a| then a[i] else b[i - |a|];
      }
    }
  }

  /** Correctness of a concatenation combines like verdicts do exactly when neither part
      is empty, or the whole is Invalid anyway: an empty list is Invalid on its own. */
  lemma CorrectnessConcatenates(a: seq<Check>, b: seq<Check>)
    ensures Some(AggregateCorrectness(a + b)) == Combine(Some(AggregateCorrectness(a)), Some(AggregateCorrectness(b)))
       <==> (a != [] && b != []) || AggregateCorrectness(a + b) == InvalidVerdict
  {
    AnyCheckConcat(a, b);
    assert a == [] ==> a + b == b;
    assert b == [] ==> a + b == a;
  }

  // ---- Qualification ----

  function QualificationVerdict(verdicts: seq<AggregateVerdict>): AggregateVerdict {
    if InvalidVerdict in verdicts then InvalidVerdict
    else if FailVerdict in verdicts then FailVerdict
    else if InconclusiveVerdict in verdicts then InconclusiveVerdict
    else PassVerdict
  }

  method AggregateQualificationVerdicts(verdicts: seq<AggregateVerdict>) returns (result: AggregateVerdict)
    ensures result == QualificationVerdict(verdicts)
  {
    result := PassVerdict;
    for i := 0 to |verdicts|
      invariant result == QualificationVerdict(verdicts[..i])
    {
      assert verdicts[..i + 1] == verdicts[..i] + [verdicts[i]];
      match (result, verdicts[i]) {
        case (InvalidVerdict, _) => result := InvalidVerdict;
        case (_, InvalidVerdict) => result := InvalidVerdict;
        case (FailVerdict, _) => result := FailVerdict;
        case (_, FailVerdict) => result := FailVerdict;
        case (InconclusiveVerdict, _) => result := InconclusiveVerdict;
        case (_, InconclusiveVerdict) => result := InconclusiveVerdict;
        case (PassVerdict, PassVerdict) => result := PassVerdict;
      }
    }
    assert verdicts[..|verdicts|] == verdicts;
  }

  lemma QualificationConcatenates(a: seq<AggregateVerdict>, b: seq<AggregateVerdict>)
    ensures Some(QualificationVerdict(a + b)) == Combine(Some(QualificationVerdict(a)), Some(QualificationVerdict(b)))
    ensures QualificationVerdict(a) == PassVerdict <==> forall v :: v in a ==> v == PassVerdict
    ensures forall v :: QualificationVerdict([v]) == v
  {
  }
}
