/**
  Joining the two arms of a paired run (`select_pairs` in comparison.rs).

  The first trial seen for an (arm, pair) identity speaks for it, even when it is
  unusable; later ones are duplicates.
 */
module PairJoin {
  import opened Basics
  import opened Evaluation

  datatype CompletePair = CompletePair(
    pairId: nat, candidateTrial: nat, baselineTrial: nat, candidateValue: Scalar, baselineValue: Scalar)

  datatype PairSelection = PairSelection(
    complete: seq<CompletePair>, excludedPairs: seq<nat>,
    candidateExcluded: seq<Excluded>, baselineExcluded: seq<Excluded>)

  /** Pair id to contributing trial and value, for one arm. */
  type Contributions = map<nat, (nat, Scalar)>

  predicate Tagged(trial: Trial) {
    trial.arm.Some? && trial.pairId.Some?
  }

  predicate TaggedAs(trial: Trial, arm: Arm, pair: nat) {
    trial.arm == Some(arm) && trial.pairId == Some(pair)
  }

  predicate Seen(trials: seq<Trial>, arm: Arm, pair: nat) {
    exists t :: t in trials && TaggedAs(t, arm, pair)
  }

  /** What the trials so far contribute to one arm. */
  function ArmValues(trials: seq<Trial>, arm: Arm, metric: string): Contributions {
    if trials == [] then map[]
    else
      var init, last := trials[..|trials| - 1], trials[|trials| - 1];
      var values := ArmValues(init, arm, metric);
      if last.arm == Some(arm) && last.pairId.Some? && !Seen(init, arm, last.pairId.value) && Usable(last, metric).Ok?
      then values[last.pairId.value := (last.id, Usable(last, metric).value)]
      else values
  }

  /** Why a trial contributes nothing to `arm`, if it concerns that arm at all. */
  function ArmExclusion(init: seq<Trial>, last: Trial, arm: Arm, metric: string): seq<Excluded> {
    if !Tagged(last) then [Excluded(last.id, "trial_missing_pair_identity")]
    else if last.arm != Some(arm) then []
    else if Seen(init, arm, last.pairId.value) then [Excluded(last.id, "duplicate_pair_identity")]
    else match Usable(last, metric) case Ok(_) => [] case Err(reason) => [Excluded(last.id, reason)]
  }

  function ArmExcluded(trials: seq<Trial>, arm: Arm, metric: string): seq<Excluded> {
    if trials == [] then []
    else
      var init, last := trials[..|trials| - 1], trials[|trials| - 1];
      ArmExcluded(init, arm, metric) + ArmExclusion(init, last, arm, metric)
  }

  // ---- Pair ids in increasing order ----

  ghost predicate Increasing(ids: seq<nat>) {
    forall i, j :: 0 <= i < j < |ids| ==> ids[i] < ids[j]
  }

  lemma {:induction false} LeastWitness(ids: set<nat>) returns (least: nat)
    requires ids != {}
    ensures least in ids && forall id :: id in ids ==> least <= id
    decreases |ids|
  {
    var first :| first in ids;
    least := first;
    var rest := ids - {first};
    assert forall id :: id in ids ==> id == first || id in rest;
    if rest != {} {
      var other := LeastWitness(rest);
      if other < least {
        least := other;
      }
    }
  }

  lemma LeastExists(ids: set<nat>)
    requires ids != {}
    ensures exists least :: least in ids && forall id :: id in ids ==> least <= id
  {
    var least := LeastWitness(ids);
  }

  function Least(ids: set<nat>): (least: nat)
    requires ids != {}
    ensures least in ids && forall id :: id in ids ==> least <= id
  {
    LeastExists(ids);
    var least :| least in ids && forall id :: id in ids ==> least <= id;
    least
  }

  /** The members of `ids` in increasing order. */
  function InOrder(ids: set<nat>): (s: seq<nat>)
    ensures forall id :: id in s <==> id in ids
    ensures Increasing(s)
    decreases |ids|
  {
    if ids == {} then []
    else
      var least := Least(ids);
      [least] + InOrder(ids - {least})
  }

  function CompleteOf(ids: seq<nat>, candidate: Contributions, baseline: Contributions): seq<CompletePair> {
    if ids == [] then []
    else
      var last := ids[|ids| - 1];
      CompleteOf(ids[..|ids| - 1], candidate, baseline)
      + if last in candidate && last in baseline
        then [CompletePair(last, candidate[last].0, baseline[last].0, candidate[last].1, baseline[last].1)]
        else []
  }

  function IncompleteOf(ids: seq<nat>, candidate: Contributions, baseline: Contributions): seq<nat> {
    if ids == [] then []
    else
      var last := ids[|ids| - 1];
      IncompleteOf(ids[..|ids| - 1], candidate, baseline)
      + if last in candidate && last in baseline then [] else [last]
  }

  function Join(trials: seq<Trial>, metric: string): PairSelection {
    var candidate := ArmValues(trials, CandidateArm, metric);
    var baseline := ArmValues(trials, BaselineArm, metric);
    var ids := InOrder(candidate.Keys + baseline.Keys);
    PairSelection(CompleteOf(ids, candidate, baseline), IncompleteOf(ids, candidate, baseline),
                  ArmExcluded(trials, CandidateArm, metric), ArmExcluded(trials, BaselineArm, metric))
  }

  // ---- The algorithm ----

  lemma SeenSnoc(trials: seq<Trial>, last: Trial)
    ensures forall arm, pair ::
              Seen(trials + [last], arm, pair) <==> Seen(trials, arm, pair) || TaggedAs(last, arm, pair)
  {
    forall arm, pair
      ensures Seen(trials + [last], arm, pair) <==> Seen(trials, arm, pair) || TaggedAs(last, arm, pair)
    {
      assert forall t :: t in trials + [last] <==> t in trials || t == last;
    }
  }

  lemma NothingSeen()
    ensures forall arm, pair :: !Seen([], arm, pair)
  {
  }

  method SelectPairs(trials: seq<Trial>, metric: string) returns (selection: PairSelection)
    ensures selection == Join(trials, metric)
  {
    hide Usable, Seen;
    var candidateValues, baselineValues: Contributions := map[], map[];
    var candidateExcluded, baselineExcluded: seq<Excluded> := [], [];
    var seen: set<(Arm, nat)> := {};
    NothingSeen();
    for i := 0 to |trials|
      invariant forall arm, pair: nat :: (arm, pair) in seen <==> Seen(trials[..i], arm, pair)
      invariant candidateValues == ArmValues(trials[..i], CandidateArm, metric)
      invariant baselineValues == ArmValues(trials[..i], BaselineArm, metric)
      invariant candidateExcluded == ArmExcluded(trials[..i], CandidateArm, metric)
      invariant baselineExcluded == ArmExcluded(trials[..i], BaselineArm, metric)
    {
      var trial := trials[i];
      assert trials[..i + 1] == trials[..i] + [trial];
      assert trials[..i + 1][..i] == trials[..i];
      SeenSnoc(trials[..i], trial);
      if trial.arm.None? || trial.pairId.None? {
        var exclusion := Excluded(trial.id, "trial_missing_pair_identity");
        candidateExcluded := candidateExcluded + [exclusion];
        baselineExcluded := baselineExcluded + [exclusion];
        continue;
      }
      var arm, pair := trial.arm.value, trial.pairId.value;
      var repeated := (arm, pair) in seen;
      seen := seen + {(arm, pair)};
      var outcome: Result<Scalar, string> :=
        if repeated then Err("duplicate_pair_identity") else Usable(trial, metric);
      assert repeated <==> Seen(trials[..i], arm, pair);
      match (arm, outcome) {
        case (CandidateArm, Ok(value)) => candidateValues := candidateValues[pair := (trial.id, value)];
        case (CandidateArm, Err(reason)) => candidateExcluded := candidateExcluded + [Excluded(trial.id, reason)];
        case (BaselineArm, Ok(value)) => baselineValues := baselineValues[pair := (trial.id, value)];
        case (BaselineArm, Err(reason)) => baselineExcluded := baselineExcluded + [Excluded(trial.id, reason)];
      }
    }
    assert trials[..|trials|] == trials;
    var complete, excluded := PairUp(InOrder(candidateValues.Keys + baselineValues.Keys), candidateValues,
                                     baselineValues);
    selection := PairSelection(complete, excluded, candidateExcluded, baselineExcluded);
  }

  /** The second loop: walk the pair ids in order and keep the complete ones. */
  method PairUp(ids: seq<nat>, candidate: Contributions, baseline: Contributions)
    returns (complete: seq<CompletePair>, excluded: seq<nat>)
    ensures complete == CompleteOf(ids, candidate, baseline)
    ensures excluded == IncompleteOf(ids, candidate, baseline)
  {
    complete, excluded := [], [];
    for i := 0 to |ids|
      invariant complete == CompleteOf(ids[..i], candidate, baseline)
      invariant excluded == IncompleteOf(ids[..i], candidate, baseline)
    {
      var id := ids[i];
      assert ids[..i + 1][..i] == ids[..i];
      if id in candidate && id in baseline {
        complete := complete + [CompletePair(id, candidate[id].0, baseline[id].0, candidate[id].1, baseline[id].1)];
      } else {
        excluded := excluded + [id];
      }
    }
    assert ids[..|ids|] == ids;
  }

  // ---- What the join means ----

  /** The first trial that claims an (arm, pair) identity. */
  function Claimant(trials: seq<Trial>, arm: Arm, pair: nat): Option<Trial> {
    if trials == [] then None
    else
      var earlier := Claimant(trials[..|trials| - 1], arm, pair);
      var last := trials[|trials| - 1];
      if earlier.Some? then earlier else if TaggedAs(last, arm, pair) then Some(last) else None
  }

  lemma {:induction false} ClaimantIsFirst(trials: seq<Trial>, arm: Arm, pair: nat)
    ensures Claimant(trials, arm, pair).None? <==> !Seen(trials, arm, pair)
    ensures Claimant(trials, arm, pair).Some? ==>
              exists k :: 0 <= k < |trials| && trials[k] == Claimant(trials, arm, pair).value
                && TaggedAs(trials[k], arm, pair) && !Seen(trials[..k], arm, pair)
    decreases |trials|
  {
    if trials != [] {
      var n := |trials| - 1;
      ClaimantIsFirst(trials[..n], arm, pair);
      SeenSnoc(trials[..n], trials[n]);
      assert trials == trials[..n] + [trials[n]];
      if Claimant(trials[..n], arm, pair).Some? {
        var k :| 0 <= k < n && trials[..n][k] == Claimant(trials[..n], arm, pair).value
                && TaggedAs(trials[..n][k], arm, pair) && !Seen(trials[..n][..k], arm, pair);
        assert trials[..n][..k] == trials[..k];
      }
    }
  }

  ghost predicate UsableArm(trials: seq<Trial>, arm: Arm, metric: string, pair: nat) {
    var claimant := Claimant(trials, arm, pair);
    claimant.Some? && Usable(claimant.value, metric).Ok?
  }

  /** An arm contributes to a pair exactly through the first trial that claims it,
      and only if that trial is usable. */
  lemma {:induction false} ArmValuesMeaning(trials: seq<Trial>, arm: Arm, metric: string, pair: nat)
    ensures pair in ArmValues(trials, arm, metric) <==> UsableArm(trials, arm, metric, pair)
    ensures pair in ArmValues(trials, arm, metric) ==>
              var claimant := Claimant(trials, arm, pair).value;
              ArmValues(trials, arm, metric)[pair] == (claimant.id, Usable(claimant, metric).value)
    decreases |trials|
  {
    if trials != [] {
      ArmValuesMeaning(trials[..|trials| - 1], arm, metric, pair);
      ClaimantIsFirst(trials[..|trials| - 1], arm, pair);
    }
  }

  ghost predicate InBoth(pair: nat, candidate: Contributions, baseline: Contributions) {
    pair in candidate && pair in baseline
  }

  /** The complete pair that two contributions form. */
  function PairOf(pair: nat, candidate: Contributions, baseline: Contributions): CompletePair
    requires pair in candidate && pair in baseline
  {
    CompletePair(pair, candidate[pair].0, baseline[pair].0, candidate[pair].1, baseline[pair].1)
  }

  lemma {:induction false} CompleteOfMembers(ids: seq<nat>, candidate: Contributions, baseline: Contributions)
    ensures forall p :: p in CompleteOf(ids, candidate, baseline) ==>
              p.pairId in ids && InBoth(p.pairId, candidate, baseline) && p == PairOf(p.pairId, candidate, baseline)
    ensures forall id :: id in ids && InBoth(id, candidate, baseline) ==>
              PairOf(id, candidate, baseline) in CompleteOf(ids, candidate, baseline)
    decreases |ids|
  {
    if ids != [] {
      var init, last := ids[..|ids| - 1], ids[|ids| - 1];
      CompleteOfMembers(init, candidate, baseline);
      assert ids == init + [last];
    }
  }

  lemma {:induction false} CompleteOfOrdered(ids: seq<nat>, candidate: Contributions, baseline: Contributions)
    requires Increasing(ids)
    ensures forall i, j :: 0 <= i < j < |CompleteOf(ids, candidate, baseline)| ==>
              CompleteOf(ids, candidate, baseline)[i].pairId < CompleteOf(ids, candidate, baseline)[j].pairId
    decreases |ids|
  {
    if ids != [] {
      var init, last := ids[..|ids| - 1], ids[|ids| - 1];
      CompleteOfOrdered(init, candidate, baseline);
      CompleteOfMembers(init, candidate, baseline);
      var before := CompleteOf(init, candidate, baseline);
      forall i | 0 <= i < |before|
        ensures before[i].pairId < last
      {
        assert before[i] in before;
      }
    }
  }

  lemma {:induction false} IncompleteOfMembers(ids: seq<nat>, candidate: Contributions, baseline: Contributions)
    ensures forall id :: id in IncompleteOf(ids, candidate, baseline) <==> id in ids && !InBoth(id, candidate, baseline)
    decreases |ids|
  {
    if ids != [] {
      var init, last := ids[..|ids| - 1], ids[|ids| - 1];
      IncompleteOfMembers(init, candidate, baseline);
      assert ids == init + [last];
    }
  }

  lemma {:induction false} IncompleteOfOrdered(ids: seq<nat>, candidate: Contributions, baseline: Contributions)
    requires Increasing(ids)
    ensures Increasing(IncompleteOf(ids, candidate, baseline))
    decreases |ids|
  {
    if ids != [] {
      var init, last := ids[..|ids| - 1], ids[|ids| - 1];
      IncompleteOfOrdered(init, candidate, baseline);
      IncompleteOfMembers(init, candidate, baseline);
      var before := IncompleteOf(init, candidate, baseline);
      forall i | 0 <= i < |before|
        ensures before[i] < last
      {
        assert before[i] in before;
      }
    }
  }

  /** The join is exact: complete pairs come in strictly increasing pair id and are
      precisely those where both first claims are usable; excluded pairs are
      precisely those where exactly one is. */
  lemma JoinIsExact(trials: seq<Trial>, metric: string)
    ensures var selection := Join(trials, metric);
            && (forall i, j :: 0 <= i < j < |selection.complete| ==>
                  selection.complete[i].pairId < selection.complete[j].pairId)
            && (forall pair: nat :: (exists p :: p in selection.complete && p.pairId == pair)
                  <==> UsableArm(trials, CandidateArm, metric, pair) && UsableArm(trials, BaselineArm, metric, pair))
            && Increasing(selection.excludedPairs)
            && (forall pair: nat :: pair in selection.excludedPairs
                  <==> (UsableArm(trials, CandidateArm, metric, pair) != UsableArm(trials, BaselineArm, metric, pair)))
  {
    hide UsableArm, CompleteOf, IncompleteOf, ArmValues, ArmExcluded, InOrder;
    var candidate := ArmValues(trials, CandidateArm, metric);
    var baseline := ArmValues(trials, BaselineArm, metric);
    var ids := InOrder(candidate.Keys + baseline.Keys);
    CompleteOfMembers(ids, candidate, baseline);
    CompleteOfOrdered(ids, candidate, baseline);
    IncompleteOfMembers(ids, candidate, baseline);
    IncompleteOfOrdered(ids, candidate, baseline);
    var complete := Join(trials, metric).complete;
    forall pair: nat
      ensures pair in candidate <==> UsableArm(trials, CandidateArm, metric, pair)
      ensures pair in baseline <==> UsableArm(trials, BaselineArm, metric, pair)
      ensures (exists p :: p in complete && p.pairId == pair) <==> InBoth(pair, candidate, baseline)
    {
      ArmValuesMeaning(trials, CandidateArm, metric, pair);
      ArmValuesMeaning(trials, BaselineArm, metric, pair);
      if InBoth(pair, candidate, baseline) {
        assert PairOf(pair, candidate, baseline) in complete;
      }
    }
  }

  /** Each complete pair carries the values of its two first claimants. */
  lemma {:induction false} CompletePairValues(trials: seq<Trial>, metric: string, p: CompletePair)
    requires p in Join(trials, metric).complete
    ensures var c, b := Claimant(trials, CandidateArm, p.pairId), Claimant(trials, BaselineArm, p.pairId);
            && c.Some? && Usable(c.value, metric) == Ok(p.candidateValue) && p.candidateTrial == c.value.id
            && b.Some? && Usable(b.value, metric) == Ok(p.baselineValue) && p.baselineTrial == b.value.id
  {
    var candidate := ArmValues(trials, CandidateArm, metric);
    var baseline := ArmValues(trials, BaselineArm, metric);
    CompleteOfMembers(InOrder(candidate.Keys + baseline.Keys), candidate, baseline);
    ArmValuesMeaning(trials, CandidateArm, metric, p.pairId);
    ArmValuesMeaning(trials, BaselineArm, metric, p.pairId);
  }

  // ---- Accounting ----

  /** Trials of one arm plus trials without a pair identity. */
  function Concerning(trials: seq<Trial>, arm: Arm): nat {
    if trials == [] then 0
    else
      var last := trials[|trials| - 1];
      Concerning(trials[..|trials| - 1], arm) + if !Tagged(last) || last.arm == Some(arm) then 1 else 0
  }

  lemma ArmKeysAreSeen(trials: seq<Trial>, arm: Arm, metric: string, pair: nat)
    requires pair in ArmValues(trials, arm, metric)
    ensures Seen(trials, arm, pair)
  {
    ArmValuesMeaning(trials, arm, metric, pair);
    ClaimantIsFirst(trials, arm, pair);
  }

  /** Every trial that concerns an arm is either the usable contributor of a pair or
      listed as excluded, and never both. */
  lemma {:induction false} ArmAccounting(trials: seq<Trial>, arm: Arm, metric: string)
    ensures |ArmValues(trials, arm, metric)| + |ArmExcluded(trials, arm, metric)| == Concerning(trials, arm)
    decreases |trials|
  {
    if trials != [] {
      var init, last := trials[..|trials| - 1], trials[|trials| - 1];
      ArmAccounting(init, arm, metric);
      if last.arm == Some(arm) && last.pairId.Some? && last.pairId.value in ArmValues(init, arm, metric) {
        ArmKeysAreSeen(init, arm, metric, last.pairId.value);
      }
    }
  }

  /** Why trial `k` contributes nothing to an arm: it has no pair identity, or it is of that
      arm and an earlier trial has its identity, or it is the first and unusable. */
  ghost predicate ExcludedBecause(trials: seq<Trial>, k: nat, arm: Arm, metric: string, reason: string)
    requires k < |trials|
  {
    var t := trials[k];
    if t.arm.None? || t.pairId.None? then reason == "trial_missing_pair_identity"
    else
      && t.arm.value == arm
      && if exists j :: 0 <= j < k && trials[j].arm == Some(arm) && trials[j].pairId == t.pairId
         then reason == "duplicate_pair_identity"
         else Usable(t, metric) == Err(reason)
  }

  lemma {:induction false} ArmExcludedMeaning(trials: seq<Trial>, arm: Arm, metric: string, e: Excluded)
    ensures e in ArmExcluded(trials, arm, metric)
       <==> exists k :: 0 <= k < |trials| && trials[k].id == e.trial
                        && ExcludedBecause(trials, k, arm, metric, e.reason)
    decreases |trials|
  {
    hide Usable;
    if trials != [] {
      var n := |trials| - 1;
      ArmExcludedMeaning(trials[..n], arm, metric, e);
      forall k | 0 <= k < n
        ensures ExcludedBecause(trials[..n], k, arm, metric, e.reason)
           <==> ExcludedBecause(trials, k, arm, metric, e.reason)
      {
        assert trials[..n][k] == trials[k] && forall j :: 0 <= j < k ==> trials[..n][j] == trials[j];
      }
      LastExclusion(trials, arm, metric, e);
    }
  }

  lemma LastExclusion(trials: seq<Trial>, arm: Arm, metric: string, e: Excluded)
    requires trials != []
    ensures var n := |trials| - 1;
            (e in ArmExclusion(trials[..n], trials[n], arm, metric)
            <==> trials[n].id == e.trial && ExcludedBecause(trials, n, arm, metric, e.reason))
  {
    hide Usable;
    var n := |trials| - 1;
    if trials[n].pairId.Some? {
      var pair := trials[n].pairId.value;
      assert Seen(trials[..n], arm, pair)
        <==> exists j :: 0 <= j < n && trials[j].arm == Some(arm) && trials[j].pairId == Some(pair) by {
        if Seen(trials[..n], arm, pair) {
          var t :| t in trials[..n] && TaggedAs(t, arm, pair);
          var j :| 0 <= j < n && trials[..n][j] == t;
          assert trials[j] == t;
        }
        if j :| 0 <= j < n && trials[j].arm == Some(arm) && trials[j].pairId == Some(pair) {
          assert trials[j] in trials[..n];
        }
      }
    }
  }

  /** Each arm's exclusion list of the selection holds exactly the trials that concern the arm
      without contributing, each with its reason, and as many entries as there are such trials. */
  lemma ExclusionListsMeaning(trials: seq<Trial>, metric: string, e: Excluded)
    ensures var selection := Join(trials, metric);
            && (e in selection.candidateExcluded
                <==> exists k :: 0 <= k < |trials| && trials[k].id == e.trial
                                 && ExcludedBecause(trials, k, CandidateArm, metric, e.reason))
            && (e in selection.baselineExcluded
                <==> exists k :: 0 <= k < |trials| && trials[k].id == e.trial
                                 && ExcludedBecause(trials, k, BaselineArm, metric, e.reason))
            && |ArmValues(trials, CandidateArm, metric)| + |selection.candidateExcluded|
                 == Concerning(trials, CandidateArm)
            && |ArmValues(trials, BaselineArm, metric)| + |selection.baselineExcluded|
                 == Concerning(trials, BaselineArm)
  {
    hide ExcludedBecause, ArmExcluded, ArmValues, Concerning, CompleteOf, IncompleteOf, InOrder;
    ArmExcludedMeaning(trials, CandidateArm, metric, e);
    ArmExcludedMeaning(trials, BaselineArm, metric, e);
    ArmAccounting(trials, CandidateArm, metric);
    ArmAccounting(trials, BaselineArm, metric);
  }

  // ---- Order of the trials ----

  ghost predicate NoDuplicateClaims(trials: seq<Trial>) {
    forall i, j, arm, pair :: 0 <= i < j < |trials| ==>
      !(TaggedAs(trials[i], arm, pair) && TaggedAs(trials[j], arm, pair))
  }

  lemma {:induction false} ArmValuesOrderFree(a: seq<Trial>, b: seq<Trial>, arm: Arm, metric: string)
    requires NoDuplicateClaims(a) && NoDuplicateClaims(b)
    requires forall t :: t in a <==> t in b
    ensures ArmValues(a, arm, metric) == ArmValues(b, arm, metric)
  {
    forall pair: nat
      ensures pair in ArmValues(a, arm, metric) <==> pair in ArmValues(b, arm, metric)
      ensures pair in ArmValues(a, arm, metric) ==> ArmValues(a, arm, metric)[pair] == ArmValues(b, arm, metric)[pair]
    {
      ContributionMoves(a, b, arm, metric, pair);
      ContributionMoves(b, a, arm, metric, pair);
    }
  }

  lemma ContributionMoves(a: seq<Trial>, b: seq<Trial>, arm: Arm, metric: string, pair: nat)
    requires NoDuplicateClaims(b)
    requires forall t :: t in a ==> t in b
    ensures pair in ArmValues(a, arm, metric) ==>
              && pair in ArmValues(b, arm, metric)
              && ArmValues(a, arm, metric)[pair] == ArmValues(b, arm, metric)[pair]
  {
    ArmValuesMeaning(a, arm, metric, pair);
    ArmValuesMeaning(b, arm, metric, pair);
    ClaimantIsFirst(a, arm, pair);
    ClaimantIsFirst(b, arm, pair);
    if pair in ArmValues(a, arm, metric) {
      var claimant := Claimant(a, arm, pair).value;
      assert claimant in b && TaggedAs(claimant, arm, pair);
      var other := Claimant(b, arm, pair).value;
      assert other in b && TaggedAs(other, arm, pair);
      assert other == claimant;
    }
  }

  /** Without duplicate identities, reordering the trials changes neither the
      complete pairs nor the excluded ones. */
  lemma JoinOrderFree(a: seq<Trial>, b: seq<Trial>, metric: string)
    requires NoDuplicateClaims(a) && multiset(a) == multiset(b)
    ensures Join(a, metric).complete == Join(b, metric).complete
    ensures Join(a, metric).excludedPairs == Join(b, metric).excludedPairs
  {
    assert forall t :: t in a <==> t in multiset(a);
    assert forall t :: t in b <==> t in multiset(b);
    NoDuplicatesMove(a, b);
    ArmValuesOrderFree(a, b, CandidateArm, metric);
    ArmValuesOrderFree(a, b, BaselineArm, metric);
  }

  lemma NoDuplicatesMove(a: seq<Trial>, b: seq<Trial>)
    requires NoDuplicateClaims(a) && multiset(a) == multiset(b)
    ensures NoDuplicateClaims(b)
  {
    forall i, j, arm, pair | 0 <= i < j < |b|
      ensures !(TaggedAs(b[i], arm, pair) && TaggedAs(b[j], arm, pair))
    {
      if TaggedAs(b[i], arm, pair) && TaggedAs(b[j], arm, pair) {
        var x, y := b[i], b[j];
        TwoOccurrences(b, i, j);
        assert multiset(b) >= multiset{x, y};
        var k, l := FindTwo(a, x, y);
        assert false;
      }
    }
  }
}
