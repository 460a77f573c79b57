/**
  What a passing qualification suite guarantees, down to the gates of every comparison.
 */
module SuiteLaws {
  import opened Basics
  import opened Suite
  import opened Verdicts
  import C = Comparison
  import L = ComparisonLaws

  /** What one comparison of a suite read. */
  datatype Inputs = Inputs(candidate: C.Evidence, baseline: Option<C.Evidence>, identity: C.IdentityMatch)

  /** The typed receipt carries the identities and verdicts that `compare` computes. */
  ghost predicate Faithful(comparison: Comparison, inputs: Inputs, sampling: C.Sampling) {
    var receipt := C.ReceiptFor(inputs.candidate, inputs.baseline, inputs.identity, sampling);
    && comparison.candidate == receipt.candidateIdentity && comparison.baseline == receipt.baselineIdentity
    && comparison.performance == receipt.performance
    && comparison.correctness == C.CorrectnessVerdict(inputs.candidate)
    && comparison.aggregate == receipt.aggregate
  }

  /** In a published suite that passes, every scenario ran and was compared, no correctness
      check failed or was invalid, and every retained statistical gate was descriptive or
      rests on comparable testbeds, enough positive evidence, a coherent baseline and an
      interval at or below its threshold. */
  lemma PassingSuiteMeaning(expansion: Expansion, outcomes: seq<RunOutcome>, digests: Digests, inputs: seq<Inputs>,
                            sampling: C.Sampling)
    requires |inputs| == |outcomes| == |expansion.scenarios|
    requires forall k :: 0 <= k < |outcomes| && outcomes[k].Compared? ==>
               Faithful(outcomes[k].comparison, inputs[k], sampling)
    requires ReceiptOf(expansion, outcomes, digests).aggregate == PassVerdict
    ensures forall k :: 0 <= k < |outcomes| ==>
              && outcomes[k].Compared?
              && L.ReceiptSound(inputs[k].candidate, inputs[k].baseline, inputs[k].identity, sampling)
  {
    hide C.ReceiptFor, L.ReceiptSound, ReceiptOf;
    forall k | 0 <= k < |outcomes|
      ensures outcomes[k].Compared?
      ensures L.ReceiptSound(inputs[k].candidate, inputs[k].baseline, inputs[k].identity, sampling)
    {
      PassingSuiteRanEverything(expansion, outcomes, digests, k);
      L.PassingReceiptMeaning(inputs[k].candidate, inputs[k].baseline, inputs[k].identity, sampling);
    }
  }
}
