# eggbench: verified model of the evidence and verdict core

eggbench measures services, stores what it measured in immutable evidence bundles,
compares a candidate bundle with a baseline, and gates releases on the verdict. This
project models the parts of it that decide verdicts or protect evidence, and proves
what they guarantee.

`dafny verify dfyconfig.toml` checks everything.

| component | modules |
|---|---|
| comparison engine | `SplitMix`, `OrderStatistics`, `Averages`, `Bootstrap`, `BootstrapLaws`, `ResamplingLaws`, `Evaluation`, `GateLaws`, `PairJoin`, `PairedEvaluation`, `Verdicts`, `Comparison`, `ComparisonLaws` |
| evidence bundles | `Manifest`, `EvidenceBundle`, `Publication` |
| plans | `ServiceGraph`, `RouteText`, `RouteLaws` |
| trial normalization | `Normalization`, `NormalizationLaws` |
| qualification | `ContentTree`, `EnumerationLaws`, `ContentDigest`, `ContentLaws`, `Suite`, `SuiteLaws` |
| shared | `Basics`, `Ordering`, `Words` |

**How code and model meet.** Code that works step by step is a method with a loop, or a
class with the same fields (`SplitMix64`, `Marks`, `BundleWriter`), and its contract
equates the result with a specification function or states it outright. The laws are
lemmas about those functions, so they hold of every result the methods produce.

**Numbers.** Measured values are exact reals with a `NonFinite` tag where the code tests
finiteness; the total order on floats becomes `<=`. `ln` and `exp` are two functions of
which only the laws in `Bootstrap.Logarithms.Valid` are used: both are monotone, `exp` is
positive and turns differences into quotients, `ln` turns products into sums, and `exp`
undoes `ln`. Generator words are 64-bit and wrap around; quantile indices saturate as
machine integers do.

**Environment.** A directory is a map from paths to bytes, a digest is a function
to texts of 64 hexadecimal digits, so different contents may collide, and a law that needs
two contents not to collide says so; a codec is a function with a left inverse, and an operation that can fail
takes the failure as an input (`Faults`, `FinalizeFaults`, `RunOutcome`). Publication is
a transition system over any number of processes that may crash after any step.
Ordered maps, ordered sets and stable sorts of the standard library are the generic
functions of `Ordering`.

## What came out of the proofs

- A publisher that crashes while it holds the lock file, or cannot remove it, blocks that
  destination for good (`Publication.AbandonedLockReachable`,
  `Publication.AbandonedLockBlocks`). Nothing in the code removes an old lock. Short of
  that, publication stays possible (`Publication.PublicationPossible`).
- The lock-file protocol takes a failing look at the destination for absence. Where the
  platform's rename replaces what it finds, such a look lets a publisher overwrite a bundle
  (`Publication.MisledLookOverwrites`); without one nothing is ever overwritten
  (`Publication.DestinationNeverOverwritten`).
- `BundleWriter::create` accepts file names that contain `.staging-`, and
  `BundleReader::open` refuses them: such a bundle is published complete and can never
  be opened under its name. `EvidenceBundle.CompleteIsAccepted` gives the exact
  condition and `EvidenceBundle.StagingMarkInBundleName` a name.
- A partial file that cannot be removed stays in staging. The writer's books stay right
  (`EvidenceBundle.AccountingOverRuns`), but the bundle can no longer be finalized, and the
  same path cannot be added again.
- Whether normalization succeeds can depend on the order of the raw observations: a
  duplicated metric is attributed to one of them, and an empty source field, a bad producer
  label or a long version is refused only where it is attributed.
  `NormalizationLaws.OrderDecides` gives an input, `NormalizationLaws.SuccessOrderFree` the
  exact condition. Two successes always agree on every value
  (`NormalizationLaws.RawOrderFree`).
- The validator of profiles allows dots in scenario ids and the inspector of receipts
  does not, so a suite with such an id publishes a receipt that never inspects
  (`Suite.DottedSuiteRefused`). `Suite.InspectorAcceptsRunner` shows that this is the only
  case.
- Profile expansion accepts a corpus or a body that is a directory, and reads a backslash
  in a body reference as a slash; the loader refuses directories and first looks for the
  reference as written. `ContentDigest.FrozenLoads` gives the exact condition;
  `ContentDigest.FolderBodyFreezes` and `ContentDigest.BackslashBodyFreezes` give profiles.
- Two files of a directory can get one path, once backslashes become slashes. Within a
  directory files come before subdirectories, so a file of the root and one below it keep
  their order (`EnumerationLaws.RootComesFirst`), but files of sibling directories do not,
  and then the digest depends on which sibling is read first
  (`EnumerationLaws.SiblingsCollide`). `EnumerationLaws.EnumerationOrderFree` gives the exact
  condition: path by path, what any two sibling directories record must commute.
- Without a seed of its own a comparison derives its seed from the identities of both
  bundles, so any change of evidence can move an interval. `ComparisonLaws.SeedShows` and
  `ComparisonLaws.ComparisonNonInterference` say exactly where a seed shows.
- A difference between the environments is judged by the candidate's class of the field, so
  a field that only the baseline holds critical can differ without a mismatch
  (`Comparison.ComparabilityMeaning`, `Comparison.TestbedMeaning`).
- The two quantile indices leave floor(n/40) effects on each side exactly as long as the
  machine product behind the upper index does not saturate
  (`OrderStatistics.IndexArithmetic`).
- An empty list of correctness checks is Invalid on its own, so aggregation does not
  simply concatenate; `Verdicts.CorrectnessConcatenates` gives the exact condition.

## Model

| member | source | states |
|---|---|---|
| SplitMix.SplitMix64.Next | crates/eggbench-core/src/comparison.rs:4085-4091 | the new state and the word drawn, as functions of the old state |
| SplitMix.MixIsInjective | crates/eggbench-core/src/comparison.rs:4087-4090 | the xorshift-multiply output function is injective on 64-bit words |
| SplitMix.WalkPeriod | crates/eggbench-core/src/comparison.rs:4086 | the state returns to where it was after exactly the multiples of 2^64 draws |
| SplitMix.OutputsRepeatWithPeriod | crates/eggbench-core/src/comparison.rs:4085-4091 | two draws give the same word exactly when they are a multiple of 2^64 apart |
| SplitMix.EveryWordOncePerPeriod | crates/eggbench-core/src/comparison.rs:4085-4091 | every 64-bit word is drawn exactly once among the first 2^64 draws, from any seed |
| OrderStatistics.PercentileInterval | crates/eggbench-core/src/comparison.rs:4010-4018 | the interval is the two order statistics at the quantile indices, in saturating machine arithmetic |
| OrderStatistics.IndexArithmetic | crates/eggbench-core/src/comparison.rs:4013-4016 | the indices are symmetric and drop floor(n/40) effects on each side if and only if the product does not saturate |
| OrderStatistics.IntervalCoverage | crates/eggbench-core/src/comparison.rs:4010-4018 | both bounds are effects that occurred, they are in order, and at least 95% of the effects lie between them |
| OrderStatistics.SortMonotone | crates/eggbench-core/src/comparison.rs:4011 | raising samples pointwise raises every order statistic: the k-th smallest follows |
| OrderStatistics.IntervalMonotone | crates/eggbench-core/src/comparison.rs:4010-4018 | raising effects pointwise lowers neither bound |
| Bootstrap.ResampledMeanLog | crates/eggbench-core/src/comparison.rs:4065-4074 | the mean of as many drawn values as there are, each at the remainder of the next generator word by the sample size; the generator advances by the sample size |
| Bootstrap.BootstrapInterval | crates/eggbench-core/src/comparison.rs:4019-4043 | the bounds are the quantiles of the effects of all resamples, which use consecutive words of one generator, candidate draws first |
| Bootstrap.PairedBootstrapInterval | crates/eggbench-core/src/comparison.rs:4051-4060 | the same for log-differences of complete pairs |
| ResamplingLaws.EffectOverWords | crates/eggbench-core/src/comparison.rs:4019-4043 | each effect compares the mean logarithms of the values that two consecutive blocks of generator words pick by remainder, in the gate's direction |
| ResamplingLaws.PairedEffectOverWords | crates/eggbench-core/src/comparison.rs:4051-4060 | the same for the differences of complete pairs |
| ResamplingLaws.EveryValueDrawn | crates/eggbench-core/src/comparison.rs:4068-4072 | for every draw of a resample and every value of the sample some seed makes that draw take that value |
| ResamplingLaws.FairDraws | crates/eggbench-core/src/comparison.rs:4068-4072 | over a full period every position of a sample is drawn equally often, up to one |
| ResamplingLaws.EveryNumberOncePerPeriod | crates/eggbench-core/src/comparison.rs:4085-4091 | every number below 2^64 is drawn exactly once among the first 2^64 draws |
| Averages.TakeMean | crates/eggbench-core/src/comparison.rs:3934-3944 | summing and dividing once gives the mean |
| Averages.AverageMeaning | crates/eggbench-core/src/comparison.rs:3934-3944 | a mean times the count is the sum, which adds up value by value, and it lies within the range of the values |
| Averages.AverageOrderFree | crates/eggbench-core/src/comparison.rs:3934-3944 | a mean does not depend on the order of the values |
| BootstrapLaws.MeanBounds | crates/eggbench-core/src/comparison.rs:4065-4074 | a resampled mean stays within the range of the sample |
| BootstrapLaws.EffectBetween | crates/eggbench-core/src/comparison.rs:4028-4041 | every resampled effect lies between the effects of two single candidate/baseline combinations |
| BootstrapLaws.IntervalWorsens | crates/eggbench-core/src/comparison.rs:4019-4043 | for one seed, making candidate values worse one by one, in either direction, lowers neither bound |
| BootstrapLaws.PairedIntervalWorsens | crates/eggbench-core/src/comparison.rs:4051-4060 | the same for paired log-differences |
| BootstrapLaws.UnanimousInterval | crates/eggbench-core/src/comparison.rs:4019-4043 | if every combination is within the threshold both bounds are, if every one exceeds it both do, for every seed |
| BootstrapLaws.UnanimousPairedInterval | crates/eggbench-core/src/comparison.rs:4051-4060 | the same with one combination per complete pair |
| BootstrapLaws.ScaleInvariance | crates/eggbench-core/src/comparison.rs:4019-4043 | multiplying all values of both sides by one positive factor changes no effect, so no interval |
| BootstrapLaws.OrientationInvariance | crates/eggbench-core/src/comparison.rs:4019-4043 | lower-is-better on x gives the same effects as higher-is-better on 1/x, and conversely |
| Evaluation.SelectTrials | crates/eggbench-core/src/comparison.rs:3858-3908 | values, included and excluded trials, with the reason of each exclusion, in trial order |
| Evaluation.SelectionSizes | crates/eggbench-core/src/comparison.rs:3858-3908 | one value per included trial, and every trial is either included or excluded |
| GateLaws.SelectionMeaning | crates/eggbench-core/src/comparison.rs:3858-3908 | the selected values are, in trial order, those of the completed trials whose first observation of the metric was observed; every other trial is excluded |
| Evaluation.CheckMetricSemantics | crates/eggbench-core/src/comparison.rs:3817-3853 | the scan's first error, carrying its reference observation from trial to trial |
| Evaluation.EvaluateAbsolute | crates/eggbench-core/src/comparison.rs:3761-3798 | disposition and reason of an absolute gate, including every Invalid case |
| Evaluation.EvaluateRelative | crates/eggbench-core/src/comparison.rs:3634-3742 | the whole record of a relative or statistical gate, in the code's order of checks, and its trial-count warning |
| Evaluation.EvaluateMetric | crates/eggbench-core/src/comparison.rs:3568-3631 | the whole record of one metric equals the specification that the gate laws are about |
| GateLaws.SemanticsAccepts | crates/eggbench-core/src/comparison.rs:3817-3853 | the baseline is accepted exactly when some trial carries the metric, every carrier agrees with the request and all carriers agree on aggregation |
| GateLaws.StatisticalVerdictMeaning | crates/eggbench-core/src/comparison.rs:3634-3742 | Pass, Fail and Inconclusive are reached exactly on evaluable evidence (comparable, coherent, positive, max(5, min_trials) per side) and the interval alone decides which; otherwise Invalid, or Descriptive under a non-strict policy |
| GateLaws.RelativeVerdictMeaning | crates/eggbench-core/src/comparison.rs:3634-3718 | Pass and Fail are reached exactly on judgeable evidence (comparable, coherent, positive, with a direction) and the ratio of the two geometric means alone decides which; otherwise Invalid, or Descriptive under a non-strict policy |
| GateLaws.AbsoluteVerdictMeaning | crates/eggbench-core/src/comparison.rs:3761-3798 | an absolute gate passes or fails exactly on finite values of a primary metric with a direction, by their mean alone |
| GateLaws.UnanimousEvidenceDecides | crates/eggbench-core/src/comparison.rs:3719-3738 | unanimous evidence passes or fails the statistical gate for every seed |
| GateLaws.WorseEvidenceNeverHelps | crates/eggbench-core/src/comparison.rs:3568-3742 | for every kind of gate, worse candidate values never give a milder verdict; a relative gate may turn Invalid where a value stops being positive, and otherwise no disposition changes but for the worse |
| GateLaws.LargerAllowanceNeverHurts | crates/eggbench-core/src/comparison.rs:3987-3994 | on the same evidence, raising the allowance never turns a Pass or an Inconclusive into something worse |
| PairJoin.SelectPairs | crates/eggbench-core/src/comparison.rs:2855-2979 | the join of both arms, its excluded pairs and its excluded trials |
| PairJoin.ClaimantIsFirst | crates/eggbench-core/src/comparison.rs:2872-2882 | the trial that speaks for an arm and pair is the first one tagged with them |
| PairJoin.ArmValuesMeaning | crates/eggbench-core/src/comparison.rs:2883-2941 | an arm contributes to a pair exactly when that first trial is usable, and then with its id and value |
| PairJoin.JoinIsExact | crates/eggbench-core/src/comparison.rs:2943-2979 | complete pairs come in strictly increasing id and are precisely those usable on both arms; excluded pairs are precisely those usable on one |
| PairJoin.CompletePairValues | crates/eggbench-core/src/comparison.rs:2948-2961 | a complete pair carries the trials and values of its two first claimants, candidate and baseline not exchanged |
| PairJoin.ArmAccounting | crates/eggbench-core/src/comparison.rs:2861-2942 | per arm, contributors plus exclusions are that arm's trials plus the untagged ones |
| PairJoin.ExclusionListsMeaning | crates/eggbench-core/src/comparison.rs:2861-2978 | each arm's exclusion list holds exactly the trials without a pair identity, the repeated ones of that arm and its unusable first ones, each with its reason, and as many entries as such trials |
| PairJoin.JoinOrderFree | crates/eggbench-core/src/comparison.rs:2855-2979 | without duplicate identities, permuting the trials changes neither complete nor excluded pairs |
| PairedEvaluation.EvaluatePairedMetric | crates/eggbench-core/src/comparison.rs:2659-2847 | the whole record, the paired section with per-pair effects and drift, and the pair-count warning, in the code's order of checks |
| PairedEvaluation.PairedVerdictMeaning | crates/eggbench-core/src/comparison.rs:2739-2837 | a statistical gate over pairs passes, fails or is inconclusive exactly on evaluable pairs and then by the interval alone; otherwise it is Invalid |
| PairedEvaluation.PairedRelativeMeaning | crates/eggbench-core/src/comparison.rs:2745-2788 | a relative gate over pairs passes or fails exactly on judgeable pairs, by the mean log-difference of candidate and baseline alone; otherwise it is Invalid |
| PairedEvaluation.PairEffectsMeaning | crates/eggbench-core/src/comparison.rs:2703-2724 | every complete pair is reported, in order, with its degradation |
| PairedEvaluation.DriftMeaning | crates/eggbench-core/src/comparison.rs:3006-3037 | the two half means, each times its count, add up to all effects, the second half holding the odd one; the trend is the sign of their difference |
| PairedEvaluation.UnanimousPairsDecide | crates/eggbench-core/src/comparison.rs:2801-2837 | if every complete pair is within the allowance the gate passes for every seed, if every one exceeds it the gate fails |
| PairedEvaluation.WorsePairsNeverHelp | crates/eggbench-core/src/comparison.rs:2659-2847 | worse candidate-arm values never give a milder paired verdict; it may turn Invalid where a pair stops being positive, and otherwise only changes for the worse |
| PairedEvaluation.PairedScaleInvariance | crates/eggbench-core/src/comparison.rs:2995-3001 | measuring every pair in another unit changes no difference and no verdict, for every seed |
| PairedEvaluation.PairedOrientationInvariance | crates/eggbench-core/src/comparison.rs:2995-3001 | lower-is-better on x gives the differences and the verdict of higher-is-better on 1/x, and conversely |
| Verdicts.CombineIsStrongest | crates/eggbench-core/src/comparison.rs:1933-1951 | combination keeps the stronger of two verdicts; it is commutative, associative, idempotent, and no verdict is its unit |
| Verdicts.Aggregate | crates/eggbench-core/src/comparison.rs:4135-4163 | the four flags give Invalid over Fail over Inconclusive over Pass, over primary metrics only |
| Verdicts.AggregateConcatenates | crates/eggbench-core/src/comparison.rs:4135-4163 | aggregating a concatenation equals combining the aggregates of its parts |
| Verdicts.PassAggregateMeaning | crates/eggbench-core/src/comparison.rs:4130-4163 | Pass if and only if some primary metric passed and every primary metric passed, is descriptive or is ungated |
| Verdicts.AggregateOfOne | crates/eggbench-core/src/comparison.rs:4135-4163 | a lone record gives the verdict of its own disposition if it is primary and gated, else none |
| Verdicts.PassCorrectnessMeaning | crates/eggbench-core/src/comparison.rs:1908-1923 | correctness passes if and only if there are checks and every one passed |
| Verdicts.CorrectnessOfOne | crates/eggbench-core/src/comparison.rs:1908-1923 | a lone check gives its own verdict, and no check at all is Invalid |
| Verdicts.CorrectnessConcatenates | crates/eggbench-core/src/comparison.rs:1908-1923 | correctness of a concatenation combines like verdicts if and only if neither part is empty or the whole is Invalid anyway |
| Verdicts.AggregateQualificationVerdicts | crates/eggbench-core/src/qualification.rs:381-400 | the fold yields the strongest verdict of the list |
| Verdicts.QualificationConcatenates | crates/eggbench-core/src/qualification.rs:381-400 | the fold distributes over concatenation, and gives Pass exactly when every verdict is Pass |
| Comparison.EvaluateComparability | crates/eggbench-core/src/comparison.rs:3051-3122 | the reported fields with their outcomes in name order, and the critical flag |
| Comparison.TestbedMeaning | crates/eggbench-core/src/comparison.rs:3051-3108 | which entry each field of either side gets: equal, unequal, missing on one side, warning mismatch or none, judged by the candidate's class where there is one, with both values |
| Comparison.TestbedOrdered | crates/eggbench-core/src/comparison.rs:3051-3108 | entries are in strict order of their names |
| Comparison.ComparabilityMeaning | crates/eggbench-core/src/comparison.rs:3051-3122 | no critical mismatch if and only if the identities match, every critical field of the candidate has the same value in the baseline, and no critical field of the baseline is missing from the candidate |
| Comparison.Compare | crates/eggbench-core/src/comparison.rs:2346-2458 | the whole receipt: policy, identities, seed, reported fields, critical flag, records, correctness section, verdicts and their combination, and every warning in order |
| Comparison.DeriveBaseSeed | crates/eggbench-core/src/comparison.rs:2348-2356 | the seed asked for, else the hash of both identities and the policy |
| Comparison.BaseSeedTextInjective | crates/eggbench-core/src/comparison.rs:4104-4121 | the text behind a derived seed determines both identities, the presence of a baseline and the policy |
| Comparison.MetricSeedTextInjective | crates/eggbench-core/src/comparison.rs:4123-4129 | the text behind the seed of a metric determines base seed and metric name |
| Comparison.TruncationIsReported | crates/eggbench-core/src/comparison.rs:117-133 | the truncation warning appears if and only if the receipt holds fewer records than there are metrics |
| Comparison.CollectRecords | crates/eggbench-core/src/comparison.rs:2388-2431 | the loop over metric names stops at 256 records and yields one record per retained name |
| Comparison.ReceiptHoldsSmallestNames | crates/eggbench-core/src/comparison.rs:105-133 | records are in strict name order, at most 256, and an omitted metric is name-greater than every retained one |
| ComparisonLaws.SeedShows | crates/eggbench-core/src/comparison.rs:3719-3731 | a record depends on its seed if and only if it reaches an interval |
| ComparisonLaws.ComparisonNonInterference | crates/eggbench-core/src/comparison.rs:2346-2458 | under changes of the baseline plan's metrics, gates, policy or pairing, of histograms, error counts, warnings or provenance, and of correctness, the records are equal if and only if every record with an interval got the same seed: always under a seed of its own, and not in general under a seed derived from the identities |
| ComparisonLaws.PassingReceiptMeaning | crates/eggbench-core/src/comparison.rs:2431-2437 | in a receipt whose combined verdict is Pass correctness was not asked for or every check passed, every retained primary metric passed, is descriptive or ungated, and every retained statistical gate was descriptive under a non-strict policy or is vouched for by comparable testbeds, enough positive evidence, a coherent baseline and an interval at or below the threshold |
| ServiceGraph.Marks.Visit | crates/eggbench-core/src/plan.rs:2065-2085 | temporary marks are the active path, permanent marks in finishing order are a topological order, and a failure exhibits a cycle |
| ServiceGraph.GraphOf | crates/eggbench-core/src/plan.rs:2086 | the map holds exactly the dependencies of the services, the last of a name winning, and its names are visited in order |
| ServiceGraph.EnsureAcyclic | crates/eggbench-core/src/plan.rs:2064-2092 | accepts if and only if no chain of services closes, each listing the next among its dependencies and being the last of its name; yields an order of all services behind everything they depend on, or such a cycle through the reported service |
| ServiceGraph.TopologicalIsAcyclic | crates/eggbench-core/src/plan.rs:2086-2091 | an order of all services behind everything they depend on excludes every cycle |
| RouteText.ValidateProxyChainShape | crates/eggbench-core/src/plan.rs:2156-2183 | the category of the first bad hop, or acceptance |
| RouteText.ValidateRoute | crates/eggbench-core/src/plan.rs:2110-2135 | the category of the first check a route fails: bounds, control characters, credentials, shape |
| RouteText.ValidateRouteEndpoint | crates/eggbench-core/src/plan.rs:2215-2258 | host and port of an endpoint, or its error |
| RouteLaws.SplitJoin | crates/eggbench-core/src/plan.rs:2185-2213 | splitting at the hop separator undoes joining when no hop holds an underscore |
| RouteLaws.JoinSplit | crates/eggbench-core/src/plan.rs:2185-2213 | joining undoes splitting, for every text |
| RouteLaws.AcceptedHopIsValid | crates/eggbench-core/src/plan.rs:2215-2258 | what an accepted hop can be: known scheme, port 1 to 65535, plain host or bracketed address |
| RouteLaws.ParseFormat | crates/eggbench-core/src/plan.rs:2156-2258 | parsing undoes formatting, for every valid hop |
| RouteLaws.CanonicalMeansTheSame | crates/eggbench-core/src/plan.rs:2185-2213 | the canonical text of an accepted chain is accepted, has as many hops, and parses to the same hops with socks4a read as socks4 |
| RouteLaws.CanonicalTextIsCanonical | crates/eggbench-core/src/plan.rs:2185-2213 | two accepted chains have the same canonical text if and only if they mean the same; canonicalization is idempotent |
| RouteLaws.CanonicalNotLonger | crates/eggbench-core/src/plan.rs:2185-2213 | the canonical text is never longer than the chain |
| RouteLaws.CanonicalRouteAccepted | crates/eggbench-core/src/plan.rs:2110-2183 | a chain that passes the whole route check, with its bounds and forbidden characters, passes it again once canonical |
| Publication.StepKeepsExclusion | crates/eggbench-core/src/evidence.rs:1487-1519 | every step, with a failing look or not, keeps mutual exclusion, and changes the destination only to the stepping publisher's bundle |
| Publication.StepKeepsInvariant | crates/eggbench-core/src/evidence.rs:1487-1519 | every step that is not misled by a failing look changes the destination only from absent to the stepping publisher's bundle |
| Publication.AtMostOnePublication | crates/eggbench-core/src/evidence.rs:1487-1519 | in every run with crashes anywhere, in which no look at an existing destination fails, at most one publisher succeeds and it finds its own bundle at the destination |
| Publication.DestinationNeverOverwritten | crates/eggbench-core/src/evidence.rs:1487-1519 | in such a run what is at the destination stays there, although the rename of the protocol would replace it |
| Publication.OverwritingStep | crates/eggbench-core/src/evidence.rs:1506-1516 | a step overwrites an existing destination if and only if it is the successful rename of a publisher about to rename, whose bundle is not there yet |
| Publication.MisledLookOverwrites | crates/eggbench-core/src/evidence.rs:1506-1516 | a continuation that overwrites an existing destination after one failing look |
| Publication.ProtocolRefinesAtomicRename | crates/eggbench-core/src/evidence.rs:1452-1519 | every step is an atomic rename that refuses to replace, a refusal while a lock file is present, a crash, or invisible |
| Publication.StepOnLock | crates/eggbench-core/src/evidence.rs:1494-1519 | the lock is taken only when absent, becomes abandoned exactly when its holder crashes or cannot remove it, and absent exactly when its holder removes it |
| Publication.AbandonedLockBlocks | crates/eggbench-core/src/evidence.rs:1487-1519 | an abandoned lock stays and nothing is published after it |
| Publication.PublicationPossible | crates/eggbench-core/src/evidence.rs:1487-1519 | while the destination is absent, some continuation lets a publisher succeed with its bundle at the destination if and only if the lock is not abandoned and some publisher is still on its way |
| Publication.AbandonedLockReachable | crates/eggbench-core/src/evidence.rs:1494-1505 | a run that abandons the lock |
| Manifest.Validate | crates/eggbench-core/src/evidence.rs:512-681 | accepts exactly the valid manifests of the current version |
| Manifest.ScanArtifacts | crates/eggbench-core/src/evidence.rs:554-589 | the artifact loop accepts exactly distinct paths, well-formed records and sizes within both bounds, and counts roles |
| Manifest.ScanTrials | crates/eggbench-core/src/evidence.rs:621-642 | the trial loop accepts exactly distinct trials whose references are listed, without repetition and with the right role |
| Manifest.ScanReferences | crates/eggbench-core/src/evidence.rs:631-641 | the references of one trial are accepted exactly when distinct and listed |
| Manifest.VerifyArtifactTree | crates/eggbench-core/src/evidence.rs:1581-1631 | accepts exactly the directories that hold the listed artifacts and nothing else, each with the recorded size and digest |
| EvidenceBundle.OpenAndVerify | crates/eggbench-core/src/evidence.rs:1178-1285 | succeeds exactly on accepted bundles and returns the stored manifest |
| EvidenceBundle.AcceptedContentIsUnique | crates/eggbench-core/src/evidence.rs:1282-1285 | two accepted directories with the same manifest bytes hold the same paths, and are the same directory if and only if no two of their files collide under the digest |
| EvidenceBundle.StagingIsNeverOpenable | crates/eggbench-core/src/evidence.rs:1178-1188 | no staging directory can be opened, whatever it holds |
| EvidenceBundle.CompleteIsAccepted | crates/eggbench-core/src/evidence.rs:1178-1285 | a complete bundle opens and verifies if and only if its name lacks the staging mark |
| EvidenceBundle.StagingMarkInBundleName | crates/eggbench-core/src/evidence.rs:893-898 | a name that creation accepts and opening always refuses |
| EvidenceBundle.ContainsMeaning | crates/eggbench-core/src/evidence.rs:1178-1188 | a name contains the mark exactly when something before and something after it make up the name |
| EvidenceBundle.StreamArtifact | crates/eggbench-core/src/evidence.rs:1021-1054 | the copy loop succeeds exactly on streams that end cleanly within both bounds, and then has written all of them |
| EvidenceBundle.BundleWriter.Create | crates/eggbench-core/src/evidence.rs:888-938 | a writer exists exactly when name, destination, parent, bounds, staging directory and clock allow it, and starts empty |
| EvidenceBundle.BundleWriter.RemainingTotalBytes | crates/eggbench-core/src/evidence.rs:974-976 | remaining and used bytes make up the bound, so the subtraction never underflows, whatever calls failed before |
| EvidenceBundle.BundleWriter.AddArtifact | crates/eggbench-core/src/evidence.rs:990-1074 | succeeds exactly when admissible and then registers the bytes read; a failure changes neither registry nor total, nor staging unless the partial file cannot be removed; the books stay right in every case |
| EvidenceBundle.AddKeepsAccounting | crates/eggbench-core/src/evidence.rs:990-1074 | one call, accepted or failed, failed cleanup included, keeps bounds, total, digests and staged files in agreement |
| EvidenceBundle.AccountingOverRuns | crates/eggbench-core/src/evidence.rs:968-1074 | after every run of calls the total is the sum of the recorded sizes and of the bytes accepted, within its bound, and staging holds registered files only unless a cleanup failed |
| EvidenceBundle.BundleWriter.SealStaging | crates/eggbench-core/src/evidence.rs:1094-1155 | the manifest is written exactly when a valid manifest of storable size carries the facts and staging holds registered files only, and then staging is a complete bundle |
| EvidenceBundle.BundleWriter.WriteManifest | crates/eggbench-core/src/evidence.rs:1142-1155 | succeeds exactly without a failing operation; the destination is untouched at every point |
| EvidenceBundle.BundleWriter.Finalize | crates/eggbench-core/src/evidence.rs:1084-1163 | succeeds exactly when finalizable; then the destination holds the staged files and the manifest, reopening gives that manifest back, and it carries the caller's status, verdict, trials, drivers, comparison and report, the writer's bounds and times, the registered artifacts and the three primary paths; after every operation the destination is as before or a complete bundle |
| Normalization.NormalizeTrialMetrics | crates/eggbench-core/src/metrics.rs:678-796 | succeeds exactly on well-formed input, provenance, histograms and error counts included, with the specified artifact, which passes the validator |
| Normalization.VocabularyIsDocumented | crates/eggbench-core/src/metrics.rs:358-437 | the built-in vocabulary is the documented table, and the metrics held to [0, 1] are those whose unit and aggregation are a ratio |
| Normalization.NormalizeRequest | crates/eggbench-core/src/metrics.rs:725-759 | the record of one request or its structural error; what each outcome means is stated by ObservedMeaning and ReportedReason |
| Normalization.NormalizeDuplicates | crates/eggbench-core/src/metrics.rs:910-934 | duplicates are attributed to the first observation with a producer of its own, else to the first |
| Normalization.NormalizeLone | crates/eggbench-core/src/metrics.rs:936-1018 | the chain of checks on a lone observation, with its resolved sources |
| Normalization.JudgeLone | crates/eggbench-core/src/metrics.rs:938-1003 | the first check a lone observation fails, or its resolved sources |
| Normalization.GroupByName | crates/eggbench-core/src/metrics.rs:701-719 | fails exactly on an oversized observation; otherwise holds exactly the raw observations of each name, in order |
| Normalization.CollectRecords | crates/eggbench-core/src/metrics.rs:721-759 | fails exactly on a repeated request or a structural error; otherwise the records in request order |
| Normalization.CollectWarnings | crates/eggbench-core/src/metrics.rs:767-783 | the warnings in name order, or failure exactly when more than 16 arise |
| Normalization.SortedRecordsFacts | crates/eggbench-core/src/metrics.rs:725-762 | exactly one record per request, in strict name order, and no other record |
| Normalization.NormalizeHistograms | crates/eggbench-core/src/metrics.rs:1022-1064 | the resolved references in (metric, path) order, or failure exactly on an oversized or misnamed one |
| Normalization.NormalizeErrorCounts | crates/eggbench-core/src/metrics.rs:1067-1082 | the last count of each category in category order, or failure exactly on a bad name |
| Normalization.LastCountWins | crates/eggbench-core/src/metrics.rs:1067-1082 | the distribution holds for each category the count given last, and nothing else |
| Normalization.HistogramOrder | crates/eggbench-core/src/metrics.rs:1057-1061 | the order of histograms is by metric, then by path |
| Normalization.ValidateMetrics | crates/eggbench-core/src/metrics.rs:473-544 | accepts exactly strictly ordered artifacts within every bound, with valid records and histograms |
| Normalization.AssembledValidity | crates/eggbench-core/src/metrics.rs:785-795 | an assembled artifact validates if and only if every record can be stored and its histograms are distinct and labelled |
| NormalizationLaws.ObservedMeaning | crates/eggbench-core/src/metrics.rs:813-1019 | a record is observed if and only if the trial completed and exactly one raw observation of that name passes every check; then it carries its value, aggregation and resolved sources; unit, direction and intent are the plan's |
| NormalizationLaws.ReportedReason | crates/eggbench-core/src/metrics.rs:813-1019 | each missing or invalid reason is reported if and only if its check is the first to fail |
| NormalizationLaws.WarningsMeaning | crates/eggbench-core/src/metrics.rs:767-783 | a warning is raised exactly for each unrequested name and for each requested name that occurs more than once |
| NormalizationLaws.HistogramsMeaning | crates/eggbench-core/src/metrics.rs:1022-1064 | the histograms are exactly the raw ones whose artifact was staged, each with the staged path |
| NormalizationLaws.RequestOrderFree | crates/eggbench-core/src/metrics.rs:678-796 | permuting the requests changes neither success nor the output |
| NormalizationLaws.RawOrderFree | crates/eggbench-core/src/metrics.rs:678-796 | two orders of the raw observations that both succeed agree on every record but for provenance, and on histograms, error counts and warnings |
| NormalizationLaws.EveryOrderSucceeds | crates/eggbench-core/src/metrics.rs:910-934 | every order succeeds if and only if nothing else is wrong and every observation that could be attributed is acceptable |
| NormalizationLaws.SomeOrderSucceeds | crates/eggbench-core/src/metrics.rs:910-934 | some order succeeds if and only if nothing else is wrong and every contested request has an acceptable observation to be attributed to |
| NormalizationLaws.SuccessOrderFree | crates/eggbench-core/src/metrics.rs:910-934 | the exact condition under which success does not depend on the order |
| NormalizationLaws.AcceptableMeaning | crates/eggbench-core/src/metrics.rs:603-626 | what the condition asks of a raw observation: no empty source field, and where its own producer is attributed a valid label and a version that fits |
| NormalizationLaws.OrderDecides | crates/eggbench-core/src/metrics.rs:910-922 | two observations of one metric that normalize in one order and fail in the other |
| ContentDigest.AggregateContentFiles | crates/eggbench-core/src/qualification.rs:982-993 | feeding the parts one by one hashes exactly the framing of the list |
| ContentTree.HashFile | crates/eggbench-core/src/qualification.rs:1028-1062 | one more record, with the path, the length and the digest of the bytes, or refusal exactly when the count, file or total limit is reached |
| ContentTree.ReadDirectory | crates/eggbench-core/src/qualification.rs:758-788 | records the files of one directory in read order and pushes its subdirectories, or refuses exactly when the records exceed a limit |
| ContentTree.WalkTree | crates/eggbench-core/src/qualification.rs:753-800 | the stack traversal yields the identity of the directory in the order of the walk, or None exactly when a depth, path, file or total limit is exceeded |
| ContentDigest.FramingInjective | crates/eggbench-core/src/qualification.rs:982-993 | for zero-free paths and 64-character digests the hashed byte stream determines the record list |
| ContentDigest.AggregateDeterminesFiles | crates/eggbench-core/src/qualification.rs:982-993 | unless the two byte streams collide, equal aggregates mean equal lists |
| EnumerationLaws.EnumerationOrderFree | crates/eggbench-core/src/qualification.rs:753-800 | the identity of a directory is the same in every order in which its directories can be read, if and only if path by path the records of any two sibling directories commute, or a limit is exceeded anyway |
| EnumerationLaws.DecidedIsOrderFree | crates/eggbench-core/src/qualification.rs:753-800 | it is in particular when files that get the same path have the same content |
| ContentDigest.FrozenOrderFree | crates/eggbench-core/src/qualification.rs:818-861 | the frozen digest does not depend on the order in which directories are read, if none of their identities does |
| EnumerationLaws.SiblingsCollide | crates/eggbench-core/src/qualification.rs:771-777 | two sibling directories with colliding names: the identity depends on the order |
| EnumerationLaws.RootComesFirst | crates/eggbench-core/src/qualification.rs:755-784 | a file of the root and one below it with colliding names: the identity does not depend on the order |
| ContentDigest.FreezeCorpus | crates/eggbench-core/src/qualification.rs:818-861 | the digest frozen for a corpus and its bodies |
| ContentDigest.LoadCorpus | crates/eggbench-core/src/qualification.rs:916-980 | loads exactly when the corpus and every body reference, as written, name regular files and the frozen digest is the expected one, up to letter case |
| ContentDigest.FrozenLoads | crates/eggbench-core/src/qualification.rs:818-978 | over an unchanged workspace the frozen digest loads if and only if the corpus is a regular file and every body reference, as written, names one |
| ContentDigest.LoadFindsFrozenFiles | crates/eggbench-core/src/qualification.rs:930-978 | a frozen digest loads over another state of the workspace only if it holds the same paths, lengths and content digests, or the two record lists collide under the digest |
| ContentLaws.LoadedBytesWereFrozen | crates/eggbench-core/src/qualification.rs:930-978 | a frozen digest loads over another state of the workspace only if the corpus and the body of every case hold the same bytes under the same names, or two of these contents or the two record lists collide under the digest |
| ContentLaws.LoadsAnyCase | crates/eggbench-core/src/qualification.rs:968-976 | an expected digest loads exactly when its lower-case form is the digest of the content |
| ContentLaws.BodyLocation | crates/eggbench-core/src/qualification.rs:929-957 | a body is looked for next to the corpus, and read under that path with its backslashes turned into slashes |
| ContentLaws.FrozenWithinLimits | crates/eggbench-core/src/qualification.rs:840-850 | what is frozen is within the limits on the number of files and on their lengths taken together |
| ContentDigest.FolderBodyFreezes | crates/eggbench-core/src/qualification.rs:827-838 | a profile with a directory body that expands although no expected digest can load it |
| ContentDigest.BackslashBodyFreezes | crates/eggbench-core/src/qualification.rs:829-834 | the same for a body reference with a backslash |
| Suite.QualifyRun | crates/eggbench-cli/src/main.rs:276-443 | publishes exactly when there are 1 to 32 scenarios and no receipt names another baseline; receipt and stored evidence are the specified ones |
| Suite.AggregateQualificationScenarios | crates/eggbench-core/src/qualification.rs:404-420 | Invalid for an empty, incomplete or verdict-less suite, else the strongest verdict |
| Suite.QualifyInspect | crates/eggbench-cli/src/main.rs:512-632 | accepts exactly the receipts that agree with expansion, bundles and comparisons |
| Suite.SuiteShape | crates/eggbench-cli/src/main.rs:276-443 | records match the expansion one to one and in order; unrun records are exactly the suffix behind the first scenario without a typed receipt |
| Suite.RecordMeaning | crates/eggbench-cli/src/main.rs:276-428 | a record is completed exactly when its scenario ran and its comparison gave a combined verdict, and then has the identities, digest and verdicts of that comparison; an unrun or failed scenario has none |
| Suite.InspectorAcceptsRunner | crates/eggbench-cli/src/main.rs:512-632 | over an unchanged store the inspector accepts every published receipt if and only if no scenario id has a dot |
| Suite.InspectedRecordIsBacked | crates/eggbench-cli/src/main.rs:553-620 | a completed record of a receipt that inspects has the digest, identities and verdicts of the stored comparison, which read the stored bundle and the frozen baseline |
| Suite.InspectedPassIsBacked | crates/eggbench-cli/src/main.rs:512-632 | a receipt that inspects and passes has, for every frozen scenario, a stored comparison that passes |
| Suite.DottedSuiteRefused | crates/eggbench-cli/src/main.rs:553-560 | a suite with a dotted id that passes, is published and is refused |
| Suite.SuitePassMeaning | crates/eggbench-core/src/qualification.rs:404-420 | a suite passes if and only if it is non-empty and every scenario completed with a combined Pass |
| Suite.PassingSuiteRanEverything | crates/eggbench-cli/src/main.rs:429-443 | in a published suite that passes every scenario was run, compared and passed, and the receipt says complete |
| SuiteLaws.PassingSuiteMeaning | crates/eggbench-cli/src/main.rs:356-443 | in a published suite that passes no correctness check failed or was invalid, and every retained statistical gate of every scenario is descriptive or vouched for |

## Left out

Comparison engine

- Floating-point rounding, overflow and NaN arithmetic: sums, means and effects are exact, so the checks for a non-finite mean, ratio or interval never fire here.
- The platform's logarithm and exponential: only the laws in `Logarithms.Valid` are used.
- The library sorts: insertion into an ordered list stands for them.
- The seed hash (FNV-1a) itself: what it is fed is modelled, the hash is a function.
- Workload, driver and topology comparison: their three verdicts are an input (`IdentityMatch`).
- Detail texts, baseline references, version strings and schema numbers of a receipt.
- `compare_paired` around the evaluation of one metric: the same loop as `compare`, over one bundle.
- PairedEvaluation.EvaluatePairedMetric: the branches for a non-finite effect never fire on exact reals.
- The security and corpus evidence behind a correctness disposition: the dispositions are an input.

Evidence bundles

- Manifest.Validate: yields acceptance only, not the error category.
- EvidenceBundle.OpenAndVerify: manifests of the first schema version are not modelled, nor are symbolic links.
- The rules for artifact paths, except that the manifest's own path is reserved.
- Symbolic links, confined opening, directory entries and syncing as such; a failing sync is a fault of the call.
- Sensitivity labels, run identity, subject and paired record of a manifest.
- EvidenceBundle.BundleWriter.Finalize: takes trials and drivers in the order the code sorts them into.

Plans

- Stream-fault plans, paired-design rules and every other check of a plan.
- The parser of IPv6 addresses: a parameter that accepts only texts with a colon.

Normalization

- Normalization.NormalizeTrialMetrics: yields acceptance and the artifact, not the error category.
- Detail texts of invalid records and warnings, except the one that can exceed its bound; version numbers and trial identity of an artifact; the normalization label of a provenance.

Qualification

- Links and special files of a directory tree, and failing reads; a directory is what it lists. Different spellings of one path are different keys of a workspace.
- Parsing of profiles, corpora and plans, and all their validation except scenario ids and repeated ids.
- The runs and comparisons a suite starts: an oracle gives their outcomes; a comparison names the bundle it read and a run honours the selected driver. Which evidence a comparison read is an input of SuiteLaws.
- Encodings of expansion and receipts: the digest is taken of the value.
- Profile, corpus and configuration identities of a receipt are one value, `inputs`.
- Writing the expansion and the receipt and renaming the suite directory are taken to succeed.
- Command-line output and exit codes.
