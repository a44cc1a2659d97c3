# Signals adaptor: a verified model

A Dafny model of the algorithmic core of an AdCP signals agent and of its stateful
services: the portfolio optimizer and audience arithmetic, the two boolean audience evaluators, the
activation service with its webhook retry, audit receipts with their canonical form and hashes, and
several smaller cores. Code that updates variables is modelled as methods and classes proved against
specification functions; recursive and expression code is modelled as functions. The theorems are
about those functions, over all inputs and all runs.

Numbers are exact reals or integers, `Math.round(x)` is the floor of x + 1/2, `Math.sqrt` is a
parameter with its defining equation (or, in the census code, an exact integer rounding), and 32-bit
arithmetic is written out. Text is UTF-16 code units where units matter (hashes, canonical form).
Storage, receivers, clocks, signing and random ids are inputs, constrained only by what is stated.

## Where to start

- `Greedy`, `ReachAgreement`: the greedy run is characterised exactly (`RunUnique`), has diminishing
  returns, and its total is the inclusion-exclusion union of another file.
- `ActivationRuns`: safety of idempotency and webhook delivery over every sequence of calls.
- `Canonical`, `AuditReceipts`, `Hashes`: canonical text is read back by an independent reader, two values share
  a text exactly when they are equal up to member order, and the hashes are injective step by step.
- `ExpressionTree`, `CompositeScorer`, `QueryPolarity`, `AudienceResult`: validators, bounds and polarity
  of the two evaluators.
- `Lorenz`, `AudienceMath`, `AudienceReports`, `VectorMath`, `Census`: the numeric theorems.
- The modules whose names end in `Laws`, and `CanonicalText`, say what each specification function means in terms of
  the inputs alone: literal constants, fields, positions, characters. What a pick costs, what a poll sends, what a NOT
  removes, how a key is ordered is stated there without naming the function that computes it.

## Results that are not what one would expect

Each comes with its exact condition and a concrete failing input.

- The reported union of n head counts is never below its largest member if and only if n is at most 4, as a
  list (`AudienceMath.UnionReachCoversIff`) and as an OR of n children in a tree (`ExpressionTree.OrCoversIff`).
  With five it can be: 100, 100, 100, 128, 158 in one category give 145 (`FiveShrink`, `OrShrinks`).
- For whole-number reaches `total_unique_reach` is `unionReach` of the picked signals if and only if the first
  always-in candidate whose own cost is within the budget has no negative reach
  (`ReachAgreement.RoundedReachIsUnion`); before rounding the same condition is exact for all reaches
  (`UniqueReachIsUnion`). One always-in signal of reach -1 gives 0 against -1 (`NegativeReachDisagrees`).
- Unrounded spend is within the budget if and only if the budget is not negative or covers one of the always-in
  signals on its own (`Greedy.SpendWithinBudget`). A budget of -1 with no candidate is exceeded by a spend of 0
  (`NegativeBudgetExceeded`).
- A non-empty list of zeros is reported with Gini 1. Among non-negative lists of n sizes only that list is, if and only if
  n is below 2000 (`Lorenz.OnlyZerosReportOneIff`): from 2000 on, n - 1 zeros and a single 1 round to 1 as well
  (`OneHolderReported`).
- An idempotency key is never held by two rows if and only if it is not the empty string, which is stored
  but not checked (`ActivationRuns.OneRowPerKeyIff`, `EmptyKeyRepeats`). The comment at activationService.ts:71-77 and
  the one in migration 0007 describe an older rule on key, signal and destination; the model follows the code at
  lines 78-123.
- Splitting a CSV line gives back an RFC 4180 row if and only if no field contains a quote: a doubled
  quote is dropped (`CsvLine.RoundTripIff`, `QuoteIsLost`).
- Two signing postures share a capability cache key exactly when a key id is "off" or a name and the flag
  suffix can be read in two ways (`CapabilityCache.SameKeyIff`, `NamedCollisions`).
- The template audit's trap 4, documented as reporting unescaped backticks, can only report backticks
  after a non-zero even number of backslashes; a bare one ends the region (`TrapAudit.Trap4Iff`,
  `BareBacktickMissed`).

## Model

| member | source | states |
|---|---|---|
| Portfolio.ParetoFrontier | src/analytics/portfolioOptimizer.ts:50-65 | the nested loops return, in order, the points no input point dominates |
| Portfolio.FrontierExact | src/analytics/portfolioOptimizer.ts:50-65 | a point is in the frontier iff it is an input and not dominated, with its input multiplicity |
| Portfolio.FrontierCovers | src/analytics/portfolioOptimizer.ts:50-65 | every input point is kept or dominated by a kept point |
| Portfolio.FrontierNonEmpty | src/analytics/portfolioOptimizer.ts:50-65 | the frontier of a non-empty input is non-empty |
| Portfolio.FrontierIdempotent | src/analytics/portfolioOptimizer.ts:50-65 | filtering the frontier again changes nothing |
| Portfolio.MarginalShrinks | src/analytics/portfolioOptimizer.ts:69-80 | with non-negative reaches, a longer selection overlaps more and leaves a smaller marginal reach |
| Greedy.ForceInclude | src/analytics/portfolioOptimizer.ts:125-139 | the always-in loop picks, in order, exactly the signals that still fit, with matching totals and trail |
| Greedy.FindBest | src/analytics/portfolioOptimizer.ts:143-156 | the scan finds the first affordable unpicked candidate of largest positive marginal, or there is none |
| Greedy.GreedyMarginalReach | src/analytics/portfolioOptimizer.ts:106-180 | the optimizer terminates and reports the totals of the request's one run: forced picks, then best next picks, stopping only when it must |
| Greedy.RunUnique | src/analytics/portfolioOptimizer.ts:125-167 | a request has exactly one run: the description of a run fixes every pick and the stopping point |
| Greedy.RunPick | src/analytics/portfolioOptimizer.ts:142-167 | pick k is the k-th forced signal, or has the largest marginal among unpicked affordable candidates |
| Greedy.PickedFromPool | src/analytics/portfolioOptimizer.ts:114-117 | every pick is a candidate and not excluded |
| Greedy.ForcedNothing | src/analytics/portfolioOptimizer.ts:126-128 | something is forced iff one always-in signal costs no more than the whole budget |
| Greedy.SpendWithinBudget | src/analytics/portfolioOptimizer.ts:126-163 | unrounded spend is within budget iff the request's budget is non-negative or covers one always-in signal |
| Greedy.NegativeBudgetExceeded | src/analytics/portfolioOptimizer.ts:142 | a concrete request whose spend of 0 exceeds its budget |
| Greedy.MarginalsNonIncreasing | src/analytics/portfolioOptimizer.ts:142-167 | along the greedy part of a run marginal reach never rises |
| Greedy.ReachConserved | src/analytics/portfolioOptimizer.ts:129-165 | claimed plus wasted reach is at least the summed reach, with equality iff no marginal was clamped at zero |
| GreedyLaws.CostInThousandths | src/analytics/portfolioOptimizer.ts:127 | 1000 times the cost of a signal is its reach times its CPM |
| GreedyLaws.SpendInThousandths | src/analytics/portfolioOptimizer.ts:127-136 | 1000 times the spend is the sum of reach * cpm over the picks |
| GreedyLaws.Pools | src/analytics/portfolioOptimizer.ts:114-117 | always-in: a candidate asked for and not excluded; the other candidates that are not excluded compete |
| GreedyLaws.BudgetInThousandths | src/analytics/portfolioOptimizer.ts:126-163 | the sum of reach * cpm over the picks is at most 1000 times the budget iff the budget is not negative or some always-in signal has reach * cpm within it |
| GreedyLaws.ForcedStep | src/analytics/portfolioOptimizer.ts:126-131 | an always-in signal is taken exactly when its reach * cpm fits beside those taken before it |
| GreedyLaws.GreedyPick | src/analytics/portfolioOptimizer.ts:142-158 | a greedy pick competes, fits, has a new id and adds reach, and no competitor that fits the same sum adds more; the run was short of limit, budget and target before it |
| GreedyLaws.RunEnds | src/analytics/portfolioOptimizer.ts:142-166 | a run ends only at the limit, the budget, the target of its greedy picks, or when nothing that fits adds reach |
| GreedyLaws.SharedReachLaw | src/analytics/portfolioOptimizer.ts:69-80 | shared reach times the larger reach is 55% (one category) or 20% of the smaller squared |
| GreedyLaws.MarginalLaw | src/analytics/portfolioOptimizer.ts:151-152 | the marginal is the reach less the sum shared with each pick, not below zero |
| GreedyLaws.TrailRows | src/analytics/portfolioOptimizer.ts:132-135 | one row per pick, in order, with its price, its marginal and the running total |
| GreedyLaws.ReportedTotals | src/analytics/portfolioOptimizer.ts:169-179 | the totals: cents, rounded reach, reach per thousand spent, rounded waste |
| GreedyLaws.WasteStep | src/analytics/portfolioOptimizer.ts:138 | waste adds what each pick shares with the picks before it |
| GreedyLaws.FrontierMeaning | src/analytics/portfolioOptimizer.ts:54-62 | a point is on the frontier iff every point at least as good in reach, CPM and specificity equals it in all three |
| ReachAgreement.OverlapsAgree | src/analytics/portfolioOptimizer.ts:74-80 | heuristicJaccard times the smaller reach is pairOverlap, for all reaches |
| ReachAgreement.UniqueReachIsUnion | src/analytics/portfolioOptimizer.ts:125-175 | the running marginal sum equals the inclusion-exclusion union iff the first always-in candidate that fits on its own is not negative |
| ReachAgreement.ForcedFirst | src/analytics/portfolioOptimizer.ts:126-131 | the first always-in candidate whose own cost fits the budget is the first pick |
| ReachAgreement.RoundedReachIsUnion | src/analytics/portfolioOptimizer.ts:175 | for whole-number reaches total_unique_reach is unionReach of the picks under exactly that condition |
| ReachAgreement.NegativeReachDisagrees | src/analytics/portfolioOptimizer.ts:125-175 | a concrete request with an always-in reach of -1: reported 0, union -1 |
| AudienceMath.ComputeUnionReach | src/analytics/audienceMath.ts:61-73 | the loop computes the rounded inclusion-exclusion sum |
| AudienceMath.PairOverlapBounds | src/analytics/audienceMath.ts:48-56 | an overlap is between 0 and 55% of the smaller reach |
| AudienceMath.UnionBounds | src/analytics/audienceMath.ts:62-71 | before rounding, first member <= accumulated union <= sum of members, for all non-negative reaches |
| AudienceMath.UnionReachBounds | src/analytics/audienceMath.ts:61-73 | for head counts, first member <= returned union <= sum of members |
| AudienceMath.UnionReachGrows | src/analytics/audienceMath.ts:61-73 | adding members never lowers the returned union, for all reaches |
| AudienceMath.UnionCoversLargestIff | src/analytics/audienceMath.ts:62-71 | before rounding, the accumulated union of n non-negative reaches is always at least each member iff n <= 4 |
| AudienceMath.UnionReachCoversIff | src/analytics/audienceMath.ts:61-73 | the returned union of n head counts is always at least each member iff n <= 4 |
| AudienceMath.FiveShrink | src/analytics/audienceMath.ts:61-73 | five concrete reaches whose union is below the largest |
| AudienceMath.ComputeIntersectReach | src/analytics/audienceMath.ts:80-91 | the decaying loop computes the intersection fold |
| AudienceMath.IntersectBounds | src/analytics/audienceMath.ts:80-91 | an intersection is a head count, at most the base and each member |
| AudienceMath.ComputeExcludeReach | src/analytics/audienceMath.ts:94-102 | the loop computes the exclusion fold |
| AudienceMath.ExcludeBounds | src/analytics/audienceMath.ts:94-102 | an exclusion is a head count, at most the base |
| AudienceLaws.PairOverlapLaw | src/analytics/audienceMath.ts:48-56 | overlap times the larger reach is 55% (one category) or 20% of the smaller squared |
| AudienceLaws.NoOverlap | src/analytics/audienceMath.ts:51 | a signal without reach overlaps with nothing |
| AudienceLaws.UnionTerms | src/analytics/audienceMath.ts:61-73 | one more member adds its reach less its overlaps with all before it, not below zero |
| AudienceLaws.IntersectOne | src/analytics/audienceMath.ts:83-88 | one more signal keeps, rounded, share * smaller / larger of the running reach |
| AudienceLaws.IntersectNone | src/analytics/audienceMath.ts:87 | an intersection with a signal without reach is empty |
| AudienceLaws.IntersectChain | src/analytics/audienceMath.ts:80-91 | signals are intersected one at a time; without signals or template the base stays |
| AudienceLaws.ExcludeClosedForm | src/analytics/audienceMath.ts:94-102 | exclusion takes off, for each excluded signal, its rounded overlap with the whole base set, and stops at zero |
| AudienceLaws.ExcludeOrderIndependent | src/analytics/audienceMath.ts:94-102 | the order of the exclusions does not matter |
| AudienceLaws.ExcludeLowers | src/analytics/audienceMath.ts:97-100 | an excluded signal whose overlap rounds to at least one person lowers a positive reach |
| AudienceLaws.ExcludeNothing | src/analytics/audienceMath.ts:95 | without exclusions or without a base set the base stays |
| AudienceReports.ConcentrationOf | src/analytics/audienceMath.ts:212-220 | the returned k is the length of the first prefix of the ranked rows that carries 80% (or of all) |
| AudienceReports.TopRowsCarryMost | src/analytics/audienceMath.ts:213 | no choice of m rows carries more than the m largest |
| AudienceReports.ConcentrationOptimal | src/analytics/audienceMath.ts:211-220 | fewer than k rows never carry 80%, whichever are chosen |
| AudienceReports.ConcentrationReached | src/analytics/audienceMath.ts:211-220 | if any selection carries 80%, the first k rows do and k is at most its size |
| AudienceReports.JourneyFunnel | src/analytics/audienceMath.ts:244-269 | each stage is the running minimum, flagged when clamped, with its rates and drop-off |
| AudienceReports.DropOffsTelescope | src/analytics/audienceMath.ts:262 | drop-offs are non-negative and sum to the first reach minus the last |
| ReportLaws.ConcentrationMeans | src/analytics/audienceMath.ts:211-220 | fewer than k rows never carry 80%; if some choice does, some choice of k does; if none does, k counts the rows with a positive share |
| ReportLaws.FunnelMeaning | src/analytics/audienceMath.ts:244-269 | each stage is the least reach so far, its rates are those shares to four decimals, its drop-off the difference to the stage before |
| Lorenz.LorenzCurve | src/analytics/portfolioOptimizer.ts:286-306 | the method returns the curve of the sorted sizes and the rounded, clamped trapezoid Gini; the empty list has its own answer |
| Lorenz.CurvePoints | src/analytics/portfolioOptimizer.ts:291-296 | point i is the share of the i smallest sizes |
| Lorenz.ComputeArea | src/analytics/portfolioOptimizer.ts:298-303 | the loop computes the trapezoid area |
| Lorenz.CurveShape | src/analytics/portfolioOptimizer.ts:288-296 | the curve is convex and on or below the diagonal |
| Lorenz.GiniFormula | src/analytics/portfolioOptimizer.ts:297-304 | the trapezoid Gini is 2*sum(i*x(i))/(n*T) - (n+1)/n over the sorted sizes |
| Lorenz.GiniRange | src/analytics/portfolioOptimizer.ts:304 | for non-negative sizes with positive total it lies in [0, (n-1)/n], so the clamp never acts |
| Lorenz.GiniOneIff | src/analytics/portfolioOptimizer.ts:295-304 | before rounding, the Gini of sorted non-negative sizes is 1 iff every size is 0 |
| Lorenz.ReportShape | src/analytics/portfolioOptimizer.ts:286-306 | for any unsorted non-negative list with positive total: convex curve below the diagonal, closed form, range [0, (n-1)/n], and the reported figure is it to three decimals, unclamped |
| Lorenz.ReportedOneIff | src/analytics/portfolioOptimizer.ts:286-306 | below 2000 non-negative sizes the reported figure is 1 iff every size is 0 |
| Lorenz.OneHolderReported | src/analytics/portfolioOptimizer.ts:305 | from 2000 sizes on, n-1 zeros and a single 1 are reported as 1 |
| Lorenz.OnlyZerosReportOneIff | src/analytics/portfolioOptimizer.ts:286-306 | among n sizes only the all-zero list is reported as 1, iff n < 2000 |
| ReportLaws.CurveMeans | src/analytics/portfolioOptimizer.ts:287-296 | n + 1 points: point i stands at i/n with the share of the i smallest sizes, from (0,0) to (1,1) |
| ReportLaws.GiniMeans | src/analytics/portfolioOptimizer.ts:297-305 | the figure is 1 less twice the area, kept within 0 and 1, within half a thousandth |
| ReportLaws.AreaLaw | src/analytics/portfolioOptimizer.ts:299-303 | each further point adds one trapezoid |
| ExpressionTree.Validator.Walk | src/analytics/audienceMath.ts:438-458 | one visit appends exactly the errors of its subtree, in order, and adds its visited nodes |
| ExpressionTree.ValidateAST | src/analytics/audienceMath.ts:435-462 | the validator returns the errors of the whole tree and the node-limit error |
| ExpressionTree.ValidateExact | src/analytics/audienceMath.ts:435-462 | there are no errors iff depth <= 5, nodes <= 30, OR/AND have two children, NOT has one and sits under AND, leaves have ids |
| ValidatorLaws.ErrorsExact | src/analytics/audienceMath.ts:438-458 | an error is reported at a path iff there is a node at that path, at most five levels down, that breaks that rule |
| ValidatorLaws.NodeLimitExact | src/analytics/audienceMath.ts:460 | the node limit is reported, last and with the count, iff the first six levels hold more than 30 nodes |
| ValidatorLaws.ErrorsOrdered | src/analytics/audienceMath.ts:438-458 | errors come in the order in which the tree is read, each once |
| ExpressionTree.ErrorFreeExact | src/analytics/audienceMath.ts:485-577 | on any tree the root has no error iff every leaf is known, every AND has a non-NOT child and every NOT a child |
| ExpressionTree.ValidTreeErrors | src/analytics/audienceMath.ts:485-577 | for validated trees: iff every leaf is known and every AND has a non-NOT child |
| ExpressionTree.CountsAreReaches | src/analytics/audienceMath.ts:474-478 | the category map holds each category's summed reach |
| ExpressionTree.DominantIsLargest | src/analytics/audienceMath.ts:479 | the dominant category occurs and no category reaches more |
| ExpressionTree.EvaluateBounded | src/analytics/audienceMath.ts:485-577 | every node's reach is a head count, at most the summed reach of signals_under |
| ExpressionTree.AndBounds | src/analytics/audienceMath.ts:522-545 | AND reaches at most each non-NOT child |
| ExpressionTree.OrBounds | src/analytics/audienceMath.ts:509-519 | first child <= OR <= sum of children; with up to four children OR >= each child |
| ExpressionTree.OrShrinks | src/analytics/audienceMath.ts:509-519 | a concrete OR of known leaves that reaches 145 while one leaf reaches 158 |
| ExpressionTree.OrCoversIff | src/analytics/audienceMath.ts:509-519 | an OR of n children is always at least each child iff n <= 4 |
| EvaluateLaws.StandIn | src/analytics/audienceMath.ts:465-483 | a stand-in has the reach of its subtree and the category with the most reach underneath |
| EvaluateLaws.LeafLaw | src/analytics/audienceMath.ts:490-503 | a known leaf has its signal and size, an unknown one an error with its id |
| EvaluateLaws.NotLaw | src/analytics/audienceMath.ts:553-568 | NOT reports its first child as it is, or that it has none |
| EvaluateLaws.BranchLaw | src/analytics/audienceMath.ts:505-568 | a branch names itself and holds the results of its children in order |
| EvaluateLaws.OrLaw | src/analytics/audienceMath.ts:509-514 | an OR of leaves unites their signals, any other OR the stand-ins of its children |
| EvaluateLaws.AndChain | src/analytics/audienceMath.ts:532-536 | the non-NOT children of an AND are intersected one after the other with the stand-in of the first |
| EvaluateLaws.AndLaw | src/analytics/audienceMath.ts:522-551 | an AND is what its non-NOT children alone reach less, for each NOT child, its rounded overlap with the first of them, not below zero |
| EvaluateLaws.NotLowers | src/analytics/audienceMath.ts:537-544 | a NOT child whose rounded overlap is at least one person lowers a positive AND |
| EvaluateLaws.NotsCommute | src/analytics/audienceMath.ts:523-544 | NOT children may stand in any order and at any place |
| EvaluateLaws.SignalsLaw | src/analytics/audienceMath.ts:511-548 | OR lists the signals of all children, AND of those that are not NOT |
| EvaluateLaws.ErrorLaw | src/analytics/audienceMath.ts:506-507 | errors of the children are joined in order |
| EvaluateLaws.OneChildError | src/analytics/audienceMath.ts:506-507 | an AND or NOT of one child has that child's error |
| EvaluateLaws.NothingKept | src/analytics/audienceMath.ts:525-531 | an AND whose children are all NOT says that it needs another |
| EvaluateLaws.FirstWithoutSecond | src/analytics/audienceMath.ts:522-551 | two signals of 1000 in one category: the first without the second reaches 450 |
| EvaluateLaws.BothReached | src/analytics/audienceMath.ts:522-551 | two signals of 1000 in one category: both reach 550 |
| ActivationService.Service.ActivateSignal | src/domain/activationService.ts:33-174 | one activation: resolution order, support check, replay or conflict by key, or one new row; whole new state |
| ActivationService.Service.GetOperation | src/domain/activationService.ts:187-276 | one poll: status advance, delivery gate, response; whole new state and the attempts made |
| ActivationService.Service.FireWebhook | src/domain/activationService.ts:337-458 | a delivery marks, counts and schedules exactly as accepted, refused, failed or unusable |
| ActivationService.Service.UpdateJobStatus | src/storage/activationRepo.ts:123-140 | only the status of the one row changes |
| ActivationService.Service.MarkWebhookFired | src/storage/activationRepo.ts:143-149 | only the fired flag of the one row changes |
| ActivationService.Service.RecordWebhookAttempt | src/storage/activationRepo.ts:158-171 | only the attempt count and next time of the one row change |
| ActivationService.FindByKey | src/storage/activationRepo.ts:96-109 | a row with the key is found iff there is one, and none with the key was submitted earlier |
| ActivationService.FindById | src/storage/activationRepo.ts:111-121 | a row with the id is found iff there is one |
| ActivationLaws.ResolveOrder | src/domain/activationService.ts:44-65 | the catalog, then the request, then the proposal cache; what is found outside the catalog is added to it, a used proposal leaves the cache |
| ActivationLaws.ActivateRefused | src/domain/activationService.ts:61-69 | no signal or one that cannot be activated: the typed refusal, and no row |
| ActivationLaws.ActivateNew | src/domain/activationService.ts:142-174 | a fresh request is pending under the new id and leaves one new row as submitted |
| ActivationLaws.ActivateKnownKey | src/domain/activationService.ts:78-123 | a known key is answered from its row if the bodies match, by fingerprint or signal and destination, and is a conflict otherwise |
| ActivationRuns.RunRows | src/domain/activationService.ts:142-156 | over every run ids stay distinct and a non-empty key is on at most one row |
| ActivationRuns.OneRowPerKeyIff | src/domain/activationService.ts:78-80 | every run keeps at most one row for a key iff the key is not empty |
| ActivationRuns.EmptyKeyRepeats | src/domain/activationService.ts:78-156 | two submissions with the empty key leave two rows |
| ActivationRuns.LaterRequestReplays | src/domain/activationService.ts:78-123 | after any run, a later request with an accepted key gets the original task id and time if its body matches and the conflict otherwise, and adds no row |
| ActivationRuns.RunDeliveries | src/domain/activationService.ts:211-246 | over every run each row's counters agree with the attempts observed for it |
| ActivationRuns.DeliverySafety | src/domain/activationService.ts:278-458 | over every run an operation gets at most 5 attempts, at most one accepted and that one last, spaced by the backoff, to a usable URL, never unsigned with a key |
| ActivationRuns.FifthAttempt | src/domain/activationService.ts:287-294 | the fifth attempt starts at least 2550 s after the first |
| ActivationLaws.PollCompletes | src/domain/activationService.ts:198-275 | polling a submitted or working operation answers completed with the segment id and leaves the row completed |
| ActivationLaws.PollKeepsStatus | src/domain/activationService.ts:198-275 | any other operation keeps its status |
| ActivationLaws.PollDelivers | src/domain/activationService.ts:214-230 | a due delivery to a usable URL makes exactly one attempt, to that URL and with the next number |
| ActivationLaws.PollRecords | src/domain/activationService.ts:337-458 | after it the row is delivered for good, or waits 30, 120, 480 or 1920 s, or has used up its five attempts |
| ActivationLaws.PollSilent | src/domain/activationService.ts:211-246 | nothing goes out when no delivery is due or the URL is unusable |
| ActivationLaws.PollUnknown | src/domain/activationService.ts:193-196 | an unknown task is not found, and nothing changes |
| ActivationLaws.PollTouches | src/domain/activationService.ts:187-276 | no other row changes |
| ActivationLaws.PollProgress | src/domain/activationService.ts:187-276 | after any run: an open operation is completed by the next poll and a due delivery is attempted once; failed, canceled and rejected ones keep their status and get none |
| ActivationLaws.FirstPollDelivers | src/domain/activationService.ts:187-276 | after any run, the first poll after a fresh submission with a usable URL completes it and delivers, for good if the receiver accepts |
| CompositeScorer.ScoreAnd | src/domain/compositeScorer.ts:234-275 | the loop computes the intersection of the working set, its confidence and penalty, signals and exclusions |
| CompositeScorer.ScoreOr | src/domain/compositeScorer.ts:277-300 | the loop computes the union, its confidence and signals, and drops exclusions |
| CompositeScorer.UnionClosedForm | src/domain/compositeScorer.ts:286-292 | before rounding OR is B*(1 - product(1 - s/B)), within [0, B] and at least each child |
| CompositeScorer.OrBounds | src/domain/compositeScorer.ts:294-299 | OR is at least each child and at most 240M |
| CompositeScorer.OrOrderIndependent | src/domain/compositeScorer.ts:277-300 | OR's size does not depend on the order of children |
| CompositeScorer.AndBounds | src/domain/compositeScorer.ts:246-274 | AND is in [50K, 240M] and at most the floor or each working child |
| CompositeScorer.AndOrderIndependent | src/domain/compositeScorer.ts:234-275 | AND's size and confidence do not depend on the order of children |
| CompositeScorer.UnresolvedConjunct | src/domain/compositeScorer.ts:238-274 | an unresolved conjunct beside a resolved one changes nothing but multiplies confidence by 0.85 |
| CompositeScorer.SizeInRange | src/domain/compositeScorer.ts:203-317 | with coverages in [0,1] every node's size is an integer in [0, 240M] |
| ScoreLaws.LeafFallback | src/domain/compositeScorer.ts:213-218 | a leaf without a match has the floor and 30% of its confidence |
| ScoreLaws.LeafByTopMatch | src/domain/compositeScorer.ts:220-231 | a leaf is sized by its first match; its confidence is the larger of score * confidence and score * 0.55 |
| ScoreLaws.NotComplement | src/domain/compositeScorer.ts:302-317 | size + child = 240,000,000 up to a child of 239,950,000, else 50,000; confidence is 0.8 of the child's; its signals become exclusions |
| ScoreLaws.NotOfNothing | src/domain/compositeScorer.ts:303-307 | a childless NOT has 240,000,000 and confidence 0 |
| ScoreLaws.NotReverses | src/domain/compositeScorer.ts:309-315 | NOT reverses the size order, strictly below 239,950,000 |
| ScoreLaws.NotTwice | src/domain/compositeScorer.ts:302-317 | negating twice gives the size back iff it is within [50,000, 239,950,000] |
| ScoreLaws.NotTenth | src/domain/compositeScorer.ts:302-317 | a tenth of all adults is 24,000,000 and its negation 216,000,000 |
| ScoreLaws.EmptyBranches | src/domain/compositeScorer.ts:236-279 | an empty AND or OR has the floor and confidence 1 |
| ScoreLaws.AndLaw | src/domain/compositeScorer.ts:242-274 | AND over the children that found something (all, if none did): the product of shares with 0.7 per further child, at least the floor; the lowest confidence with 15% off per child that found nothing |
| ScoreLaws.AndSignals | src/domain/compositeScorer.ts:255-256 | its signals and exclusions are those of the children that count, in order |
| ScoreLaws.AndSkips | src/domain/compositeScorer.ts:242-244 | children that found nothing change neither size nor lists |
| ScoreLaws.OrLaw | src/domain/compositeScorer.ts:277-300 | OR: the baseline less the part no child covers; the highest confidence and 0; no exclusions |
| ScoreLaws.OrSignals | src/domain/compositeScorer.ts:291 | an OR lists the signals of its children in order |
| ScoreLaws.PowerLaw | src/domain/compositeScorer.ts:262-267 | the powers that discount overlaps and unresolved children |
| ScoreLaws.BothOf | src/domain/compositeScorer.ts:234-275 | two children of a and b people: 0.7 a b / B, rounded, or the floor |
| ScoreLaws.EitherOf | src/domain/compositeScorer.ts:277-300 | two children of a and b people: a + b - a b / B, rounded |
| QueryPolarity.LevelSignals | src/domain/compositeScorer.ts:302-317 | at any depth a node's signals are the matches of its leaves with no further NOT |
| QueryPolarity.RootPolarity | src/domain/compositeScorer.ts:203-317 | the root's signals are the matches of leaves under no NOT; its exclusions those under exactly one NOT with no OR above it |
| AudienceResult.ScoreQuery | src/domain/compositeScorer.ts:137-199 | the method assembles size, confidence, tier and both lists from the scored root; an id is matched iff a leaf under no NOT matches it and no excluding leaf does |
| AudienceResult.MatchedIff | src/domain/compositeScorer.ts:137-317 | from leaves to answer: which ids are matched and which excluded, by what stands above the leaves |
| AudienceResult.MatchedExactly | src/domain/compositeScorer.ts:152-174 | the matched list holds exactly the first best-scoring signal of each id that is not excluded |
| AudienceResult.MatchedComplete | src/domain/compositeScorer.ts:152-174 | every matched id without an exclusion is listed |
| AudienceResult.MatchedOrder | src/domain/compositeScorer.ts:172-174 | scores descend and no id appears twice |
| AudienceResult.ExcludedExactly | src/domain/compositeScorer.ts:162-170 | the excluded list holds exactly the excluded ids, none of which is matched |
| AudienceResult.FinalSize | src/domain/compositeScorer.ts:190 | the reported size is in [50K, 240M] |
| AudienceResult.TierThresholds | src/domain/compositeScorer.ts:337-342 | the confidence and size thresholds of the four tiers |
| AudienceResult.RankedFields | src/domain/compositeScorer.ts:355-365 | the fields a ranked signal carries over |
| AudienceResult.ExcludedList | src/domain/compositeScorer.ts:163-167 | one excluded entry per id, in order of first occurrence, holding the last exclusion with it |
| ResultLaws.TiesKeepOrder | src/domain/compositeScorer.ts:169-171 | matches of equal score are listed in the order in which their ids first occur among the query's signals |
| AudienceResult.BuildResolutionMap | src/domain/compositeScorer.ts:371-382 | the loop builds the map of resolutions by key |
| AudienceResult.ResolutionBest | src/domain/compositeScorer.ts:371-382 | each key holds one of its own resolutions with the highest top score |
| Hashes.ComputeFnv1a | src/domain/auditReceipts.ts:46-53 | the signed shift-and-add loop computes FNV-1a |
| Hashes.ShiftAddIsMultiply | src/domain/auditReceipts.ts:50 | shift-and-add on the signed word is multiplication by 16777619 modulo 2^32 (section 2 of draft-eastlake-fnv) |
| Hashes.FnvCommonTail | src/domain/auditReceipts.ts:46-53 | a common tail neither creates nor removes a collision |
| Hashes.FnvOneUnit | src/domain/auditReceipts.ts:46-53 | changing exactly one code unit always changes the hash |
| Hashes.ComputeDjb2 | src/analytics/vectorMath.ts:50-54 | the signed shift loop computes djb2 with exclusive or |
| Hashes.Djb2StepInjective | src/analytics/vectorMath.ts:52 | a djb2 step is injective in the hash and in the code unit |
| Hashes.LcgExact | src/analytics/vectorMath.ts:67 | every intermediate of a generator step is an integer below 2^53, so doubles are exact |
| Hashes.LcgInjective | src/analytics/vectorMath.ts:67 | a generator step is injective modulo 2^32 |
| Hashes.LcgSeedsApart | src/analytics/vectorMath.ts:65-69 | two seeds never reach the same state at the same step |
| Hashes.RawPseudoVector | src/analytics/vectorMath.ts:64-69 | the loop fills coordinate i from generator state i+1 of the given text's seed |
| PseudoVector.TextToPseudoVector | src/analytics/vectorMath.ts:62-71 | the whole computation, from the cleaned text to the normalised vector, of length exactly 1 |
| PseudoVector.PseudoVectorIsUnit | src/analytics/vectorMath.ts:62-71 | for every seed and positive dimension the result has length exactly 1: a zero vector never arises |
| Hashes.RawVectorsDiffer | src/analytics/vectorMath.ts:62-71 | raw coordinates lie in [-1, 1] and differ everywhere iff the seeds differ |
| Hashes.OneUnitDiffersEverywhere | src/analytics/vectorMath.ts:50-71 | two texts that differ in one code unit get raw vectors that agree nowhere |
| HashLaws.FnvVectors | src/domain/auditReceipts.ts:46-53 | FNV-1a of the empty text and of "a" are the published values |
| HashLaws.DjbVectors | src/analytics/vectorMath.ts:50-54 | the values of djb2 with exclusive or for the empty text and "a" |
| HashLaws.GeneratorLaw | src/analytics/vectorMath.ts:65-69 | the generator is x -> 1664525 x + 1013904223 mod 2^32, mapped evenly onto [-1, 1] |
| HashLaws.ToInt32Law | src/domain/auditReceipts.ts:49-50 | the signed operand conversion keeps the residue modulo 2^32 |
| JsonNumber.FiniteRoundTrip | src/domain/auditReceipts.ts:65-67 | a number's text is read back as the number (zero loses its sign), in all four formats of Number::toString |
| JsonString.StringRoundTrip | src/domain/auditReceipts.ts:65-67 | a quoted string is read back whole whatever follows it (escapes of section 7 of RFC 8259) |
| TextOrder.SortKeysSorted | src/domain/auditReceipts.ts:72 | distinct keys are put in strictly increasing code-unit order |
| TextOrder.SortedUnique | src/domain/auditReceipts.ts:72 | a strictly sorted list is determined by its elements |
| TextOrder.LessMeans | src/domain/auditReceipts.ts:72 | a text comes first iff it is a proper prefix or has the smaller code unit at the first difference |
| TextOrder.SortKeysAscending | src/domain/auditReceipts.ts:72 | two keys of the sorted list agree up to a position where the earlier one ends or has the smaller unit |
| Canonical.CanonicalReads | src/domain/auditReceipts.ts:63-77 | canonical text is read back as the value's normal form, whatever follows it: the encoding is uniquely decodable |
| Canonical.SameValueSameText | src/domain/auditReceipts.ts:63-77 | values equal up to member order have the same text |
| Canonical.NormalDecides | src/domain/auditReceipts.ts:63-77 | values with the same normal form are equal up to member order |
| Canonical.CanonicalIff | src/domain/auditReceipts.ts:63-77 | two values have the same canonical text iff they are equal up to member order |
| CanonicalText.ObjectText | src/domain/auditReceipts.ts:71-75 | an object is written with every key once, in ascending order of code units, each with its own value |
| CanonicalText.SmallObject | src/domain/auditReceipts.ts:71-75 | members b: null and a: true are written {"a":true,"b":null} |
| CanonicalText.ArrayText | src/domain/auditReceipts.ts:68-70 | an array is written in brackets, item by item, in order |
| CanonicalText.JoinText | src/domain/auditReceipts.ts:69-74 | items are separated by single commas |
| CanonicalText.LetterQuoted | src/domain/auditReceipts.ts:66 | a printable unit is quoted as it is |
| CanonicalText.WordTexts | src/domain/auditReceipts.ts:64-67 | null, undefined and non-finite numbers are null; booleans are their words |
| CanonicalText.NumberNotation | src/domain/auditReceipts.ts:65-67 | with the point after n digits a number has an exponent iff n is above 21 or below -5, and a point iff digits follow it in that notation |
| CanonicalText.WholeNumberText | src/domain/auditReceipts.ts:65-67 | zeros fill up a whole number, and a zero has no sign |
| CanonicalText.PointNumberText | src/domain/auditReceipts.ts:65-67 | -1.2 is written so |
| CanonicalText.SmallNumberText | src/domain/auditReceipts.ts:65-67 | 0.05 is written so |
| CanonicalText.ScientificTexts | src/domain/auditReceipts.ts:65-67 | 1e+21 and 1.5e-7 are written so |
| CanonicalText.ShortEscapes | src/domain/auditReceipts.ts:66 | the two-character escapes of a string |
| CanonicalText.HexEscapes | src/domain/auditReceipts.ts:66 | other control characters and lone surrogates are written in hexadecimal |
| CanonicalText.PlainUnits | src/domain/auditReceipts.ts:66 | all other units are written as they are |
| AuditReceipts.HexExact | src/domain/auditReceipts.ts:55-57 | the hex text has eight digits and determines the hash |
| AuditReceipts.Receipts.BuildReceipt | src/domain/auditReceipts.ts:94-120 | one call bumps the counter and returns the receipt of that counter value |
| AuditReceipts.ReceiptIdsDiffer | src/domain/auditReceipts.ts:105 | two receipt ids are equal iff counter and time stamp are |
| AuditReceipts.IdsDistinct | src/domain/auditReceipts.ts:92-105 | over any run and any clock no two receipts share an id |
| AuditReceipts.ReplayKeyStable | src/domain/auditReceipts.ts:97-102 | equal inputs of one vendor and action always get the same input hash and derived replay key |
| AuditReceipts.OneUnitChangesHash | src/domain/auditReceipts.ts:55-57 | canonical texts that differ in one code unit have different hash texts |
| HashLaws.ReceiptFields | src/domain/auditReceipts.ts:94-119 | every field of a receipt; the derived replay key hashes vendor::action::input hash |
| HashLaws.ReplayKeyReacts | src/domain/auditReceipts.ts:101-102 | changing one unit of the vendor or of the action always changes the derived replay key |
| HashLaws.ReceiptIdText | src/domain/auditReceipts.ts:105 | rcpt_, the first fourteen digits of the time stamp, _, the counter in base 36 |
| HashLaws.HexTextValue | src/domain/auditReceipts.ts:55-57 | the hex text is eight digits whose value is the hash |
| HashLaws.ValueLaw | src/domain/auditReceipts.ts:56 | what the value of a list of digits is |
| VectorMath.ComputeDot | src/analytics/vectorMath.ts:30-35 | the loop sums products over the shorter length |
| VectorMath.CauchySchwarz | src/analytics/vectorMath.ts:30-41 | the squared dot product is at most the product of the squared norms, for any two lengths |
| VectorMath.NormalizedLength | src/analytics/vectorMath.ts:43-47 | normalising gives length exactly 1, or leaves a zero vector |
| VectorMath.CosineRange | src/analytics/vectorMath.ts:30-47 | the cosine of two normalised vectors is in [-1, 1] |
| VectorMath.TopKCosine | src/analytics/vectorMath.ts:81-96 | the loop, sort and slice compute the specified list |
| VectorMath.HitsExact | src/analytics/vectorMath.ts:89-93 | the hits are exactly the entries that are not excluded and reach the threshold, with their own cosine |
| VectorMath.TopKBest | src/analytics/vectorMath.ts:94-95 | the result is sorted, has min(k, hits) entries, and nothing left out ranks above it |
| VectorMath.OmittedNotBetter | src/analytics/vectorMath.ts:81-96 | a qualifying entry is returned or beats no returned one |
| VectorMath.TopKCosines | src/analytics/vectorMath.ts:81-96 | for normalised vectors every returned cosine is in [-1, 1] |
| VectorMath.DefaultThresholdKeepsAll | src/analytics/vectorMath.ts:86 | for normalised vectors the default threshold drops nothing |
| VectorMath.StepIsBounded | src/analytics/vectorMath.ts:223-229 | one refinement iteration moves a point by at most 0.3 * stepSize |
| VectorLaws.DotLaw | src/analytics/vectorMath.ts:30-35 | the dot product coordinate by coordinate; what only one vector has counts nothing |
| VectorLaws.LengthLaw | src/analytics/vectorMath.ts:37-41 | a length is the non-negative root of the sum of squares; that of (3, 4) is 5 |
| VectorLaws.NormalizedCoordinate | src/analytics/vectorMath.ts:43-47 | each normalised coordinate times the length is the coordinate |
| VectorLaws.HitsLaw | src/analytics/vectorMath.ts:89-93 | a further entry is a hit, at the end and with its own cosine, iff it is not excluded and reaches the threshold |
| VectorLaws.TopKLaw | src/analytics/vectorMath.ts:94-95 | the cosines fall, the length is exact for every k, and no hit left out is above a returned one |
| VectorLaws.TopKUnique | src/analytics/vectorMath.ts:94-95 | equal cosines stay in registry order |
| VectorLaws.MoveLaw | src/analytics/vectorMath.ts:223-229 | a force up to 0.3 moves by force * step, a stronger one by exactly 0.3 * step in its direction |
| Census.RoundedRootIsClosest | src/connectors/censusLoader.ts:98-100 | the integer root is Math.round of the exact root |
| Census.AggregateByDimension | src/connectors/censusLoader.ts:82-104 | the loop builds the bucket map |
| Census.BucketExact | src/connectors/censusLoader.ts:91-101 | each bucket holds the sum and combined margin of exactly its own records |
| Census.TotalsConserved | src/connectors/censusLoader.ts:91-103 | bucket totals add up to all households and no bucket is repeated |
| Census.MarginError | src/connectors/censusLoader.ts:98-100 | integer form: (2R-(n-1))^2 <= 4S <= (2R+n-1)^2 for the margin R of n margins with squares summing to S |
| Census.MarginErrorReal | src/connectors/censusLoader.ts:98-100 | the margin, rounded at every step, is within (n-1)/2 of the exact root |
| Census.MarginBounds | src/connectors/censusLoader.ts:98-100 | the margin is at least every single one and at most their sum |
| CensusLaws.FirstRecord | src/connectors/censusLoader.ts:93-100 | the first record of a bucket gives it its households and its own margin, 0 if it has none |
| CensusLaws.NextRecord | src/connectors/censusLoader.ts:91-101 | a further record adds its households to its own bucket only, and the margin becomes the rounded root of the two squares |
| CensusLaws.NearestRoot | src/connectors/censusLoader.ts:97-99 | rounded root in squares: (2r-1)^2 < 4k <= (2r+1)^2 |
| CensusLaws.ThreeFourFive | src/connectors/censusLoader.ts:97-99 | margins of 3 and 4 combine to 5 |
| CensusLaws.SumsLaw | src/connectors/censusLoader.ts:94-99 | household sums, sums of squares and of sizes go record by record |
| CensusLaws.OfKeyIsScan | src/connectors/censusLoader.ts:92-93 | the records of a key are those a scan finds |
| CensusLaws.NextKey | src/connectors/censusLoader.ts:89-103 | buckets stand in the order in which their keys first occur |
| AgenticMemory.Memory.RememberWorkflow | src/domain/agenticHelpers.ts:58-69 | one call, with any expiry and storage fault, leaves the specified index |
| AgenticMemory.Memory.RecallSimilar | src/domain/agenticHelpers.ts:35-51 | recall returns min(3, candidates) entries that no other candidate beats, in the one order that is sorted and keeps recency among equals |
| AgenticMemory.LatestExact | src/domain/agenticHelpers.ts:66 | the unbounded list holds exactly the last version of every id |
| AgenticMemory.CutCommutes | src/domain/agenticHelpers.ts:66 | cutting before an update loses nothing the cut after it keeps |
| AgenticMemory.IndexIsRecentHistory | src/domain/agenticHelpers.ts:58-69 | over any run the index is the first 50 of the full most-recent-first list of what was stored |
| AgenticMemory.RecallExact | src/domain/agenticHelpers.ts:43-49 | recall returns the (at most three) most similar entries, sorted, and none left out is more similar |
| AgenticMemory.RecallIsStored | src/domain/agenticHelpers.ts:35-51 | what is recalled is the last stored version of its id and has a positive score |
| AgenticMemory.SimilarityLaw | src/domain/agenticHelpers.ts:44-46 | one point for the same KPI and two per shared industry, whatever its case |
| AgenticMemory.RecallOrder | src/domain/agenticHelpers.ts:43-49 | candidates are the entries that share an industry or the KPI; at most three, most similar first, and none left out is more similar |
| AgenticMemory.PlainCall | src/domain/agenticHelpers.ts:66-67 | a stored entry comes first, then the older ones in order without its previous version, 50 in all |
| AgenticMemory.FaultyCall | src/domain/agenticHelpers.ts:59-68 | failed writes change nothing; an expired or unreadable index starts again |
| AgenticMemory.IndexBound | src/domain/agenticHelpers.ts:66 | over any run the index holds min(50, distinct ids stored) entries |
| CsvLine.ParseCSVLine | src/connectors/dmaLoader.ts:112-129 | the loop computes the scan of the line |
| CsvLine.NothingLost | src/connectors/dmaLoader.ts:112-129 | for every line, joining the fields with commas gives the line without its quotes |
| CsvLine.RowReads | src/connectors/dmaLoader.ts:112-129 | any RFC 4180 encoding of a row is read as its fields without quote characters |
| CsvLine.RoundTripIff | src/connectors/dmaLoader.ts:112-129 | the round trip holds iff no field contains a quote |
| CsvLine.QuoteIsLost | src/connectors/dmaLoader.ts:118-119 | a concrete row whose quote is lost |
| CapabilityCache.SameKeyIff | src/domain/capabilityService.ts:134-136 | two postures share a key iff they are equal or collide in one of the listed ways |
| CapabilityCache.OrdinaryKidsNeverCollide | src/domain/capabilityService.ts:134-136 | key ids other than "off" and those ending in the flag suffix never collide |
| CapabilityCache.UnusualKidCollides | src/domain/capabilityService.ts:134-136 | every other key id collides with some posture |
| CapabilityCache.NamedCollisions | src/domain/capabilityService.ts:134-136 | two concrete pairs of postures where the second caller gets the first one's document |
| CapabilityCache.Service.GetCapabilities | src/domain/capabilityService.ts:828-899 | one call, with any expiry and storage fault, returns and caches as specified |
| CapabilityCache.AlwaysFresh | src/domain/capabilityService.ts:828-899 | over any run with ordinary key ids every answer is the projection of a fresh build |
| CapabilityCache.FreshIff | src/domain/capabilityService.ts:834-848 | a call for one posture never spoils the next call for another iff they do not collide |
| CapabilityCache.ProjectExact | src/domain/capabilityService.ts:856-897 | a filtered answer has exactly the blocks that are named, supported and present, unchanged, and everything common |
| CapabilityCache.CacheKeyText | src/domain/capabilityService.ts:134-136 | the four forms of the key |
| CapabilityCache.GetLaw | src/domain/capabilityService.ts:838-854 | a readable stored document is answered as it is; otherwise the fresh one is, and is stored unless writing fails; nothing else changes |
| Projector.CrossCovariance | routes/getProjector.ts:107-119 | the triple loop fills entry (r, c) with the sum over rows of products |
| Projector.CovarianceIsPSD | routes/getProjector.ts:98-119 | the covariance of a set with itself is symmetric and positive semidefinite |
| Projector.FormIsSquares | routes/getProjector.ts:107-119 | its quadratic form is the sum of squared dot products |
| Projector.ApplyProjector | routes/getProjector.ts:212-225 | the loops compute the normalised matrix-vector product |
| Projector.IdentityProjects | routes/getProjector.ts:130-135 | the published rotation leaves a vector as it is before normalising, and a unit vector altogether |
| VectorLaws.CovarianceLaw | routes/getProjector.ts:111-117 | one more pair of rows adds the product of its coordinates r and c |
| VectorLaws.CovarianceTransposes | routes/getProjector.ts:107-119 | swapping the two sets transposes the matrix |
| Seasonality.PeakAndTrough | src/analytics/derivedFacets.ts:67-72 | the loop finds the first largest and first smallest month |
| Seasonality.MeanIsOne | src/analytics/derivedFacets.ts:65-73 | the normalised profile averages exactly 1 |
| Seasonality.ProfileShape | src/analytics/derivedFacets.ts:66-74 | trough <= 1 <= peak and the variance is at most (peak-1)(1-trough) |
| VectorLaws.MonthShare | src/analytics/derivedFacets.ts:65-66 | each month times the year is twelve times its raw value |
| VectorLaws.YearLaw | src/analytics/derivedFacets.ts:65-74 | the sum of the year and its variance, month by month |
| BridgeIndex.BuildBridgeIndex | src/connectors/taxonomyBridgeLoader.ts:68-91 | the loop builds the three bucket maps |
| BridgeIndex.BucketIsScan | src/connectors/taxonomyBridgeLoader.ts:73-88 | each bucket is the in-order linear scan for its key |
| BridgeIndex.ContentMappingsExact | src/connectors/taxonomyBridgeLoader.ts:97-109 | the lookup is any sorted, order-keeping arrangement of the scan, cut to the limit |
| BridgeIndex.ContentMappingsBest | src/connectors/taxonomyBridgeLoader.ts:97-109 | nothing left out is a stronger match than anything returned |
| BridgeIndex.AudienceMappingsExact | src/connectors/taxonomyBridgeLoader.ts:114-119 | the reverse lookup is the scan for bidirectional entries of the content id |
| BridgeIndex.StrongFirst | src/connectors/taxonomyBridgeLoader.ts:102-108 | the strong entries for the id, then the moderate, then the contextual, each in input order, cut to the limit |
| BridgeIndex.TierBucket | src/connectors/taxonomyBridgeLoader.ts:84-87 | the third index: the entries under a first tier, in order |
| TrapAudit.FindTemplateRegions | tmp-mining/trap_audit.py:65-131 | regions are ordered, disjoint, opened by one bare backtick, closed by the next line with any, and nothing terminated is missed |
| TrapAudit.RegionsUnique | tmp-mining/trap_audit.py:65-131 | a file has exactly one list of regions that is ordered, well delimited and complete |
| TrapAudit.CountRun | tmp-mining/trap_audit.py:172-176 | the backward scan counts the backslashes directly before a position |
| TrapAudit.CountTrap2 | tmp-mining/trap_audit.py:202-215 | the scan counts the quoted parts with a letter n, t or r after a single backslash |
| TrapAudit.Trap2Iff | tmp-mining/trap_audit.py:196-215 | trap 2 lists a line iff it is in a region, no comment, and has such a part |
| TrapAudit.AuditFile | tmp-mining/trap_audit.py:134-232 | the reported lines of traps 1, 3 and 4 are exactly the lines that meet the criterion, in order and once each; those of trap 2 are repeated once per part |
| TrapAudit.Trap4NeedsTwoBackslashes | tmp-mining/trap_audit.py:166-180 | a reported backtick has at least two backslashes before it |
| TrapAudit.Trap4Iff | tmp-mining/trap_audit.py:166-180 | an interior line is reported iff a backtick follows a non-zero even run of backslashes |
| TrapAudit.BareBacktickMissed | tmp-mining/trap_audit.py:166-180 | a concrete file with a bare backtick in a template body that trap 4 does not report |
| TrapAudit.UnescapedBackticks | tmp-mining/trap_audit.py:268-282 | the loop counts backticks after an even run of backslashes |
| TrapLaws.FindingsMean | tmp-mining/trap_audit.py:159-232 | for each trap, a line is listed iff it is inside a literal (strictly, for trap 4), no comment (traps 1 to 3), and has that pattern of characters |
| TrapLaws.BareMeans | tmp-mining/trap_audit.py:95-96 | the count that decides about regions is the number of backticks not directly after a backslash |
| TrapLaws.CommentMeans | tmp-mining/trap_audit.py:163-164 | a comment line has, after leading spaces, an asterisk or two slashes |
| TrapLaws.PartsMean | tmp-mining/trap_audit.py:202-203 | quotes pair up from the left and enclose the parts trap 2 looks at |
| TrapLaws.UnescapedMeans | tmp-mining/trap_audit.py:270-281 | trap 5 counts the backticks after an even number of backslashes |
| Ranking.SortSorted | src/analytics/vectorMath.ts:94 | the sort used throughout is sorted by key |
| Ranking.SortStable | src/analytics/vectorMath.ts:94 | it keeps the order of equal keys |
| Ranking.StableSortUnique | src/analytics/vectorMath.ts:94 | a sorted, stable rearrangement is unique, so the model's sort is the language's |

## Left out

- Rounding of doubles: arithmetic is exact, except that the generator is shown to stay below 2^53.
- Interleaving: calls on a service are taken one at a time; the storage layer's atomicity is not modelled.
- ActivationService.Service.ActivateSignal: account, campaign, notes, events and logging, and the columns a catalog upsert refreshes, are not modelled.
- ActivationService.Service.GetOperation: of the deployment record only the segment id is modelled; updatedAt and completedAt are clock reads.
- ActivationService.Service.FireWebhook: URL parsing is a parameter, signing and the receiver's answer are inputs; payload and headers are not modelled.
- ActivationRuns.DeliverySafety: the spacing rests on the clock not going back inside one poll; nothing is asked of it between polls.
- AudienceResult.ScoreQuery: warnings, the dimension breakdown, the cross-taxonomy placeholders, and the temporal scope and concept id of a signal are not modelled.
- ExpressionTree.ValidateAST: error texts are constructors, paths are lists of indices.
- Canonical.CanonicalIff: functions, symbols, big integers and sparse arrays are outside the value type; which shortest decimals are doubles is not modelled.
- AuditReceipts.Receipts.BuildReceipt: the clock is a parameter of any value.
- PseudoVector.TextToPseudoVector: lower-casing and trimming are one parameter, the norm another.
- VectorMath.TopKCosine: the registry is the list of its entries in iteration order.
- AgenticMemory.Memory.RecallSimilar: lower-casing is a parameter; the hint text is not modelled.
- CapabilityCache.AlwaysFresh: the document is a function of key id and flag; the rest of the environment is fixed.
- Projector.CrossCovariance: rows of equal length, as its matrices have; matrix hashing and the handler are not modelled.
- Seasonality.ProfileShape: before rounding; choosing the profile by name is not modelled.
- TrapAudit.AuditFile: reports line numbers without the printed snippets; the characters lstrip removes are a parameter.
- ActivationService.Service.UpdateJobStatus: updated_at, completed_at, the error message and the event row are not modelled.
- `informationOverlap`, saturation curves, KL and mutual information: logarithms and exponentials.
- Other CSV loaders, cross-taxonomy descriptions, affinity rows, privacy and holdout tables: easy filters and folds.
- `centroid`, analogies, and how `umapLocalRefine` chooses its forces: compositions of the operations above without a further law.
- HTTP routes, authentication, LLM and network code, static data and user interface.
