# A Dafny model of the mj_formatter engine

mj_formatter rewrites C++ sources through a list of policies. This project models the parts of
its engine that carry state or arithmetic worth a proof, and proves what they are for. Every
module follows one component:

* **Conflict solver** (`ConflictSolver`, `GlobalSolver`, `ExactSearch`, `ExactSearchOptimality`,
  `ExactSearchTolerance`, `ComponentSolver`, `ComponentExactness`, `SolverExactness`,
  `ConflictGraph`, `ConflictSelection`, `CandidateOrder`, `UtilityLaws`, `ConflictLaws`). Candidates become a conflict
  graph, its connected components are solved one by one, small ones by branch and bound and
  large ones greedily. The mutable search (flags
  raised and lowered, a stack pushed and popped, a best so far) is proved to compute the fold of
  its acceptance test over all conflict-free choices. The tolerance of 0.000001 is kept as it is
  in the code. With it the search is not exact on all weights, and
  `ComponentExactness.ComponentExactIffGap`, carried through `solve` by
  `SolverExactness.SolverExactIffGap`, says exactly when it is: components of given weights
  and conflicts are all solved exactly, whatever their lines and policies, if and only if no
  conflict-free total in them lies within the tolerance below the best. The candidates that show
  the failing half are built, one per line, and proved to form such a component. Without the gap
  the loss is at most one tolerance per leaf of the search (`GlobalSolver.SelectedBound`).
* **Filters** (`RealSums`, `Matrices`, `Cholesky`, `PositiveDefiniteness`, `SpdInverse`,
  `SpdRepair`, `KalmanUpdate`, `CertaintyFilter`, `EstimateLaws`, `ShardMerging`,
  `ScalarKalman`, `NoiseSchedule`). Cholesky factorisation, inversion and repair work in place on arrays and are
  proved against index-free matrix algebra over exact reals, for every size; `sqrt` is a
  parameter that returns the non-negative root. Two consequences are not visible in the code: the identity that
  replaces a failed inversion and the scalar filter's special branch and floors are never used.
* **Project graph** (`GraphEdges`, `GraphState`, `NodeCapping`, `ProjectGraph`, `FileRefresh`,
  `GraphUpdater`, `UpdateLaws`, `CompactionLaws`, `FileLinks`, `Neighbourhood`, `AffectedFiles`,
  `AffectedLaws`). The state object is updated
  file by file, renames symbols, recounts only what an update may have touched, and is compacted
  under caps. Whole runs are proved to keep every count equal to a full recount. The search for
  affected files is a bounded breadth-first search; without a cap in its way its scores are the
  best over all shortest chains.
* **Batch dispatch** (`Coverage`, `Dispatch`, `DispatchInvariant`, `DispatchOutcome`,
  `DispatchLiveness`). Controllers,
  workers and channels form a step relation in which sends fail, workers die, answer garbage or
  answer too late, in any interleaving. Leases tell attempts apart in the model only.
* **Error-correcting frames** (`ByteFields`, `EccLayout`, `ShardCode`, `ShardBuffers`, `StateCodec`,
  `EccFrame`). The erasure code and the checksum are parameters: any as many shards as there are
  data shards determine all of them, and the checksum tells altered shards from the originals.
* **Edit reconciliation** (`TextLines`, `LineSuppression`, `Convergence`, `ConvergenceRuns`,
  `ClaimCounts`, `RenamePropagation`, `RenameSubstitution`, `RenameLaws`). Which policy's edit survives on
  a line, and renaming in place from right to left.

The modules whose names end in `Laws` say what the specification functions beside them mean,
in plain comparisons.

`SeqFacts`, `Bounds`, `Tallies` and `Sorting` hold shared facts and the stable sort that
stands for the library's.

Where the code does not do what its comments say, the model follows the code:

* The tie-break swaps the best choice for one that is up to the tolerance lighter, so repeated
  ties drift (`ComponentExactness.TieSwapsDrift`).
* The search starts from the empty choice, so a candidate that conflicts with nothing is still
  dropped when its utility is not above the tolerance (`UtilityLaws.AloneSelectedExactly`).
* Symbol ids escape a bar as `%7C` but not the percent sign, so a linker name with a bar and one
  that spells the escape give one symbol (`UpdateLaws.EscapedUsrs`); names without the escape
  are told apart (`UpdateLaws.DifferentUsrs`).
* A frame reader takes one to three stray bytes for a clean end of the stream
  (`EccFrame.EndExactly`).
* The count of claimed lines counts real edits. It is the number of lines a policy has claimed
  if and only if no two of its real edits are on one line (`ClaimCounts.CountIsLinesExactly`
  after every run, `RealCountOfLines` for one call); two edits of one line count two
  (`TwiceOnOneLine`, `TwiceCounted`). It still bounds the lines taken from the policy
  (`SuppressedWithinCount`).
* Putting lines back can join two lines when the new text has more lines than the old one
  (`LineSuppression.SplicedExactly` says exactly when, `LinesCanMerge` is an instance).
* The certainty filter takes its first measurement over unclamped. With measurements in the unit
  range, which is what the coordinator builds at src/engine/coordinator.rs:495-526, estimates
  stay in it at every count, and so do merged ones. Without that assumption they lie in it from
  the second observation on, and a merge may leave it if and only if some shard has seen exactly
  one measurement (`ShardMerging.RangeIffNoneSingle`, with runs of observations that
  leave it for all such counts in `ShardMerging.ObservedOutlier`).

## Model

| member | source | states |
|---|---|---|
| `ExactSearch.ComponentSearch.Dfs` | src/engine/conflict_solver.rs:391-425 | one visit of the pruned, recursive search leaves `current` and every blocked flag exactly as it found them and turns the best so far into what the unpruned enumeration of the subtree gives |
| `ExactSearchOptimality.TieBreakDecides` | src/engine/conflict_solver.rs:372-389 | with distinct keys, of two different choices exactly one has the smaller sorted (line, policy) list, so every tie is decided |
| `ExactSearch.ComponentSearch.Block` | src/engine/conflict_solver.rs:406-415 | raises the flags of the position and its later conflicts, and lists exactly those it raised itself |
| `ExactSearch.ComponentSearch.Unblock` | src/engine/conflict_solver.rs:419-421 | lowers the listed flags and no others |
| `ExactSearch.SuffixBoundAdmissible` | src/engine/conflict_solver.rs:334-337 | no leaf below a node scores more than the running score plus the suffix bound |
| `ExactSearch.SubtreePruned` | src/engine/conflict_solver.rs:401-404 | a subtree cut off by the bound would not have changed the best |
| `ExactSearch.Search` | src/engine/conflict_solver.rs:302-445 | the branch and bound from the root gives what folding the acceptance test over every conflict-free choice gives, for all weights |
| `ExactSearchOptimality.LeavesComplete` | src/engine/conflict_solver.rs:391-425 | every conflict-free choice is met by the enumeration |
| `ExactSearchOptimality.LeavesOrdered` | src/engine/conflict_solver.rs:391-425 | no choice is met twice, and choices come in depth-first order |
| `ExactSearchOptimality.AnswerConflictFree` | src/engine/conflict_solver.rs:302-445 | whatever the weights, the answer is a conflict-free choice with its true total |
| `ExactSearchOptimality.GapMakesExact` | src/engine/conflict_solver.rs:302-445 | when no conflict-free total lies within the tolerance below the best, the answer is optimal and no optimal choice has a smaller key list |
| `ExactSearchOptimality.AnswerWinsTies` | src/engine/conflict_solver.rs:302-445 | with that gap and distinct keys the answer has a strictly smaller key list than every other optimal choice |
| `ExactSearchTolerance.ExactIffTopGap` | src/engine/conflict_solver.rs:372-425 | for descending weights: the answer is optimal for every labelling with distinct lines and distinct policies if and only if no conflict-free total lies within the tolerance below the best |
| `ExactSearchTolerance.NearBreaksExactness` | src/engine/conflict_solver.rs:372-425 | without that gap some labelling with distinct lines and distinct policies, with names as long as asked for, makes the search return a choice that is not optimal |
| `ExactSearchTolerance.CoarseGridHasGap` | src/engine/conflict_solver.rs:372-425 | weights on a grid coarser than the tolerance have the gap |
| `ExactSearchTolerance.LossBounded` | src/engine/conflict_solver.rs:372-425 | for all weights the answer is short of the best by at most one tolerance per leaf |
| `ConflictGraph.ConnectedComponents` | src/engine/conflict_solver.rs:276-300 | the stack search returns the reachability classes: disjoint, covering, sorted, in order of their first node |
| `ConflictGraph.ExploreClass` | src/engine/conflict_solver.rs:281-296 | exploring from an unvisited seed collects and marks exactly its class |
| `ConflictGraph.ReachableSymmetric` | src/engine/conflict_solver.rs:259-300 | in a symmetric adjacency reachability goes both ways |
| `ConflictGraph.ClassUnique` | src/engine/conflict_solver.rs:276-300 | two classes that share a node are one list |
| `ConflictSelection.DecompositionOptimal` | src/engine/conflict_solver.rs:226-257 | heaviest conflict-free subsets of the classes together are a heaviest conflict-free set of the whole graph |
| `ConflictSelection.SelectGreedy` | src/engine/conflict_solver.rs:447-487 | the greedy walk keeps an independent set in which every node left out has a kept neighbour of at least its utility |
| `ConflictSelection.GreedyBound` | src/engine/conflict_solver.rs:447-487 | any conflict-free subset weighs at most max(1, maximum degree) times the greedy choice, in clamped weights |
| `ComponentSolver.SolveSorted` | src/engine/conflict_solver.rs:302-370 | on a sorted component the nodes returned are those of the search answer, distinct, conflict-free, and heaviest when the component has the gap |
| `ComponentSolver.AnswerSound` | src/engine/conflict_solver.rs:302-445 | whatever the weights, the nodes of an answer are distinct, in the component and conflict-free |
| `ComponentSolver.AnswerHeaviest` | src/engine/conflict_solver.rs:302-445 | with the gap the nodes of the answer are a heaviest conflict-free subset of the component |
| `ComponentSolver.AnswerLossBounded` | src/engine/conflict_solver.rs:302-445 | gap or not, no conflict-free subset of the component outweighs the answer by more than one tolerance per leaf of the search |
| `ComponentSolver.AnswerLeast` | src/engine/conflict_solver.rs:302-445 | with the gap and one candidate per line, every other heaviest conflict-free subset has a larger sorted (line, policy) list than the answer |
| `ConflictSolver.ConflictsSymmetric` | src/engine/conflict_solver.rs:151-197 | it does not matter which of two candidates is asked about the other |
| `ConflictSolver.ConsolidateByLine` | src/engine/conflict_solver.rs:73-107 | exactly one candidate remains for each incoming line, in line order: the one that held the line last |
| `ConflictSolver.LineBestNearBest` | src/engine/conflict_solver.rs:73-107 | the candidate kept for a line is short of every other for that line by at most one tolerance per candidate |
| `ConflictSolver.BuildConflictAdjacency` | src/engine/conflict_solver.rs:259-274 | the pair loop fills in the neighbour lists of the conflict graph |
| `ConflictSolver.GraphEdges` | src/engine/conflict_solver.rs:259-274 | the graph is symmetric and has an edge exactly between different conflicting candidates |
| `ConflictSolver.SortedNodes` | src/engine/conflict_solver.rs:308-329 | sorting permutes a component and orders it by descending utility |
| `ConflictSolver.SortInOrder` | src/engine/conflict_solver.rs:302-325 | the sort of a component respects the whole comparison: utility, confidence and tier descending, then line and policy |
| `GlobalSolver.InstanceDescends` | src/engine/conflict_solver.rs:302-336 | the instances the search gets have descending weights and distinct keys |
| `ComponentExactness.ComponentShape` | src/engine/conflict_solver.rs:302-348 | the instance of a component is valid, connected, and lists conflicts in ascending order |
| `ComponentExactness.Realised` | src/engine/conflict_solver.rs:141-348 | every connected instance with descending weights, distinct lines and distinct policies outside the bypass list is the instance of a component of some candidates on lines of their own |
| `ComponentExactness.ComponentExactIffGap` | src/engine/conflict_solver.rs:302-445 | the exact condition for components: a component, and with it every component of the same weights and conflicts whatever its lines and policies, gets a heaviest conflict-free subset, if and only if no conflict-free total in it lies within the tolerance below the best |
| `ComponentExactness.NoGapLoses` | src/engine/conflict_solver.rs:372-425 | without the gap there are candidates, one per line, with a component of the same shape whose answer is not heaviest |
| `SolverExactness.SolverExactIffGap` | src/engine/conflict_solver.rs:28-71 | the exact condition for the whole solver: for a component within the threshold, every outcome of `solve` gives all components of its weights and conflicts a heaviest answer if and only if it has the gap |
| `SolverExactness.SolverLoses` | src/engine/conflict_solver.rs:28-71 | without the gap there are incoming candidates, one per line and all admissible, that form one such component and are not answered with a heaviest subset |
| `ComponentExactness.TieSwapsDrift` | src/engine/conflict_solver.rs:372-425 | three candidates that form one component, two of them compatible and worth the tolerance each, of which the exact solver returns none |
| `GlobalSolver.SolveComponentExact` | src/engine/conflict_solver.rs:302-445 | an exactly solved component is answered with the nodes of the search answer on its sorted instance |
| `GlobalSolver.ExactAnswerHeaviest` | src/engine/conflict_solver.rs:302-445 | with the gap that answer is a heaviest conflict-free subset of the component |
| `GlobalSolver.ExactAnswerLeast` | src/engine/conflict_solver.rs:302-445 | with the gap every other heaviest conflict-free subset has a larger sorted (line, policy) list |
| `GlobalSolver.ExactAnswerLoss` | src/engine/conflict_solver.rs:302-445 | gap or not, no conflict-free subset outweighs the answer by more than one tolerance per leaf |
| `GlobalSolver.SolveComponentGreedy` | src/engine/conflict_solver.rs:447-487 | a component above the threshold is answered by the greedy walk |
| `GlobalSolver.SelectConflictOptimal` | src/engine/conflict_solver.rs:226-257 | components up to the threshold get the answer of the exact search and larger ones a dominating greedy one, and the accepted candidates are the union of the answers in index order |
| `GlobalSolver.SelectedIndependent` | src/engine/conflict_solver.rs:226-257 | no two selected candidates conflict |
| `GlobalSolver.SelectedHeaviest` | src/engine/conflict_solver.rs:226-257 | when every component is solved exactly the selection is a maximum-weight conflict-free set of all admissible candidates |
| `GlobalSolver.SelectedBound` | src/engine/conflict_solver.rs:199-232 | for all candidates: no conflict-free set outweighs max(1, maximum degree) times the selection by more than one tolerance per leaf of the small components without the gap |
| `GlobalSolver.GreedyAnswerBound` | src/engine/conflict_solver.rs:447-487 | in a component above the threshold no conflict-free subset outweighs max(1, maximum degree) times its answer |
| `GlobalSolver.SelectedGreedyBound` | src/engine/conflict_solver.rs:199-232 | when every component is greedy or has the gap, no conflict-free set of all admissible candidates outweighs max(1, maximum degree) times the selection |
| `GlobalSolver.Solve` | src/engine/conflict_solver.rs:28-71 | accepted and dropped lines are disjoint and together the incoming lines, hard-blocked lines are dropped, accepted candidates are incoming, meet every hard clause and conflict neither with each other nor with those already selected; per component they are the exact search answer or a dominating greedy one, and heaviest of all when every component is exact; what utility means is in the rows of `UtilityLaws`, which speak of the `admissible`, `components`, `answers` and `indexes` returned here |
| `UtilityLaws.GainsCountInFull` | src/engine/conflict_solver.rs:135-138 | more confidence and more style gain add to the utility in full |
| `UtilityLaws.LessRiskCounts` | src/engine/conflict_solver.rs:119-138 | for estimates in the unit range less risk is never less useful |
| `UtilityLaws.NarrowerCounts` | src/engine/conflict_solver.rs:113-138 | a narrower stage is never less useful, and strictly more so when anything is covered |
| `UtilityLaws.FootprintCosts` | src/engine/conflict_solver.rs:128-138 | for a non-negative richness variance the footprint costs its price, between 0 and 0.30 |
| `UtilityLaws.LargerCostsMore` | src/engine/conflict_solver.rs:128-138 | a larger footprint is never more useful |
| `UtilityLaws.ClearWinnerHolds` | src/engine/conflict_solver.rs:73-107 | a candidate ahead of all others for its line by more than the tolerance holds the line |
| `UtilityLaws.MoreConfidentHolds` | src/engine/conflict_solver.rs:73-107 | of two candidates for a line alike but for confidence, by more than the tolerance, the more confident one holds it |
| `UtilityLaws.BetterRivalSelected` | src/engine/conflict_solver.rs:226-257 | of two candidates that conflict with each other and nothing else, the one ahead by more than the tolerance is accepted, if it is worth more than that, and the other is not; exact and greedy alike |
| `UtilityLaws.MoreConfidentSelected` | src/engine/conflict_solver.rs:226-257 | the same for two candidates alike but for policy, line and confidence: the more confident one is accepted |
| `UtilityLaws.AloneSelectedExactly` | src/engine/conflict_solver.rs:226-257 | a candidate that conflicts with nothing is accepted if and only if its utility is above the tolerance |
| `ConflictLaws.OverlapSharesPoint` | src/engine/conflict_solver.rs:203-212 | ranges overlap if and only if they share a point |
| `ConflictLaws.NoRivals` | src/engine/conflict_solver.rs:151-162 | candidates of one policy conflict on one line only, and a bypassing policy with no other |
| `ConflictLaws.RivalsClash` | src/engine/conflict_solver.rs:164-190 | rival candidates on one line, with a common point, or with a common symbol at most one line apart, conflict |
| `ConflictLaws.SymbolsReach` | src/engine/conflict_solver.rs:172-190 | how many lines a shared symbol reaches: the larger impact radius, at least the distance set by the filter for risky and rewriting policies |
| `ConflictLaws.PreprocessorReach` | src/engine/conflict_solver.rs:191-197 | near preprocessor lines different texts conflict as far as the larger impact radius |
| `ConflictLaws.WiderImpact` | src/engine/conflict_solver.rs:151-197 | a larger impact radius loses no conflict |
| `ConflictLaws.RuledOutExactly` | src/engine/conflict_solver.rs:141-149 | a candidate is ruled out if and only if it touches one of the hard clauses, every clause but the macro regions |
| `ConflictLaws.ThresholdBounds` | src/engine/certainty_filter.rs:226-228 | components of at most 8 nodes always go to the exact search and none of more than 64 does |
| `ConflictLaws.TiesForALine` | src/engine/conflict_solver.rs:82-104 | at equal utility confidence decides, then the lower risk, and a full tie leaves the line to its holder |
| `CandidateOrder.TextLessMeans` | src/engine/conflict_solver.rs:372-389 | texts are ordered by the first character in which they differ, a prefix first |
| `CandidateOrder.KeyListLessMeans` | src/engine/conflict_solver.rs:372-389 | key lists are ordered by the first key in which they differ, a prefix first |
| `Cholesky.Factorise` | src/engine/mat5.rs:553-579 | in-place factorisation succeeds if and only if the matrix has a lower-triangular factor with positive diagonal and no pivot below the threshold, and then returns one: L times its transpose is the matrix |
| `PositiveDefiniteness.FactorableDefinite` | src/engine/mat5.rs:553-579 | a symmetric matrix that Cholesky accepts is positive definite |
| `PositiveDefiniteness.PivotBound` | src/engine/mat5.rs:553-579 | each pivot of P + R is at least the square of the matching diagonal entry of R's factor |
| `PositiveDefiniteness.SemidefinitePlusFactorable` | src/engine/mat5.rs:553-579 | a positive semidefinite matrix plus one that Cholesky accepts is again accepted |
| `SpdInverse.InverseSpd` | src/engine/mat5.rs:599-630 | refuses exactly when there is no Cholesky factor, and otherwise returns the symmetric two-sided inverse of the matrix with its lower triangle, which is the matrix itself when it is symmetric |
| `SpdInverse.FactorInverts` | src/engine/mat5.rs:599-630 | a right inverse of the factor, multiplied with its transpose, inverts the factored matrix on both sides |
| `SpdInverse.SymmetricInverseGram` | src/engine/mat5.rs:617-628 | that product is symmetric, so filling both triangles from one is right |
| `SpdRepair.Symmetrize` | src/engine/mat5.rs:635-643 | averages the matrix with its transpose |
| `SpdRepair.EnforceSpd` | src/engine/mat5.rs:650-678 | every path of the repair ends in a matrix Cholesky accepts, and which matrix that is |
| `SpdRepair.FlooredFactorable` | src/engine/mat5.rs:667-677 | the final diagonal fallback with its floors is always accepted |
| `SpdRepair.RepairSymmetric` | src/engine/mat5.rs:650-678 | the repair of a symmetric matrix is symmetric |
| `KalmanUpdate.JosephSemidefinite` | src/engine/certainty_filter.rs:68-75 | for any gain the Joseph form is symmetric positive semidefinite |
| `KalmanUpdate.GainBalances` | src/engine/certainty_filter.rs:60-62 | the gain built from the inverse makes the transposed gain solve S y = P x |
| `KalmanUpdate.SpreadGrows` | src/engine/certainty_filter.rs:68-75 | away from that solution the posterior form grows by a quadratic form in the distance |
| `KalmanUpdate.GainOptimal` | src/engine/certainty_filter.rs:44-78 | no gain gives a smaller posterior covariance than the one used |
| `KalmanUpdate.PosteriorShrinks` | src/engine/certainty_filter.rs:44-78 | the posterior exceeds neither the predicted covariance nor the measurement noise, in any direction |
| `CertaintyFilter.InnovationFactorable` | src/engine/certainty_filter.rs:57-61 | in every reachable state the innovation covariance is accepted by Cholesky, so the identity fallback is never used |
| `CertaintyFilter.KalmanUpdateFull` | src/engine/certainty_filter.rs:44-78 | for any matrices the gain is built from that inverse, or from the identity when there is no factor; in states that satisfy the invariant it is the true inverse, both covariances stay symmetric positive semidefinite, and by `EstimateLaws.UpdateBalances` the estimates balance prediction and measurement |
| `CertaintyFilter.ClampDiagonalWithMaturity` | src/engine/certainty_filter.rs:80-91 | clamps the diagonal in place and leaves every other entry |
| `CertaintyFilter.AdaptNoise` | src/engine/certainty_filter.rs:347-356 | one blend, clamp and repair gives a symmetric matrix that Cholesky accepts |
| `CertaintyFilter.FilterState.constructor` | src/engine/certainty_filter.rs:94-103 | the initial state satisfies the invariant |
| `CertaintyFilter.FilterState.Observe` | src/engine/certainty_filter.rs:319-368 | every observation keeps the invariant (covariance symmetric positive semidefinite, both noise matrices symmetric positive definite) and is exactly one update and adaptation; measurements in the unit range keep the estimates there at every count; `EstimateLaws.ObserveBalances` says where the estimates move |
| `CertaintyFilter.FilterState.Adapt` | src/engine/certainty_filter.rs:340-357 | both noise matrices move towards what the innovation suggests and stay symmetric positive definite |
| `CertaintyFilter.StepShrinks` | src/engine/certainty_filter.rs:319-368 | a step's posterior exceeds neither prediction nor measurement noise |
| `EstimateLaws.UpdateBalances` | src/engine/certainty_filter.rs:44-68 | with S the sum of predicted covariance P and noise R there is a w with S w = z - x, and before the clamp the new estimate x' satisfies x' - x = P w and z - x' = R w |
| `EstimateLaws.AgreeingMeasurement` | src/engine/certainty_filter.rs:319-368 | a measurement equal to the estimates leaves them in place |
| `EstimateLaws.BetweenOldAndMeasured` | src/engine/certainty_filter.rs:319-368 | with diagonal matrices each estimate lies between the old one and the measurement and divides the way as predicted variance and noise stand |
| `EstimateLaws.ObserveBalances` | src/engine/certainty_filter.rs:319-368 | every observation after the first is such a step of the object |
| `EstimateLaws.ExpectedInnovationKeepsR` | src/engine/certainty_filter.rs:340-349 | an innovation as large as predicted covariance and noise let expect leaves the measurement noise as it is |
| `EstimateLaws.ExpectedCorrectionKeepsQ` | src/engine/certainty_filter.rs:351-356 | a correction as large as the covariance has shrunk leaves the process noise as it is |
| `EstimateLaws.LerpBetween` | src/engine/certainty_filter.rs:340-356 | the blended noise lies between the old and the update, at its two ends exactly |
| `EstimateLaws.MatureClampBounds` | src/engine/certainty_filter.rs:80-91 | noise within floor and ceiling is left alone; the bounds tighten with maturity |
| `ShardMerging.MergedCovariance` | src/engine/certainty_filter.rs:131-157 | the weighted sum of covariances is a covariance |
| `ShardMerging.MergedEstimates` | src/engine/certainty_filter.rs:131-157 | merged estimates of shards in the unit range lie between zero and the share of observations counted so far |
| `ShardMerging.MergeShards` | src/engine/certainty_filter.rs:131-157 | the merged state is the weighted mean with the default noise and a saturating count; it satisfies the invariant when all estimates are in the unit range or no shard has seen exactly one measurement; an empty merge is the initial state |
| `ShardMerging.RangeIffNoneSingle` | src/engine/certainty_filter.rs:131-157 | whatever sound shards with given counts hold, the merged estimates are in the unit range, if and only if no count is exactly one |
| `ShardMerging.ObservedOutlier` | src/engine/certainty_filter.rs:131-157 | for all counts one of which is one, filters that make that many observations, from a new filter on, merge to estimates outside the unit range |
| `ShardMerging.FirstMeasurementEscapes` | src/engine/certainty_filter.rs:131-157 | a filter that observed 2 as its first measurement has the merged estimate 2 |
| `ScalarKalman.GainProper` | src/engine/policy_interference.rs:59-72 | the gain lies strictly between 0 and 1, and the posterior below both the predicted variance and R |
| `ScalarKalman.PosteriorAboveFloor` | src/engine/policy_interference.rs:72 | the posterior stays above the floor of 1e-12 |
| `ScalarKalman.Between` | src/engine/policy_interference.rs:70-71 | the new estimate lies between the old one and the measurement, strictly when they differ |
| `ScalarKalman.GuardsIdle` | src/engine/policy_interference.rs:60-72 | in every sound state the branch for a vanishing S, the clamp of the estimate and the variance floor have no effect |
| `ScalarKalman.AdaptedNoise` | src/engine/policy_interference.rs:75-94 | adapted noise lies between its floor and 1.5 times its ceiling |
| `ScalarKalman.NoiseStep` | src/engine/policy_interference.rs:75-94 | between floor and ceiling the noise goes a half of the way to the update at the third observation, and a twentieth from the twenty-first on |
| `ScalarKalman.NextSound` | src/engine/policy_interference.rs:44-99 | one observation keeps all bounds |
| `ScalarKalman.RunSound` | src/engine/policy_interference.rs:44-99 | after any list of measurements all bounds hold, the estimate lies within the range of what was measured, and the count is right, saturating |
| `ScalarKalman.RunFromStart` | src/engine/policy_interference.rs:44-99 | the same from a fresh state, for any non-empty list of measurements |
| `ScalarKalman.ScalarKalmanState.Observe` | src/engine/policy_interference.rs:44-99 | the method is one unguarded step on the clamped measurement |
| `ScalarKalman.ScalarKalmanState.Update` | src/engine/policy_interference.rs:54-98 | from any state whatever, the update with all its guards |
| `ScalarKalman.MergedSound` | src/engine/policy_interference.rs:223-242 | merging sound shards keeps all bounds and stays within the range of the shards' estimates |
| `ScalarKalman.MergeScalarShards` | src/engine/policy_interference.rs:223-242 | the loop computes the weighted means, and its clamp and floor have no effect |
| `ScalarKalman.NextDivides` | src/engine/policy_interference.rs:44-99 | the first measurement is taken over; each later estimate divides the way from the old one to the measurement as predicted variance and noise stand |
| `ScalarKalman.ExpectedInnovationKeepsNoise` | src/engine/policy_interference.rs:76-96 | an innovation as large as expected leaves both noises as they are |
| `GraphEdges.UpsertWeight` | src/graph/state.rs:122-135 | an upsert adds the weight of the edge to exactly the selections that contain it |
| `GraphEdges.UpsertCount` | src/graph/state.rs:122-135 | an upsert adds an edge exactly when none had its identity |
| `GraphEdges.UpsertUnique` | src/graph/state.rs:122-135 | identities stay unique |
| `GraphEdges.AliasedWeight` | src/graph/state_updater.rs:310-321 | renaming and rebuilding the edge list conserves weight under the new names |
| `GraphEdges.AliasedCount` | src/graph/state_updater.rs:310-321 | a symbol no alias names keeps its number of incoming edges |
| `GraphState.CountTargets` | src/graph/state_updater.rs:205-225 | one pass counts, for every wanted symbol, number or weight of the edges of a kind into it |
| `NodeCapping.SelectExcess` | src/graph/state.rs:460-517 | the three phases select exactly the excess, lowest ranks first: unconnected, then symbols, then files, oldest first in each class |
| `NodeCapping.LowestUnique` | src/graph/state.rs:460-517 | the rank leaves no choice: two such selections of one size are equal |
| `NodeCapping.TakeOldest` | src/graph/state.rs:472-481 | takes from the front of the sorted list until enough is taken |
| `ProjectGraph.CappedEdgesBest` | src/graph/state.rs:445-458 | capping keeps edges none of which comes after a dropped one |
| `ProjectGraph.CompactionSound` | src/graph/state.rs:370-408 | after compacting any well-formed graph: caps hold, no edge dangles, metrics belong to nodes, file counts are exact, tombstones and nodes are disjoint, and everything evicted with metrics has a tombstone stamped now |
| `ProjectGraph.CompactionIdle` | src/graph/state.rs:370-408 | compaction leaves a sound graph alone when it fits its caps and nothing is stale |
| `ProjectGraph.ProjectGraphState.UpsertEdge` | src/graph/state.rs:122-135 | the in-place upsert |
| `ProjectGraph.ProjectGraphState.PruneStale` | src/graph/state.rs:431-443 | exactly the current edges between nodes are left, and the nodes that are current or held by one; what is current is in `CompactionLaws.NothingStaleStays`; the second removal of orphans finds none |
| `ProjectGraph.ProjectGraphState.CapEdges` | src/graph/state.rs:445-458 | keeps as many edges as fit, none of them coming after a dropped one, and changes nothing when there is room |
| `ProjectGraph.ProjectGraphState.CapNodes` | src/graph/state.rs:460-527 | nodes and edges after capping: exactly the excess is gone, with every edge that touched it |
| `ProjectGraph.ProjectGraphState.CaptureRemovedNodes` | src/graph/state.rs:410-429 | tombstones for the removed nodes that had metrics |
| `ProjectGraph.ProjectGraphState.RebuildMetricFileCounts` | src/graph/state.rs:544-556 | all file counts become a full recount |
| `ProjectGraph.ProjectGraphState.Compact` | src/graph/state.rs:370-408 | the whole compaction, from any well-formed state: a graph of `CompactionLaws.NothingStaleStays` and `RecentStays`, sound afterwards |
| `CompactionLaws.NothingStaleStays` | src/graph/state.rs:370-443 | every edge left is stamped 0 or at least now - max(1, retention), every node left is so stamped or was an end of such an edge, every tombstone left was removed at 0 or at least at now - max(1, tombstone retention) |
| `CompactionLaws.RecentStays` | src/graph/state.rs:370-443 | with room under the caps exactly the recent edges between nodes stay, and exactly the nodes that are recent or ends of such an edge |
| `CompactionLaws.KeptEdgesLatest` | src/graph/state.rs:445-458 | an edge kept by the cap was seen no earlier than one dropped, and weighs no less when seen at the same time |
| `CompactionLaws.EvictedNodesOldest` | src/graph/state.rs:460-527 | unconnected nodes go before connected symbols, these before connected files, and within a class the longest unseen first |
| `FileRefresh.UnaffectedUnchanged` | src/graph/state_updater.rs:126-146 | a symbol outside the affected set has as many incoming edges, and as much weight, as before |
| `FileRefresh.RefreshedContains` | src/graph/state_updater.rs:149-175 | the refreshed file contains exactly the declared symbols, once each |
| `FileRefresh.RefreshedReferences` | src/graph/state_updater.rs:177-203 | the refreshed file refers to exactly the parse's targets, with their occurrence counts |
| `FileRefresh.OthersConserved` | src/graph/state_updater.rs:310-321 | all other edge weight is conserved under aliasing |
| `FileRefresh.OtherFilesTotal` | src/graph/state_updater.rs:310-321 | the total weight of all other files' edges does not change |
| `FileRefresh.NoAliasSources` | src/graph/state_updater.rs:112-124 | declared symbols and reference targets are never alias sources |
| `FileRefresh.UpdateSound` | src/graph/state_updater.rs:110-147 | although only affected symbols are recounted, every file count is exact again; edges and metrics stay within the nodes |
| `FileRefresh.UpdateReferences` | src/graph/state_updater.rs:126-146 | reference counts stay the incoming reference weight, or one for a declared symbol without references |
| `GraphUpdater.EnterSymbols` | src/graph/state_updater.rs:41-108 | the symbols loop: aliases, declarations and seen symbols; every declared symbol has the kind of its last declaration, the path of the file and the stamp of now, and metrics |
| `GraphUpdater.ApplyAliases` | src/graph/state_updater.rs:259-322 | alias sources are gone, their targets are there, edges are renamed and merged |
| `GraphUpdater.MoveMetrics` | src/graph/state_updater.rs:287-307 | the metrics of an alias source leave it, and its target gets the sum of both reference counts, the greater file count and a stamp no older than now |
| `GraphUpdater.CollectTargets` | src/graph/state_updater.rs:112-124 | targets and weights are exactly the references with at least one occurrence; a target that had no node gets one with the kind and path of its first reference, and all are stamped now |
| `GraphUpdater.EnsureDeclarationNode` | src/graph/state_updater.rs:227-257 | a node that is there keeps kind and path and is stamped; a missing one is made of the reference |
| `GraphUpdater.ReplaceFileContainsEdges` | src/graph/state_updater.rs:149-175 | the file's contains edges are exactly the given symbols; says where the old ones led |
| `GraphUpdater.ReplaceFileEdges` | src/graph/state_updater.rs:177-203 | the file's edges of a kind are exactly the given symbols with their weights |
| `GraphUpdater.RecountAffected` | src/graph/state_updater.rs:126-146 | affected symbols get fresh counts, all others keep theirs |
| `GraphUpdater.ApplyClangParse` | src/graph/state_updater.rs:19-147 | one update: the new graph is the refresh of the old one, sound again, with reference counts still exact if they were; kinds, paths and stamps of its nodes are those of `UpdateLaws.UpdateDescribes` |
| `GraphUpdater.RunsSound` | src/graph/state_updater.rs:19-147 | in every run of updates and compactions from the empty graph every file count equals a full recount; without compactions reference counts are exact too |
| `UpdateLaws.UpdateDescribes` | src/graph/state_updater.rs:28-66 | after an update the file's node has the file kind, its path and the stamp of now, and every declared symbol the kind of its last declaration and the path |
| `UpdateLaws.RunsKeepFiles` | src/graph/state_updater.rs:19-147 | in every run every node with a file id has the file kind and the path of its id |
| `UpdateLaws.RunsLink` | src/graph/state_updater.rs:19-147 | in every run every contains or reference edge is a link the search for affected files follows |
| `UpdateLaws.RefreshedStamps` | src/graph/state_updater.rs:149-203 | the file's edges after an update are stamped now |
| `UpdateLaws.UpsertStamps` | src/graph/state.rs:122-135 | an upsert loses no edge, lowers no stamp and no weight, and stamps nothing later than it was seen |
| `UpdateLaws.DifferentUsrs` | src/graph/symbol_bucket.rs:7-23 | declarations whose linker names do not spell an escaped bar have the same symbol if and only if the names are the same |
| `UpdateLaws.EscapedUsrs` | src/graph/symbol_bucket.rs:7-23 | a bar and its escape in a linker name give the same symbol |
| `UpdateLaws.SiteResolves` | src/graph/state_updater.rs:112-124 | a declaration site resolves to the symbol last declared there |
| `FileLinks.SortAndDedupWeightedLinks` | src/graph/snapshot.rs:229-245 | each id once with its greatest weight, heaviest first |
| `FileLinks.BuildLinks` | src/graph/snapshot.rs:92-119 | both tables list exactly the contains and reference links that leave file nodes, once each, with their greatest weight, heaviest first |
| `FileLinks.GreatestLink` | src/graph/snapshot.rs:229-245 | the weight of a link is the greatest of its edges, a weight of zero counting as one |
| `Neighbourhood.ExpandSymbol` | src/graph/snapshot.rs:134-170 | raises scores by bids for unvisited files of a symbol only, and to the best of all bids when those files are no more than the cap |
| `Neighbourhood.Rank` | src/graph/snapshot.rs:171-183 | the offered files in order of score and id; when there are too many, none left out scores more than one kept |
| `Neighbourhood.LevelAdvances` | src/graph/snapshot.rs:130-192 | one level keeps every hop a number of steps and every score earned by a chain of that length, and hops minimal when every bid is met |
| `Neighbourhood.ScoresStayBest` | src/graph/snapshot.rs:134-192 | when every offer is met, no chain of shared symbols as long as its hop earns a file more than its score |
| `Neighbourhood.NothingFarther` | src/graph/snapshot.rs:130-133 | once a level is empty no file is farther away |
| `Neighbourhood.FoundBall` | src/graph/snapshot.rs:130-192 | while nothing has been cut off, the files found are those within k steps and the frontier those at distance k |
| `Neighbourhood.Search` | src/graph/snapshot.rs:121-192 | every recorded hop is the length of a chain of shared symbols that earns the recorded score; when no cap bites at any level of the search the hop is the least, the score the greatest any chain of that length earns, and nothing within `hops` steps is missed |
| `AffectedFiles.BestOrdered` | src/graph/snapshot.rs:208-226 | what is left out never comes before what is returned, and only for lack of room |
| `AffectedFiles.AffectedFilePaths` | src/graph/snapshot.rs:56-227 | at most `max_files` distinct files, none with the key of a changed path, each within `hops` steps of a change along a chain that earns its score, in order of hop, score and key; when no cap bites at any level of the search hops are distances, scores the greatest a shortest chain earns, and no nearer file is omitted |
| `AffectedLaws.NeighboursExactly` | src/graph/snapshot.rs:92-119 | one step of the search leads exactly to the files that contain or refer to a symbol the first file contains or refers to |
| `AffectedLaws.NeighboursMutual` | src/graph/snapshot.rs:92-119 | steps go both ways |
| `AffectedLaws.StartExactly` | src/graph/snapshot.rs:70-90 | the search starts exactly from the ids of the changed paths and their canonical forms and from every file node that stands for one |
| `AffectedLaws.EligibleExactly` | src/graph/snapshot.rs:194-207 | a file may be returned if and only if it stands for no changed path |
| `AffectedLaws.SharerFound` | src/graph/snapshot.rs:56-227 | when no cap bites, a file that shares a symbol with a changed one is returned, unless files as near fill the answer |
| `AffectedLaws.SmallGraphFits` | src/graph/snapshot.rs:66-68 | in a graph with no more edges than each cap lets through no cap bites |
| `AffectedLaws.CapBounds` | src/graph/snapshot.rs:66-68 | the caps grow with the number of files asked for, within fixed bounds |
| `Coverage.PathCounts` | src/app/runner.rs:1117-1124 | counts how often each file is named |
| `Coverage.CompareCoverage` | src/app/runner.rs:1083-1115 | accepts exactly when both lists name the same files equally often, and otherwise names the short and the extra files |
| `Coverage.ValidateAndOrder` | src/app/runner.rs:1142-1191 | accepts exactly the results that cover the input, and returns the same results in order |
| `DispatchInvariant.StepKeeps` | src/app/worker.rs:619-819 | every step of controllers and workers keeps the dispatch invariant |
| `DispatchInvariant.RunsKeep` | src/app/worker.rs:619-819 | every state of every run satisfies it |
| `DispatchOutcome.ExactlyOnce` | src/app/worker.rs:643-800 | a run in which every controller finishes has merged each batch exactly once, from a lease issued for that batch and covering its files |
| `DispatchOutcome.ResultsCoverInput` | src/app/worker.rs:643-870 | the merged results name exactly the files of the batches |
| `DispatchOutcome.Join` | src/app/worker.rs:806-870 | a failed controller fails the run, and so does learned state that cannot be merged; otherwise the results cover the input, in order, and the final coverage check never refuses |
| `DispatchOutcome.ReplyIsCurrent` | src/app/worker.rs:955-1003 | a reply a controller receives always answers the request of its current attempt, so the checks of shard index and shard fingerprint never fail |
| `DispatchOutcome.AttemptsBounded` | src/app/worker.rs:654-780 | no batch is attempted more than `worker_max_restarts` + 1 times |
| `DispatchOutcome.StepShrinks` | src/app/worker.rs:643-800 | every step uses up some of a bounded amount of work |
| `DispatchOutcome.RunsEnd` | src/app/worker.rs:643-800 | no run is longer than the measure of its first state |
| `DispatchOutcome.NeverStuck` | src/app/worker.rs:643-800 | a controller that has not ended can always take a step, whatever its worker does |
| `DispatchOutcome.MaximalRuns` | src/app/worker.rs:619-870 | a run that cannot go on has brought every controller to an end, and is complete if none failed; `DispatchLiveness.SmoothRunsFinish` says when none does |
| `DispatchLiveness.AcceptedExactly` | src/app/worker.rs:955-1022 | the answer to a request is accepted if and only if its results cover the batch |
| `DispatchLiveness.AcceptedEchoes` | src/app/worker.rs:984-999 | an accepted output names the shard and fingerprint of the request, so none is accepted for two batches |
| `DispatchLiveness.HonestAnswerMerged` | src/app/worker.rs:619-819 | covering results, answered to the request of the current attempt, are merged and the controller goes on |
| `DispatchLiveness.FailureHasReason` | src/app/worker.rs:619-819 | a controller that started and has failed gave up in a step after the last allowed attempt at a batch, or for want of a replacement |
| `DispatchLiveness.SmoothGoesOn` | src/app/worker.rs:619-819 | without faults a controller that is not finished always has a next step without a fault |
| `DispatchLiveness.SmoothRunsFinish` | src/app/worker.rs:619-870 | a run without failed sends, deaths, garbled replies, failures or timeouts, whose workers answer with covering results and which cannot go on without a fault, ends with every controller finished |
| `ByteFields.Fields16` | src/files/codec.rs:315-323 | a two-byte field reads back |
| `ByteFields.Fields32` | src/files/codec.rs:325-333 | a four-byte field reads back |
| `EccLayout.LayoutCovers` | src/files/codec.rs:36-79 | the data shards cover the payload with less slack than there are shards, and a reader accepts the header |
| `EccLayout.SmallShards` | src/files/codec.rs:36-53 | below the largest shard count no shard exceeds the target size |
| `EccLayout.EncodedLenBounded` | src/files/codec.rs:97-114 | no payload within the limit is encoded longer than the largest one |
| `EccLayout.ShrinksExactly` | src/files/codec.rs:36-53 | one byte more makes the encoding shorter exactly when the payload fills its shards and one more shard is allowed: at the multiples of 4096 from 8192 to 126976 |
| `EccLayout.LayoutFitsFields` | src/files/codec.rs:166-180 | shard count and shard size fit their header fields |
| `ShardCode.SieveDrops` | src/files/codec.rs:251-271 | the checksum sieve drops exactly the altered shards |
| `ShardCode.Repairs` | src/files/codec.rs:265-277 | at most two altered shards are reconstructed |
| `ShardCode.JoinedPayload` | src/files/codec.rs:279-298 | joining the data shards and truncating gives the payload |
| `StateCodec.EncodedFits` | src/files/codec.rs:110-114 | an encoded state is as long as its layout says and never exceeds the limit for state files |
| `StateCodec.DecodeDamaged` | src/files/codec.rs:197-312 | a state with altered shards decodes to its payload if and only if at most two are altered; otherwise the number is reported |
| `StateCodec.RoundTrip` | src/files/codec.rs:136-312 | decoding undoes encoding |
| `StateCodec.EncodeBinary` | src/files/codec.rs:136-195 | refuses exactly payloads above the limit, and otherwise builds the frame |
| `StateCodec.DecodeBinary` | src/files/codec.rs:197-312 | the method computes the decoding, with all its refusals |
| `StateCodec.DecodedChecks` | src/files/codec.rs:197-312 | whatever the bytes, what decodes has the announced checksum, is no longer than announced, and the bytes are as many as the layout says |
| `EccFrame.ReadDamaged` | src/files/ecc_frame.rs:82-181 | in front of whatever follows, a frame reads as its payload if and only if at most two shards are altered |
| `EccFrame.StreamReadsBack` | src/files/ecc_frame.rs:41-181 | a stream of frames, each altered in at most two shards, reads back as the payloads and then ends |
| `EccFrame.WrittenArrives` | src/files/ecc_frame.rs:41-80 | a written frame is one without altered shards |
| `EccFrame.EndExactly` | src/files/ecc_frame.rs:82-91 | the end of the stream is reported exactly when fewer than four bytes are left, stray or none |
| `EccFrame.Writer.WriteFrame` | src/files/ecc_frame.rs:41-80 | appends exactly the frame, or nothing when the payload is too large |
| `EccFrame.Reader.ReadFrame` | src/files/ecc_frame.rs:82-181 | reads what the specification says and stops right behind the frame |
| `EccFrame.ReadChecks` | src/files/ecc_frame.rs:82-181 | whatever the bytes, a frame read from them has the announced checksum and is no longer than announced or than the limit |
| `TextLines.RoundTripExactly` | src/parser/text_scan.rs:53-76 | a list of lines survives joining and splitting exactly when all but the last end in a line feed |
| `TextLines.JoinLines` | src/parser/text_scan.rs:53-76 | the other half of the round trip: joining the lines of any text gives the text back |
| `LineSuppression.ApplyLineSuppression` | src/engine/convergence.rs:303-357 | disabled lines are put back one by one; without edits left the old text comes back |
| `LineSuppression.KeptExactly` | src/engine/convergence.rs:303-330 | edits and violations on the suppressed lines go, all others stay as often as they were there |
| `LineSuppression.SplicedExactly` | src/engine/convergence.rs:337-349 | line by line the merged text is the old text on disabled lines and the new text elsewhere, if and only if no unended last line lands in front of another |
| `LineSuppression.SameLineCountExact` | src/engine/convergence.rs:337-349 | with at least as many lines before as after it always is |
| `LineSuppression.LinesCanMerge` | src/engine/convergence.rs:337-349 | a result with edits on lines 1 and 2: taking back line 1 keeps the edit on line 2 but leaves one line that joins both |
| `Convergence.ConvergenceController.ReconcilePolicyResult` | src/engine/convergence.rs:154-216 | drops lost lines, suppresses outranked claimants, claims the lines of the remaining real edits, and counts both |
| `Convergence.ConvergenceController.Confront` | src/engine/convergence.rs:166-182 | which lines are lost, and which claimants are suppressed |
| `Convergence.ConvergenceController.ClaimLines` | src/engine/convergence.rs:195-213 | claims and their count |
| `ClaimCounts.RealCountOfLines` | src/engine/convergence.rs:196-212 | what a call adds to the count is at least the number of lines it claims, and is that number if and only if no two of its real edits are on one line |
| `ClaimCounts.TwiceOnOneLine` | src/engine/convergence.rs:196-212 | an instance: two real edits of line 1 count two, and their lines are one |
| `ClaimCounts.TwiceCounted` | src/engine/convergence.rs:154-216 | the controller, given those edits, has claimed one line and counted two |
| `Convergence.ConvergenceController.Finalize` | src/engine/convergence.rs:220-251 | exactly what was not suppressed remains, in order |
| `ConvergenceRuns.Reconcile` | src/engine/convergence.rs:154-216 | the controller's method is one call of the run model |
| `ConvergenceRuns.PriorityNeverFalls` | src/engine/convergence.rs:154-216 | a claimed line stays claimed and its priority never falls |
| `ConvergenceRuns.CallSettles` | src/engine/convergence.rs:154-216 | after each call the earliest call of greatest priority holds the line and its real edits are what is visible there |
| `ConvergenceRuns.FinalReport` | src/engine/convergence.rs:154-251 | after `finalize` the real edits on a line are exactly those of the earliest call of greatest priority that proposed one |
| `ConvergenceRuns.WinnerUnique` | src/engine/convergence.rs:145-153 | there is only one such call |
| `ConvergenceRuns.ReportExactly` | src/engine/convergence.rs:154-253 | an edit that changes a numbered line is in the final report if and only if some call with it has the greatest priority of all that would change the line, and is the earliest of those |
| `ConvergenceRuns.ClaimedExactly` | src/engine/convergence.rs:154-218 | a line is claimed by an edit that changes it, and only by one; line zero never is |
| `ClaimCounts.CountIsLinesExactly` | src/engine/convergence.rs:196-212 | after every run the count of a policy is at least the number of lines it has claimed, and is that number if and only if no two real edits returned in its name are on one line |
| `ClaimCounts.SuppressedWithinCount` | src/engine/pipeline/mod.rs:413-422 | after every run a policy has at most as many lines suppressed as its count, so the interference ratio is at most one before it is cut off there |
| `RenamePropagation.LineStarts` | src/parser/text_scan.rs:8-21 | zero and every position behind a line feed that is still in the text |
| `RenamePropagation.LineForOffset` | src/app/propagation.rs:340-346 | binary search finds the number of line starts at or before an offset |
| `RenamePropagation.StartsCountLines` | src/app/propagation.rs:336-346 | that number is one plus the line feeds before the offset |
| `RenamePropagation.Collect` | src/app/propagation.rs:240-266 | exactly the references that hold the old name as a whole identifier, with their lines |
| `RenameSubstitution.Thin` | src/app/propagation.rs:277-286 | the kept spans are sorted and disjoint, and every span left out starts inside a kept one |
| `RenameSubstitution.ReplaceOne` | src/app/propagation.rs:288-297 | one replacement, with all to its right done, is one more substitution |
| `RenameSubstitution.ReplacementSafe` | src/app/propagation.rs:290-291 | both ends of a span are character boundaries of the text at the time it is replaced |
| `RenameSubstitution.Buffer.ReplaceAll` | src/app/propagation.rs:288-297 | replacing from right to left in place is one simultaneous substitution on the original text |
| `RenameSubstitution.ApplyRenames` | src/app/propagation.rs:240-306 | the whole rename: unchanged when nothing applies, else the simultaneous substitution of disjoint spans and their edits |
| `RenameSubstitution.RenameReversible` | src/app/propagation.rs:288-297 | substituting the old names back restores the original text, so nothing outside the spans has changed |
| `RenameLaws.AppliesExactly` | src/app/propagation.rs:240-266 | a reference is replaced if and only if it is the whole old name, no letter, digit or underscore is next to it, it cuts no character, and the new name differs |
| `RenameLaws.OneRenamed` | src/app/propagation.rs:240-306 | a single reference that is a word of its own is replaced and all else stays |
| `RenameLaws.EditsReversed` | src/app/propagation.rs:288-297 | the edits come last span first, each with its line and both names |

## Left out

- Floating point: all weights, scores, covariances and shares are exact reals, so rounding, NaN and infinities are not modelled; `f64::MIN` as the initial best score is a separate value.
- The SSE and NEON variants in `src/engine/mat5.rs`: they repeat the scalar algebra.
- `mat5_determinant_spd`, the derivation getters of the certainty filter other than the two the conflict solver reads, and `dynamic_priority`: single-branch facts.
- Integer widths of counters: weights and counts of the project graph are unbounded naturals, so saturation at 32 and 64 bits is not modelled; the observation counts of both filters and the header fields of frames do keep their widths.
- Names, lines, columns, scopes and parser consensus of nodes, and the consensus score of metrics and tombstones: only kinds, paths and stamps of nodes are modelled.
- Convergence pairs and learning tables in the graph state, with their caps and decay.
- Reference counts after a compaction: the code does not rebuild them, so they are proved for runs without compactions.
- Declaration keys are one printed text; that kind, path, line and column print injectively is assumed, and so is canonicalisation of paths, which is a parameter.
- The rating of a shared symbol in the neighbourhood search (square roots and logarithms of counts and fan-out): a parameter that depends on symbol and fan-out only; what the search adds up and keeps of it is modelled.
- Reed-Solomon, CRC and postcard: parameters with stated properties, so payloads are bytes.
- Damage to headers and checksum tables of frames: only shard bytes are altered.
- Process spawning, pipes, clocks and temporary directories: only their outcomes appear, as steps that may or may not happen.
- Telemetry, dispatch observations and adaptive state that workers send along with their results.
- Building batches from the input files: that the batches name exactly the input is a precondition of `Join`.
- tree-sitter, libclang and the policies: candidates, parses, offsets and edits are inputs.
- Footprints of candidates are taken as sorted, so that the lookup of a symbol is membership.
- Library sorts are stable insertion sorts, and hash tables are listed in an arbitrary order.
- The final sort of the component list: components come out sorted already, so it is left out.
- Formatting of error and warning texts.
- The retry path of the coordinator, whose acceptance test always accepts.
- The contents of the learned-state shard files: `DispatchOutcome.Join` is only told whether they can be merged.
