# Simulated annealing for the travelling salesman problem, in Dafny

This project models the annealing engine of a small Rust crate that searches for short closed
tours through a set of points in the plane.

## What is modelled

The crate has five annealing loops, and this project models four of them; the one in
`src/main.rs` is left out. Each one starts from a tour and repeats steps. A step
visits a list of candidate tours in order and draws a uniform sample in [0, 1] for each. It
moves to the first candidate whose *acceptability* is at least that sample. The loop stops
after a step budget `max_k`, or at the first step that accepts nothing.

- `SimulatedAnnealing::run` (`src/simulated_annealing.rs`) is generic over the `State` trait.
  It takes each step's candidates from the current state.
- The free function `simulated_annealing` (`src/state.rs`) takes the budget and the
  schedule as arguments instead of from a configuration. It always takes its
  candidates from the *original* input and compares them against it. Its result is therefore
  the input itself or a single move away from it. The model keeps this behaviour as written.
- `simulated_annealing` in `src/tsp2.rs` works on two reusable buffers, `current_state` and
  `holder`. A vector of index pairs is built once and shuffled again, in place, at every step.
  A trial copies `current_state` into `holder` and exchanges one pair there. The trial is
  copied back only when it is accepted.
- The loop of `get_iterations` (`src/bin/grpc.rs`) works the same way. It starts from a
  greedy nearest-neighbour tour. Its moves are 2-opt moves (`geometric_swap`) that never move
  position 0. It records the coordinates of every tour it accepts.

The tour length ("energy") is the sum of the distances between neighbouring points, the edge
from the last point back to the first included. Acceptability is the Metropolis rule:

- exactly 1 for a shorter candidate;
- `exp(-Δ/t)` otherwise, where Δ is the increase in length.

Modelling decisions:

- **Numbers.** Coordinates are reals. `Point::distance` is a function parameter, constrained
  by `IsEuclidean` only where a property needs it. `exp(-Δ/t)` is an uninterpreted parameter,
  constrained by `IsMetropolisFactor` only where a property needs it.
- **Randomness.** It is an input, an `Rng`:
  - `draws(c, i)` is the raw value the `c`-th shuffle uses at position `i`;
  - `samples(k, i)` is the uniform sample of the `i`-th trial of step `k`.

  Every property is proved for all `Rng` values, so it holds whatever the generator yields,
  with one exception: the six local-optimality lemmas. These are `Tsp2.NoMoveMeansNoShorterExchange`,
  `Tsp2.ExchangeRejected`, `Tsp2.EarlyStopIsLocalOptimum`, `Grpc.NoMoveMeansNoShorterMove`,
  `Grpc.MoveRejected` and `Grpc.EarlyStopIsTwoOptOptimal`. They require `UnitSamples`: every
  sample lies in [0, 1], as `Uniform::new_inclusive(0.0, 1.0)` guarantees in `src/tsp2.rs`
  and `src/bin/grpc.rs`.
- **Shared specification.** `Annealing.Trace` and `Annealing.Anneal` specify a run for any
  state type. The `src/tsp2.rs` and `src/bin/grpc.rs` loops are proved to compute exactly the
  run they specify, over their own neighbourhoods.
- **Duplicated code.** `energy`, `acceptability` and `distance` exist as two identical copies,
  in `src/tsp.rs` and `src/tsp2.rs`. They are defined once, in module `Geometry`.
- **Mutation.** Some vectors that the source mutates in place are arrays in the model:
  `current_state`, `holder`, `swaps`, `tuple_combs`, and the slice of `geometric_swap`.
  Three others are sequence values that the loops reassign: `points` and `new_order` of
  `greedy` (`Grpc.PlaceNearest`), and `results` of `get_iterations` (`Grpc.CollectAccepted`).
  The builder is a class. The configuration and the tours of `src/tsp.rs` are values.

## Model

| member | source | states |
|---|---|---|
| Slices.Swapped | src/tsp.rs:56 | `swap(i, j)` exchanges the two positions and leaves every other position as it was |
| Slices.SwappedPermutes | src/tsp2.rs:63 | a swap keeps the multiset of points |
| Slices.SwappedTwice | src/tsp2.rs:63 | swapping the same pair twice restores the slice |
| Slices.Reversed | src/bin/grpc.rs:33 | `reverse` leaves at position `k` the element `k` places from the end |
| Slices.ReversedCons | src/bin/grpc.rs:33 | reversing a non-empty slice puts its first element last, after the reversed rest |
| Slices.ReversedPermutes | src/bin/grpc.rs:33 | reversal keeps the multiset of elements |
| Slices.ReplacedSegmentPermutes | src/bin/grpc.rs:31-33 | replacing a segment by a permutation of it permutes the whole slice |
| Slices.Removed | src/bin/grpc.rs:59 | `Vec::remove(i)` drops exactly position `i`, keeps the order of the rest, and removes one copy of that element from the multiset |
| Slices.ReverseRange | src/bin/grpc.rs:33 | the in-place `points[lo..hi].reverse()` leaves the slice equal to the prefix, the reversed range and the suffix |
| Slices.MirroredRangeIsReversal | src/bin/grpc.rs:33 | a slice that mirrors the range and agrees elsewhere is the range reversed |
| Combinations.Pairs | src/tsp.rs:49 | `(lo..n).tuple_combinations()` yields only pairs `lo <= i < j < n` |
| Combinations.RowIncreasing | src/tsp.rs:49 | one row of `tuple_combinations` lists its pairs with the second position strictly increasing |
| Combinations.PairsLexicographic | src/tsp.rs:49 | `tuple_combinations` yields its pairs in strictly increasing lexicographic order |
| Combinations.RowCount | src/tsp.rs:49 | one row of `tuple_combinations` holds each pair `(i, j)` with `j` in the row's range exactly once |
| Combinations.PairsCount | src/tsp.rs:49 | `(lo..n).tuple_combinations()` holds every pair `lo <= i < j < n` exactly once and nothing else |
| Combinations.PairsCountStep | src/tsp.rs:49 | the count over all pairs is the count over the first row plus the count over the remaining rows |
| Combinations.PairsMembers | src/tsp2.rs:54 | a pair is in the list exactly when `lo <= i < j < n` |
| Combinations.PairsLength | src/tsp.rs:49 | the list from `lo` has C(n - lo, 2) pairs |
| Combinations.AllPairsLength | src/tsp.rs:49 | `(0..n).tuple_combinations()` has n(n-1)/2 pairs |
| Combinations.Without | src/bin/grpc.rs:86 | `retain` leaves no copy of the excluded pair, keeps only pairs of the list, and never lengthens it |
| Combinations.WithoutCount | src/bin/grpc.rs:86 | `retain(\|tup\| *tup != x)` removes every copy of `x` and keeps every other pair as often as before |
| Random.ShuffledBelow | src/tsp2.rs:59 | a Fisher-Yates pass keeps the length and the multiset of the vector |
| Random.Shuffled | src/tsp2.rs:59 | a shuffle keeps the length and the multiset of the vector |
| Random.Reshuffled | src/tsp2.rs:54-59 | shuffling the same vector again at every step keeps it a permutation of the list first collected |
| Random.Shuffle | src/tsp2.rs:59 | the in-place `shuffle` leaves the array equal to the specified shuffle of its old contents |
| Geometry.EuclideanIsSymmetric | src/tsp2.rs:17-21 | the Euclidean distance is the same in both directions |
| Geometry.EuclideanIsNonNegativeAndReflexive | src/tsp2.rs:17-21 | the Euclidean distance is never negative and is 0 from a point to itself |
| Geometry.DistanceThreeFourFive | src/tsp2.rs:85-87 | the distance from (0, 0) to (3, 4) is 5 |
| Geometry.Successors | src/tsp2.rs:24-28 | `cycle().skip(1).take(len)` is the tour read from its second point, with the first point last |
| Geometry.ZipSum | src/tsp2.rs:29-31 | the zipped sum of distances is never negative when no distance is |
| Geometry.Energy | src/tsp2.rs:23-32 | an empty tour has length 0, a one-point tour is the closed edge from the point to itself, and no length is negative when no distance is |
| Geometry.EnergyIsCyclicSum | src/tsp2.rs:23-32 | the energy is the sum over every position `k` of the distance from `s[(k + 1) % n]` to `s[k]`, closing edge included |
| Geometry.ZipSumSuffix | src/tsp2.rs:29-31 | summing the zipped distances from position `j` on adds up the edges leaving positions `j` to `n - 1` |
| Geometry.EnergyOfRightTriangle | src/tsp.rs:73-79 | the triangle (0,0), (3,0), (3,4) has energy 12 |
| Geometry.EnergyBounds | src/tsp.rs:21-30 | for any distance that is never negative and is 0 from a point to itself, energy is never negative, and it is 0 for a tour of zero or one point |
| Geometry.ZipSumSuccessors | src/tsp2.rs:29-31 | rotating both zipped sequences by one place leaves the sum unchanged |
| Geometry.EnergyRotationInvariant | src/tsp2.rs:23-32 | the energy of a cycle does not depend on which point comes first |
| Geometry.ZipSumReversed | src/tsp2.rs:29-31 | reversing both zipped sequences leaves the sum unchanged |
| Geometry.EnergyMirrorInvariant | src/tsp2.rs:23-32 | for a symmetric distance, a tour read backwards has the same energy |
| Geometry.Acceptability | src/tsp2.rs:34-43 | a strictly shorter candidate gives exactly 1; otherwise the result is the Boltzmann factor of the increase at `t` |
| Geometry.AcceptabilityIsProbability | src/tsp.rs:34-43 | with a true exponential and `t > 0`, acceptability lies in (0, 1], and it is 1 exactly when the candidate is not longer |
| Geometry.AcceptabilityMonotoneInEnergy | src/tsp.rs:38-42 | a longer candidate is never more acceptable |
| Geometry.RejectedIsNotShorter | src/tsp2.rs:38-42 | a candidate rejected against a sample of at most 1 is not shorter than the current tour |
| Geometry.AcceptabilityMonotoneInTemperature | src/tsp.rs:41 | a higher temperature never makes a candidate less acceptable |
| State.FirstAccepted | src/state.rs:27-29 | `find` gives the first candidate at least as acceptable as its sample, with none accepted before it, or `None` when no candidate is accepted |
| State.Step | src/simulated_annealing.rs:54-56 | an accepted state is one of the candidates `get_next_states` yields |
| State.StepRejectsEach | src/state.rs:27-35 | when a step accepts nothing, every candidate's acceptability is below its sample |
| State.Find | src/state.rs:27-29 | the loop of `find` returns the first accepted candidate, or `None` |
| State.SimulatedAnnealing | src/state.rs:14-39 | the result is the anchored run: every step draws candidates from the original `state` and compares them against it |
| State.AnchoredResult | src/state.rs:14-39 | the free loop ends at the value held on entry or at a candidate of the original input at some step below `max_k` |
| State.AnchoredResultIsLastAccepted | src/state.rs:24-35 | the result is the candidate accepted at the last step of the unbroken run of accepting steps |
| State.AnchoredResultWithoutMoves | src/state.rs:22-38 | with `max_k == 0`, or when step 0 accepts nothing, the result is the input |
| Annealing.LinearDecay | src/simulated_annealing.rs:25 | the default schedule starts at 1, never exceeds 1, and is positive at each of the 100 default steps |
| Annealing.SimulatedAnnealing.Default | src/simulated_annealing.rs:22-29 | `max_k` is 100 and the schedule is `k ↦ 1.0 - 0.01·k` |
| Annealing.SimulatedAnnealing.New | src/simulated_annealing.rs:32-34 | `new()` equals `default()` |
| Annealing.SimulatedAnnealing.Run | src/simulated_annealing.rs:40-66 | `run` ends where the run specified by `Anneal` ends |
| Annealing.Trace | src/simulated_annealing.rs:51 | at most `max_k` states are accepted |
| Annealing.Anneal | src/simulated_annealing.rs:40-66 | `run` ends at its input or at one of the states the run accepted, and at its input when no step is left |
| Annealing.TraceAdvances | src/simulated_annealing.rs:54-59 | a step that accepts a state records it and continues from it |
| Annealing.AnnealAdvances | src/simulated_annealing.rs:58-59 | after an accepting step, the rest of the run starts from the accepted state |
| Annealing.AnnealStops | src/simulated_annealing.rs:58-62 | a spent budget, or a step that accepts nothing, ends the run where it is |
| Annealing.TraceIsFirstAcceptanceChain | src/simulated_annealing.rs:54-59 | each accepted state is the first accepted candidate of the state before it, at consecutive steps |
| Annealing.TraceStopsOnRejection | src/simulated_annealing.rs:58-62 | a run that ends before its budget ends because its next step accepts nothing |
| Annealing.RunStopsOnRejection | src/simulated_annealing.rs:58-62 | a run from step 0 that ends early ends where its next step accepts nothing |
| Annealing.TraceFollowsNextStates | src/simulated_annealing.rs:47-65 | every accepted state is a candidate of the state before it, a chain of at most `max_k` moves |
| Annealing.TracePreserves | src/simulated_annealing.rs:47-65 | a property every move preserves holds of every state of the run and of its result |
| Annealing.AnnealWithoutMoves | src/simulated_annealing.rs:40-47 | with `max_k == 0`, or when step 0 accepts nothing, `run` returns the input |
| Builder.SimulatedAnnealingBuilder.Default | src/builder.rs:8-15 | the default builder has `max_k` 100 and the linear schedule |
| Builder.SimulatedAnnealingBuilder.constructor | src/builder.rs:18-20 | `new()` has the same settings as the default |
| Builder.SimulatedAnnealingBuilder.WithTemperatureAndMaxIter | src/builder.rs:22-30 | both settings are replaced and the same builder is returned |
| Builder.SimulatedAnnealingBuilder.Build | src/builder.rs:32-37 | the engine has exactly the builder's settings |
| Builder.BuildDefault | src/simulated_annealing.rs:36-38 | building the default builder gives `SimulatedAnnealing::default()` |
| Builder.BuildWith | src/builder.rs:22-37 | any configuration can be built, and the one built is the one asked for |
| Moves.ReorderedPairsInRange | src/tsp.rs:49-53 | any reordering of the pair list names two positions of the tour, the smaller first |
| Moves.CollectPairs | src/tsp.rs:49 | `collect()` holds exactly the pair list |
| Moves.SwapEach | src/tsp.rs:53-59 | candidate `m` is the tour with pair `m` exchanged |
| Moves.SwapEachCovers | src/tsp.rs:53-59 | each pair of the list gives its exchange as a candidate |
| Moves.SwapEachPermutes | src/tsp.rs:53-58 | each candidate is one exchange of two distinct positions, so it keeps the points |
| Tsp.Tours | src/tsp.rs:58 | candidate `m` wraps tour `m` as a `Tsp` |
| Tsp.NextStates | src/tsp.rs:45-60 | candidate `m` is the tour with the `m`-th shuffled pair exchanged |
| Tsp.NextStatesAreAllTranspositions | src/tsp.rs:49-53 | there are n(n-1)/2 candidates, and every exchange of two distinct positions is among them |
| Tsp.TranspositionIsCandidate | src/tsp.rs:49-58 | in whatever order the pairs are shuffled, each exchange is a candidate |
| Tsp.NextStatesArePermutations | src/tsp.rs:53-58 | every candidate is one exchange away from the tour and keeps its points |
| Tsp.SwappedClone | src/tsp.rs:54-56 | a swap in a fresh clone gives the exchanged tour and leaves the original tour as it was |
| Tsp.CloneAndSwapEach | src/tsp.rs:53-59 | the `map` over the pairs yields the candidates in the order of the pair list |
| Tsp.GetNextStates | src/tsp.rs:45-60 | the collected, shuffled, mapped candidates are `NextStates` |
| Tsp.TspOps | src/tsp.rs:33-60 | the `State` implementation uses the energy comparison and the shuffled neighbourhood |
| Tsp.AnchoredTspIsOneTransposition | src/tsp.rs:94 | the free `simulated_annealing` on a `Tsp` returns the input or one exchange of it |
| Tsp.RunKeepsPoints | src/tsp.rs:53-58 | `run` on a `Tsp` returns a tour with the input's points, each as often |
| Tsp.TestExpectedIsACandidate | src/tsp.rs:82-105 | the expected answer of `test_tsp` is an exchange of the input, so every step offers it |
| Tsp2.StepOrder | src/tsp2.rs:54-59 | the order of step `k` is a permutation of all pairs, each naming two tour positions |
| Tsp2.NextStates | src/tsp2.rs:61-63 | every trial tour keeps the points of the current tour |
| Tsp2.Tsp2Ops | src/tsp2.rs:34-43 | the driver's acceptance rule and neighbourhood, for the generic specification |
| Tsp2.AnnealKeepsPoints | src/tsp2.rs:45-75 | the result keeps the input's length and points |
| Tsp2.AnnealWithoutPairs | src/tsp2.rs:54-74 | with `max_k == 0` or at most one point, the result is the input |
| Tsp2.NoMoveMeansNoShorterExchange | src/tsp2.rs:61-71 | when a step accepts nothing, no exchange of two positions is shorter than the current tour |
| Tsp2.ExchangeRejected | src/tsp2.rs:61-71 | when a step accepts nothing, the exchange of any two positions was tried, rejected, and is not shorter |
| Tsp2.ExchangeIsTried | src/tsp2.rs:54-61 | every exchange of two distinct positions is tried at some position of every step's order |
| Tsp2.EarlyStopIsLocalOptimum | src/tsp2.rs:56-74 | a run that breaks out before `max_k` steps returns a tour that no single exchange shortens |
| Tsp2.CopySwapped | src/tsp2.rs:62-63 | `holder` becomes the current tour with `i` and `j` exchanged |
| Tsp2.CopyFrom | src/tsp2.rs:66 | the target becomes a copy of the source |
| Tsp2.TrySwaps | src/tsp2.rs:61-69 | `current_state` becomes the first accepted trial, or stays as it was when no trial is accepted |
| Tsp2.ShuffledStepCandidates | src/tsp2.rs:59-63 | shuffling the pair list once more at step `k` gives the order, and so the candidates, of step `k` |
| Tsp2.StepInPlace | src/tsp2.rs:56-71 | one pass reshuffles `swaps` once more and leaves `current_state` at the specified step's result |
| Tsp2.SimulatedAnnealing | src/tsp2.rs:45-75 | the result is the specified run's end and a permutation of the input |
| Grpc.ReversedInteriorAt | src/bin/grpc.rs:33 | reversing the strict interior mirrors it and leaves the rest |
| Grpc.SegmentMirroredTwice | src/bin/grpc.rs:31-33 | mirroring the same segment twice restores the slice |
| Grpc.GeometricSwapped | src/bin/grpc.rs:28-34 | the ends trade places, the interior `m` holds `old[i + j - m]`, and positions outside `[i, j]` are unchanged; `i == j` panics, so it is excluded |
| Grpc.SwapThenReverse | src/bin/grpc.rs:31-33 | the swap of the ends and the reversal of the interior mirror the segment |
| Grpc.SwapThenReverseIsSegmentReversal | src/bin/grpc.rs:28-34 | the move reverses the whole segment `lo..=hi`: a 2-opt exchange of two edges |
| Grpc.SegmentReversalMirrors | src/bin/grpc.rs:28-34 | reversing the closed segment mirrors it |
| Grpc.SegmentMirroredUnique | src/bin/grpc.rs:28-34 | two slices that mirror the same segment of the same slice are equal |
| Grpc.GeometricSwappedSymmetric | src/bin/grpc.rs:29 | `(i, j)` and `(j, i)` give the same tour |
| Grpc.GeometricSwappedPermutes | src/bin/grpc.rs:28-34 | the move keeps the multiset of points |
| Grpc.SwapThenReversePermutes | src/bin/grpc.rs:31-33 | the swap followed by the reversal keeps the multiset |
| Grpc.GeometricSwappedTwice | src/bin/grpc.rs:28-34 | applying the same move twice restores the tour |
| Grpc.GeometricSwappedExample | src/bin/grpc.rs:28-34 | on a concrete slice, positions 5 and 8 reverse the segment between them |
| Grpc.GeometricSwap | src/bin/grpc.rs:28-34 | the in-place swap and reverse leave the slice equal to `GeometricSwapped` |
| Grpc.FirstNearestIn | src/bin/grpc.rs:47-55 | `min_by` gives a point nearest to `last`, and the first of equally near ones |
| Grpc.FirstNearest | src/bin/grpc.rs:47-55 | the same over all remaining points |
| Grpc.NearestNeighbourOrder | src/bin/grpc.rs:46-60 | the order in which the loop appends the points is a permutation of them |
| Grpc.GreedyTour | src/bin/grpc.rs:36-63 | the tour is a permutation of the input, empty for no points, starting at the input's last point |
| Grpc.NearestChainCons | src/bin/grpc.rs:47-58 | a nearest point followed by a nearest-neighbour chain from it is a chain |
| Grpc.NearestChainSteps | src/bin/grpc.rs:47-58 | a chain with its start put in front visits after each point the nearest later point |
| Grpc.NearestNeighbourOrderIsNearest | src/bin/grpc.rs:46-60 | each appended point is nearest to the one before among the points left |
| Grpc.GreedyIsNearestNeighbour | src/bin/grpc.rs:36-63 | after each point, the greedy tour visits the nearest point not yet visited |
| Grpc.PlaceNearest | src/bin/grpc.rs:46-60 | the loop's placed points plus the order of the remaining ones always give the whole order |
| Grpc.Greedy | src/bin/grpc.rs:36-63 | `greedy` returns the greedy tour, a permutation of its input |
| Grpc.IterationPairs | src/bin/grpc.rs:85-86 | the pairs of the loop name positions `1 <= i < j < n` and never `(1, n - 1)` |
| Grpc.IterationPairsCount | src/bin/grpc.rs:85-86 | the pairs are exactly `1 <= i < j < n` other than `(1, n - 1)`, once each |
| Grpc.ReorderedIterationPairs | src/bin/grpc.rs:85-93 | any shuffle of them names positions past 0, never `(1, n - 1)` |
| Grpc.ExcludedMoveIsMirror | src/bin/grpc.rs:86 | the excluded pair would reverse the tour behind its first point, which keeps the energy |
| Grpc.MirroredTailAt | src/bin/grpc.rs:86 | the tour read backwards from its first point, position by position |
| Grpc.MirroredTailIsRotation | src/bin/grpc.rs:86 | reading backwards from the first point is a rotation of the reversed tour |
| Grpc.GeometricEach | src/bin/grpc.rs:95-97 | candidate `m` is the tour moved at pair `m` |
| Grpc.StepOrder | src/bin/grpc.rs:85-93 | the order of step `k` is a permutation of the iteration pairs, all past position 0 |
| Grpc.NextStates | src/bin/grpc.rs:95-97 | there is one candidate per pair of the step's order |
| Grpc.NextStatesKeepFirstPoint | src/bin/grpc.rs:95-97 | every candidate keeps the points and the first point |
| Grpc.GrpcOps | src/bin/grpc.rs:95-99 | the loop's acceptance rule and 2-opt neighbourhood, for the generic specification |
| Grpc.NoMoveMeansNoShorterMove | src/bin/grpc.rs:95-109 | when a step accepts nothing, no allowed 2-opt move shortens the tour |
| Grpc.MoveRejected | src/bin/grpc.rs:95-109 | when a step accepts nothing, each allowed move was tried, rejected, and is not shorter |
| Grpc.MoveIsCandidate | src/bin/grpc.rs:85-97 | every allowed move is the candidate at some position of every step |
| Grpc.MoveIsTried | src/bin/grpc.rs:85-95 | every allowed move is tried at some position of every step's order |
| Grpc.EarlyStopIsTwoOptOptimal | src/bin/grpc.rs:90-110 | a loop that breaks before 5000 steps ends at a tour no allowed 2-opt move shortens |
| Grpc.Unzipped | src/bin/grpc.rs:102 | `unzip` gives the x and the y coordinate of each point, in order |
| Grpc.Zipped | src/bin/grpc.rs:102 | zipping two coordinate lists gives the points, in order |
| Grpc.ZippedUnzipped | src/bin/grpc.rs:102 | unzipping loses nothing |
| Grpc.UnzipAll | src/bin/grpc.rs:102-104 | `results` holds one entry per accepted tour |
| Grpc.UnzipAllSnoc | src/bin/grpc.rs:104 | pushing a tour appends its coordinates |
| Grpc.IterationsKeepPoints | src/bin/grpc.rs:77-110 | at most 5000 tours are accepted, each a permutation of the input starting at its last point |
| Grpc.CollectIterationPairs | src/bin/grpc.rs:85-86 | `tuple_combs` holds exactly the iteration pairs |
| Grpc.WithoutSnoc | src/bin/grpc.rs:86 | `retain` filters a list one element at a time |
| Grpc.CopyGeometricSwapped | src/bin/grpc.rs:96-97 | `holder` becomes the current tour with the move applied |
| Grpc.TryGeometricSwaps | src/bin/grpc.rs:95-107 | `current_state` becomes the first accepted trial, or stays as it was |
| Grpc.ShuffledStepCandidates | src/bin/grpc.rs:93-97 | shuffling `tuple_combs` once more at step `k` gives the order, and so the candidates, of step `k` |
| Grpc.StepInPlace | src/bin/grpc.rs:90-109 | one pass reshuffles `tuple_combs` once more and leaves `current_state` at the specified step's result |
| Grpc.CollectAccepted | src/bin/grpc.rs:88-112 | `results` are the coordinates of the specified run's accepted tours, in order |
| Grpc.GetIterations | src/bin/grpc.rs:65-113 | the results are the coordinates of the annealed greedy tour's run: at most 5000 entries, each zipping back to a permutation of the input points that starts at the input's last point |
| Grpc.UnzippedToursKeepPoints | src/bin/grpc.rs:102-104 | coordinates of such tours zip back into such tours |

## Left out

- Floating point: `sqrt` and `powi` in `Point::distance` and `f64::exp` in `acceptability` are parameters over reals. Rounding, NaN and infinities are not modelled.
- Tsp2.SimulatedAnnealing: the schedule `1.0 / k` is a parameter, because at `k = 0` it is an IEEE infinity, which is not a real.
- Grpc.GetIterations: the schedule `10.0 / k^1.2` is a parameter for the same reason, and because `powf` is not modelled.
- The NaN panic of `partial_cmp().unwrap()` in `greedy` is not modelled: with real distances every comparison succeeds.
- `generate_random` and the `N_VERTICES` environment variable are not modelled; the points are an input of `GetIterations`.
- The tonic gRPC service and the async `main` of `src/bin/grpc.rs` are network plumbing; `src/main.rs` (an axum WebSocket server) and `plotter.py` (a Dash client) are not part of this model.
- The serde derives on `Point` and `Tsp` are serialisation glue.
- The polygon tests, and the convergence assertions of the two `test_tsp` tests, depend on trigonometry and on the random outcome of a run. Only the deterministic part of `test_tsp` in `src/tsp.rs` is stated, as `TestExpectedIsACandidate`. The deterministic tests `test_energy` and `test_distance` are stated as `EnergyOfRightTriangle` and `DistanceThreeFourFive`.
- Samples are indexed by (step, trial) instead of being read from one stream. Each (step, trial) draws exactly one sample, so every stream corresponds to some indexing.
- Shuffles take `draws(c, i) % (i + 1)` as the index of the Fisher-Yates exchange; the distribution of `gen_range` is not modelled.
- `get_next_states` returns a lazy iterator, and `find` stops consuming it at the first acceptance; the model builds the whole candidate sequence, which yields the same first accepted candidate.
- `src/tsp2.rs` declares `Tsp { points }`, while `src/bin/grpc.rs` builds `Tsp { x, y }`; the model follows the use in `src/bin/grpc.rs`, as `Coordinates`.
- The labelled `continue 'outer` of the two specialised loops is modelled by returning from the extracted trial method (`TrySwaps`, `TryGeometricSwaps`).
- Grpc.GeometricSwapped: requires `i != j`. In the source, `i == j` panics, because the slice `(i + 1)..i` is reversed; the loop never reaches that case, since all its pairs have `i < j`.
- `<[T]>::reverse` is specified pointwise (`Reversed`); the in-place `ReverseRange` exchanges the ends pairwise, moving inwards, as the standard library does.
