/** `src/tsp2.rs`: the annealing loop specialised to tours held in two reusable buffers.
    The pair list is built once and shuffled again, in place, at every step; each trial
    copies the current tour into `holder`, exchanges one pair there, and copies `holder`
    back only when the trial is accepted. */
module Tsp2 {
  import opened Slices
  import opened Combinations
  import opened Random
  import opened Geometry
  import opened State
  import opened Moves
  import Annealing

  /** The order in which step `k` tries the pairs: `(0..n).tuple_combinations()` after
      shuffles 0 to `k`, each applied to the vector the one before left behind. It is a
      reordering of the pair list, so every pair names two positions of the tour. */
  function StepOrder(n: nat, draws: (nat, nat) -> nat, k: nat): (r: seq<Pair>)
    ensures multiset(r) == multiset(Pairs(0, n))
    ensures OrderedPairsBelow(r, n)
  {
    var r := Reshuffled(Pairs(0, n), draws, k + 1);
    ReorderedPairsInRange(0, n, r);
    r
  }

  /** The tours step `k` tries from `current`, in order. */
  function NextStates(current: seq<Point>, draws: (nat, nat) -> nat, k: nat): (r: seq<seq<Point>>)
    ensures |r| == |StepOrder(|current|, draws, k)|
    ensures forall u :: u in r ==> |u| == |current| && multiset(u) == multiset(current)
  {
    var order := StepOrder(|current|, draws, k);
    SwapEachPermutes(current, order);
    SwapEach(current, order)
  }

  /** The free functions `acceptability` and the step neighbourhood, as the capability the
      generic annealing specification is stated over. */
  function Tsp2Ops(dist: Distance, boltzmann: Boltzmann, draws: (nat, nat) -> nat): (ops: StateOps<seq<Point>>)
    ensures forall me, candidate, t :: ops.acceptability(me, candidate, t) == Acceptability(dist, boltzmann, me, candidate, t)
    ensures forall s, k :: ops.nextStates(s, k) == NextStates(s, draws, k)
  {
    StateOps((me: seq<Point>, candidate: seq<Point>, t: real) => Acceptability(dist, boltzmann, me, candidate, t),
             (s: seq<Point>, k: nat) => NextStates(s, draws, k))
  }

  /** Every tour of a run, and its result, has the points of the input, each as often. */
  lemma AnnealKeepsPoints(dist: Distance, boltzmann: Boltzmann, rng: Rng, temperature: nat -> real,
                          state: seq<Point>, maxK: nat)
    ensures var r := Annealing.Anneal(Tsp2Ops(dist, boltzmann, rng.draws), temperature, rng.samples, state, 0, maxK);
            |r| == |state| && multiset(r) == multiset(state)
  {
    var ops := Tsp2Ops(dist, boltzmann, rng.draws);
    var P := (u: seq<Point>) => |u| == |state| && multiset(u) == multiset(state);
    assert Annealing.Preserves(ops, P);
    Annealing.TracePreserves(ops, temperature, rng.samples, state, 0, maxK, P);
  }

  /** A tour of at most one point has no pair to exchange, so the run returns its input, as it
      does with `max_k == 0`. */
  lemma AnnealWithoutPairs(dist: Distance, boltzmann: Boltzmann, rng: Rng, temperature: nat -> real,
                           state: seq<Point>, maxK: nat)
    requires |state| <= 1 || maxK == 0
    ensures Annealing.Anneal(Tsp2Ops(dist, boltzmann, rng.draws), temperature, rng.samples, state, 0, maxK) == state
  {
    var ops := Tsp2Ops(dist, boltzmann, rng.draws);
    if maxK != 0 {
      AllPairsLength(|state|);
      assert |state| * (|state| - 1) == 0;
      assert ops.nextStates(state, 0) == [];
    }
    Annealing.AnnealWithoutMoves(ops, temperature, rng.samples, state, maxK);
  }

  /** A step that accepts nothing leaves a tour that no exchange of two positions makes
      shorter: a shorter candidate has acceptability 1, and no sample exceeds 1. */
  lemma NoMoveMeansNoShorterExchange(dist: Distance, boltzmann: Boltzmann, rng: Rng, temperature: nat -> real,
                                     current: seq<Point>, k: nat)
    requires UnitSamples(rng.samples)
    requires Step(Tsp2Ops(dist, boltzmann, rng.draws), temperature, rng.samples, current, k).None?
    ensures forall i, j :: 0 <= i < j < |current| ==> Energy(dist, current) <= Energy(dist, Swapped(current, i, j))
  {
    forall i, j | 0 <= i < j < |current|
      ensures Energy(dist, current) <= Energy(dist, Swapped(current, i, j))
    {
      ExchangeRejected(dist, boltzmann, rng, temperature, current, k, i, j);
    }
  }

  /** The exchange of `i` and `j` is one of the candidates of step `k`; when the step accepts
      nothing, it was rejected. */
  lemma ExchangeRejected(dist: Distance, boltzmann: Boltzmann, rng: Rng, temperature: nat -> real,
                         current: seq<Point>, k: nat, i: nat, j: nat)
    requires UnitSamples(rng.samples)
    requires Step(Tsp2Ops(dist, boltzmann, rng.draws), temperature, rng.samples, current, k).None?
    requires i < j < |current|
    ensures Energy(dist, current) <= Energy(dist, Swapped(current, i, j))
  {
    var m := ExchangeIsTried(|current|, rng.draws, k, i, j);
    var ops := Tsp2Ops(dist, boltzmann, rng.draws);
    var candidates := ops.nextStates(current, k);
    assert candidates[m] == Swapped(current, i, j);
    StepRejectsEach(ops, temperature, rng.samples, current, k, m);
    RejectedIsNotShorter(dist, boltzmann, current, candidates[m], temperature(k), rng.samples(k, m));
  }

  /** Every exchange of two positions is tried at some position of step `k`'s order. */
  lemma ExchangeIsTried(n: nat, draws: (nat, nat) -> nat, k: nat, i: nat, j: nat) returns (m: nat)
    requires i < j < n
    ensures m < |StepOrder(n, draws, k)| && StepOrder(n, draws, k)[m] == (i, j)
  {
    var order := StepOrder(n, draws, k);
    PairsMembers(0, n, (i, j));
    m := PositionOf(order, (i, j));
  }

  /** A run that breaks out before `max_k` steps returns a tour that is locally optimal: no
      exchange of two of its positions is shorter. */
  lemma EarlyStopIsLocalOptimum(dist: Distance, boltzmann: Boltzmann, rng: Rng, temperature: nat -> real,
                                state: seq<Point>, maxK: nat)
    requires UnitSamples(rng.samples)
    requires |Annealing.Trace(Tsp2Ops(dist, boltzmann, rng.draws), temperature, rng.samples, state, 0, maxK)| < maxK
    ensures var r := Annealing.Anneal(Tsp2Ops(dist, boltzmann, rng.draws), temperature, rng.samples, state, 0, maxK);
            forall i, j :: 0 <= i < j < |r| ==> Energy(dist, r) <= Energy(dist, Swapped(r, i, j))
  {
    var ops := Tsp2Ops(dist, boltzmann, rng.draws);
    Annealing.RunStopsOnRejection(ops, temperature, rng.samples, state, maxK);
    NoMoveMeansNoShorterExchange(dist, boltzmann, rng, temperature, Annealing.Anneal(ops, temperature, rng.samples, state, 0, maxK),
                                 |Annealing.Trace(ops, temperature, rng.samples, state, 0, maxK)|);
  }

  /** `holder.copy_from_slice(current_state); holder.swap(i, j);` */
  method CopySwapped(holder: array<Point>, current: array<Point>, i: nat, j: nat)
    requires holder != current && holder.Length == current.Length
    requires i < current.Length && j < current.Length
    modifies holder
    ensures holder[..] == Swapped(current[..], i, j)
  {
    forall l | 0 <= l < holder.Length {
      holder[l] := current[l];
    }
    var tmp := holder[i];
    holder[i] := holder[j];
    holder[j] := tmp;
  }

  /** `current_state.copy_from_slice(&holder)`. */
  method CopyFrom(target: array<Point>, source: array<Point>)
    requires target != source && target.Length == source.Length
    modifies target
    ensures target[..] == source[..]
  {
    forall l | 0 <= l < target.Length {
      target[l] := source[l];
    }
  }

  /** `for (i, j) in swaps.iter() { ... }`, the trials of step `k`: each copies the current
      tour into `holder` and exchanges one pair there; the first trial whose acceptability
      reaches its sample is copied back into `current_state`, and no later pair is tried.
      `current_state` is left as it was when no trial is accepted. */
  method TrySwaps(current: array<Point>, holder: array<Point>, swaps: array<Pair>, dist: Distance, boltzmann: Boltzmann,
                  draws: (nat, nat) -> nat, t: real, samples: (nat, nat) -> real, k: nat) returns (accepted: bool)
    requires current != holder && holder.Length == current.Length
    requires OrderedPairsBelow(swaps[..], current.Length)
    modifies current, holder
    ensures var candidates := SwapEach(old(current[..]), swaps[..]);
            var found := FirstAccepted(Tsp2Ops(dist, boltzmann, draws), old(current[..]), candidates, t, samples, k, 0);
            (accepted <==> found.Some?) && current[..] == if accepted then candidates[found.value] else old(current[..])
  {
    ghost var ops := Tsp2Ops(dist, boltzmann, draws);
    ghost var before := current[..];
    ghost var candidates := SwapEach(before, swaps[..]);
    for m := 0 to swaps.Length
      invariant current[..] == before
      invariant FirstAccepted(ops, before, candidates, t, samples, k, 0)
             == FirstAccepted(ops, before, candidates, t, samples, k, m)
    {
      var (i, j) := swaps[m];
      CopySwapped(holder, current, i, j);
      assert holder[..] == candidates[m];
      if Acceptability(dist, boltzmann, current[..], holder[..], t) >= samples(k, m) {
        CopyFrom(current, holder);
        assert FirstAccepted(ops, before, candidates, t, samples, k, m) == Some(m);
        return true;
      }
    }
    return false;
  }

  /** Shuffling the pair list of step `k` once more gives the order of step `k`, and so the
      candidates the specification of step `k` tries. */
  lemma ShuffledStepCandidates(dist: Distance, boltzmann: Boltzmann, draws: (nat, nat) -> nat, current: seq<Point>, k: nat,
                               order: seq<Pair>, shuffled: seq<Pair>)
    requires order == Reshuffled(Pairs(0, |current|), draws, k)
    requires shuffled == Shuffled(order, draws, k)
    ensures shuffled == Reshuffled(Pairs(0, |current|), draws, k + 1)
    ensures OrderedPairsBelow(shuffled, |current|)
    ensures Tsp2Ops(dist, boltzmann, draws).nextStates(current, k) == SwapEach(current, shuffled)
  {
    assert shuffled == StepOrder(|current|, draws, k);
  }

  /** One pass of the `'outer` loop at step `k`: `swaps.shuffle(&mut rng)`, then the trials
      at temperature `t`. The pair list moves on to its next shuffle, and `current_state`
      becomes the candidate the generic `Step` accepts, or stays as it was when it accepts
      nothing. */
  method StepInPlace(current: array<Point>, holder: array<Point>, swaps: array<Pair>, dist: Distance, boltzmann: Boltzmann,
                     temperature: nat -> real, rng: Rng, k: nat) returns (accepted: bool)
    requires current != holder && holder.Length == current.Length
    requires swaps[..] == Reshuffled(Pairs(0, current.Length), rng.draws, k)
    modifies current, holder, swaps
    ensures swaps[..] == Reshuffled(Pairs(0, current.Length), rng.draws, k + 1)
    ensures var step := Step(Tsp2Ops(dist, boltzmann, rng.draws), temperature, rng.samples, old(current[..]), k);
            (accepted <==> step.Some?) && current[..] == if accepted then step.value else old(current[..])
  {
    ghost var before := current[..];
    ghost var order := swaps[..];
    assert current as object != swaps as object;
    var t := temperature(k);
    Shuffle(swaps, rng.draws, k);
    assert current[..] == before;
    ShuffledStepCandidates(dist, boltzmann, rng.draws, before, k, order, swaps[..]);
    accepted := TrySwaps(current, holder, swaps, dist, boltzmann, rng.draws, t, rng.samples, k);
  }

  /** `simulated_annealing(state, max_k)`, with the schedule `1.0 / k` and the generator
      made parameters. The result is where the generic run of `Annealing.Anneal` over this
      neighbourhood ends, so it keeps the points of the input. */
  method SimulatedAnnealing(state: seq<Point>, maxK: nat, dist: Distance, boltzmann: Boltzmann,
                            temperature: nat -> real, rng: Rng) returns (r: seq<Point>)
    ensures r == Annealing.Anneal(Tsp2Ops(dist, boltzmann, rng.draws), temperature, rng.samples, state, 0, maxK)
    ensures |r| == |state| && multiset(r) == multiset(state)
  {
    ghost var ops := Tsp2Ops(dist, boltzmann, rng.draws);
    var n := |state|;
    var current := new Point[n](l requires 0 <= l < n => state[l]);
    var holder := new Point[n](_ => Origin);
    var swaps := CollectPairs(n);
    assert current[..] == state;
    ghost var result := Annealing.Anneal(ops, temperature, rng.samples, state, 0, maxK);
    var k := 0;
    while k < maxK
      invariant k <= maxK
      invariant swaps[..] == Reshuffled(Pairs(0, n), rng.draws, k)
      invariant Annealing.Anneal(ops, temperature, rng.samples, current[..], k, maxK) == result
    {
      ghost var before := current[..];
      var accepted := StepInPlace(current, holder, swaps, dist, boltzmann, temperature, rng, k);
      if !accepted {
        Annealing.AnnealStops(ops, temperature, rng.samples, before, k, maxK);
        break;
      }
      Annealing.AnnealAdvances(ops, temperature, rng.samples, before, k, maxK, current[..]);
      k := k + 1;
    }
    if k == maxK {
      Annealing.AnnealStops(ops, temperature, rng.samples, current[..], k, maxK);
    }
    r := current[..];
    AnnealKeepsPoints(dist, boltzmann, rng, temperature, state, maxK);
  }
}
