/** `src/tsp.rs`: a tour as a `State`. Its candidates are the tour with two positions
    exchanged, one candidate per pair of positions, in the order of a shuffled pair list. */
module Tsp {
  import opened Slices
  import opened Combinations
  import opened Random
  import opened Geometry
  import opened State
  import opened Moves
  import Annealing

  /** `struct Tsp { state: Vec<Point> }`. */
  datatype Tsp = Tsp(state: seq<Point>)

  /** The candidate tours as `Tsp` values. */
  function Tours(states: seq<seq<Point>>): (r: seq<Tsp>)
    ensures |r| == |states|
    ensures forall m :: 0 <= m < |r| ==> r[m].state == states[m]
  {
    seq(|states|, m requires 0 <= m < |states| => Tsp(states[m]))
  }

  /** The candidates of `get_next_states`, the c-th call of a run: the pairs of positions are
      shuffled, and each yields a clone of the tour with those two positions exchanged. */
  function NextStates(t: Tsp, draws: (nat, nat) -> nat, c: nat): (r: seq<Tsp>)
    ensures var swaps := Shuffled(Pairs(0, |t.state|), draws, c);
            |r| == |swaps| &&
            forall m :: 0 <= m < |r| ==> swaps[m].0 < swaps[m].1 < |t.state| && r[m].state == Swapped(t.state, swaps[m].0, swaps[m].1)
  {
    var swaps := Shuffled(Pairs(0, |t.state|), draws, c);
    ReorderedPairsInRange(0, |t.state|, swaps);
    Tours(SwapEach(t.state, swaps))
  }

  /** There are n(n-1)/2 candidates, and every exchange of two distinct positions is one of
      them: the neighbourhood is exactly the set of single transpositions. */
  lemma NextStatesAreAllTranspositions(t: Tsp, draws: (nat, nat) -> nat, c: nat)
    ensures var n := |t.state|; |NextStates(t, draws, c)| == n * (n - 1) / 2
    ensures forall i, j :: 0 <= i < j < |t.state| ==> Tsp(Swapped(t.state, i, j)) in NextStates(t, draws, c)
  {
    var n := |t.state|;
    var swaps := Shuffled(Pairs(0, n), draws, c);
    var r := NextStates(t, draws, c);
    AllPairsLength(n);
    ReorderedPairsInRange(0, n, swaps);
    assert r == Tours(SwapEach(t.state, swaps));
    forall i, j | 0 <= i < j < n
      ensures Tsp(Swapped(t.state, i, j)) in r
    {
      TranspositionIsCandidate(t.state, swaps, i, j);
    }
  }

  /** Whatever order the pair list is in, the exchange of any two positions is a candidate. */
  lemma TranspositionIsCandidate(s: seq<Point>, swaps: seq<Pair>, i: nat, j: nat)
    requires multiset(swaps) == multiset(Pairs(0, |s|)) && OrderedPairsBelow(swaps, |s|)
    requires i < j < |s|
    ensures Tsp(Swapped(s, i, j)) in Tours(SwapEach(s, swaps))
  {
    PairsMembers(0, |s|, (i, j));
    assert (i, j) in multiset(swaps);
    SwapEachCovers(s, swaps, (i, j));
    var states := SwapEach(s, swaps);
    var m :| 0 <= m < |states| && states[m] == Swapped(s, i, j);
    assert Tours(states)[m] == Tsp(Swapped(s, i, j));
  }

  /** Every candidate is the tour with two distinct positions exchanged, so it has the same
      points, each as often, as the tour it came from. */
  lemma NextStatesArePermutations(t: Tsp, draws: (nat, nat) -> nat, c: nat)
    ensures forall u :: u in NextStates(t, draws, c) ==>
              |u.state| == |t.state| && multiset(u.state) == multiset(t.state) &&
              exists i, j :: 0 <= i < j < |t.state| && u.state == Swapped(t.state, i, j)
  {
    var swaps := Shuffled(Pairs(0, |t.state|), draws, c);
    ReorderedPairsInRange(0, |t.state|, swaps);
    var states := SwapEach(t.state, swaps);
    var r := NextStates(t, draws, c);
    assert r == Tours(states);
    SwapEachPermutes(t.state, swaps);
    forall u | u in r
      ensures u.state in states
    {
      var m :| 0 <= m < |r| && r[m] == u;
      assert u.state == states[m];
    }
  }

  /** `let mut state = self.state.clone(); state.swap(i, j);`: a fresh buffer, the tour
      itself untouched. */
  method SwappedClone(s: seq<Point>, i: nat, j: nat) returns (u: seq<Point>)
    requires i < |s| && j < |s|
    ensures u == Swapped(s, i, j)
  {
    var state := new Point[|s|](k requires 0 <= k < |s| => s[k]);
    assert state[..] == s;
    var tmp := state[i];
    state[i] := state[j];
    state[j] := tmp;
    u := state[..];
  }

  /** `swaps.into_iter().map(|(i, j)| ...)`: the candidates in the order of the pair list. */
  method CloneAndSwapEach(s: seq<Point>, swaps: array<Pair>) returns (r: seq<Tsp>)
    requires OrderedPairsBelow(swaps[..], |s|)
    ensures r == Tours(SwapEach(s, swaps[..]))
  {
    r := [];
    for m := 0 to swaps.Length
      invariant |r| == m
      invariant forall l :: 0 <= l < m ==> r[l] == Tours(SwapEach(s, swaps[..]))[l]
    {
      var (i, j) := swaps[m];
      var state := SwappedClone(s, i, j);
      r := r + [Tsp(state)];
    }
  }

  /** `get_next_states(&self)`, the c-th call of a run: the pair list is collected and shuffled
      in place, and each pair then gives a fresh clone with its two positions swapped. The
      tour itself is a value and is left as it was. */
  method GetNextStates(t: Tsp, draws: (nat, nat) -> nat, c: nat) returns (r: seq<Tsp>)
    ensures r == NextStates(t, draws, c)
  {
    var swaps := CollectPairs(|t.state|);
    Shuffle(swaps, draws, c);
    ReorderedPairsInRange(0, |t.state|, swaps[..]);
    r := CloneAndSwapEach(t.state, swaps);
  }

  /** The `State` implementation for `Tsp`: `acceptability` compares the energies of the two
      tours, and the c-th `get_next_states` call uses the c-th shuffle of the pair list. */
  function TspOps(dist: Distance, boltzmann: Boltzmann, draws: (nat, nat) -> nat): (ops: StateOps<Tsp>)
    ensures forall me, candidate, t :: ops.acceptability(me, candidate, t) == Acceptability(dist, boltzmann, me.state, candidate.state, t)
    ensures forall s, c :: ops.nextStates(s, c) == NextStates(s, draws, c)
  {
    StateOps((me: Tsp, candidate: Tsp, t: real) => Acceptability(dist, boltzmann, me.state, candidate.state, t),
             (s: Tsp, c: nat) => NextStates(s, draws, c))
  }

  /** The run of `test_tsp`: the free `simulated_annealing` of `src/state.rs` on a `Tsp`
      returns a tour with the points of the input, at most one exchange away from it. */
  lemma AnchoredTspIsOneTransposition(dist: Distance, boltzmann: Boltzmann, rng: Rng, temperature: nat -> real,
                                      state: Tsp, maxK: nat)
    ensures var r := AnchoredResult(TspOps(dist, boltzmann, rng.draws), temperature, rng.samples, state, state, 0, maxK);
            |r.state| == |state.state| && multiset(r.state) == multiset(state.state) &&
            (r == state || exists i, j :: 0 <= i < j < |state.state| && r.state == Swapped(state.state, i, j))
  {
    var ops := TspOps(dist, boltzmann, rng.draws);
    var r := AnchoredResult(ops, temperature, rng.samples, state, state, 0, maxK);
    if r != state {
      var j :| 0 <= j < maxK && r in ops.nextStates(state, j);
      NextStatesArePermutations(state, rng.draws, j);
    }
  }

  /** `SimulatedAnnealing::run` on a `Tsp`: every tour of the run, and its result, has the
      points of the input, each as often. */
  lemma RunKeepsPoints(dist: Distance, boltzmann: Boltzmann, rng: Rng, sa: Annealing.SimulatedAnnealing, state: Tsp)
    ensures var r := Annealing.Anneal(TspOps(dist, boltzmann, rng.draws), sa.temperature, rng.samples, state, 0, sa.maxK);
            |r.state| == |state.state| && multiset(r.state) == multiset(state.state)
  {
    var ops := TspOps(dist, boltzmann, rng.draws);
    var P := (u: Tsp) => |u.state| == |state.state| && multiset(u.state) == multiset(state.state);
    forall s, c, candidate | P(s) && candidate in ops.nextStates(s, c)
      ensures P(candidate)
    {
      NextStatesArePermutations(s, rng.draws, c);
    }
    assert Annealing.Preserves(ops, P);
    Annealing.TracePreserves(ops, sa.temperature, rng.samples, state, 0, sa.maxK, P);
  }

  /** The tours of `test_tsp`: the expected answer is the input with positions 2 and 4
      exchanged, so it is a candidate of every step of the anchored run. */
  const TestInput: seq<Point> := [Point(0.0, 0.0), Point(0.0, 2.0), Point(2.0, 0.0), Point(2.0, 2.0), Point(1.0, 3.0), Point(1.0, -1.0)]
  const TestExpected: seq<Point> := [Point(0.0, 0.0), Point(0.0, 2.0), Point(1.0, 3.0), Point(2.0, 2.0), Point(2.0, 0.0), Point(1.0, -1.0)]

  lemma TestExpectedIsACandidate(draws: (nat, nat) -> nat, c: nat)
    ensures Tsp(TestExpected) in NextStates(Tsp(TestInput), draws, c)
  {
    assert TestExpected == Swapped(TestInput, 2, 4);
    NextStatesAreAllTranspositions(Tsp(TestInput), draws, c);
  }
}
