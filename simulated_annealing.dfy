/** `src/simulated_annealing.rs`: the configured engine. `run` keeps a current state, and at
    every step moves to the first of its candidates that passes the acceptance test; it stops
    after `max_k` steps or at the first step that accepts nothing.

    `Trace` and `Anneal` are the specification of that loop for any state type; the
    specialised drivers of `src/tsp2.rs` and `src/bin/grpc.rs` are proved against them too. */
module Annealing {
  import opened State

  /** The schedule of the defaults, `|k| 1.0 - 0.01 * k as f64`: it starts at 1, never
      exceeds it, and stays positive for the default budget of 100 steps. */
  function LinearDecay(k: nat): (t: real)
    ensures t <= 1.0
    ensures k == 0 ==> t == 1.0
    ensures k < 100 ==> 0.0 < t
  {
    1.0 - 0.01 * k as real
  }

  /** `struct SimulatedAnnealing { temperature, max_k }`. */
  datatype SimulatedAnnealing = SimulatedAnnealing(temperature: nat -> real, maxK: nat)
  {
    /** `SimulatedAnnealing::default()`. */
    static function Default(): (sa: SimulatedAnnealing)
      ensures sa.maxK == 100
      ensures forall k :: sa.temperature(k) == 1.0 - 0.01 * k as real
    {
      SimulatedAnnealing(LinearDecay, 100)
    }

    /** `SimulatedAnnealing::new()`, the same configuration as the default. */
    static function New(): (sa: SimulatedAnnealing)
      ensures sa == Default()
    {
      Default()
    }

    /** `run(&self, state)`: the input is a value and is never changed; the result is where the
        run described by `Anneal` ends. */
    method Run<S>(state: S, ops: StateOps<S>, samples: (nat, nat) -> real) returns (r: S)
      ensures r == Anneal(ops, temperature, samples, state, 0, maxK)
    {
      var current := state;
      for k := 0 to maxK
        invariant Anneal(ops, temperature, samples, current, k, maxK) == Anneal(ops, temperature, samples, state, 0, maxK)
      {
        var t := temperature(k);
        var candidates := ops.nextStates(current, k);
        var next := Find(ops, current, candidates, t, samples, k);
        if next.None? {
          break;
        }
        current := candidates[next.value];
      }
      r := current;
    }
  }

  /** The states a run accepts, in order, from step `k` holding `current`: one per step until
      the budget `maxK` is used up or a step accepts nothing. */
  function Trace<S>(ops: StateOps<S>, temperature: nat -> real, samples: (nat, nat) -> real,
                    current: S, k: nat, maxK: nat): (r: seq<S>)
    ensures k + |r| <= maxK || r == []
    decreases maxK - k
  {
    if k >= maxK then []
    else match Step(ops, temperature, samples, current, k)
      case None => []
      case Some(next) => [next] + Trace(ops, temperature, samples, next, k + 1, maxK)
  }

  /** The state a run from step `k` holding `current` ends in: the last accepted state, or
      `current` when none is accepted. */
  function Anneal<S>(ops: StateOps<S>, temperature: nat -> real, samples: (nat, nat) -> real,
                     current: S, k: nat, maxK: nat): (r: S)
    ensures r == current || r in Trace(ops, temperature, samples, current, k, maxK)
    ensures k >= maxK ==> r == current
  {
    var trace := Trace(ops, temperature, samples, current, k, maxK);
    if trace == [] then current else trace[|trace| - 1]
  }

  /** A step that accepts `next` records it and continues from it at the following step. */
  lemma TraceAdvances<S>(ops: StateOps<S>, temperature: nat -> real, samples: (nat, nat) -> real,
                         current: S, k: nat, maxK: nat, next: S)
    requires k < maxK && Step(ops, temperature, samples, current, k) == Some(next)
    ensures Trace(ops, temperature, samples, current, k, maxK) == [next] + Trace(ops, temperature, samples, next, k + 1, maxK)
  {
  }

  /** A step that accepts `next` hands the rest of the run to `next` at the following step. */
  lemma AnnealAdvances<S>(ops: StateOps<S>, temperature: nat -> real, samples: (nat, nat) -> real,
                          current: S, k: nat, maxK: nat, next: S)
    requires k < maxK && Step(ops, temperature, samples, current, k) == Some(next)
    ensures Anneal(ops, temperature, samples, current, k, maxK) == Anneal(ops, temperature, samples, next, k + 1, maxK)
  {
    var rest := Trace(ops, temperature, samples, next, k + 1, maxK);
    assert Trace(ops, temperature, samples, current, k, maxK) == [next] + rest;
  }

  /** A run whose budget is spent, or whose step accepts nothing, moves no more and ends
      where it is. */
  lemma AnnealStops<S>(ops: StateOps<S>, temperature: nat -> real, samples: (nat, nat) -> real,
                       current: S, k: nat, maxK: nat)
    requires k >= maxK || Step(ops, temperature, samples, current, k).None?
    ensures Trace(ops, temperature, samples, current, k, maxK) == []
    ensures Anneal(ops, temperature, samples, current, k, maxK) == current
  {
  }

  /** Each state of a run is the first accepted candidate of the state before it (the input,
      for the first one), at consecutive steps. */
  lemma {:induction false} TraceIsFirstAcceptanceChain<S>(ops: StateOps<S>, temperature: nat -> real, samples: (nat, nat) -> real,
                                                          current: S, k: nat, maxK: nat, m: nat)
    requires m < |Trace(ops, temperature, samples, current, k, maxK)|
    ensures var trace := Trace(ops, temperature, samples, current, k, maxK);
            Step(ops, temperature, samples, if m == 0 then current else trace[m - 1], k + m) == Some(trace[m])
    decreases m
  {
    var next := Step(ops, temperature, samples, current, k).value;
    var rest := Trace(ops, temperature, samples, next, k + 1, maxK);
    assert Trace(ops, temperature, samples, current, k, maxK) == [next] + rest;
    if m > 0 {
      TraceIsFirstAcceptanceChain(ops, temperature, samples, next, k + 1, maxK, m - 1);
    }
  }

  /** A run that ends before its budget is used up ends because the step from its last state
      accepts nothing. */
  lemma {:induction false} TraceStopsOnRejection<S>(ops: StateOps<S>, temperature: nat -> real, samples: (nat, nat) -> real,
                                                    current: S, k: nat, maxK: nat)
    requires k + |Trace(ops, temperature, samples, current, k, maxK)| < maxK
    ensures Step(ops, temperature, samples, Anneal(ops, temperature, samples, current, k, maxK),
                 k + |Trace(ops, temperature, samples, current, k, maxK)|).None?
    decreases maxK - k
  {
    match Step(ops, temperature, samples, current, k)
    case None =>
    case Some(next) =>
      var rest := Trace(ops, temperature, samples, next, k + 1, maxK);
      assert Trace(ops, temperature, samples, current, k, maxK) == [next] + rest;
      TraceStopsOnRejection(ops, temperature, samples, next, k + 1, maxK);
  }

  /** A run from step 0 that ends before its budget is used up ends at a state whose next
      step accepts nothing. */
  lemma RunStopsOnRejection<S>(ops: StateOps<S>, temperature: nat -> real, samples: (nat, nat) -> real, state: S, maxK: nat)
    requires |Trace(ops, temperature, samples, state, 0, maxK)| < maxK
    ensures Step(ops, temperature, samples, Anneal(ops, temperature, samples, state, 0, maxK),
                 |Trace(ops, temperature, samples, state, 0, maxK)|).None?
  {
    TraceStopsOnRejection(ops, temperature, samples, state, 0, maxK);
  }

  /** Every step of a run moves to one of the candidates `get_next_states` offers. */
  lemma TraceFollowsNextStates<S>(ops: StateOps<S>, temperature: nat -> real, samples: (nat, nat) -> real,
                                  current: S, k: nat, maxK: nat)
    ensures var trace := Trace(ops, temperature, samples, current, k, maxK);
            forall m :: 0 <= m < |trace| ==> trace[m] in ops.nextStates(if m == 0 then current else trace[m - 1], k + m)
  {
    var trace := Trace(ops, temperature, samples, current, k, maxK);
    forall m | 0 <= m < |trace|
      ensures trace[m] in ops.nextStates(if m == 0 then current else trace[m - 1], k + m)
    {
      TraceIsFirstAcceptanceChain(ops, temperature, samples, current, k, maxK, m);
    }
  }

  /** `P` holds of every candidate of every state it holds of. */
  ghost predicate Preserves<S(!new)>(ops: StateOps<S>, P: S -> bool)
  {
    forall s, c, candidate :: P(s) && candidate in ops.nextStates(s, c) ==> P(candidate)
  }

  /** A property every move preserves holds of every state of a run and of its result. */
  lemma {:induction false} TracePreserves<S(!new)>(ops: StateOps<S>, temperature: nat -> real, samples: (nat, nat) -> real,
                                             current: S, k: nat, maxK: nat, P: S -> bool)
    requires Preserves(ops, P) && P(current)
    ensures forall s :: s in Trace(ops, temperature, samples, current, k, maxK) ==> P(s)
    ensures P(Anneal(ops, temperature, samples, current, k, maxK))
    decreases maxK - k
  {
    if k < maxK {
      match Step(ops, temperature, samples, current, k)
      case None =>
      case Some(next) =>
        TracePreserves(ops, temperature, samples, next, k + 1, maxK, P);
    }
  }

  /** With a budget of zero steps, or when the first step accepts nothing, `run` returns the
      clone of its input. */
  lemma AnnealWithoutMoves<S>(ops: StateOps<S>, temperature: nat -> real, samples: (nat, nat) -> real, state: S, maxK: nat)
    requires maxK == 0 || Step(ops, temperature, samples, state, 0).None?
    ensures Trace(ops, temperature, samples, state, 0, maxK) == []
    ensures Anneal(ops, temperature, samples, state, 0, maxK) == state
  {
  }
}
