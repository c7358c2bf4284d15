/** `src/state.rs`: the `State` capability the annealing drivers are generic over, the
    `find` that picks the first acceptable candidate, and the free function
    `simulated_annealing`, which draws every step's candidates from its original input. */
module State {

  /** `Option`, as `Iterator::find` returns it. */
  datatype Option<T> = None | Some(value: T)

  /** The two methods of the `State` trait, as values. `acceptability(current, candidate, t)`
      is the trait's `acceptability`; `nextStates(s, c)` is the finite sequence of candidates
      the c-th call of `get_next_states` on `s` yields, the call number standing for the
      randomness that call draws. */
  datatype StateOps<!S> = StateOps(acceptability: (S, S, real) -> real, nextStates: (S, nat) -> seq<S>)

  /** The test inside `find`: the candidate's acceptability is at least the uniform sample
      drawn for it. */
  predicate Accepts<S>(ops: StateOps<S>, current: S, candidate: S, t: real, u: real)
  {
    ops.acceptability(current, candidate, t) >= u
  }

  /** The position, at or after `from`, of the first candidate of step `k` that is accepted
      against its own sample `samples(k, position)`; `None` when no candidate is. */
  function FirstAccepted<S>(ops: StateOps<S>, current: S, candidates: seq<S>, t: real,
                            samples: (nat, nat) -> real, k: nat, from: nat): (r: Option<nat>)
    requires from <= |candidates|
    ensures r.Some? ==> from <= r.value < |candidates|
    ensures r.Some? ==> Accepts(ops, current, candidates[r.value], t, samples(k, r.value))
    ensures r.Some? ==> forall m :: from <= m < r.value ==> !Accepts(ops, current, candidates[m], t, samples(k, m))
    ensures r.None? ==> forall m :: from <= m < |candidates| ==> !Accepts(ops, current, candidates[m], t, samples(k, m))
    decreases |candidates| - from
  {
    if from == |candidates| then None
    else if ops.acceptability(current, candidates[from], t) >= samples(k, from) then Some(from)
    else FirstAccepted(ops, current, candidates, t, samples, k, from + 1)
  }

  /** Step `k` from `current` at temperature `temperature(k)`: the first accepted candidate
      among those `get_next_states` yields, or `None` when the whole scan accepts nothing. */
  function Step<S>(ops: StateOps<S>, temperature: nat -> real, samples: (nat, nat) -> real, current: S, k: nat): (r: Option<S>)
    ensures r.Some? ==> r.value in ops.nextStates(current, k)
  {
    var candidates := ops.nextStates(current, k);
    match FirstAccepted(ops, current, candidates, temperature(k), samples, k, 0)
    case None => None
    case Some(i) => Some(candidates[i])
  }

  /** A step that accepts nothing rejected each of its candidates against its own sample. */
  lemma StepRejectsEach<S>(ops: StateOps<S>, temperature: nat -> real, samples: (nat, nat) -> real, current: S, k: nat, m: nat)
    requires Step(ops, temperature, samples, current, k).None?
    requires m < |ops.nextStates(current, k)|
    ensures ops.acceptability(current, ops.nextStates(current, k)[m], temperature(k)) < samples(k, m)
  {
    var candidates := ops.nextStates(current, k);
    assert FirstAccepted(ops, current, candidates, temperature(k), samples, k, 0).None?;
    assert !Accepts(ops, current, candidates[m], temperature(k), samples(k, m));
  }

  /** `candidates.find(|c| current.acceptability(c, t) >= uniform.sample(&mut rng))`, the
      samples being those of step `k`. */
  method Find<S>(ops: StateOps<S>, current: S, candidates: seq<S>, t: real, samples: (nat, nat) -> real, k: nat)
    returns (found: Option<nat>)
    ensures found == FirstAccepted(ops, current, candidates, t, samples, k, 0)
  {
    var i := 0;
    while i < |candidates|
      invariant i <= |candidates|
      invariant FirstAccepted(ops, current, candidates, t, samples, k, 0)
             == FirstAccepted(ops, current, candidates, t, samples, k, i)
    {
      if ops.acceptability(current, candidates[i], t) >= samples(k, i) {
        return Some(i);
      }
      i := i + 1;
    }
    return None;
  }

  /** What `simulated_annealing` returns once it has reached step `k` holding `current`:
      every step draws its candidates from the original `state` and compares them with
      `state`, and the loop ends at `maxK` or at the first step that accepts nothing.
      Because every step starts again from `state`, the result is the value held on entry
      or a single move away from `state`: one of the candidates of some step. */
  function AnchoredResult<S>(ops: StateOps<S>, temperature: nat -> real, samples: (nat, nat) -> real,
                             state: S, current: S, k: nat, maxK: nat): (r: S)
    ensures r == current || exists j :: k <= j < maxK && r in ops.nextStates(state, j)
    decreases maxK - k
  {
    if k >= maxK then current
    else match Step(ops, temperature, samples, state, k)
      case None => current
      case Some(next) => AnchoredResult(ops, temperature, samples, state, next, k + 1, maxK)
  }

  /** `simulated_annealing(state, max_k, temperature)`. The input is a value and is never
      changed; the result starts as its clone. */
  method SimulatedAnnealing<S>(state: S, maxK: nat, temperature: nat -> real, ops: StateOps<S>, samples: (nat, nat) -> real)
    returns (r: S)
    ensures r == AnchoredResult(ops, temperature, samples, state, state, 0, maxK)
  {
    var current := state;
    for k := 0 to maxK
      invariant AnchoredResult(ops, temperature, samples, state, current, k, maxK)
             == AnchoredResult(ops, temperature, samples, state, state, 0, maxK)
    {
      var t := temperature(k);
      var candidates := ops.nextStates(state, k);
      var next := Find(ops, state, candidates, t, samples, k);
      if next.None? {
        break;
      }
      current := candidates[next.value];
    }
    r := current;
  }

  /** The result is the candidate accepted at step `j`, the last step of the unbroken run of
      accepting steps that starts at `k`; what was held before does not matter. */
  lemma {:induction false} AnchoredResultIsLastAccepted<S>(ops: StateOps<S>, temperature: nat -> real, samples: (nat, nat) -> real,
                                                           state: S, current: S, k: nat, maxK: nat, j: nat)
    requires k <= j < maxK
    requires forall i :: k <= i <= j ==> Step(ops, temperature, samples, state, i).Some?
    requires j + 1 == maxK || Step(ops, temperature, samples, state, j + 1).None?
    ensures AnchoredResult(ops, temperature, samples, state, current, k, maxK) == Step(ops, temperature, samples, state, j).value
    decreases maxK - k
  {
    var next := Step(ops, temperature, samples, state, k).value;
    if k < j {
      AnchoredResultIsLastAccepted(ops, temperature, samples, state, next, k + 1, maxK, j);
    }
  }

  /** With a budget of zero steps, or when the first step accepts nothing, the result is the
      clone of the input. */
  lemma AnchoredResultWithoutMoves<S>(ops: StateOps<S>, temperature: nat -> real, samples: (nat, nat) -> real, state: S, maxK: nat)
    requires maxK == 0 || Step(ops, temperature, samples, state, 0).None?
    ensures AnchoredResult(ops, temperature, samples, state, state, 0, maxK) == state
  {
  }
}
