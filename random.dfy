/** The randomness of a run, made an input. The source draws from `thread_rng()` or
    `StdRng::from_entropy()`; here the caller supplies every value that is drawn, so a
    property proved for all `Rng` values holds whatever the generator produces. */
module Random {
  import opened Slices

  /** `draws(c, i)` is the raw value the c-th shuffle of a run uses at position `i`;
      `samples(k, i)` is the value `Uniform::new_inclusive(0.0, 1.0)` yields for the
      i-th candidate tried in step `k`. */
  datatype Rng = Rng(draws: (nat, nat) -> nat, samples: (nat, nat) -> real)

  /** The samples of a uniform distribution on [0, 1] lie in [0, 1]. */
  ghost predicate UnitSamples(samples: (nat, nat) -> real)
  {
    forall k, i :: 0.0 <= samples(k, i) <= 1.0
  }

  /** `SliceRandom::shuffle` restricted to the first `m` positions: the Fisher-Yates pass
      that, for `i` from `m - 1` down to 1, exchanges position `i` with a position at or
      below `i` picked by the draw for `i`. */
  function ShuffledBelow<T>(s: seq<T>, m: nat, draws: (nat, nat) -> nat, c: nat): (r: seq<T>)
    requires m <= |s|
    ensures |r| == |s| && multiset(r) == multiset(s)
    decreases m
  {
    if m <= 1 then s
    else
      var i := m - 1;
      var j := draws(c, i) % m;
      SwappedPermutes(s, i, j);
      ShuffledBelow(Swapped(s, i, j), i, draws, c)
  }

  /** The c-th shuffle of a run applied to `s`. */
  function Shuffled<T>(s: seq<T>, draws: (nat, nat) -> nat, c: nat): (r: seq<T>)
    ensures |r| == |s| && multiset(r) == multiset(s)
  {
    ShuffledBelow(s, |s|, draws, c)
  }

  /** `s` after shuffles number 0 to `count - 1`, each applied in place to the result of
      the one before, as a vector that is shuffled again at every step. */
  function Reshuffled<T>(s: seq<T>, draws: (nat, nat) -> nat, count: nat): (r: seq<T>)
    ensures |r| == |s| && multiset(r) == multiset(s)
    decreases count
  {
    if count == 0 then s else Shuffled(Reshuffled(s, draws, count - 1), draws, count - 1)
  }

  /** `a.shuffle(&mut rng)` as the c-th shuffle of a run, in place. */
  method Shuffle<T>(a: array<T>, draws: (nat, nat) -> nat, c: nat)
    modifies a
    ensures a[..] == Shuffled(old(a[..]), draws, c)
  {
    var i: nat := a.Length;
    while i > 1
      invariant i <= a.Length
      invariant ShuffledBelow(a[..], i, draws, c) == Shuffled(old(a[..]), draws, c)
    {
      i := i - 1;
      var j := draws(c, i) % (i + 1);
      ghost var before := a[..];
      var tmp := a[i];
      a[i] := a[j];
      a[j] := tmp;
      assert a[..] == Swapped(before, i, j);
    }
  }
}
