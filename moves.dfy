/** Neighbourhoods built from a list of position pairs: one candidate tour per pair, each the
    current tour with the two positions of its pair exchanged. `src/tsp.rs` and
    `src/tsp2.rs` both build their candidates this way. */
module Moves {
  import opened Slices
  import opened Combinations

  /** Every pair names two positions of an `n`-point tour, the smaller one first. */
  ghost predicate OrderedPairsBelow(swaps: seq<Pair>, n: nat)
  {
    forall m :: 0 <= m < |swaps| ==> swaps[m].0 < swaps[m].1 < n
  }

  /** Any reordering of `(lo..n).tuple_combinations()` names positions of an `n`-point tour. */
  lemma ReorderedPairsInRange(lo: nat, n: nat, swaps: seq<Pair>)
    requires multiset(swaps) == multiset(Pairs(lo, n))
    ensures OrderedPairsBelow(swaps, n)
  {
    forall m | 0 <= m < |swaps|
      ensures swaps[m].0 < swaps[m].1 < n
    {
      assert swaps[m] in multiset(swaps);
      PairsMembers(lo, n, swaps[m]);
    }
  }

  /** `(0..n).tuple_combinations::<(usize, usize)>().collect()`, into a fresh vector. */
  method CollectPairs(n: nat) returns (swaps: array<Pair>)
    ensures fresh(swaps)
    ensures swaps[..] == Pairs(0, n)
  {
    var pairs := Pairs(0, n);
    swaps := new Pair[|pairs|](_ => (0, 0));
    forall m | 0 <= m < swaps.Length {
      swaps[m] := pairs[m];
    }
  }

  /** The tour exchanged at each pair in turn, each exchange made on a fresh copy. */
  function SwapEach<T>(s: seq<T>, swaps: seq<Pair>): (r: seq<seq<T>>)
    requires OrderedPairsBelow(swaps, |s|)
    ensures |r| == |swaps|
    ensures forall m :: 0 <= m < |r| ==> r[m] == Swapped(s, swaps[m].0, swaps[m].1)
    decreases |swaps|
  {
    if swaps == [] then [] else [Swapped(s, swaps[0].0, swaps[0].1)] + SwapEach(s, swaps[1..])
  }

  /** Each pair of the list contributes its exchange to the candidates. */
  lemma SwapEachCovers<T>(s: seq<T>, swaps: seq<Pair>, p: Pair)
    requires OrderedPairsBelow(swaps, |s|)
    requires p in swaps
    ensures Swapped(s, p.0, p.1) in SwapEach(s, swaps)
  {
    var m :| 0 <= m < |swaps| && swaps[m] == p;
    assert SwapEach(s, swaps)[m] == Swapped(s, p.0, p.1);
  }

  /** Every candidate is one exchange of two distinct positions away from the tour, so it
      holds the same elements, each as often. */
  lemma SwapEachPermutes<T>(s: seq<T>, swaps: seq<Pair>)
    requires OrderedPairsBelow(swaps, |s|)
    ensures forall u :: u in SwapEach(s, swaps) ==>
              |u| == |s| && multiset(u) == multiset(s) &&
              exists i, j :: 0 <= i < j < |s| && u == Swapped(s, i, j)
  {
    var r := SwapEach(s, swaps);
    forall u | u in r
      ensures |u| == |s| && multiset(u) == multiset(s)
      ensures exists i, j :: 0 <= i < j < |s| && u == Swapped(s, i, j)
    {
      var m :| 0 <= m < |r| && r[m] == u;
      SwappedPermutes(s, swaps[m].0, swaps[m].1);
    }
  }
}
