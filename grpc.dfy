/** `src/bin/grpc.rs`: the streaming variant of the solver. A greedy nearest-neighbour tour
    is annealed with 2-opt moves that never move its first point, and the coordinates of
    every accepted tour are collected for the client. */
module Grpc {
  import opened Slices
  import opened Combinations
  import opened Random
  import opened Geometry
  import opened State
  import opened Moves
  import Annealing
  import Tsp2

  // ---------------------------------------------------------------------------------
  // The 2-opt move

  /** `w` with the part strictly between `lo` and `hi` reversed. */
  lemma ReversedInteriorAt<T>(w: seq<T>, lo: nat, hi: nat)
    requires lo < hi < |w|
    ensures var r := w[..lo + 1] + Reversed(w[lo + 1..hi]) + w[hi..];
            && |r| == |w|
            && (forall m :: 0 <= m < |w| && (m <= lo || hi <= m) ==> r[m] == w[m])
            && (forall m :: lo < m < hi ==> r[m] == w[lo + hi - m])
  {
    var mid := w[lo + 1..hi];
    var r := w[..lo + 1] + Reversed(mid) + w[hi..];
    forall m | lo < m < hi
      ensures r[m] == w[lo + hi - m]
    {
      assert r[m] == Reversed(mid)[m - lo - 1];
    }
    forall m | 0 <= m < |w| && (m <= lo || hi <= m)
      ensures r[m] == w[m]
    {
      if hi <= m {
        assert r[m] == w[hi..][m - hi];
      }
    }
  }

  /** `r` is `s` with the end points `lo` and `hi` traded, the part strictly between them
      mirrored, and nothing outside `lo..=hi` moved. */
  ghost predicate SegmentMirrored<T>(r: seq<T>, s: seq<T>, lo: nat, hi: nat)
  {
    && |r| == |s| && lo < hi < |s|
    && r[lo] == s[hi] && r[hi] == s[lo]
    && (forall m :: lo < m < hi ==> r[m] == s[lo + hi - m])
    && (forall m :: 0 <= m < |s| && (m < lo || hi < m) ==> r[m] == s[m])
  }

  /** Mirroring the same segment twice gives back the sequence. */
  lemma SegmentMirroredTwice<T>(r2: seq<T>, r: seq<T>, s: seq<T>, lo: nat, hi: nat)
    requires SegmentMirrored(r, s, lo, hi) && SegmentMirrored(r2, r, lo, hi)
    ensures r2 == s
  {
    forall m | lo < m < hi
      ensures r2[m] == s[m]
    {
      assert r2[m] == r[lo + hi - m];
    }
  }

  /** `geometric_swap(points, i, j)` on a value: with `lo, hi` the smaller and the larger
      index, the two end points trade places, the part strictly between them is mirrored,
      and nothing outside `lo..=hi` moves. Equal indices make the slice `i + 1..i` panic,
      hence `i != j`. */
  function GeometricSwapped<T>(s: seq<T>, i: nat, j: nat): (r: seq<T>)
    requires i != j && i < |s| && j < |s|
    ensures SegmentMirrored(r, s, if i < j then i else j, if i < j then j else i)
  {
    if i < j then SwapThenReverse(s, i, j) else SwapThenReverse(s, j, i)
  }

  /** The two steps of the move for `lo < hi`: trade the end points, then reverse the part
      strictly between them. */
  function SwapThenReverse<T>(s: seq<T>, lo: nat, hi: nat): (r: seq<T>)
    requires lo < hi < |s|
    ensures SegmentMirrored(r, s, lo, hi)
  {
    var w := Swapped(s, lo, hi);
    ReversedInteriorAt(w, lo, hi);
    w[..lo + 1] + Reversed(w[lo + 1..hi]) + w[hi..]
  }

  /** For `lo < hi`, the move is the reversal of the whole segment `lo..=hi`: the 2-opt
      exchange of the edges entering `lo` and leaving `hi`. */
  lemma SwapThenReverseIsSegmentReversal<T>(s: seq<T>, lo: nat, hi: nat)
    requires lo < hi < |s|
    ensures SwapThenReverse(s, lo, hi) == s[..lo] + Reversed(s[lo..hi + 1]) + s[hi + 1..]
  {
    SegmentReversalMirrors(s, lo, hi);
    SegmentMirroredUnique(SwapThenReverse(s, lo, hi), s[..lo] + Reversed(s[lo..hi + 1]) + s[hi + 1..], s, lo, hi);
  }

  /** Reversing the whole segment `lo..=hi` mirrors it. */
  lemma SegmentReversalMirrors<T>(s: seq<T>, lo: nat, hi: nat)
    requires lo < hi < |s|
    ensures SegmentMirrored(s[..lo] + Reversed(s[lo..hi + 1]) + s[hi + 1..], s, lo, hi)
  {
    var seg := s[lo..hi + 1];
    var t := s[..lo] + Reversed(seg) + s[hi + 1..];
    forall m | 0 <= m < |s| && lo <= m <= hi
      ensures t[m] == s[lo + hi - m]
    {
      assert t[m] == Reversed(seg)[m - lo] == seg[hi - m];
    }
    forall m | 0 <= m < |s| && hi < m
      ensures t[m] == s[m]
    {
      assert t[m] == s[hi + 1..][m - hi - 1];
    }
  }

  /** A mirroring of a given segment is unique. */
  lemma SegmentMirroredUnique<T>(r: seq<T>, t: seq<T>, s: seq<T>, lo: nat, hi: nat)
    requires SegmentMirrored(r, s, lo, hi) && SegmentMirrored(t, s, lo, hi)
    ensures r == t
  {
    forall m | 0 <= m < |s|
      ensures r[m] == t[m]
    {
      if lo < m < hi {
        assert r[m] == s[lo + hi - m] == t[m];
      }
    }
  }

  /** `geometric_swap(p, i, j)` and `geometric_swap(p, j, i)` do the same. */
  lemma GeometricSwappedSymmetric<T>(s: seq<T>, i: nat, j: nat)
    requires i != j && i < |s| && j < |s|
    ensures GeometricSwapped(s, i, j) == GeometricSwapped(s, j, i)
  {
  }

  /** The move only reorders the tour. */
  lemma GeometricSwappedPermutes<T>(s: seq<T>, i: nat, j: nat)
    requires i != j && i < |s| && j < |s|
    ensures multiset(GeometricSwapped(s, i, j)) == multiset(s)
  {
    if i < j {
      SwapThenReversePermutes(s, i, j);
    } else {
      SwapThenReversePermutes(s, j, i);
    }
  }

  /** Trading the end points and then reversing the interior reorders `s`. */
  lemma SwapThenReversePermutes<T>(s: seq<T>, lo: nat, hi: nat)
    requires lo < hi < |s|
    ensures multiset(SwapThenReverse(s, lo, hi)) == multiset(s)
  {
    var w := Swapped(s, lo, hi);
    SwappedPermutes(s, lo, hi);
    ReversedPermutes(w[lo + 1..hi]);
    ReplacedSegmentPermutes(w, lo + 1, hi, Reversed(w[lo + 1..hi]));
  }

  /** Applying the same move twice restores the tour. */
  lemma GeometricSwappedTwice<T>(s: seq<T>, i: nat, j: nat)
    requires i != j && i < |s| && j < |s|
    ensures GeometricSwapped(GeometricSwapped(s, i, j), i, j) == s
  {
    var r := GeometricSwapped(s, i, j);
    SegmentMirroredTwice(GeometricSwapped(r, i, j), r, s, if i < j then i else j, if i < j then j else i);
  }

  /** Moving position 5 with position 8 of `[0, 1, 2, 3, 4, 0, 1, 2, 10, 11, 12, 13, 14]`
      reverses the segment `0, 1, 2, 10`. */
  lemma GeometricSwappedExample()
    ensures GeometricSwapped([0, 1, 2, 3, 4, 0, 1, 2, 10, 11, 12, 13, 14], 5, 8)
         == [0, 1, 2, 3, 4, 10, 2, 1, 0, 11, 12, 13, 14]
  {
    var s := [0, 1, 2, 3, 4, 0, 1, 2, 10, 11, 12, 13, 14];
    var w := Swapped(s, 5, 8);
    assert w == [0, 1, 2, 3, 4, 10, 1, 2, 0, 11, 12, 13, 14];
    assert w[6..8] == [1, 2];
    assert Reversed([1, 2]) == [2] + Reversed([]) + [1];
  }

  /** `geometric_swap(points, i, j)`: `points.swap(lo, hi)`, then `points[lo + 1..hi].reverse()`. */
  method GeometricSwap<T>(points: array<T>, i: nat, j: nat)
    requires i != j && i < points.Length && j < points.Length
    modifies points
    ensures points[..] == GeometricSwapped(old(points[..]), i, j)
  {
    var lo, hi := if i < j then i else j, if i < j then j else i;
    ghost var w := Swapped(points[..], lo, hi);
    var tmp := points[lo];
    points[lo] := points[hi];
    points[hi] := tmp;
    assert points[..] == w;
    ReverseRange(points, lo + 1, hi);
    assert w[..lo + 1 + 1 - 1] == w[..lo + 1];
  }

  // ---------------------------------------------------------------------------------
  // Nearest-neighbour construction

  /** The position of the first point among `rem[..upto]` nearest to `last`: the result of
      `min_by` over `enumerate()`, which keeps the earlier of two equally near points. */
  function FirstNearestIn(dist: Distance, rem: seq<Point>, last: Point, upto: nat): (r: nat)
    requires 0 < upto <= |rem|
    ensures r < upto
    ensures forall m :: 0 <= m < upto ==> dist(rem[r], last) <= dist(rem[m], last)
    ensures forall m :: 0 <= m < r ==> dist(rem[r], last) < dist(rem[m], last)
    decreases upto
  {
    if upto == 1 then 0
    else
      var best := FirstNearestIn(dist, rem, last, upto - 1);
      if dist(rem[upto - 1], last) < dist(rem[best], last) then upto - 1 else best
  }

  /** `points.iter().enumerate().min_by(...)` over all remaining points. */
  function FirstNearest(dist: Distance, rem: seq<Point>, last: Point): (r: nat)
    requires rem != []
    ensures r < |rem|
    ensures forall m :: 0 <= m < |rem| ==> dist(rem[r], last) <= dist(rem[m], last)
    ensures forall m :: 0 <= m < r ==> dist(rem[r], last) < dist(rem[m], last)
  {
    FirstNearestIn(dist, rem, last, |rem|)
  }

  /** The points of `rem` in the order the loop of `greedy` appends them after `last`. */
  function NearestNeighbourOrder(dist: Distance, last: Point, rem: seq<Point>): (r: seq<Point>)
    ensures |r| == |rem| && multiset(r) == multiset(rem)
    decreases |rem|
  {
    if rem == [] then []
    else
      var i := FirstNearest(dist, rem, last);
      [rem[i]] + NearestNeighbourOrder(dist, rem[i], Removed(rem, i))
  }

  /** The tour `greedy(points)` returns: the last input point, then the others in
      nearest-neighbour order. */
  function GreedyTour(dist: Distance, points: seq<Point>): (r: seq<Point>)
    ensures |r| == |points| && multiset(r) == multiset(points)
    ensures points != [] ==> r[0] == points[|points| - 1]
  {
    if points == [] then []
    else
      var first := points[|points| - 1];
      assert points == points[..|points| - 1] + [first];
      [first] + NearestNeighbourOrder(dist, first, points[..|points| - 1])
  }

  /** Each point of `r` is at least as near to its predecessor (`last` for the first one) as
      every point after it. */
  ghost predicate NearestChain(dist: Distance, last: Point, r: seq<Point>)
  {
    && (forall m :: 0 <= m < |r| ==> dist(r[0], last) <= dist(r[m], last))
    && (forall k, m :: 0 < k <= m < |r| ==> dist(r[k], r[k - 1]) <= dist(r[m], r[k - 1]))
  }

  /** A point nearest to `last` among all of `[x] + rest`, followed by a chain from it, is a
      chain from `last`. */
  lemma NearestChainCons(dist: Distance, last: Point, x: Point, rest: seq<Point>)
    requires forall m :: 0 <= m < |rest| ==> dist(x, last) <= dist(rest[m], last)
    requires NearestChain(dist, x, rest)
    ensures NearestChain(dist, last, [x] + rest)
  {
    var r := [x] + rest;
    forall m | 0 <= m < |r|
      ensures dist(r[0], last) <= dist(r[m], last)
    {
      if m > 0 {
        assert r[m] == rest[m - 1];
      }
    }
    forall k, m | 0 < k <= m < |r|
      ensures dist(r[k], r[k - 1]) <= dist(r[m], r[k - 1])
    {
      assert r[k] == rest[k - 1] && r[m] == rest[m - 1];
      if k == 1 {
        assert r[k - 1] == x;
      } else {
        assert r[k - 1] == rest[k - 2];
      }
    }
  }

  /** A chain from `first`, with `first` put in front, visits after each point the nearest
      of the points after it. */
  lemma NearestChainSteps(dist: Distance, first: Point, rest: seq<Point>)
    requires NearestChain(dist, first, rest)
    ensures var r := [first] + rest;
            forall k, m :: 0 <= k < m < |r| ==> dist(r[k + 1], r[k]) <= dist(r[m], r[k])
  {
    var r := [first] + rest;
    forall k, m | 0 <= k < m < |r|
      ensures dist(r[k + 1], r[k]) <= dist(r[m], r[k])
    {
      assert r[k + 1] == rest[k] && r[m] == rest[m - 1];
      if k == 0 {
        assert r[k] == first;
      } else {
        assert r[k] == rest[k - 1];
      }
    }
  }

  /** Every point is the nearest to its predecessor among the points not placed yet (the
      first one measured from `last`). */
  lemma {:induction false} NearestNeighbourOrderIsNearest(dist: Distance, last: Point, rem: seq<Point>)
    ensures NearestChain(dist, last, NearestNeighbourOrder(dist, last, rem))
    decreases |rem|
  {
    if rem != [] {
      var i := FirstNearest(dist, rem, last);
      var others := Removed(rem, i);
      var rest := NearestNeighbourOrder(dist, rem[i], others);
      NearestNeighbourOrderIsNearest(dist, rem[i], others);
      forall m | 0 <= m < |rest|
        ensures dist(rem[i], last) <= dist(rest[m], last)
      {
        assert rest[m] in multiset(others);
        assert rest[m] in multiset(rem);
        var idx :| 0 <= idx < |rem| && rem[idx] == rest[m];
      }
      NearestChainCons(dist, last, rem[i], rest);
    }
  }

  /** The greedy tour visits, after each point, the nearest point not visited yet. */
  lemma GreedyIsNearestNeighbour(dist: Distance, points: seq<Point>)
    ensures var r := GreedyTour(dist, points);
            forall k, m :: 0 <= k < m < |r| ==> dist(r[k + 1], r[k]) <= dist(r[m], r[k])
  {
    if points != [] {
      var first := points[|points| - 1];
      var rest := NearestNeighbourOrder(dist, first, points[..|points| - 1]);
      assert GreedyTour(dist, points) == [first] + rest;
      NearestNeighbourOrderIsNearest(dist, first, points[..|points| - 1]);
      NearestChainSteps(dist, first, rest);
    }
  }

  /** The `while !points.is_empty()` loop of `greedy`: the first nearest remaining point is
      removed from `points` and pushed onto `new_order`, and becomes the point to measure from. */
  method PlaceNearest(dist: Distance, start: Point, points: seq<Point>) returns (placed: seq<Point>)
    ensures placed == NearestNeighbourOrder(dist, start, points)
  {
    placed := [];
    var remaining := points;
    var last := start;
    while remaining != []
      invariant placed + NearestNeighbourOrder(dist, last, remaining) == NearestNeighbourOrder(dist, start, points)
      decreases |remaining|
    {
      var i := FirstNearest(dist, remaining, last);
      var point := remaining[i];
      ghost var tail := NearestNeighbourOrder(dist, point, Removed(remaining, i));
      assert NearestNeighbourOrder(dist, last, remaining) == [point] + tail;
      AppendShift(placed, point, tail);
      placed := placed + [point];
      last := point;
      remaining := Removed(remaining, i);
    }
  }

  /** `greedy(points)`: `pop` the last point as the start, then place the others in
      nearest-neighbour order after it. */
  method Greedy(dist: Distance, points: seq<Point>) returns (newOrder: seq<Point>)
    ensures newOrder == GreedyTour(dist, points)
    ensures multiset(newOrder) == multiset(points)
  {
    if points == [] {
      return [];
    }
    var first := points[|points| - 1];
    var rest := PlaceNearest(dist, first, points[..|points| - 1]);
    newOrder := [first] + rest;
  }

  // ---------------------------------------------------------------------------------
  // The annealing loop of `get_iterations`

  /** The `for k in 0..5000` bound. */
  const MaxSteps: nat := 5000

  /** `(1..n).tuple_combinations()` with `(1, n - 1)` retained out. For `n == 0` the list
      is empty and `n - 1` is never evaluated. */
  function IterationPairs(n: nat): (r: seq<Pair>)
    ensures forall p :: p in r ==> 1 <= p.0 < p.1 < n && p != (1, n - 1)
  {
    if n == 0 then [] else Without(Pairs(1, n), (1, n - 1))
  }

  /** Every pair `1 <= i < j < n` other than `(1, n - 1)` occurs exactly once, and nothing
      else occurs: position 0 is never part of a move. */
  lemma IterationPairsCount(n: nat, p: Pair)
    ensures multiset(IterationPairs(n))[p] == if 1 <= p.0 < p.1 < n && p != (1, n - 1) then 1 else 0
  {
    if n > 0 {
      WithoutCount(Pairs(1, n), (1, n - 1), p);
      PairsCount(1, n, p);
    }
  }

  /** Any reordering of the iteration pairs names two positions past the first. */
  lemma ReorderedIterationPairs(n: nat, swaps: seq<Pair>)
    requires multiset(swaps) == multiset(IterationPairs(n))
    ensures OrderedPairsBelow(swaps, n)
    ensures forall m :: 0 <= m < |swaps| ==> 1 <= swaps[m].0 && swaps[m] != (1, n - 1)
  {
    forall m | 0 <= m < |swaps|
      ensures 1 <= swaps[m].0 < swaps[m].1 < n && swaps[m] != (1, n - 1)
    {
      assert swaps[m] in multiset(swaps);
      IterationPairsCount(n, swaps[m]);
    }
  }

  /** The pair `(1, n - 1)` that is left out turns the tour round: with the first point kept
      in place, the rest is visited backwards. For a distance that is the same both ways it
      yields a tour of the same energy, so trying it would be wasted. */
  lemma ExcludedMoveIsMirror(dist: Distance, s: seq<Point>)
    requires 3 <= |s| && IsSymmetric(dist)
    ensures GeometricSwapped(s, 1, |s| - 1) == [s[0]] + Reversed(s[1..])
    ensures Energy(dist, GeometricSwapped(s, 1, |s| - 1)) == Energy(dist, s)
  {
    var n := |s|;
    var r := GeometricSwapped(s, 1, n - 1);
    var m := [s[0]] + Reversed(s[1..]);
    MirroredTailAt(s);
    assert r == m by {
      forall k | 0 <= k < n
        ensures r[k] == m[k]
      {
        if 1 < k < n - 1 {
          assert r[k] == s[1 + (n - 1) - k];
        }
      }
    }
    MirroredTailIsRotation(s);
    EnergyRotationInvariant(dist, Reversed(s), n - 1);
    EnergyMirrorInvariant(dist, s);
  }

  /** The tour kept at its first point and read backwards from there. */
  lemma MirroredTailAt(s: seq<Point>)
    requires s != []
    ensures var m := [s[0]] + Reversed(s[1..]);
            |m| == |s| && m[0] == s[0] && forall k :: 1 <= k < |s| ==> m[k] == s[|s| - k]
  {
    var m := [s[0]] + Reversed(s[1..]);
    forall k | 1 <= k < |s|
      ensures m[k] == s[|s| - k]
    {
      assert m[k] == Reversed(s[1..])[k - 1];
    }
  }

  /** Reading a tour backwards from its first point is a rotation of the reversed tour. */
  lemma MirroredTailIsRotation(s: seq<Point>)
    requires s != []
    ensures Rotated(Reversed(s), |s| - 1) == [s[0]] + Reversed(s[1..])
  {
    var rev := Reversed(s);
    ReversedCons(s);
    assert rev[|s| - 1..] == [s[0]] && rev[..|s| - 1] == Reversed(s[1..]);
  }

  /** The tour moved at each pair in turn, each move made on a fresh copy. */
  function GeometricEach(s: seq<Point>, swaps: seq<Pair>): (r: seq<seq<Point>>)
    requires OrderedPairsBelow(swaps, |s|)
    ensures |r| == |swaps|
    ensures forall m :: 0 <= m < |r| ==> r[m] == GeometricSwapped(s, swaps[m].0, swaps[m].1)
    decreases |swaps|
  {
    if swaps == [] then [] else [GeometricSwapped(s, swaps[0].0, swaps[0].1)] + GeometricEach(s, swaps[1..])
  }

  /** The order in which step `k` tries the pairs: the iteration pairs after shuffles 0 to
      `k`, each applied to the vector the one before left behind. */
  function StepOrder(n: nat, draws: (nat, nat) -> nat, k: nat): (r: seq<Pair>)
    ensures multiset(r) == multiset(IterationPairs(n))
    ensures OrderedPairsBelow(r, n)
    ensures forall m :: 0 <= m < |r| ==> 1 <= r[m].0
  {
    var r := Reshuffled(IterationPairs(n), draws, k + 1);
    ReorderedIterationPairs(n, r);
    r
  }

  /** The tours step `k` tries from `current`, in order. */
  function NextStates(current: seq<Point>, draws: (nat, nat) -> nat, k: nat): (r: seq<seq<Point>>)
    ensures |r| == |StepOrder(|current|, draws, k)|
  {
    GeometricEach(current, StepOrder(|current|, draws, k))
  }

  /** Every candidate has the points of the tour, each as often, and the same first point. */
  lemma NextStatesKeepFirstPoint(current: seq<Point>, draws: (nat, nat) -> nat, k: nat)
    ensures forall u :: u in NextStates(current, draws, k) ==>
              |u| == |current| && multiset(u) == multiset(current) && (|current| > 0 ==> u[0] == current[0])
  {
    var order := StepOrder(|current|, draws, k);
    var r := NextStates(current, draws, k);
    forall u | u in r
      ensures |u| == |current| && multiset(u) == multiset(current) && (|current| > 0 ==> u[0] == current[0])
    {
      var m :| 0 <= m < |r| && r[m] == u;
      GeometricSwappedPermutes(current, order[m].0, order[m].1);
    }
  }

  /** `tsp2::acceptability` and the 2-opt neighbourhood, as the capability the generic
      annealing specification is stated over. */
  function GrpcOps(dist: Distance, boltzmann: Boltzmann, draws: (nat, nat) -> nat): (ops: StateOps<seq<Point>>)
    ensures forall me, candidate, t :: ops.acceptability(me, candidate, t) == Acceptability(dist, boltzmann, me, candidate, t)
    ensures forall s, k :: ops.nextStates(s, k) == NextStates(s, draws, k)
  {
    StateOps((me: seq<Point>, candidate: seq<Point>, t: real) => Acceptability(dist, boltzmann, me, candidate, t),
             (s: seq<Point>, k: nat) => NextStates(s, draws, k))
  }

  /** A step that accepts nothing leaves a tour that no allowed 2-opt move makes shorter: a
      shorter candidate has acceptability 1, and no sample exceeds 1. */
  lemma NoMoveMeansNoShorterMove(dist: Distance, boltzmann: Boltzmann, rng: Rng, temperature: nat -> real,
                                 current: seq<Point>, k: nat)
    requires UnitSamples(rng.samples)
    requires Step(GrpcOps(dist, boltzmann, rng.draws), temperature, rng.samples, current, k).None?
    ensures forall i, j :: 1 <= i < j < |current| && (i, j) != (1, |current| - 1) ==>
              Energy(dist, current) <= Energy(dist, GeometricSwapped(current, i, j))
  {
    forall i, j | 1 <= i < j < |current| && (i, j) != (1, |current| - 1)
      ensures Energy(dist, current) <= Energy(dist, GeometricSwapped(current, i, j))
    {
      MoveRejected(dist, boltzmann, rng, temperature, current, k, i, j);
    }
  }

  /** The move at `(i, j)` is one of the candidates of step `k`; when the step accepts
      nothing, it was rejected. */
  lemma MoveRejected(dist: Distance, boltzmann: Boltzmann, rng: Rng, temperature: nat -> real,
                     current: seq<Point>, k: nat, i: nat, j: nat)
    requires UnitSamples(rng.samples)
    requires Step(GrpcOps(dist, boltzmann, rng.draws), temperature, rng.samples, current, k).None?
    requires 1 <= i < j < |current| && (i, j) != (1, |current| - 1)
    ensures Energy(dist, current) <= Energy(dist, GeometricSwapped(current, i, j))
  {
    var m := MoveIsCandidate(current, rng.draws, k, i, j);
    var ops := GrpcOps(dist, boltzmann, rng.draws);
    StepRejectsEach(ops, temperature, rng.samples, current, k, m);
    RejectedIsNotShorter(dist, boltzmann, current, GeometricSwapped(current, i, j), temperature(k), rng.samples(k, m));
  }

  /** The move at `(i, j)` is the candidate at some position of step `k`. */
  lemma MoveIsCandidate(current: seq<Point>, draws: (nat, nat) -> nat, k: nat, i: nat, j: nat) returns (m: nat)
    requires 1 <= i < j < |current| && (i, j) != (1, |current| - 1)
    ensures m < |NextStates(current, draws, k)| && NextStates(current, draws, k)[m] == GeometricSwapped(current, i, j)
  {
    m := MoveIsTried(|current|, draws, k, i, j);
  }

  /** Every allowed move is tried at some position of step `k`'s order. */
  lemma MoveIsTried(n: nat, draws: (nat, nat) -> nat, k: nat, i: nat, j: nat) returns (m: nat)
    requires 1 <= i < j < n && (i, j) != (1, n - 1)
    ensures m < |StepOrder(n, draws, k)| && StepOrder(n, draws, k)[m] == (i, j)
  {
    var order := StepOrder(n, draws, k);
    IterationPairsCount(n, (i, j));
    m := PositionOf(order, (i, j));
  }

  /** A run that breaks out before its budget is used up ends at a tour that is 2-opt
      optimal: no allowed move makes it shorter. */
  lemma EarlyStopIsTwoOptOptimal(dist: Distance, boltzmann: Boltzmann, rng: Rng, temperature: nat -> real,
                                 state: seq<Point>, maxK: nat)
    requires UnitSamples(rng.samples)
    requires |Annealing.Trace(GrpcOps(dist, boltzmann, rng.draws), temperature, rng.samples, state, 0, maxK)| < maxK
    ensures var r := Annealing.Anneal(GrpcOps(dist, boltzmann, rng.draws), temperature, rng.samples, state, 0, maxK);
            forall i, j :: 1 <= i < j < |r| && (i, j) != (1, |r| - 1) ==> Energy(dist, r) <= Energy(dist, GeometricSwapped(r, i, j))
  {
    var ops := GrpcOps(dist, boltzmann, rng.draws);
    Annealing.RunStopsOnRejection(ops, temperature, rng.samples, state, maxK);
    NoMoveMeansNoShorterMove(dist, boltzmann, rng, temperature, Annealing.Anneal(ops, temperature, rng.samples, state, 0, maxK),
                             |Annealing.Trace(ops, temperature, rng.samples, state, 0, maxK)|);
  }

  /** `Tsp { x, y }`: a tour as two coordinate vectors. */
  datatype Coordinates = Coordinates(x: seq<real>, y: seq<real>)

  /** `current_state.iter().map(|p| (p.0, p.1)).unzip()`. */
  function Unzipped(s: seq<Point>): (c: Coordinates)
    ensures |c.x| == |s| && |c.y| == |s|
    ensures forall m :: 0 <= m < |s| ==> c.x[m] == s[m].x && c.y[m] == s[m].y
  {
    Coordinates(seq(|s|, m requires 0 <= m < |s| => s[m].x), seq(|s|, m requires 0 <= m < |s| => s[m].y))
  }

  /** The points back from their coordinates. */
  function Zipped(c: Coordinates): (s: seq<Point>)
    requires |c.x| == |c.y|
    ensures |s| == |c.x|
    ensures forall m :: 0 <= m < |s| ==> s[m] == Point(c.x[m], c.y[m])
  {
    seq(|c.x|, m requires 0 <= m < |c.x| => Point(c.x[m], c.y[m]))
  }

  /** Unzipping loses nothing: the points are recovered from the coordinates. */
  lemma ZippedUnzipped(s: seq<Point>)
    ensures Zipped(Unzipped(s)) == s
  {
    var z := Zipped(Unzipped(s));
    forall m | 0 <= m < |s|
      ensures z[m] == s[m]
    {
      assert z[m] == Point(s[m].x, s[m].y);
    }
  }

  /** What `results` holds for a run: one entry per accepted tour, in order. */
  function UnzipAll(trace: seq<seq<Point>>): (r: seq<Coordinates>)
    ensures |r| == |trace|
    ensures forall m :: 0 <= m < |r| ==> r[m] == Unzipped(trace[m])
  {
    seq(|trace|, m requires 0 <= m < |trace| => Unzipped(trace[m]))
  }

  /** Unzipping a run one tour at a time. */
  lemma UnzipAllSnoc(visited: seq<seq<Point>>, u: seq<Point>)
    ensures UnzipAll(visited + [u]) == UnzipAll(visited) + [Unzipped(u)]
  {
    var a, b := UnzipAll(visited + [u]), UnzipAll(visited) + [Unzipped(u)];
    forall m | 0 <= m < |a|
      ensures a[m] == b[m]
    {
      if m < |visited| {
        assert (visited + [u])[m] == visited[m];
      }
    }
  }

  /** The tours of a run from the greedy tour: at most 5000 of them, each a reordering of the
      input points that still starts at the input's last point. */
  lemma IterationsKeepPoints(dist: Distance, boltzmann: Boltzmann, rng: Rng, temperature: nat -> real, points: seq<Point>)
    ensures var trace := Annealing.Trace(GrpcOps(dist, boltzmann, rng.draws), temperature, rng.samples,
                                         GreedyTour(dist, points), 0, MaxSteps);
            |trace| <= MaxSteps &&
            forall u :: u in trace ==> |u| == |points| && multiset(u) == multiset(points) &&
                                       (points != [] ==> u[0] == points[|points| - 1])
  {
    var ops := GrpcOps(dist, boltzmann, rng.draws);
    var g := GreedyTour(dist, points);
    var P := (u: seq<Point>) => |u| == |g| && multiset(u) == multiset(g) && (g != [] ==> u[0] == g[0]);
    forall s, c, candidate | P(s) && candidate in ops.nextStates(s, c)
      ensures P(candidate)
    {
      NextStatesKeepFirstPoint(s, rng.draws, c);
    }
    assert Annealing.Preserves(ops, P);
    Annealing.TracePreserves(ops, temperature, rng.samples, g, 0, MaxSteps, P);
  }

  /** `tuple_combs`, collected and retained, into a fresh vector. */
  method CollectIterationPairs(n: nat) returns (swaps: array<Pair>)
    ensures fresh(swaps)
    ensures swaps[..] == IterationPairs(n)
  {
    var pairs := Pairs(1, n);
    var kept: seq<Pair> := [];
    if n > 0 {
      var excluded: Pair := (1, n - 1);
      for m := 0 to |pairs|
        invariant kept == Without(pairs[..m], excluded)
      {
        if pairs[m] != excluded {
          kept := kept + [pairs[m]];
        }
        WithoutSnoc(pairs[..m], pairs[m], excluded);
        assert pairs[..m + 1] == pairs[..m] + [pairs[m]];
      }
      assert pairs[..|pairs|] == pairs;
    }
    swaps := new Pair[|kept|](_ => (0, 0));
    forall m | 0 <= m < swaps.Length {
      swaps[m] := kept[m];
    }
  }

  lemma {:induction false} WithoutSnoc(s: seq<Pair>, p: Pair, x: Pair)
    ensures Without(s + [p], x) == Without(s, x) + (if p == x then [] else [p])
    decreases |s|
  {
    if s == [] {
      assert [p][1..] == [];
    } else {
      assert (s + [p])[1..] == s[1..] + [p];
      WithoutSnoc(s[1..], p, x);
    }
  }

  /** `holder.copy_from_slice(current_state); geometric_swap(&mut holder, i, j);` */
  method CopyGeometricSwapped(holder: array<Point>, current: array<Point>, i: nat, j: nat)
    requires holder != current && holder.Length == current.Length
    requires i != j && i < current.Length && j < current.Length
    modifies holder
    ensures holder[..] == GeometricSwapped(current[..], i, j)
  {
    forall l | 0 <= l < holder.Length {
      holder[l] := current[l];
    }
    assert holder[..] == current[..];
    GeometricSwap(holder, i, j);
  }

  /** `for (i, j) in tuple_combs.iter() { ... }`, the trials of step `k`: the first candidate
      whose acceptability reaches its sample is copied into `current_state`. */
  method TryGeometricSwaps(current: array<Point>, holder: array<Point>, swaps: array<Pair>, dist: Distance, boltzmann: Boltzmann,
                           draws: (nat, nat) -> nat, t: real, samples: (nat, nat) -> real, k: nat) returns (accepted: bool)
    requires current != holder && holder.Length == current.Length
    requires OrderedPairsBelow(swaps[..], current.Length)
    modifies current, holder
    ensures var candidates := GeometricEach(old(current[..]), swaps[..]);
            var found := FirstAccepted(GrpcOps(dist, boltzmann, draws), old(current[..]), candidates, t, samples, k, 0);
            (accepted <==> found.Some?) && current[..] == if accepted then candidates[found.value] else old(current[..])
  {
    ghost var ops := GrpcOps(dist, boltzmann, draws);
    ghost var before := current[..];
    ghost var candidates := GeometricEach(before, swaps[..]);
    for m := 0 to swaps.Length
      invariant current[..] == before
      invariant FirstAccepted(ops, before, candidates, t, samples, k, 0)
             == FirstAccepted(ops, before, candidates, t, samples, k, m)
    {
      var (i, j) := swaps[m];
      CopyGeometricSwapped(holder, current, i, j);
      assert holder[..] == candidates[m];
      if Acceptability(dist, boltzmann, current[..], holder[..], t) >= samples(k, m) {
        Tsp2.CopyFrom(current, holder);
        assert FirstAccepted(ops, before, candidates, t, samples, k, m) == Some(m);
        return true;
      }
    }
    return false;
  }

  /** Shuffling the iteration pairs of step `k` once more gives the order of step `k`, and so
      the candidates the specification of step `k` tries. */
  lemma ShuffledStepCandidates(dist: Distance, boltzmann: Boltzmann, draws: (nat, nat) -> nat, current: seq<Point>, k: nat,
                               order: seq<Pair>, shuffled: seq<Pair>)
    requires order == Reshuffled(IterationPairs(|current|), draws, k)
    requires shuffled == Shuffled(order, draws, k)
    ensures shuffled == Reshuffled(IterationPairs(|current|), draws, k + 1)
    ensures OrderedPairsBelow(shuffled, |current|)
    ensures GrpcOps(dist, boltzmann, draws).nextStates(current, k) == GeometricEach(current, shuffled)
  {
    assert shuffled == StepOrder(|current|, draws, k);
  }

  /** One pass of the `'outer` loop at step `k`: `tuple_combs.shuffle(&mut rng)`, then the
      trials at temperature `t`. */
  method StepInPlace(current: array<Point>, holder: array<Point>, swaps: array<Pair>, dist: Distance, boltzmann: Boltzmann,
                     temperature: nat -> real, rng: Rng, k: nat) returns (accepted: bool)
    requires current != holder && holder.Length == current.Length
    requires swaps[..] == Reshuffled(IterationPairs(current.Length), rng.draws, k)
    modifies current, holder, swaps
    ensures swaps[..] == Reshuffled(IterationPairs(current.Length), rng.draws, k + 1)
    ensures var step := Step(GrpcOps(dist, boltzmann, rng.draws), temperature, rng.samples, old(current[..]), k);
            (accepted <==> step.Some?) && current[..] == if accepted then step.value else old(current[..])
  {
    ghost var before := current[..];
    ghost var order := swaps[..];
    assert current as object != swaps as object;
    var t := temperature(k);
    Shuffle(swaps, rng.draws, k);
    assert current[..] == before;
    ShuffledStepCandidates(dist, boltzmann, rng.draws, before, k, order, swaps[..]);
    accepted := TryGeometricSwaps(current, holder, swaps, dist, boltzmann, rng.draws, t, rng.samples, k);
  }

  /** The `'outer` loop of `get_iterations`: at most 5000 steps, each pushing the
      coordinates of the tour it accepts, until a step accepts nothing. The coordinates are
      those of the run the generic specification traces from the tour the loop starts on. */
  method CollectAccepted(current: array<Point>, holder: array<Point>, swaps: array<Pair>, dist: Distance,
                         boltzmann: Boltzmann, temperature: nat -> real, rng: Rng, maxK: nat)
    returns (results: seq<Coordinates>)
    requires current != holder && holder.Length == current.Length
    requires swaps[..] == Reshuffled(IterationPairs(current.Length), rng.draws, 0)
    modifies current, holder, swaps
    ensures results == UnzipAll(Annealing.Trace(GrpcOps(dist, boltzmann, rng.draws), temperature, rng.samples,
                                                old(current[..]), 0, maxK))
  {
    ghost var ops := GrpcOps(dist, boltzmann, rng.draws);
    ghost var trace := Annealing.Trace(ops, temperature, rng.samples, current[..], 0, maxK);
    ghost var visited: seq<seq<Point>> := [];
    results := [];
    var k := 0;
    while k < maxK
      invariant k <= maxK
      invariant swaps[..] == Reshuffled(IterationPairs(current.Length), rng.draws, k)
      invariant trace == visited + Annealing.Trace(ops, temperature, rng.samples, current[..], k, maxK)
      invariant results == UnzipAll(visited)
    {
      ghost var before := current[..];
      var accepted := StepInPlace(current, holder, swaps, dist, boltzmann, temperature, rng, k);
      if !accepted {
        Annealing.AnnealStops(ops, temperature, rng.samples, before, k, maxK);
        break;
      }
      Annealing.TraceAdvances(ops, temperature, rng.samples, before, k, maxK, current[..]);
      ghost var rest := Annealing.Trace(ops, temperature, rng.samples, current[..], k + 1, maxK);
      AppendShift(visited, current[..], rest);
      UnzipAllSnoc(visited, current[..]);
      visited := visited + [current[..]];
      results := results + [Unzipped(current[..])];
      k := k + 1;
    }
    if k == maxK {
      Annealing.AnnealStops(ops, temperature, rng.samples, current[..], k, maxK);
    }
    assert visited + [] == visited;
  }

  /** `get_iterations()`, with the random input points, the schedule `10.0 / k^1.2` and the
      generator made parameters: the greedy tour is annealed for at most 5000 steps, and the
      coordinates of every accepted tour are collected, in order. */
  method GetIterations(points: seq<Point>, dist: Distance, boltzmann: Boltzmann, temperature: nat -> real, rng: Rng)
    returns (results: seq<Coordinates>)
    ensures results == UnzipAll(Annealing.Trace(GrpcOps(dist, boltzmann, rng.draws), temperature, rng.samples,
                                                GreedyTour(dist, points), 0, MaxSteps))
    ensures |results| <= MaxSteps
    ensures forall c :: c in results ==>
              |c.x| == |c.y| && multiset(Zipped(c)) == multiset(points) && (points != [] ==> Zipped(c)[0] == points[|points| - 1])
  {
    var state := Greedy(dist, points);
    var n := |state|;
    var current := new Point[n](l requires 0 <= l < n => state[l]);
    var holder := new Point[n](_ => Origin);
    var swaps := CollectIterationPairs(n);
    assert current[..] == state;
    results := CollectAccepted(current, holder, swaps, dist, boltzmann, temperature, rng, MaxSteps);
    IterationsKeepPoints(dist, boltzmann, rng, temperature, points);
    UnzippedToursKeepPoints(Annealing.Trace(GrpcOps(dist, boltzmann, rng.draws), temperature, rng.samples,
                                            state, 0, MaxSteps), points);
  }

  /** Tours that are reorderings of the input points starting at its last point unzip into
      coordinate lists that zip back into such tours. */
  lemma UnzippedToursKeepPoints(trace: seq<seq<Point>>, points: seq<Point>)
    requires forall u :: u in trace ==> |u| == |points| && multiset(u) == multiset(points) &&
                                        (points != [] ==> u[0] == points[|points| - 1])
    ensures forall c :: c in UnzipAll(trace) ==>
              |c.x| == |c.y| && multiset(Zipped(c)) == multiset(points) && (points != [] ==> Zipped(c)[0] == points[|points| - 1])
  {
    var results := UnzipAll(trace);
    forall c | c in results
      ensures |c.x| == |c.y| && multiset(Zipped(c)) == multiset(points) && (points != [] ==> Zipped(c)[0] == points[|points| - 1])
    {
      var m :| 0 <= m < |results| && results[m] == c;
      ZippedUnzipped(trace[m]);
      assert trace[m] in trace;
    }
  }
}
