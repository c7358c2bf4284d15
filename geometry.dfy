/** Points, the length ("energy") of a closed tour and the Metropolis acceptance rule.
    `src/tsp.rs` and `src/tsp2.rs` each carry a copy of this code; it is defined once here. */
module Geometry {
  import opened Slices

  /** `Point(f64, f64)`, with coordinates as reals. */
  datatype Point = Point(x: real, y: real)

  /** `Point::default()`. */
  const Origin: Point := Point(0.0, 0.0)

  /** `Point::distance`, taken as a parameter: its f64 `sqrt` and `powi` are not modelled. */
  type Distance = (Point, Point) -> real

  function Square(v: real): real
  {
    v * v
  }

  /** What `Point::distance` computes, stated without a square root: the non-negative number
      whose square is the sum of the squared coordinate differences. */
  ghost predicate IsEuclidean(dist: Distance)
  {
    forall a, b :: 0.0 <= dist(a, b) && Square(dist(a, b)) == Square(a.x - b.x) + Square(a.y - b.y)
  }

  ghost predicate IsNonNegative(dist: Distance)
  {
    forall a, b :: 0.0 <= dist(a, b)
  }

  ghost predicate VanishesOnDiagonal(dist: Distance)
  {
    forall a :: dist(a, a) == 0.0
  }

  ghost predicate IsSymmetric(dist: Distance)
  {
    forall a, b :: dist(a, b) == dist(b, a)
  }

  /** A non-negative square root is unique. */
  lemma RootUnique(d: real, r: real)
    requires 0.0 <= d && 0.0 <= r && d * d == r * r
    ensures d == r
  {
    assert (d - r) * (d + r) == d * d - r * r;
    if d + r != 0.0 {
      assert d - r == 0.0;
    }
  }

  /** The Euclidean distance does not depend on the direction of travel. */
  lemma EuclideanIsSymmetric(dist: Distance)
    requires IsEuclidean(dist)
    ensures IsSymmetric(dist)
  {
    forall a, b ensures dist(a, b) == dist(b, a) {
      assert Square(a.x - b.x) == Square(b.x - a.x);
      assert Square(a.y - b.y) == Square(b.y - a.y);
      RootUnique(dist(a, b), dist(b, a));
    }
  }

  /** The Euclidean distance is never negative and is 0 from a point to itself. */
  lemma EuclideanIsNonNegativeAndReflexive(dist: Distance)
    requires IsEuclidean(dist)
    ensures IsNonNegative(dist) && VanishesOnDiagonal(dist)
  {
    forall a ensures dist(a, a) == 0.0 {
      RootUnique(dist(a, a), 0.0);
    }
  }

  /** The 3-4-5 triangle: `Point(0.0, 0.0).distance(&Point(3.0, 4.0))` is 5. */
  lemma DistanceThreeFourFive(dist: Distance)
    requires IsEuclidean(dist)
    ensures dist(Point(0.0, 0.0), Point(3.0, 4.0)) == 5.0
  {
    RootUnique(dist(Point(0.0, 0.0), Point(3.0, 4.0)), 5.0);
  }

  // ---------------------------------------------------------------------------------
  // Energy

  /** `points.iter().cycle().skip(1).take(points.len())`: the tour read from its second
      point, wrapping round to the first. */
  function Successors(s: seq<Point>): (r: seq<Point>)
    ensures |r| == |s|
    ensures forall k :: 0 <= k < |s| - 1 ==> r[k] == s[k + 1]
    ensures s != [] ==> r[|s| - 1] == s[0]
  {
    if s == [] then [] else s[1..] + [s[0]]
  }

  /** `.zip(previous).map(|(next, previous)| next.distance(previous)).sum()`: a sum of
      distances, so never negative when no distance is. */
  function ZipSum(dist: Distance, next: seq<Point>, previous: seq<Point>): (r: real)
    ensures IsNonNegative(dist) ==> 0.0 <= r
    decreases |next|
  {
    if next == [] || previous == [] then 0.0
    else dist(next[0], previous[0]) + ZipSum(dist, next[1..], previous[1..])
  }

  /** `energy(points)`: the iterator pipeline of `src/tsp2.rs` (and of `Tsp::energy`). An
      empty tour has length 0, a one-point tour is the closed edge from the point to itself,
      and no length is negative when no distance is. */
  function Energy(dist: Distance, s: seq<Point>): (r: real)
    ensures IsNonNegative(dist) ==> 0.0 <= r
    ensures |s| == 0 ==> r == 0.0
    ensures |s| == 1 ==> r == dist(s[0], s[0])
  {
    assert |s| == 1 ==> Successors(s) == s && ZipSum(dist, s[1..], s[1..]) == 0.0;
    ZipSum(dist, Successors(s), s)
  }

  /** The edge leaving position `k` of the closed tour, measured from its end (position
      `(k + 1) % |s|`) back to `k`. */
  function Edge(dist: Distance, s: seq<Point>, k: nat): real
    requires k < |s|
  {
    dist(if k + 1 < |s| then s[k + 1] else s[0], s[k])
  }

  /** The sum of the edges leaving positions `j` to `|s| - 1`. */
  function EdgesFrom(dist: Distance, s: seq<Point>, j: nat): real
    decreases |s| - j
  {
    if j >= |s| then 0.0 else Edge(dist, s, j) + EdgesFrom(dist, s, j + 1)
  }

  lemma {:induction false} ZipSumSuffix(dist: Distance, s: seq<Point>, j: nat)
    requires j <= |s|
    ensures ZipSum(dist, Successors(s)[j..], s[j..]) == EdgesFrom(dist, s, j)
    decreases |s| - j
  {
    if j < |s| {
      var next := Successors(s);
      ZipSumSuffix(dist, s, j + 1);
      assert next[j..][1..] == next[j + 1..];
      assert s[j..][1..] == s[j + 1..];
      assert dist(next[j..][0], s[j..][0]) == Edge(dist, s, j);
    }
  }

  /** The energy is the sum over every position `k` of the distance from `s[(k + 1) % n]`
      to `s[k]`, closing edge from the last point to the first included. */
  lemma EnergyIsCyclicSum(dist: Distance, s: seq<Point>)
    ensures Energy(dist, s) == EdgesFrom(dist, s, 0)
  {
    ZipSumSuffix(dist, s, 0);
    assert Successors(s)[0..] == Successors(s) && s[0..] == s;
  }

  /** `test_energy`: the right triangle with legs 3 and 4 has perimeter 12. */
  lemma EnergyOfRightTriangle(dist: Distance)
    requires IsEuclidean(dist)
    ensures Energy(dist, [Point(0.0, 0.0), Point(3.0, 0.0), Point(3.0, 4.0)]) == 12.0
  {
    var a, b, c := Point(0.0, 0.0), Point(3.0, 0.0), Point(3.0, 4.0);
    RootUnique(dist(b, a), 3.0);
    RootUnique(dist(c, b), 4.0);
    RootUnique(dist(a, c), 5.0);
    EnergyIsCyclicSum(dist, [a, b, c]);
  }

  /** Tour lengths are never negative; for zero or one point the length is 0. This holds
      for any distance that is never negative and is 0 from a point to itself. */
  lemma EnergyBounds(dist: Distance, s: seq<Point>)
    requires IsNonNegative(dist) && VanishesOnDiagonal(dist)
    ensures 0.0 <= Energy(dist, s)
    ensures |s| <= 1 ==> Energy(dist, s) == 0.0
  {
  }

  lemma {:induction false} ZipSumSnoc(dist: Distance, a: seq<Point>, b: seq<Point>, x: Point, y: Point)
    requires |a| == |b|
    ensures ZipSum(dist, a + [x], b + [y]) == ZipSum(dist, a, b) + dist(x, y)
    decreases |a|
  {
    if a != [] {
      ZipSumSnoc(dist, a[1..], b[1..], x, y);
      assert (a + [x])[1..] == a[1..] + [x];
      assert (b + [y])[1..] == b[1..] + [y];
    }
  }

  /** Rotating both zipped sequences by one place moves one term of the sum to its end. */
  lemma ZipSumSuccessors(dist: Distance, a: seq<Point>, b: seq<Point>)
    requires |a| == |b|
    ensures ZipSum(dist, Successors(a), Successors(b)) == ZipSum(dist, a, b)
  {
    if a != [] {
      ZipSumSnoc(dist, a[1..], b[1..], a[0], b[0]);
    }
  }

  /** `s` rotated to start at position `r`. */
  function Rotated(s: seq<Point>, r: nat): seq<Point>
    requires r <= |s|
  {
    s[r..] + s[..r]
  }

  /** The energy does not depend on which point of the cycle comes first. */
  lemma {:induction false} EnergyRotationInvariant(dist: Distance, s: seq<Point>, r: nat)
    requires r <= |s|
    ensures Energy(dist, Rotated(s, r)) == Energy(dist, s)
    decreases r
  {
    if r == 0 {
      assert Rotated(s, 0) == s;
    } else {
      EnergyRotationInvariant(dist, s, r - 1);
      var t := Rotated(s, r - 1);
      assert Rotated(s, r) == Successors(t) by {
        assert t[0] == s[r - 1];
        assert t[1..] == s[r..] + s[..r - 1];
        assert s[..r] == s[..r - 1] + [s[r - 1]];
      }
      ZipSumSuccessors(dist, Successors(t), t);
    }
  }

  lemma {:induction false} ZipSumReversed(dist: Distance, a: seq<Point>, b: seq<Point>)
    requires |a| == |b|
    ensures ZipSum(dist, Reversed(a), Reversed(b)) == ZipSum(dist, a, b)
    decreases |a|
  {
    if a != [] {
      ReversedCons(a);
      ReversedCons(b);
      ZipSumReversed(dist, a[1..], b[1..]);
      ZipSumSnoc(dist, Reversed(a[1..]), Reversed(b[1..]), a[0], b[0]);
    }
  }

  lemma {:induction false} ZipSumSwapped(dist: Distance, a: seq<Point>, b: seq<Point>)
    requires IsSymmetric(dist)
    ensures ZipSum(dist, a, b) == ZipSum(dist, b, a)
    decreases |a|
  {
    if a != [] && b != [] {
      ZipSumSwapped(dist, a[1..], b[1..]);
      assert dist(a[0], b[0]) == dist(b[0], a[0]);
    }
  }

  /** `s` rotated one place the other way: the last point first. */
  function Predecessors(s: seq<Point>): (r: seq<Point>)
    requires s != []
    ensures |r| == |s|
  {
    [s[|s| - 1]] + s[..|s| - 1]
  }

  lemma SuccessorsOfReversed(s: seq<Point>)
    requires s != []
    ensures Successors(Reversed(s)) == Reversed(Predecessors(s))
  {
    var n, p := |s|, Predecessors(s);
    forall k | 0 <= k < n
      ensures Successors(Reversed(s))[k] == Reversed(p)[k]
    {
      var j := if k < n - 1 then k + 1 else 0;
      assert Successors(Reversed(s))[k] == s[n - 1 - j];
      assert p[n - 1 - k] == if k < n - 1 then s[n - 2 - k] else s[n - 1];
    }
    assert Successors(Reversed(s)) == Reversed(p);
  }

  /** For a distance that is the same in both directions, a tour and its reversal have the
      same energy. */
  lemma EnergyMirrorInvariant(dist: Distance, s: seq<Point>)
    requires IsSymmetric(dist)
    ensures Energy(dist, Reversed(s)) == Energy(dist, s)
  {
    if s != [] {
      var p := Predecessors(s);
      calc {
        Energy(dist, Reversed(s));
        { SuccessorsOfReversed(s); }
        ZipSum(dist, Reversed(p), Reversed(s));
        { ZipSumReversed(dist, p, s); }
        ZipSum(dist, p, s);
        { ZipSumSwapped(dist, p, s); }
        ZipSum(dist, s, p);
        { ZipSumSuccessors(dist, s, p); }
        ZipSum(dist, Successors(s), Successors(p));
        { assert Successors(p) == s; }
        Energy(dist, s);
      }
    }
  }

  // ---------------------------------------------------------------------------------
  // Acceptance

  /** `f64::exp(-(delta) / t)` as a function of `(delta, t)`. It is left uninterpreted: the
      source computes it in floating point, where a zero or infinite temperature is a value. */
  type Boltzmann = (real, real) -> real

  /** `acceptability(me, candidate, t)`: the Metropolis criterion. A tour shorter than the current
      one is taken with certainty; otherwise the Boltzmann factor of the increase is used. */
  function Acceptability(dist: Distance, boltzmann: Boltzmann, me: seq<Point>, candidate: seq<Point>, t: real): (r: real)
    ensures Energy(dist, candidate) < Energy(dist, me) ==> r == 1.0
    ensures Energy(dist, me) <= Energy(dist, candidate) ==> r == boltzmann(Energy(dist, candidate) - Energy(dist, me), t)
  {
    var newEnergy := Energy(dist, candidate);
    var myEnergy := Energy(dist, me);
    if newEnergy < myEnergy then 1.0 else boltzmann(newEnergy - myEnergy, t)
  }

  /** A candidate rejected against a sample of at most 1 is not shorter than the current
      tour, since a shorter one has acceptability exactly 1. */
  lemma RejectedIsNotShorter(dist: Distance, boltzmann: Boltzmann, me: seq<Point>, candidate: seq<Point>, t: real, u: real)
    requires u <= 1.0 && Acceptability(dist, boltzmann, me, candidate, t) < u
    ensures Energy(dist, me) <= Energy(dist, candidate)
  {
  }

  /** The properties `delta, t => exp(-delta / t)` has for a positive temperature and a
      non-negative increase: a value in (0, 1], exactly 1 for no increase, strictly smaller
      for a larger increase and not smaller for a higher temperature. */
  ghost predicate IsMetropolisFactor(boltzmann: Boltzmann)
  {
    && (forall d, t :: 0.0 <= d && 0.0 < t ==> 0.0 < boltzmann(d, t) <= 1.0)
    && (forall d, t :: 0.0 <= d && 0.0 < t ==> (boltzmann(d, t) == 1.0 <==> d == 0.0))
    && (forall d1, d2, t {:trigger boltzmann(d1, t), boltzmann(d2, t)} ::
          0.0 <= d1 <= d2 && 0.0 < t ==> boltzmann(d2, t) <= boltzmann(d1, t))
    && (forall d, t1, t2 {:trigger boltzmann(d, t1), boltzmann(d, t2)} ::
          0.0 <= d && 0.0 < t1 <= t2 ==> boltzmann(d, t1) <= boltzmann(d, t2))
  }

  /** With a true exponential and a positive temperature, acceptability is a probability in
      (0, 1], and it is 1 exactly when the candidate is no longer than the current tour
      (equal energies give `exp(-0) = 1`). */
  lemma AcceptabilityIsProbability(dist: Distance, boltzmann: Boltzmann, me: seq<Point>, candidate: seq<Point>, t: real)
    requires IsMetropolisFactor(boltzmann) && 0.0 < t
    ensures 0.0 < Acceptability(dist, boltzmann, me, candidate, t) <= 1.0
    ensures Acceptability(dist, boltzmann, me, candidate, t) == 1.0 <==> Energy(dist, candidate) <= Energy(dist, me)
  {
  }

  /** For a fixed current tour and temperature, a longer candidate is never more acceptable. */
  lemma AcceptabilityMonotoneInEnergy(dist: Distance, boltzmann: Boltzmann, me: seq<Point>, new1: seq<Point>, new2: seq<Point>, t: real)
    requires IsMetropolisFactor(boltzmann) && 0.0 < t
    requires Energy(dist, new1) <= Energy(dist, new2)
    ensures Acceptability(dist, boltzmann, me, new2, t) <= Acceptability(dist, boltzmann, me, new1, t)
  {
  }

  /** For a fixed pair of tours, a higher temperature never makes the candidate less acceptable. */
  lemma AcceptabilityMonotoneInTemperature(dist: Distance, boltzmann: Boltzmann, me: seq<Point>, candidate: seq<Point>, t1: real, t2: real)
    requires IsMetropolisFactor(boltzmann) && 0.0 < t1 <= t2
    ensures Acceptability(dist, boltzmann, me, candidate, t1) <= Acceptability(dist, boltzmann, me, candidate, t2)
  {
  }
}
