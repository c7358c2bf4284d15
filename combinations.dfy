/** The index pairs the annealing drivers try: `(lo..n).tuple_combinations::<(usize, usize)>()`
    from itertools, and `Vec::retain` to drop one of them. */
module Combinations {

  /** A move: two tour positions, the smaller one first. */
  type Pair = (nat, nat)

  /** The pairs `(i, j)` for `j` from `from` up to `n - 1`: one row of the enumeration. */
  function Row(i: nat, from: nat, n: nat): (r: seq<Pair>)
    ensures forall p :: p in r ==> p.0 == i && from <= p.1 < n
    decreases n - from
  {
    if from >= n then [] else [(i, from)] + Row(i, from + 1, n)
  }

  /** `(lo..n).tuple_combinations()`: every pair `lo <= i < j < n`, in lexicographic order. */
  function Pairs(lo: nat, n: nat): (r: seq<Pair>)
    ensures forall p :: p in r ==> lo <= p.0 < p.1 < n
    decreases n - lo
  {
    if lo >= n then [] else Row(lo, lo + 1, n) + Pairs(lo + 1, n)
  }

  /** `p` comes strictly before `q` in lexicographic order. */
  predicate LexLess(p: Pair, q: Pair)
  {
    p.0 < q.0 || (p.0 == q.0 && p.1 < q.1)
  }

  /** Every pair of `r` comes strictly before every later one. */
  predicate LexIncreasing(r: seq<Pair>)
  {
    forall a, b :: 0 <= a < b < |r| ==> LexLess(r[a], r[b])
  }

  /** A row lists its pairs with the second position strictly increasing. */
  lemma {:induction false} RowIncreasing(i: nat, from: nat, n: nat)
    ensures LexIncreasing(Row(i, from, n))
    decreases n - from
  {
    if from < n {
      RowIncreasing(i, from + 1, n);
      var r, rest := Row(i, from, n), Row(i, from + 1, n);
      assert r == [(i, from)] + rest;
      forall a, b | 0 <= a < b < |r| ensures LexLess(r[a], r[b]) {
        if a == 0 {
          assert r[b] == rest[b - 1] && r[b] in rest;
        } else {
          assert r[a] == rest[a - 1] && r[b] == rest[b - 1];
        }
      }
    }
  }

  /** `tuple_combinations` yields its pairs in strictly increasing lexicographic order, so in
      particular no pair is repeated. */
  lemma {:induction false} PairsLexicographic(lo: nat, n: nat)
    ensures LexIncreasing(Pairs(lo, n))
    decreases n - lo
  {
    if lo < n {
      RowIncreasing(lo, lo + 1, n);
      PairsLexicographic(lo + 1, n);
      var row, rest := Row(lo, lo + 1, n), Pairs(lo + 1, n);
      var r := row + rest;
      assert Pairs(lo, n) == r;
      forall a, b | 0 <= a < b < |r| ensures LexLess(r[a], r[b]) {
        if b < |row| {
          assert r[a] == row[a] && r[b] == row[b];
        } else if a < |row| {
          assert r[a] == row[a] && r[a] in row;
          assert r[b] == rest[b - |row|] && r[b] in rest;
        } else {
          assert r[a] == rest[a - |row|] && r[b] == rest[b - |row|];
        }
      }
    }
  }

  lemma {:induction false} RowCount(i: nat, from: nat, n: nat, p: Pair)
    ensures multiset(Row(i, from, n))[p] == if p.0 == i && from <= p.1 < n then 1 else 0
    decreases n - from
  {
    if from < n {
      RowCount(i, from + 1, n, p);
    }
  }

  /** Every pair `lo <= i < j < n` occurs exactly once, and nothing else occurs. */
  lemma {:induction false} PairsCount(lo: nat, n: nat, p: Pair)
    ensures multiset(Pairs(lo, n))[p] == if lo <= p.0 < p.1 < n then 1 else 0
    decreases n - lo
  {
    if lo < n {
      RowCount(lo, lo + 1, n, p);
      PairsCount(lo + 1, n, p);
      PairsCountStep(lo, n, p);
    } else {
      PairsCountEmpty(lo, n, p);
    }
  }

  /** Nothing is enumerated from `lo >= n`. */
  lemma PairsCountEmpty(lo: nat, n: nat, p: Pair)
    requires lo >= n
    ensures multiset(Pairs(lo, n))[p] == if lo <= p.0 < p.1 < n then 1 else 0
  {
  }

  /** The pair list from `lo` is its first row, holding the pairs that start at `lo`,
      followed by the pairs from `lo + 1`. */
  lemma PairsCountStep(lo: nat, n: nat, p: Pair)
    requires lo < n
    requires multiset(Row(lo, lo + 1, n))[p] == if p.0 == lo && lo + 1 <= p.1 < n then 1 else 0
    requires multiset(Pairs(lo + 1, n))[p] == if lo + 1 <= p.0 < p.1 < n then 1 else 0
    ensures multiset(Pairs(lo, n))[p] == if lo <= p.0 < p.1 < n then 1 else 0
  {
    var row, rest := Row(lo, lo + 1, n), Pairs(lo + 1, n);
    assert Pairs(lo, n) == row + rest;
    assert multiset(Pairs(lo, n)) == multiset(row) + multiset(rest);
  }

  /** Membership form of PairsCount. */
  lemma PairsMembers(lo: nat, n: nat, p: Pair)
    ensures p in Pairs(lo, n) <==> lo <= p.0 < p.1 < n
  {
    PairsCount(lo, n, p);
    assert p in Pairs(lo, n) <==> p in multiset(Pairs(lo, n));
  }

  lemma {:induction false} RowLength(i: nat, from: nat, n: nat)
    ensures |Row(i, from, n)| == if from <= n then n - from else 0
    decreases n - from
  {
    if from < n {
      RowLength(i, from + 1, n);
    }
  }

  /** There are C(n - lo, 2) of them. */
  lemma {:induction false} PairsLength(lo: nat, n: nat)
    ensures |Pairs(lo, n)| == if lo <= n then (n - lo) * (n - lo - 1) / 2 else 0
    decreases n - lo
  {
    if lo < n {
      RowLength(lo, lo + 1, n);
      PairsLength(lo + 1, n);
      var m := n - lo;
      assert (m - 1) * (m - 2) / 2 + (m - 1) == m * (m - 1) / 2 by {
        assert (m - 1) * (m - 2) + 2 * (m - 1) == m * (m - 1);
      }
    }
  }

  /** `(0..n).tuple_combinations()` has n(n-1)/2 pairs. */
  lemma AllPairsLength(n: nat)
    ensures |Pairs(0, n)| == n * (n - 1) / 2
  {
    PairsLength(0, n);
  }

  /** `v.retain(|p| *p != x)`: every occurrence of `x` removed, the rest kept in order. */
  function Without(s: seq<Pair>, x: Pair): (r: seq<Pair>)
    ensures x !in r
    ensures forall p :: p in r ==> p in s
    ensures |r| <= |s|
  {
    if s == [] then []
    else if s[0] == x then Without(s[1..], x)
    else [s[0]] + Without(s[1..], x)
  }

  lemma {:induction false} WithoutCount(s: seq<Pair>, x: Pair, p: Pair)
    ensures multiset(Without(s, x))[p] == if p == x then 0 else multiset(s)[p]
  {
    if s != [] {
      WithoutCount(s[1..], x, p);
      assert s == [s[0]] + s[1..];
    }
  }
}
