/** The operations of Rust's slices and vectors that the annealing code relies on:
    `swap`, `reverse` (on a sub-slice) and `Vec::remove`. */
module Slices {

  /** `s` after `s.swap(i, j)`: the two positions exchanged, everything else kept. */
  function Swapped<T>(s: seq<T>, i: nat, j: nat): (r: seq<T>)
    requires i < |s| && j < |s|
    ensures |r| == |s|
    ensures r[i] == s[j] && r[j] == s[i]
    ensures forall m :: 0 <= m < |s| && m != i && m != j ==> r[m] == s[m]
  {
    s[i := s[j]][j := s[i]]
  }

  /** A swap only reorders: the multiset of elements is unchanged. */
  lemma SwappedPermutes<T>(s: seq<T>, i: nat, j: nat)
    requires i < |s| && j < |s|
    ensures multiset(Swapped(s, i, j)) == multiset(s)
  {
    if i != j {
      calc {
        multiset(Swapped(s, i, j));
        multiset(s[i := s[j]][j := s[i]]);
        multiset(s[i := s[j]]) - multiset{s[i := s[j]][j]} + multiset{s[i]};
        multiset(s) - multiset{s[i]} + multiset{s[j]} - multiset{s[j]} + multiset{s[i]};
        multiset(s);
      }
    }
  }

  /** Swapping the same two positions twice restores the slice. */
  lemma SwappedTwice<T>(s: seq<T>, i: nat, j: nat)
    requires i < |s| && j < |s|
    ensures Swapped(Swapped(s, i, j), i, j) == s
  {
  }

  /** `s` reversed: what `<[T]>::reverse` leaves in the slice, position `k` holding the
      element `k` places from the end. */
  function Reversed<T>(s: seq<T>): (r: seq<T>)
    ensures |r| == |s|
    ensures forall k :: 0 <= k < |s| ==> r[k] == s[|s| - 1 - k]
  {
    seq(|s|, k requires 0 <= k < |s| => s[|s| - 1 - k])
  }

  /** Reversing a non-empty slice puts its first element last, after the reversed rest. */
  lemma ReversedCons<T>(s: seq<T>)
    requires s != []
    ensures Reversed(s) == Reversed(s[1..]) + [s[0]]
  {
    var r, t := Reversed(s), Reversed(s[1..]) + [s[0]];
    forall k | 0 <= k < |s|
      ensures r[k] == t[k]
    {
      if k < |s| - 1 {
        assert t[k] == s[1..][|s| - 2 - k];
      }
    }
  }

  /** Reversal only reorders. */
  lemma {:induction false} ReversedPermutes<T>(s: seq<T>)
    ensures multiset(Reversed(s)) == multiset(s)
    decreases |s|
  {
    if s != [] {
      ReversedCons(s);
      ReversedPermutes(s[1..]);
      assert s == [s[0]] + s[1..];
    }
  }

  /** Replacing the segment `lo..hi` by a permutation of it permutes the whole sequence. */
  lemma ReplacedSegmentPermutes<T>(s: seq<T>, lo: nat, hi: nat, seg: seq<T>)
    requires lo <= hi <= |s|
    requires multiset(seg) == multiset(s[lo..hi])
    ensures multiset(s[..lo] + seg + s[hi..]) == multiset(s)
  {
    assert s == s[..lo] + s[lo..hi] + s[hi..];
  }

  /** An element of the multiset of `s` occurs at some position of `s`. */
  lemma PositionOf<T>(s: seq<T>, x: T) returns (m: nat)
    requires x in multiset(s)
    ensures m < |s| && s[m] == x
  {
    assert x in s;
    m :| 0 <= m < |s| && s[m] == x;
  }

  /** Moving one element from the front of a suffix to the end of its prefix. */
  lemma AppendShift<T>(prefix: seq<T>, x: T, rest: seq<T>)
    ensures prefix + ([x] + rest) == (prefix + [x]) + rest
  {
  }

  /** `s.remove(i)`: the element at `i` taken out, the others kept in order. */
  function Removed<T>(s: seq<T>, i: nat): (r: seq<T>)
    requires i < |s|
    ensures |r| == |s| - 1
    ensures forall m :: 0 <= m < i ==> r[m] == s[m]
    ensures forall m :: i <= m < |r| ==> r[m] == s[m + 1]
    ensures multiset(r) + multiset{s[i]} == multiset(s)
  {
    assert s == s[..i] + [s[i]] + s[i + 1..];
    s[..i] + s[i + 1..]
  }

  /** `a[lo..hi].reverse()` in place: the two ends of the range are exchanged pairwise,
      moving inwards, and nothing outside the range is touched. */
  method ReverseRange<T>(a: array<T>, lo: nat, hi: nat)
    requires lo <= hi <= a.Length
    modifies a
    ensures a[..] == old(a[..])[..lo] + Reversed(old(a[..])[lo..hi]) + old(a[..])[hi..]
  {
    ghost var s := a[..];
    var i, j := lo, hi;
    while i + 1 < j
      invariant lo <= i <= j <= hi
      invariant i - lo == hi - j
      invariant forall m :: 0 <= m < lo || hi <= m < a.Length ==> a[m] == s[m]
      invariant forall m :: i <= m < j ==> a[m] == s[m]
      invariant forall m :: lo <= m < i ==> a[m] == s[lo + hi - 1 - m]
      invariant forall m :: j <= m < hi ==> a[m] == s[lo + hi - 1 - m]
    {
      a[i], a[j - 1] := a[j - 1], a[i];
      i, j := i + 1, j - 1;
    }
    MirroredRangeIsReversal(a[..], s, lo, hi);
  }

  /** A sequence that mirrors `s` on `lo..hi` and agrees with it elsewhere is `s` with that
      range reversed. */
  lemma MirroredRangeIsReversal<T>(t: seq<T>, s: seq<T>, lo: nat, hi: nat)
    requires |t| == |s| && lo <= hi <= |s|
    requires forall m :: 0 <= m < lo || hi <= m < |s| ==> t[m] == s[m]
    requires forall m :: lo <= m < hi ==> t[m] == s[lo + hi - 1 - m]
    ensures t == s[..lo] + Reversed(s[lo..hi]) + s[hi..]
  {
    var r := s[..lo] + Reversed(s[lo..hi]) + s[hi..];
    forall m | 0 <= m < |t|
      ensures t[m] == r[m]
    {
      if lo <= m < hi {
        assert r[m] == Reversed(s[lo..hi])[m - lo];
      } else if hi <= m {
        assert r[m] == s[hi..][m - hi];
      }
    }
  }
}
