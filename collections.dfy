/**
 Sequence helpers for the quiz generator: pairwise-distinct sequences, the
 index permutations that stand for a `sort(() => Math.random() - 0.5)` shuffle,
 JavaScript's `slice(0, end)` and the `[...new Set(xs)]` de-duplication.
 */
module Collections {

  predicate Distinct<T(==)>(s: seq<T>) {
    forall i, j :: 0 <= i < j < |s| ==> s[i] != s[j]
  }

  function Elems<T>(s: seq<T>): set<T> {
    set x | x in s
  }

  lemma {:induction false} DistinctCard<T>(s: seq<T>)
    requires Distinct(s)
    ensures |Elems(s)| == |s|
  {
    if |s| > 0 {
      var t := s[..|s| - 1];
      DistinctCard(t);
      assert Elems(s) == Elems(t) + {s[|s| - 1]};
    }
  }

  /** A pairwise-distinct sequence holds each of its elements exactly once. */
  lemma {:induction false} DistinctOccursOnce<T>(s: seq<T>, x: T)
    requires Distinct(s) && x in s
    ensures multiset(s)[x] == 1
  {
    var t := s[..|s| - 1];
    assert s == t + [s[|s| - 1]];
    if s[|s| - 1] != x {
      DistinctOccursOnce(t, x);
    }
  }

  /** The numbers below n. */
  function Range(n: nat): (r: set<nat>)
    ensures forall x: nat :: x in r <==> x < n
    ensures |r| == n
  {
    if n == 0 then {} else Range(n - 1) + {n - 1}
  }

  lemma {:induction false} SubsetCard<T>(a: set<T>, b: set<T>)
    requires a <= b
    ensures |a| <= |b|
  {
    if a != {} {
      var x :| x in a;
      SubsetCard(a - {x}, b - {x});
    }
  }

  /** `p` lists each of 0, ..., n-1 exactly once. */
  predicate IsPermutation(p: seq<nat>, n: nat) {
    && |p| == n
    && (forall i :: 0 <= i < n ==> p[i] < n)
    && Distinct(p)
  }

  /** Pigeonhole: n distinct values below n cover all of them. */
  lemma {:induction false} PermutationCovers(p: seq<nat>, n: nat)
    requires IsPermutation(p, n)
    ensures forall v :: 0 <= v < n ==> v in p
  {
    DistinctCard(p);
    forall v | 0 <= v < n
      ensures v in p
    {
      if v !in p {
        assert v in Range(n);
        assert Elems(p) <= Range(n) - {v} by {
          forall x | x in Elems(p)
            ensures x in Range(n) - {v}
          {
            var i :| 0 <= i < |p| && p[i] == x;
          }
        }
        assert |Range(n) - {v}| == n - 1;
        SubsetCard(Elems(p), Range(n) - {v});
      }
    }
  }

  /** The outcome of shuffling `s`: position i holds `s[p[i]]`. It is a
      rearrangement, so it has the same elements and keeps distinctness. */
  function Permute<T>(s: seq<T>, p: seq<nat>): (r: seq<T>)
    requires IsPermutation(p, |s|)
    ensures |r| == |s|
    ensures forall i :: 0 <= i < |r| ==> r[i] == s[p[i]]
    ensures forall j :: 0 <= j < |s| ==> s[j] in r
    ensures Elems(r) == Elems(s)
    ensures Distinct(s) ==> Distinct(r)
  {
    var r := seq(|s|, i requires 0 <= i < |s| => s[p[i]]);
    PermutationCovers(p, |s|);
    assert forall j :: 0 <= j < |s| ==> s[j] in r by {
      forall j | 0 <= j < |s|
        ensures s[j] in r
      {
        assert j in p;
        var i :| 0 <= i < |p| && p[i] == j;
        assert r[i] == s[j];
      }
    }
    r
  }

  /** The end index `Array.prototype.slice(0, end)` keeps, for a sequence of length `len`. */
  function SliceEnd(len: nat, end: int): (r: nat)
    ensures r <= len
    ensures 0 <= end ==> r == if end < len then end else len
  {
    if end < 0 then (if len + end < 0 then 0 else len + end)
    else if end < len then end
    else len
  }

  /** `[...new Set(s)]`: the distinct elements of `s`, first occurrences in order. */
  function Dedup<T(==)>(s: seq<T>): (r: seq<T>)
    ensures Distinct(r)
    ensures Elems(r) == Elems(s)
    ensures |r| == |Elems(s)|
  {
    if |s| == 0 then []
    else
      var d := Dedup(s[..|s| - 1]);
      assert Elems(s) == Elems(s[..|s| - 1]) + {s[|s| - 1]} by {
        assert s == s[..|s| - 1] + [s[|s| - 1]];
      }
      var r := if s[|s| - 1] in d then d else d + [s[|s| - 1]];
      DistinctCard(r);
      r
  }

  /** `xs` is `ys` with some elements left out, the rest kept in order. */
  predicate IsSubsequence<T(==)>(xs: seq<T>, ys: seq<T>)
    decreases |ys|
  {
    if |xs| == 0 then true
    else if |ys| == 0 then false
    else if xs[0] == ys[0] then IsSubsequence(xs[1..], ys[1..])
    else IsSubsequence(xs, ys[1..])
  }

  /** `Array.prototype.filter(keep)`: exactly the elements that pass, in their order. */
  function Filter<T(==)>(s: seq<T>, keep: T -> bool): (r: seq<T>)
    ensures |r| <= |s|
    ensures forall k :: 0 <= k < |r| ==> keep(r[k]) && r[k] in s
    ensures forall k :: 0 <= k < |s| && keep(s[k]) ==> s[k] in r
    ensures IsSubsequence(r, s)
  {
    if |s| == 0 then []
    else
      var rest := Filter(s[1..], keep);
      assert forall k :: 1 <= k < |s| ==> s[k] == s[1..][k - 1];
      if keep(s[0]) then [s[0]] + rest else rest
  }

  /** `filter` keeps every passing element as often as it occurs, repeats
      included, and drops every other element. */
  lemma {:induction false} FilterCounts<T(!new)>(s: seq<T>, keep: T -> bool)
    ensures forall x :: multiset(Filter(s, keep))[x] == if keep(x) then multiset(s)[x] else 0
  {
    if |s| > 0 {
      FilterCounts(s[1..], keep);
      assert s == [s[0]] + s[1..];
    }
  }

  lemma {:induction false} FilterKeepsAll<T>(s: seq<T>, keep: T -> bool)
    requires forall k :: 0 <= k < |s| ==> keep(s[k])
    ensures Filter(s, keep) == s
  {
    if |s| > 0 {
      FilterKeepsAll(s[1..], keep);
      assert s == [s[0]] + s[1..];
    }
  }

  lemma {:induction false} FilterDropsAll<T>(s: seq<T>, keep: T -> bool)
    requires forall k :: 0 <= k < |s| ==> !keep(s[k])
    ensures Filter(s, keep) == []
  {
    if |s| > 0 {
      FilterDropsAll(s[1..], keep);
    }
  }
}
