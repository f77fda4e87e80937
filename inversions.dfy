/** The solvability test's arithmetic. The source sums, over the row-major
    positions k, the order index at k minus how many indices read so far are
    below it; for a permutation of 0 .. N - 1 that sum is the number of
    inverted pairs of positions. */
module Inversions {
  import opened PuzzleModel

  /** How many elements of xs are below v. */
  function CountLess(xs: seq<int>, v: int): (c: nat)
    ensures c <= |xs|
  {
    if xs == [] then 0
    else CountLess(xs[..|xs| - 1], v) + (if xs[|xs| - 1] < v then 1 else 0)
  }

  /** What position k adds to the source's running sum: the order index at k
      minus how many of the indices read so far, k's own included, are below
      it. */
  function SourceTerm(xs: seq<int>, k: nat): int
    requires k < |xs|
  {
    xs[k] - CountLess(xs[..k + 1], xs[k])
  }

  /** The source's running sum after the first n positions. */
  function InversionSumUpTo(xs: seq<int>, n: nat): int
    requires n <= |xs|
  {
    if n == 0 then 0 else InversionSumUpTo(xs, n - 1) + SourceTerm(xs, n - 1)
  }

  /** The value the source's inversion sum computes for a row-major board. */
  function InversionSum(xs: seq<int>): int {
    InversionSumUpTo(xs, |xs|)
  }

  /** The inverted pairs: positions i < j whose values are in descending order. */
  ghost function InvertedPairs(xs: seq<int>): set<(int, int)> {
    set i, j | 0 <= i < j < |xs| && xs[i] > xs[j] :: (i, j)
  }

  /** The classic inversion count. */
  ghost function InversionCount(xs: seq<int>): nat {
    |InvertedPairs(xs)|
  }

  /** The inverted pairs whose first position is below n. */
  ghost function InvertedPairsBelow(xs: seq<int>, n: int): set<(int, int)> {
    set i, j | 0 <= i < n && i < j < |xs| && xs[i] > xs[j] :: (i, j)
  }

  /** The inverted pairs (i, j) with first position i and j below m. */
  ghost function InvertedPairsAt(xs: seq<int>, i: int, m: int): set<(int, int)>
    requires 0 <= i < |xs|
  {
    set j | i < j < m && j < |xs| && xs[j] < xs[i] :: (i, j)
  }

  // ---------------------------------------------------------------------------
  // Counting below a value

  lemma {:induction false} CountLessConcat(p: seq<int>, q: seq<int>, v: int)
    ensures CountLess(p + q, v) == CountLess(p, v) + CountLess(q, v)
    decreases |q|
  {
    if q == [] {
      assert p + q == p;
    } else {
      assert (p + q)[..|p + q| - 1] == p + q[..|q| - 1];
      CountLessConcat(p, q[..|q| - 1], v);
    }
  }

  /** Counting one more element of a prefix. */
  lemma CountLessPrefix(xs: seq<int>, k: nat, v: int)
    requires k < |xs|
    ensures CountLess(xs[..k + 1], v) == CountLess(xs[..k], v) + (if xs[k] < v then 1 else 0)
  {
    assert xs[..k + 1][..k] == xs[..k];
  }

  /** The count depends only on the multiset of values. */
  lemma {:induction false} CountLessMultiset(a: seq<int>, b: seq<int>, v: int)
    requires multiset(a) == multiset(b)
    ensures CountLess(a, v) == CountLess(b, v)
    decreases |a|
  {
    if a == [] {
      assert |b| == |multiset(b)| == 0;
    } else {
      var x := a[|a| - 1];
      var a' := a[..|a| - 1];
      assert a == a' + [x];
      assert x in multiset(b);
      var i :| 0 <= i < |b| && b[i] == x;
      var b' := b[..i] + b[i + 1..];
      assert b == b[..i] + [x] + b[i + 1..];
      assert multiset(b) == multiset(b') + multiset{x};
      assert multiset(a) == multiset(a') + multiset{x};
      forall y
        ensures multiset(b')[y] == multiset(a')[y]
      {
        assert multiset(b)[y] == multiset(b')[y] + multiset{x}[y];
        assert multiset(a)[y] == multiset(a')[y] + multiset{x}[y];
      }
      assert multiset(b') == multiset(a');
      CountLessMultiset(a', b', v);
      CountLessConcat(b[..i] + [x], b[i + 1..], v);
      CountLessConcat(b[..i], [x], v);
      CountLessConcat(b[..i], b[i + 1..], v);
    }
  }

  lemma {:induction false} CountLessRange(n: nat, v: int)
    ensures CountLess(Range(n), v) == if v <= 0 then 0 else if v >= n then n else v
  {
    if n > 0 {
      assert Range(n)[..n - 1] == Range(n - 1);
      CountLessRange(n - 1, v);
    }
  }

  // ---------------------------------------------------------------------------
  // The source's sum is the inversion count on permutations

  /** On a permutation, position k adds exactly the number of later positions
      holding a smaller value. */
  lemma SourceTermOfPermutation(xs: seq<int>, k: nat)
    requires IsPermutation(xs) && k < |xs|
    ensures SourceTerm(xs, k) == CountLess(xs[k + 1..], xs[k])
  {
    var v := xs[k];
    PermutationValues(xs);
    CountLessMultiset(xs, Range(|xs|), v);
    CountLessRange(|xs|, v);
    assert xs == xs[..k + 1] + xs[k + 1..];
    CountLessConcat(xs[..k + 1], xs[k + 1..], v);
  }

  /** The pairs of row i below m + 1 are those below m and, when it is
      inverted, the pair (i, m). */
  lemma InvertedPairsAtStep(xs: seq<int>, i: int, m: int)
    requires 0 <= i < m < |xs|
    ensures InvertedPairsAt(xs, i, m + 1)
         == InvertedPairsAt(xs, i, m) + (if xs[m] < xs[i] then {(i, m)} else {})
  {
    var a, b := InvertedPairsAt(xs, i, m + 1), InvertedPairsAt(xs, i, m);
    var extra: set<(int, int)> := if xs[m] < xs[i] then {(i, m)} else {};
    forall p | p in a
      ensures p in b + extra
    {
      var j :| i < j < m + 1 && j < |xs| && xs[j] < xs[i] && p == (i, j);
      if j < m {
        assert p in b;
      }
    }
    forall p | p in b + extra
      ensures p in a
    {
      if p in b {
        var j :| i < j < m && j < |xs| && xs[j] < xs[i] && p == (i, j);
        assert i < j < m + 1 && xs[j] < xs[i];
      }
    }
  }

  lemma {:induction false} InvertedPairsAtCount(xs: seq<int>, i: int, m: int)
    requires 0 <= i < m <= |xs|
    ensures |InvertedPairsAt(xs, i, m)| == CountLess(xs[i + 1..m], xs[i])
    decreases m
  {
    if m == i + 1 {
      assert InvertedPairsAt(xs, i, m) == {};
      assert xs[i + 1..m] == [];
    } else {
      InvertedPairsAtCount(xs, i, m - 1);
      InvertedPairsAtStep(xs, i, m - 1);
      assert (i, m - 1) !in InvertedPairsAt(xs, i, m - 1);
      assert xs[i + 1..m][..|xs[i + 1..m]| - 1] == xs[i + 1..m - 1];
    }
  }

  /** The inverted pairs whose first position is below n are those below
      n - 1 and those of row n - 1. */
  lemma InvertedPairsBelowStep(xs: seq<int>, n: int)
    requires 0 < n <= |xs|
    ensures InvertedPairsBelow(xs, n) == InvertedPairsBelow(xs, n - 1) + InvertedPairsAt(xs, n - 1, |xs|)
  {
    var a, b := InvertedPairsBelow(xs, n), InvertedPairsBelow(xs, n - 1);
    var row := InvertedPairsAt(xs, n - 1, |xs|);
    forall p | p in a
      ensures p in b + row
    {
      var i, j :| 0 <= i < n && i < j < |xs| && xs[i] > xs[j] && p == (i, j);
      if i < n - 1 {
        assert p in b;
      } else {
        assert p in row;
      }
    }
    forall p | p in b + row
      ensures p in a
    {
      if p in b {
        var i, j :| 0 <= i < n - 1 && i < j < |xs| && xs[i] > xs[j] && p == (i, j);
        assert 0 <= i < n;
      } else {
        var j :| n - 1 < j < |xs| && j < |xs| && xs[j] < xs[n - 1] && p == (n - 1, j);
        assert 0 <= n - 1 < n;
      }
    }
  }

  /** No pair of row n - 1 has its first position below n - 1. */
  lemma InvertedPairsBelowDisjoint(xs: seq<int>, n: int)
    requires 0 < n <= |xs|
    ensures InvertedPairsBelow(xs, n - 1) * InvertedPairsAt(xs, n - 1, |xs|) == {}
  {
    var b, row := InvertedPairsBelow(xs, n - 1), InvertedPairsAt(xs, n - 1, |xs|);
    forall p | p in b
      ensures p !in row
    {
      var i, j :| 0 <= i < n - 1 && i < j < |xs| && xs[i] > xs[j] && p == (i, j);
    }
  }

  lemma {:induction false} InversionSumUpToPermutation(xs: seq<int>, n: nat)
    requires IsPermutation(xs) && n <= |xs|
    ensures InversionSumUpTo(xs, n) == |InvertedPairsBelow(xs, n)|
  {
    if n == 0 {
      assert InvertedPairsBelow(xs, n) == {};
    } else {
      InversionSumUpToPermutation(xs, n - 1);
      SourceTermOfPermutation(xs, n - 1);
      InvertedPairsAtCount(xs, n - 1, |xs|);
      assert xs[n..|xs|] == xs[n..];
      InvertedPairsBelowStep(xs, n);
      InvertedPairsBelowDisjoint(xs, n);
    }
  }

  /** For a permutation of 0 .. N - 1 the source's sum is the number of
      positions i < j whose values are in descending order. */
  lemma InversionSumIsInversionCount(xs: seq<int>)
    requires IsPermutation(xs)
    ensures InversionSum(xs) == InversionCount(xs)
  {
    InversionSumUpToPermutation(xs, |xs|);
    assert InvertedPairsBelow(xs, |xs|) == InvertedPairs(xs);
  }

  // ---------------------------------------------------------------------------
  // Exchanging the first two positions

  lemma {:induction false} SwapFrontUpTo(xs: seq<int>, n: nat)
    requires 2 <= n <= |xs|
    ensures InversionSumUpTo(Swap(xs, 0, 1), n)
         == InversionSumUpTo(xs, n) + (if xs[0] < xs[1] then 1 else 0)
                                    - (if xs[1] < xs[0] then 1 else 0)
  {
    var ys := Swap(xs, 0, 1);
    if n == 2 {
      var x0, x1 := xs[0], xs[1];
      assert xs[..1] == [x0] && ys[..1] == [x1];
      assert xs[..2] == [x0, x1] && ys[..2] == [x1, x0];
      assert [x0, x1][..1] == [x0] && [x1, x0][..1] == [x1];
      assert CountLess([x0], x0) == 0 && CountLess([x1], x1) == 0;
      assert CountLess([x0, x1], x1) == CountLess([x0], x1);
      assert CountLess([x1, x0], x0) == CountLess([x1], x0);
      assert SourceTerm(xs, 0) == x0 && SourceTerm(ys, 0) == x1;
      assert SourceTerm(xs, 1) == x1 - CountLess([x0], x1);
      assert SourceTerm(ys, 1) == x0 - CountLess([x1], x0);
      assert InversionSumUpTo(xs, 1) == x0;
      assert InversionSumUpTo(ys, 0) == 0;
      assert InversionSumUpTo(ys, 1) == x1;
    } else {
      SwapFrontUpTo(xs, n - 1);
      assert ys[..n] == Swap(xs[..n], 0, 1);
      CountLessMultiset(ys[..n], xs[..n], xs[n - 1]);
    }
  }

  /** Exchanging the first two positions changes the source's sum by exactly
      one when their values differ. */
  lemma SwapFrontChangesSum(xs: seq<int>)
    requires |xs| >= 2 && xs[0] != xs[1]
    ensures InversionSum(Swap(xs, 0, 1)) == InversionSum(xs) + (if xs[0] < xs[1] then 1 else -1)
  {
    SwapFrontUpTo(xs, |xs|);
  }
}
