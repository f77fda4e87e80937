/** The shuffle as functions of the row-major board: the randomize loop, the
    move of the blank to the bottom-right cell, and the parity correction. */
module Shuffle {
  import opened PuzzleModel
  import opened Inversions

  /** The random choices of the randomize loop on a board of n cells:
      draws[k] is the j picked on the k-th iteration, the one that handles
      position n - 1 - k, and 0 <= j < n - 1 - k. */
  predicate ValidDraws(n: int, draws: seq<int>) {
    |draws| < n && forall k :: 0 <= k < |draws| ==> 0 <= draws[k] < n - 1 - k
  }

  /** The board after the randomize loop has run one iteration per draw:
      iteration k exchanges position i = |s| - 1 - k with position draws[k]. */
  function Randomized(s: seq<Tile>, draws: seq<int>): (r: seq<Tile>)
    requires ValidDraws(|s|, draws)
    ensures |r| == |s|
  {
    if |draws| == 0 then s
    else Swap(Randomized(s, draws[..|draws| - 1]), |s| - |draws|, draws[|draws| - 1])
  }

  /** The board after the row-major scan moves the first blank it meets to
      the last position (the bottom-right cell). */
  function BlankToCorner(s: seq<Tile>): seq<Tile> {
    var b := FindBlank(s);
    if b < |s| then Swap(s, b, |s| - 1) else s
  }

  /** The board after the parity correction: when the source's inversion sum
      is odd, the first two positions (cells (0, 0) and (0, 1)) trade tiles. */
  function ForcedSolvable(s: seq<Tile>): seq<Tile> {
    if |s| >= 2 && InversionSum(Ids(s)) % 2 != 0 then Swap(s, 0, 1) else s
  }

  /** The whole shuffle. */
  function Shuffled(s: seq<Tile>, draws: seq<int>): seq<Tile>
    requires ValidDraws(|s|, draws)
  {
    ForcedSolvable(BlankToCorner(Randomized(s, draws)))
  }

  // ---------------------------------------------------------------------------
  // Lemmas

  /** Once the loop has handled position p it never touches it again: the
      last m positions are settled after the first m iterations. */
  lemma {:induction false} RandomizedSettlesSuffix(s: seq<Tile>, draws: seq<int>, m: nat, p: int)
    requires ValidDraws(|s|, draws) && m <= |draws| && |s| - m <= p < |s|
    ensures Randomized(s, draws)[p] == Randomized(s, draws[..m])[p]
    decreases |draws|
  {
    if m < |draws| {
      var d := draws[..|draws| - 1];
      assert ValidDraws(|s|, d);
      var prev := Randomized(s, d);
      var i, j := |s| - |draws|, draws[|draws| - 1];
      assert Randomized(s, draws) == Swap(prev, i, j);
      assert j < i < p;
      assert Randomized(s, draws)[p] == prev[p];
      RandomizedSettlesSuffix(s, d, m, p);
      assert d[..m] == draws[..m];
    } else {
      assert draws[..m] == draws;
    }
  }

  /** The last of the iterations run so far is a swap of the board the
      earlier ones left. */
  lemma RandomizedUnfold(s: seq<Tile>, d: seq<int>)
    requires ValidDraws(|s|, d) && |d| > 0
    ensures ValidDraws(|s|, d[..|d| - 1])
    ensures Randomized(s, d) == Swap(Randomized(s, d[..|d| - 1]), |s| - |d|, d[|d| - 1])
  {
  }

  /** A prefix of valid draws is valid. */
  lemma ValidDrawsPrefix(n: int, draws: seq<int>, m: nat)
    requires ValidDraws(n, draws) && m <= |draws|
    ensures ValidDraws(n, draws[..m])
  {
    assert forall k :: 0 <= k < m ==> draws[..m][k] == draws[k];
  }

  /** The randomize loop only rearranges the tiles. */
  lemma {:induction false} RandomizedPermutes(s: seq<Tile>, draws: seq<int>)
    requires ValidDraws(|s|, draws)
    ensures multiset(Randomized(s, draws)) == multiset(s)
    decreases |draws|
  {
    if draws != [] {
      RandomizedPermutes(s, draws[..|draws| - 1]);
    }
  }

  /** The randomize loop keeps the board in play. */
  lemma {:induction false} RandomizedArrangement(s: seq<Tile>, draws: seq<int>)
    requires IsArrangement(s) && ValidDraws(|s|, draws)
    ensures IsArrangement(Randomized(s, draws))
    decreases |draws|
  {
    if draws != [] {
      var k := |draws| - 1;
      var prev := Randomized(s, draws[..k]);
      RandomizedArrangement(s, draws[..k]);
      var b :| BlankAt(prev, b);
      SwapArrangement(prev, |s| - 1 - k, draws[k], b);
    }
  }

  /** With exactly one blank, the scan leaves it at the last position, the tile
      that was there takes the blank's old position, and nothing else moves. */
  lemma BlankToCornerEffect(s: seq<Tile>, b: int)
    requires IsArrangement(s) && BlankAt(s, b)
    ensures var t := BlankToCorner(s);
      && |t| == |s| && IsArrangement(t) && BlankAt(t, |s| - 1)
      && t[b] == s[|s| - 1]
      && forall k :: 0 <= k < |s| && k != b && k != |s| - 1 ==> t[k] == s[k]
  {
    FindBlankAt(s, b);
    SwapArrangement(s, b, |s| - 1, b);
  }

  /** One cell of the scan that moves the blank, on an n x n board whose
      blank is at b: up to the blank's cell the board is unchanged and the
      blank is met exactly at its own cell, where the exchange with the last
      cell gives the final board; in the rows after the blank's row the only
      blank left is in the corner, and exchanging it with itself changes
      nothing. */
  lemma ResetScanStep(s: seq<Tile>, b: int, n: int, r: int, c: int)
    requires 0 < n && |s| == n * n && IsArrangement(s) && BlankAt(s, b)
    requires 0 <= r < n && 0 <= c < n
    ensures 0 <= CellIndex(r, c, n) < |s|
    ensures r < b / n || (r == b / n && c <= b % n) ==>
      (s[CellIndex(r, c, n)].isEmpty <==> r == b / n && c == b % n)
    ensures r == b / n && c == b % n ==> Swap(s, CellIndex(r, c, n), |s| - 1) == BlankToCorner(s)
    ensures r > b / n && BlankToCorner(s)[CellIndex(r, c, n)].isEmpty ==>
      Swap(BlankToCorner(s), CellIndex(r, c, n), |s| - 1) == BlankToCorner(s)
  {
    CellIndexInRange(r, c, n, n);
    IndexOfCell(r, c, n);
    CellOfIndex(b, n, n);
    LastCell(n, r, c);
    FindBlankAt(s, b);
    BlankToCornerEffect(s, b);
    var t := BlankToCorner(s);
    var k := CellIndex(r, c, n);
    if k == |s| - 1 {
      assert Swap(t, k, |s| - 1) == t;
    }
  }

  /** When the source's sum is odd, exchanging the first two tiles of a
      board in play makes it even. */
  lemma SwapFrontMakesEven(s: seq<Tile>)
    requires IsArrangement(s) && |s| >= 2 && InversionSum(Ids(s)) % 2 != 0
    ensures Swap(s, 0, 1) != s
    ensures InversionSum(Ids(Swap(s, 0, 1))) % 2 == 0
  {
    var xs := Ids(s);
    PermutationValues(xs);
    assert xs[0] != xs[1];
    assert Ids(Swap(s, 0, 1)) == Swap(xs, 0, 1);
    SwapFrontChangesSum(xs);
    assert Swap(s, 0, 1)[0].orderIndex != s[0].orderIndex;
  }

  /** The parity correction swaps exactly when the source's sum is odd, leaves
      the sum and the inversion count even, keeps the board in play and leaves
      every position from the third on untouched. */
  lemma ForcedSolvableEffect(s: seq<Tile>)
    requires IsArrangement(s) && |s| >= 2
    ensures var t := ForcedSolvable(s);
      && IsArrangement(t)
      && (t == s <==> InversionSum(Ids(s)) % 2 == 0)
      && InversionSum(Ids(t)) % 2 == 0
      && InversionCount(Ids(t)) % 2 == 0
      && forall k :: 2 <= k < |s| ==> t[k] == s[k]
  {
    var t := ForcedSolvable(s);
    if InversionSum(Ids(s)) % 2 != 0 {
      var b :| BlankAt(s, b);
      SwapArrangement(s, 0, 1, b);
      SwapFrontMakesEven(s);
    }
    InversionSumIsInversionCount(Ids(t));
  }

  /** After the shuffle the board holds exactly the tiles it held before, is
      in play with the blank at the bottom-right, and both the source's sum
      and the inversion count are even. */
  lemma ShuffleGuarantees(s: seq<Tile>, draws: seq<int>)
    requires IsArrangement(s) && |s| >= 3 && ValidDraws(|s|, draws)
    ensures var t := Shuffled(s, draws);
      && multiset(t) == multiset(s)
      && IsArrangement(t) && BlankAt(t, |s| - 1)
      && InversionSum(Ids(t)) % 2 == 0
      && InversionCount(Ids(t)) % 2 == 0
  {
    var r := Randomized(s, draws);
    RandomizedPermutes(s, draws);
    RandomizedArrangement(s, draws);
    var b :| BlankAt(r, b);
    BlankToCornerEffect(r, b);
    FindBlankAt(r, b);
    SwapPermutes(r, b, |s| - 1);
    var c := BlankToCorner(r);
    assert multiset(c) == multiset(s);
    ForcedSolvableEffect(c);
    SwapPermutes(c, 0, 1);
    var t := ForcedSolvable(c);
    assert multiset(t) == multiset(c);
    assert BlankAt(t, |s| - 1);
  }

  /** The 3 x 3 board with its first two tiles exchanged has one inversion;
      the parity correction exchanges them back into the solved order. */
  lemma ForcedSolvableRestoresOrder()
    ensures ForcedSolvable(Swap(Initial(3), 0, 1)) == Initial(3)
  {
    var s := Swap(Initial(3), 0, 1);
    var xs := [1, 0, 2, 3, 4, 5, 6, 7, 8];
    assert Ids(s) == xs;
    forall k | 2 <= k < 9
      ensures SourceTerm(xs, k) == 0
    {
      assert xs[..k + 1] == Swap(Range(k + 1), 0, 1);
      SwapPermutes(Range(k + 1), 0, 1);
      CountLessMultiset(xs[..k + 1], Range(k + 1), k);
      CountLessRange(k + 1, k);
    }
    assert InversionSumUpTo(xs, 2) == 1;
    assert InversionSum(xs) == 1;
    assert Swap(s, 0, 1) == Initial(3);
  }
}
