/** Values of the sliding-tile puzzle engine. A board of `rows` x `cols` cells is
    read in row-major order as a sequence of tiles: cell (r, c) is position
    `r * cols + c`. */
module PuzzleModel {

  /** A tile: its solved-position identity and whether it is the blank.
      The image a tile shows is opaque to the engine and is not modelled. */
  datatype Tile = Tile(orderIndex: int, isEmpty: bool)

  datatype Option<T> = None | Some(value: T)

  /** What the game is currently doing. */
  datatype GameState = NONE | PLAYING | WON

  /** Grid size used before the player picks one. */
  const DefaultBoardSize: int := 4
  /** Bounds the new-game dialog clamps the grid size into. */
  const MinBoardSize: int := 2
  const MaxBoardSize: int := 5

  function Abs(x: int): nat { if x < 0 then -x else x }

  // ---------------------------------------------------------------------------
  // Cells and their row-major positions

  /** Row-major position of cell (r, c) on a board with `cols` columns. */
  function CellIndex(r: int, c: int, cols: int): int { r * cols + c }

  lemma CellIndexInRange(r: int, c: int, rows: int, cols: int)
    requires 0 <= r < rows && 0 <= c < cols
    ensures 0 <= CellIndex(r, c, cols) < rows * cols
  {
    assert 0 <= r * cols;
    assert (r + 1) * cols <= rows * cols;
  }

  /** Position k of a board with `cols` columns is cell (k / cols, k % cols). */
  lemma CellOfIndex(k: int, rows: int, cols: int)
    requires 0 <= k < rows * cols && 0 < cols
    ensures 0 <= k / cols < rows && 0 <= k % cols < cols
    ensures CellIndex(k / cols, k % cols, cols) == k
  {
  }

  /** Cell (r, c) is recovered from its row-major position. */
  lemma IndexOfCell(r: int, c: int, cols: int)
    requires 0 <= r && 0 <= c < cols
    ensures CellIndex(r, c, cols) / cols == r && CellIndex(r, c, cols) % cols == c
  {
    var k := CellIndex(r, c, cols);
    var q, m := k / cols, k % cols;
    assert q * cols + m == r * cols + c;
    assert (r - q) * cols == m - c;
    assert r - q >= 1 ==> (r - q) * cols >= cols;
    assert q - r >= 1 ==> (q - r) * cols >= cols;
  }

  // ---------------------------------------------------------------------------
  // Sequences of tiles

  /** The exchange of the elements at positions i and j, the board's raw swap. */
  function Swap<T>(s: seq<T>, i: int, j: int): (r: seq<T>)
    requires 0 <= i < |s| && 0 <= j < |s|
    ensures |r| == |s| && r[i] == s[j] && r[j] == s[i]
    ensures forall k :: 0 <= k < |s| && k != i && k != j ==> r[k] == s[k]
  {
    s[i := s[j]][j := s[i]]
  }

  /** A swap only rearranges the elements. */
  lemma SwapPermutes<T>(s: seq<T>, i: int, j: int)
    requires 0 <= i < |s| && 0 <= j < |s|
    ensures multiset(Swap(s, i, j)) == multiset(s)
  {
  }

  /** The order indices of a row-major board. */
  function Ids(s: seq<Tile>): (r: seq<int>)
    ensures |r| == |s|
    ensures forall k :: 0 <= k < |s| ==> r[k] == s[k].orderIndex
  {
    seq(|s|, k requires 0 <= k < |s| => s[k].orderIndex)
  }

  /** 0, 1, ..., n - 1. */
  function Range(n: nat): (r: seq<int>)
    ensures |r| == n
    ensures forall k :: 0 <= k < n ==> r[k] == k
  {
    if n == 0 then [] else Range(n - 1) + [n - 1]
  }

  /** xs holds each of 0 .. |xs| - 1 exactly once. */
  ghost predicate IsPermutation(xs: seq<int>) {
    multiset(xs) == multiset(Range(|xs|))
  }

  /** Position b holds the blank and no other position does. */
  ghost predicate BlankAt(s: seq<Tile>, b: int) {
    0 <= b < |s| && forall k :: 0 <= k < |s| ==> (s[k].isEmpty <==> k == b)
  }

  /** Exactly one tile is the blank. */
  ghost predicate OneBlank(s: seq<Tile>) {
    exists b :: BlankAt(s, b)
  }

  /** A board in play: the order indices are a permutation of 0 .. N - 1 and
      exactly one tile is the blank. */
  ghost predicate IsArrangement(s: seq<Tile>) {
    IsPermutation(Ids(s)) && OneBlank(s)
  }

  /** The first position holding a blank, scanning in row-major order;
      |s| when there is none. */
  function FindBlank(s: seq<Tile>): (b: nat)
    ensures b <= |s|
    ensures forall k :: 0 <= k < b ==> !s[k].isEmpty
    ensures b < |s| ==> s[b].isEmpty
  {
    if |s| == 0 then 0
    else if s[0].isEmpty then 0
    else 1 + FindBlank(s[1..])
  }

  /** Every position k holds the tile whose order index is k. */
  predicate InOrder(s: seq<Tile>) {
    forall k :: 0 <= k < |s| ==> s[k].orderIndex == k
  }

  /** The freshly built n x n board: the tile at (r, c) has order index
      r * n + c and only the bottom-right one is blank. */
  function Initial(n: nat): (s: seq<Tile>)
    ensures |s| == n * n
  {
    seq(n * n, k => Tile(k, k == n * n - 1))
  }

  /** Edge adjacency of two cells. The board's neighbour test is not part of
      this model; this is the rule it is assumed to implement. */
  predicate AreTilesNeighbors(r1: int, c1: int, r2: int, c2: int) {
    Abs(r1 - r2) + Abs(c1 - c2) == 1
  }

  // ---------------------------------------------------------------------------
  // Lemmas

  /** Each value of a range occurs once, and nothing else occurs. */
  lemma {:induction false} RangeMultiplicity(n: nat, x: int)
    ensures multiset(Range(n))[x] == if 0 <= x < n then 1 else 0
  {
    if n > 0 {
      RangeMultiplicity(n - 1, x);
      assert multiset(Range(n)) == multiset(Range(n - 1)) + multiset{n - 1};
    }
  }

  /** A permutation of 0 .. N - 1 holds values in that range, none twice. */
  lemma PermutationValues(xs: seq<int>)
    requires IsPermutation(xs)
    ensures forall k :: 0 <= k < |xs| ==> 0 <= xs[k] < |xs|
    ensures forall i, j :: 0 <= i < j < |xs| ==> xs[i] != xs[j]
  {
    forall k | 0 <= k < |xs|
      ensures 0 <= xs[k] < |xs|
    {
      assert xs[k] in multiset(xs);
      RangeMultiplicity(|xs|, xs[k]);
    }
    forall i, j | 0 <= i < j < |xs|
      ensures xs[i] != xs[j]
    {
      if xs[i] == xs[j] {
        var x := xs[i];
        assert xs == xs[..i] + [x] + xs[i + 1..j] + [x] + xs[j + 1..];
        assert multiset(xs)[x] >= 2;
        RangeMultiplicity(|xs|, x);
        assert false;
      }
    }
  }

  /** The blank of a board is where the row-major scan finds it first. */
  lemma FindBlankAt(s: seq<Tile>, b: int)
    requires BlankAt(s, b)
    ensures FindBlank(s) == b
  {
    var f := FindBlank(s);
    assert s[b].isEmpty;
    if f < |s| {
      assert s[f].isEmpty;
    }
  }

  /** Setting a tile's blank flag to the value it already has changes
      nothing. */
  lemma SetFlagUnchanged(s: seq<Tile>, k: int, isEmpty: bool)
    requires 0 <= k < |s| && s[k].isEmpty == isEmpty
    ensures s[k := Tile(s[k].orderIndex, isEmpty)] == s
  {
    assert Tile(s[k].orderIndex, isEmpty) == s[k];
  }

  /** A swap keeps a board in play and carries the blank with it. */
  lemma SwapArrangement(s: seq<Tile>, i: int, j: int, b: int)
    requires IsArrangement(s) && BlankAt(s, b)
    requires 0 <= i < |s| && 0 <= j < |s|
    ensures IsArrangement(Swap(s, i, j))
    ensures BlankAt(Swap(s, i, j), if b == i then j else if b == j then i else b)
  {
    var t := Swap(s, i, j);
    assert Ids(t) == Swap(Ids(s), i, j);
    var b' := if b == i then j else if b == j then i else b;
    assert BlankAt(t, b');
  }

  /** The freshly built board is in play, in order, with the blank at the
      bottom-right. */
  lemma InitialArrangement(n: nat)
    requires n >= 1
    ensures IsArrangement(Initial(n)) && BlankAt(Initial(n), n * n - 1)
    ensures InOrder(Initial(n))
  {
    var s := Initial(n);
    assert Ids(s) == Range(n * n);
    assert BlankAt(s, n * n - 1);
  }

  /** On an n x n board the cell (r, c) is the last one exactly when it is the
      bottom-right corner. */
  lemma LastCell(n: int, r: int, c: int)
    requires 0 <= r < n && 0 <= c < n
    ensures CellIndex(r, c, n) == n * n - 1 <==> r == n - 1 && c == n - 1
  {
    if r < n - 1 {
      assert r * n <= (n - 2) * n;
      assert (n - 2) * n + n - 1 == n * n - n - 1;
    } else {
      assert r * n == n * n - n;
    }
  }
}
