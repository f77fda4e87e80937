/** The rules of play as functions of the row-major board: a click on a
    neighbour of the blank slides that tile into the blank, and the win check
    compares every cell's order index with the index the source expects. */
module Play {
  import opened PuzzleModel

  /** A click on position t of a board with n columns moves a tile: the first
      blank the row-major scan meets is an edge neighbour of t. */
  predicate CanMove(s: seq<Tile>, n: int, t: int)
    requires 0 < n
  {
    var b := FindBlank(s);
    b < |s| && AreTilesNeighbors(t / n, t % n, b / n, b % n)
  }

  /** The board after a click on position t: the clicked tile and the blank
      trade places when they are neighbours, otherwise nothing changes. */
  function Move(s: seq<Tile>, n: int, t: int): seq<Tile>
    requires 0 < n && 0 <= t < |s|
  {
    if CanMove(s, n, t) then Swap(s, t, FindBlank(s)) else s
  }

  /** The order index at cell (r, c) of a board with `cols` columns, or -1
      outside the board. */
  function IdAt(s: seq<Tile>, cols: int, r: int, c: int): int {
    var k := CellIndex(r, c, cols);
    if 0 <= k < |s| then s[k].orderIndex else -1
  }

  /** The win check as the source writes it: every cell (r, c) holds order
      index r * rows + c, the row count standing where the column count
      belongs. */
  ghost predicate WinCheck(s: seq<Tile>, rows: int, cols: int) {
    forall r, c :: 0 <= r < rows && 0 <= c < cols ==> IdAt(s, cols, r, c) == r * rows + c
  }

  // ---------------------------------------------------------------------------
  // Lemmas

  /** On a board in play a click moves a tile exactly when the clicked cell
      is an edge neighbour of the blank; the blank then sits at the clicked
      cell, the clicked tile at the blank's old cell, and nothing else
      changes. Otherwise the board is unchanged. */
  lemma MoveEffect(s: seq<Tile>, n: int, t: int, b: int)
    requires IsArrangement(s) && BlankAt(s, b) && 0 < n && 0 <= t < |s|
    ensures CanMove(s, n, t) <==> AreTilesNeighbors(t / n, t % n, b / n, b % n)
    ensures CanMove(s, n, t) ==>
      var m := Move(s, n, t);
      && t != b && IsArrangement(m) && BlankAt(m, t) && m[b] == s[t] && m[t] == s[b]
      && forall k :: 0 <= k < |s| && k != t && k != b ==> m[k] == s[k]
    ensures !CanMove(s, n, t) ==> Move(s, n, t) == s
  {
    FindBlankAt(s, b);
    if CanMove(s, n, t) {
      SwapArrangement(s, t, b, b);
    }
  }

  /** A click keeps the board in play, whether or not it moves a tile. */
  lemma MoveKeepsArrangement(s: seq<Tile>, n: int, t: int)
    requires IsArrangement(s) && 0 < n && 0 <= t < |s|
    ensures IsArrangement(Move(s, n, t))
  {
    var b :| BlankAt(s, b);
    MoveEffect(s, n, t, b);
  }

  /** One cell of the click handler's scan of an n x n board whose blank is
      at b, after a click on position t. Up to the blank's cell the blank is
      met exactly at its own cell, and there the neighbour test is the move
      rule; a move there is the exchange of t and b, after which the clicked
      tile is not blank and the clicked cell is. In the rows after the
      blank's row, a blank met is never a neighbour of the clicked cell. */
  lemma ClickScanStep(s: seq<Tile>, b: int, n: int, t: int, r: int, c: int)
    requires 0 < n && |s| == n * n && IsArrangement(s) && BlankAt(s, b) && 0 <= t < |s|
    requires 0 <= r < n && 0 <= c < n
    ensures 0 <= CellIndex(r, c, n) < |s|
    ensures r < b / n || (r == b / n && c <= b % n) ==>
      (s[CellIndex(r, c, n)].isEmpty <==> r == b / n && c == b % n)
    ensures r == b / n && c == b % n ==>
      (AreTilesNeighbors(t / n, t % n, r, c) <==> CanMove(s, n, t))
    ensures r == b / n && c == b % n && CanMove(s, n, t) ==>
      && Swap(s, t, CellIndex(r, c, n)) == Move(s, n, t)
      && !Move(s, n, t)[CellIndex(r, c, n)].isEmpty && Move(s, n, t)[t].isEmpty
    ensures r > b / n && Move(s, n, t)[CellIndex(r, c, n)].isEmpty ==>
      !AreTilesNeighbors(t / n, t % n, r, c)
  {
    CellIndexInRange(r, c, n, n);
    IndexOfCell(r, c, n);
    CellOfIndex(b, n, n);
    MoveEffect(s, n, t, b);
  }

  /** Clicking the cell the blank just left undoes a move. */
  lemma MoveUndo(s: seq<Tile>, n: int, t: int, b: int)
    requires IsArrangement(s) && BlankAt(s, b) && 0 < n && 0 <= t < |s|
    requires CanMove(s, n, t)
    ensures CanMove(Move(s, n, t), n, b)
    ensures Move(Move(s, n, t), n, b) == s
  {
    MoveEffect(s, n, t, b);
    var m := Move(s, n, t);
    FindBlankAt(m, t);
    assert Swap(m, b, t) == s;
  }

  /** On a square board the source's win check holds exactly when every
      position k holds the tile with order index k. */
  lemma WinCheckSquare(s: seq<Tile>, n: int)
    requires 0 <= n && |s| == n * n
    ensures WinCheck(s, n, n) <==> InOrder(s)
  {
    if WinCheck(s, n, n) && n > 0 {
      forall k | 0 <= k < |s|
        ensures s[k].orderIndex == k
      {
        CellOfIndex(k, n, n);
        assert IdAt(s, n, k / n, k % n) == (k / n) * n + k % n;
      }
    }
    if InOrder(s) {
      forall r, c | 0 <= r < n && 0 <= c < n
        ensures IdAt(s, n, r, c) == r * n + c
      {
        CellIndexInRange(r, c, n, n);
      }
    }
  }

  /** The source's win check depends on the board being square: on a board of
      2 rows and 3 columns it rejects the solved order. */
  lemma WinCheckNeedsSquare()
    ensures var s := seq(6, k => Tile(k, k == 5));
      InOrder(s) && !WinCheck(s, 2, 3)
  {
    var s := seq(6, k => Tile(k, k == 5));
    assert IdAt(s, 3, 1, 0) == 3 != 1 * 2 + 0;
  }

  /** On the solved 3 x 3 board, a click on cell (2, 1) slides tile 7 into the
      blank at (2, 2): the blank moves to (2, 1) and the board is no longer
      in order. */
  lemma ClickBesideBlank()
    ensures var m := Move(Initial(3), 3, 7);
      && m == Initial(3)[7 := Tile(8, true)][8 := Tile(7, false)]
      && !InOrder(m)
  {
    InitialArrangement(3);
    MoveEffect(Initial(3), 3, 7, 8);
    var m := Move(Initial(3), 3, 7);
    assert m[7].orderIndex == 8;
  }
}
