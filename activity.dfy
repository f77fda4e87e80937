/** The game activity: it builds a square board, shuffles it into a solvable
    arrangement, answers clicks on tiles by sliding them into the blank, and
    keeps the game state and the score. Views, bitmaps and dialogs are not
    modelled; the random choices of the shuffle are given as `draws`. */
module Activity {
  import opened PuzzleModel
  import opened Inversions
  import opened Shuffle
  import opened Play
  import opened Board

  /** The grid-size field of the new-game dialog rewrites a value below the
      minimum to the minimum and one above the maximum to the maximum. */
  function ClampGridSize(v: int): (r: int)
    ensures MinBoardSize <= r <= MaxBoardSize
    ensures MinBoardSize <= v <= MaxBoardSize ==> r == v
  {
    if v < MinBoardSize then MinBoardSize
    else if v > MaxBoardSize then MaxBoardSize
    else v
  }

  /** No allowed size is closer to the entered value than the clamped one. */
  lemma ClampGridSizeNearest(v: int, x: int)
    requires MinBoardSize <= x <= MaxBoardSize
    ensures Abs(ClampGridSize(v) - v) <= Abs(x - v)
  {
  }

  /** The grid size once the dialog is confirmed: an empty field keeps the
      current size, a number is taken as the field shows it, clamped. */
  function DialogGridSize(current: int, entered: Option<int>): int {
    match entered
    case None => current
    case Some(v) => ClampGridSize(v)
  }

  /** Builds the n x n board: cell (r, c) gets order index r * n + c and only
      the bottom-right cell holds the blank. */
  method NewPuzzleBoard(n: nat) returns (b: PuzzleGameBoard)
    ensures fresh(b) && fresh(b.tiles)
    ensures b.Valid() && b.rows == n && b.cols == n
    ensures b.Cells() == Initial(n)
    ensures n >= 1 ==> IsArrangement(b.Cells()) && InOrder(b.Cells())
  {
    b := new PuzzleGameBoard(n, n);
    ghost var p := 0;
    for r := 0 to b.rows
      invariant p == r * n && p <= n * n
      invariant forall k :: 0 <= k < p ==> b.tiles[k] == Initial(n)[k]
    {
      for c := 0 to b.cols
        invariant p == r * n + c && p <= n * n
        invariant forall k :: 0 <= k < p ==> b.tiles[k] == Initial(n)[k]
      {
        CellIndexInRange(r, c, n, n);
        LastCell(n, r, c);
        var isEmpty := false;
        if r == n - 1 && c == n - 1 {
          isEmpty := true;
        }
        b.SetTile(Tile(r * n + c, isEmpty), r, c);
        p := p + 1;
      }
      assert p == (r + 1) * n;
    }
    assert b.Cells() == Initial(n);
    if n >= 1 {
      InitialArrangement(n);
    }
  }

  class PuzzleGameActivity {
    /** The board has boardSize x boardSize cells. */
    var boardSize: int
    var board: PuzzleGameBoard
    var state: GameState
    var score: int

    /** A session in play: the size is one the dialog allows, the board is
        square of that size, its order indices are a permutation of
        0 .. N - 1 with exactly one blank, and the score is not negative. */
    ghost predicate Valid()
      reads this, board, board.tiles
    {
      && MinBoardSize <= boardSize <= MaxBoardSize
      && board.rows == boardSize && board.cols == boardSize && board.Valid()
      && IsArrangement(board.Cells())
      && score >= 0
    }

    /** The activity as created, with the board built but not yet shuffled. */
    constructor ()
      ensures Valid() && fresh(board) && fresh(board.tiles)
      ensures boardSize == DefaultBoardSize && state == NONE && score == 0
      ensures board.Cells() == Initial(DefaultBoardSize)
    {
      boardSize := DefaultBoardSize;
      state := NONE;
      score := 0;
      var b := NewPuzzleBoard(DefaultBoardSize);
      board := b;
    }

    /** The win test: every cell (r, c) holds order index r * rowCount + c,
        which on the square board means every position holds its own tile. */
    method HasWonGame() returns (won: bool)
      requires board.Valid() && board.rows == board.cols
      ensures won <==> WinCheck(board.Cells(), board.rows, board.cols)
      ensures won <==> InOrder(board.Cells())
    {
      WinCheckSquare(board.Cells(), board.rows);
      var rowCount, colCount := board.rows, board.cols;
      for r := 0 to rowCount
        invariant forall r', c' :: 0 <= r' < r && 0 <= c' < colCount ==>
          IdAt(board.Cells(), colCount, r', c') == r' * rowCount + c'
      {
        for c := 0 to colCount
          invariant forall r', c' :: (0 <= r' < r && 0 <= c' < colCount) || (r' == r && 0 <= c' < c) ==>
            IdAt(board.Cells(), colCount, r', c') == r' * rowCount + c'
        {
          var tileIndex := board.GetTile(r, c).orderIndex;
          assert IdAt(board.Cells(), colCount, r, c) == tileIndex;
          if tileIndex != r * rowCount + c {
            return false;
          }
        }
      }
      return true;
    }

    /** The win bookkeeping: a won board sets the state to WON and adds one
        to the score; otherwise neither changes. */
    method UpdateGameState()
      requires board.Valid() && board.rows == board.cols
      modifies this`state, this`score
      ensures InOrder(board.Cells()) ==> state == WON && score == old(score) + 1
      ensures !InOrder(board.Cells()) ==> state == old(state) && score == old(score)
    {
      var won := HasWonGame();
      if won {
        state := WON;
        score := score + 1;
      }
    }

    /** The solvability sum: for each position in row-major order, its order
        index minus how many of the indices read so far are below it. On a
        board in play this is the number of inverted pairs. */
    method SumInversions() returns (sum: int)
      requires board.Valid() && IsPermutation(Ids(board.Cells()))
      ensures sum == InversionSum(Ids(board.Cells()))
      ensures sum == InversionCount(Ids(board.Cells()))
    {
      var rowCount, colCount := board.rows, board.cols;
      ghost var xs := Ids(board.Cells());
      ghost var p := 0;
      var prev: seq<int> := [];
      sum := 0;
      for r := 0 to rowCount
        invariant p == r * colCount && p <= |xs|
        invariant prev == xs[..p]
        invariant sum == InversionSumUpTo(xs, p)
      {
        for c := 0 to colCount
          invariant p == r * colCount + c && p <= |xs|
          invariant prev == xs[..p]
          invariant sum == InversionSumUpTo(xs, p)
        {
          CellIndexInRange(r, c, rowCount, colCount);
          var id := board.GetTile(r, c).orderIndex;
          assert id == xs[p];
          prev := prev + [id];
          assert prev == xs[..p + 1];
          var inv := id;
          for k := 0 to |prev|
            invariant inv == id - CountLess(prev[..k], id)
          {
            CountLessPrefix(prev, k, id);
            if prev[k] < id {
              inv := inv - 1;
            }
          }
          assert prev[..|prev|] == prev;
          sum := sum + inv;
          p := p + 1;
        }
        assert p == (r + 1) * colCount;
      }
      InversionSumIsInversionCount(xs);
    }

    /** The board counts as solvable when the sum is even. */
    method IsSolvable() returns (solvable: bool)
      requires Valid()
      ensures solvable <==> InversionSum(Ids(board.Cells())) % 2 == 0
      ensures solvable <==> InversionCount(Ids(board.Cells())) % 2 == 0
    {
      var sum := SumInversions();
      solvable := sum % 2 == 0;
    }

    /** When the sum is odd, exchanges the tiles of cells (0, 0) and (0, 1). */
    method ForceSolvable()
      requires Valid()
      modifies board.tiles
      ensures Valid()
      ensures board.Cells() == ForcedSolvable(old(board.Cells()))
    {
      ForcedSolvableEffect(board.Cells());
      var solvable := IsSolvable();
      if solvable {
        return;
      }
      board.SwapTiles(0, 0, 0, 1);
    }

    /** Scans the board row by row; in each row the first blank met is
        exchanged with the bottom-right cell and the rest of that row is
        skipped. The scan goes on with the next rows, so it meets the blank
        again in the corner and exchanges the corner with itself. */
    method ResetEmptyTileLocation()
      requires Valid()
      modifies board.tiles
      ensures Valid()
      ensures board.Cells() == BlankToCorner(old(board.Cells()))
    {
      var rowCount, colCount := board.rows, board.cols;
      ghost var s0 := board.Cells();
      ghost var b :| BlankAt(s0, b);
      ghost var s1 := BlankToCorner(s0);
      BlankToCornerEffect(s0, b);
      CellOfIndex(b, rowCount, colCount);
      LastCell(colCount, rowCount - 1, colCount - 1);
      assert board.Pos(rowCount - 1, colCount - 1) == |s0| - 1;
      ghost var br, bc := b / colCount, b % colCount;
      for r := 0 to rowCount
        invariant r <= br ==> board.Cells() == s0
        invariant r > br ==> board.Cells() == s1
      {
        for c := 0 to colCount
          invariant r == br ==> c <= bc
          invariant r <= br ==> board.Cells() == s0
          invariant r > br ==> board.Cells() == s1
        {
          ResetScanStep(s0, b, colCount, r, c);
          ghost var k := CellIndex(r, c, colCount);
          ghost var before := board.Cells();
          if board.IsEmptyTile(r, c) {
            assert before[k].isEmpty;
            board.SwapTiles(r, c, rowCount - 1, colCount - 1);
            assert board.Cells() == Swap(before, k, |s0| - 1);
            break;
          }
        }
      }
    }

    /** The randomize loop, for i = N - 1 down to 1: exchanges position i
        with the position draws picks below it; then the blank goes to the
        bottom-right cell and the parity is corrected. */
    method ShufflePuzzleTiles(draws: seq<int>)
      requires Valid()
      requires |draws| == boardSize * boardSize - 1 && ValidDraws(boardSize * boardSize, draws)
      modifies board.tiles
      ensures Valid()
      ensures board.Cells() == Shuffled(old(board.Cells()), draws)
    {
      ghost var s0 := board.Cells();
      var n := boardSize;
      var i := n * n - 1;
      assert draws[..0] == [];
      while i > 0
        invariant 0 <= i <= n * n - 1
        invariant ValidDraws(|s0|, draws[..n * n - 1 - i])
        invariant board.Cells() == Randomized(s0, draws[..n * n - 1 - i])
      {
        var m := n * n - 1 - i;
        var j := draws[m];
        var ci, ri := i % n, i / n;
        var cj, rj := j % n, j / n;
        CellOfIndex(i, n, n);
        CellOfIndex(j, n, n);
        ghost var d := draws[..m + 1];
        ValidDrawsPrefix(|s0|, draws, m + 1);
        RandomizedUnfold(s0, d);
        assert d[..m] == draws[..m];
        board.SwapTiles(ri, ci, rj, cj);
        i := i - 1;
      }
      assert i == 0;
      assert draws[..n * n - 1 - i] == draws;
      ghost var s1 := board.Cells();
      assert s1 == Randomized(s0, draws);
      RandomizedArrangement(s0, draws);
      assert IsArrangement(s1);
      ResetEmptyTileLocation();
      ghost var s2 := board.Cells();
      ForceSolvable();
      assert board.Cells() == ForcedSolvable(s2);
    }

    /** The exchange a click makes once the blank at (r, c) is found to be a
        neighbour of the clicked cell (rTile, cTile): the two cells trade
        tiles, the blank flags are set again (to what they already are on a
        board with one blank) and the game state is updated. */
    method SlideTile(rTile: int, cTile: int, r: int, c: int)
      requires Valid() && board.InBounds(rTile, cTile) && board.InBounds(r, c)
      requires board.IsEmptyTile(r, c) && (rTile, cTile) != (r, c)
      modifies board.tiles, this`state, this`score
      ensures Valid()
      ensures board.Cells() == Swap(old(board.Cells()), board.Pos(rTile, cTile), board.Pos(r, c))
      ensures InOrder(board.Cells()) ==> state == WON && score == old(score) + 1
      ensures !InOrder(board.Cells()) ==> state == old(state) && score == old(score)
    {
      ghost var s0 := board.Cells();
      ghost var b :| BlankAt(s0, b);
      ghost var k, t := board.Pos(r, c), board.Pos(rTile, cTile);
      IndexOfCell(r, c, boardSize);
      IndexOfCell(rTile, cTile, boardSize);
      SwapArrangement(s0, t, k, b);
      ghost var s1 := Swap(s0, t, k);
      board.SwapTiles(rTile, cTile, r, c);
      SetFlagUnchanged(s1, k, false);
      board.SetIsEmpty(r, c, false);
      SetFlagUnchanged(s1, t, true);
      board.SetIsEmpty(rTile, cTile, true);
      UpdateGameState();
    }

    /** A click on the tile view with id tileId, the cell
        (tileId / boardSize, tileId % boardSize). The board is scanned row by
        row; the first blank met in a row ends that row, and when it is an
        edge neighbour of the clicked cell the tile slides into it. The scan
        goes on with the next rows. */
    method OnTileClick(tileId: int)
      requires Valid() && 0 <= tileId < boardSize * boardSize
      modifies board.tiles, this`state, this`score
      ensures Valid()
      ensures board.Cells() == Move(old(board.Cells()), old(boardSize), tileId)
      ensures CanMove(old(board.Cells()), boardSize, tileId) && InOrder(board.Cells()) ==>
        state == WON && score == old(score) + 1
      ensures !(CanMove(old(board.Cells()), boardSize, tileId) && InOrder(board.Cells())) ==>
        state == old(state) && score == old(score)
    {
      var n := boardSize;
      var rTile, cTile := tileId / n, tileId % n;
      var rowCount, colCount := board.rows, board.cols;
      ghost var s0 := board.Cells();
      ghost var b :| BlankAt(s0, b);
      CellOfIndex(tileId, n, n);
      CellOfIndex(b, n, n);
      assert board.Pos(rTile, cTile) == tileId;
      ghost var s1 := Move(s0, n, tileId);
      MoveKeepsArrangement(s0, n, tileId);
      ghost var won := CanMove(s0, n, tileId) && InOrder(s1);
      ghost var state1 := if won then WON else state;
      ghost var score1 := if won then score + 1 else score;
      ghost var br, bc := b / n, b % n;
      for r := 0 to rowCount
        invariant r <= br ==> board.Cells() == s0 && state == old(state) && score == old(score)
        invariant r > br ==> board.Cells() == s1 && state == state1 && score == score1
      {
        for c := 0 to colCount
          invariant r == br ==> c <= bc
          invariant r <= br ==> board.Cells() == s0 && state == old(state) && score == old(score)
          invariant r > br ==> board.Cells() == s1 && state == state1 && score == score1
        {
          ClickScanStep(s0, b, n, tileId, r, c);
          ghost var k := CellIndex(r, c, n);
          ghost var before := board.Cells();
          if board.IsEmptyTile(r, c) {
            assert before[k].isEmpty;
            if AreTilesNeighbors(rTile, cTile, r, c) {
              SlideTile(rTile, cTile, r, c);
            }
            assert board.Cells() == s1 && state == state1 && score == score1;
            break;
          }
        }
      }
    }

    /** What the layout callback does once the views exist: shuffle, update
        the game state, then set it to PLAYING whatever the update found. */
    method OnGlobalLayout(draws: seq<int>)
      requires Valid()
      requires |draws| == boardSize * boardSize - 1 && ValidDraws(boardSize * boardSize, draws)
      modifies board.tiles, this`state, this`score
      ensures Valid()
      ensures board.Cells() == Shuffled(old(board.Cells()), draws)
      ensures state == PLAYING
      ensures score == old(score) + if InOrder(board.Cells()) then 1 else 0
    {
      ShufflePuzzleTiles(draws);
      UpdateGameState();
      state := PLAYING;
    }

    /** A new game: a fresh board of the current size in solved order,
        shuffled, the game state updated and then set to PLAYING. */
    method StartNewGame(draws: seq<int>)
      requires MinBoardSize <= boardSize <= MaxBoardSize && score >= 0
      requires |draws| == boardSize * boardSize - 1 && ValidDraws(boardSize * boardSize, draws)
      modifies this
      ensures Valid() && fresh(board) && fresh(board.tiles)
      ensures boardSize == old(boardSize)
      ensures board.Cells() == Shuffled(Initial(boardSize), draws)
      ensures state == PLAYING
      ensures score == old(score) + if InOrder(board.Cells()) then 1 else 0
    {
      board := NewPuzzleBoard(boardSize);
      ShufflePuzzleTiles(draws);
      UpdateGameState();
      state := PLAYING;
    }

    /** The dialog's OK button: a non-empty grid-size field sets the size
        (clamped into the allowed range), then a new game starts. */
    method ConfirmNewGame(entered: Option<int>, draws: seq<int>)
      requires Valid()
      requires var n := DialogGridSize(boardSize, entered);
        |draws| == n * n - 1 && ValidDraws(n * n, draws)
      modifies this
      ensures Valid() && fresh(board) && fresh(board.tiles)
      ensures boardSize == DialogGridSize(old(boardSize), entered)
      ensures board.Cells() == Shuffled(Initial(boardSize), draws)
      ensures state == PLAYING
      ensures score == old(score) + if InOrder(board.Cells()) then 1 else 0
    {
      if entered.Some? {
        boardSize := ClampGridSize(entered.value);
      }
      StartNewGame(draws);
    }
  }
}
