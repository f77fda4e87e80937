/** The board the activity plays on: a grid of `rows` x `cols` cells, each
    holding one tile, stored in row-major order. Only the operations the
    activity calls are modelled; the board's own source is not part of this
    model. */
module Board {
  import opened PuzzleModel

  class PuzzleGameBoard {
    const rows: nat
    const cols: nat
    /** Cell (r, c) is tiles[r * cols + c]. */
    const tiles: array<Tile>

    ghost predicate Valid() {
      tiles.Length == rows * cols
    }

    /** The board read in row-major order. */
    ghost function Cells(): seq<Tile>
      reads this, tiles
    {
      tiles[..]
    }

    predicate InBounds(r: int, c: int) {
      0 <= r < rows && 0 <= c < cols
    }

    /** The array position of cell (r, c). */
    function Pos(r: int, c: int): (k: nat)
      requires Valid() && InBounds(r, c)
      ensures k == CellIndex(r, c, cols) && k < tiles.Length
    {
      CellIndexInRange(r, c, rows, cols);
      r * cols + c
    }

    /** A board of the given shape whose cells are not yet filled; every cell
        holds a placeholder tile until the activity sets it. */
    constructor (rows: nat, cols: nat)
      ensures Valid() && this.rows == rows && this.cols == cols
      ensures fresh(tiles)
      ensures forall k :: 0 <= k < tiles.Length ==> tiles[k] == Tile(0, false)
    {
      this.rows, this.cols := rows, cols;
      tiles := new Tile[rows * cols](_ => Tile(0, false));
    }

    function GetTile(r: int, c: int): Tile
      requires Valid() && InBounds(r, c)
      reads this, tiles
    {
      tiles[Pos(r, c)]
    }

    predicate IsEmptyTile(r: int, c: int)
      requires Valid() && InBounds(r, c)
      reads this, tiles
    {
      GetTile(r, c).isEmpty
    }

    /** Puts tile t into cell (r, c); no other cell changes. */
    method SetTile(t: Tile, r: int, c: int)
      requires Valid() && InBounds(r, c)
      modifies tiles
      ensures Cells() == old(Cells())[Pos(r, c) := t]
    {
      tiles[Pos(r, c)] := t;
    }

    /** Exchanges the tiles of two cells, flags included; no other cell
        changes. */
    method SwapTiles(r1: int, c1: int, r2: int, c2: int)
      requires Valid() && InBounds(r1, c1) && InBounds(r2, c2)
      modifies tiles
      ensures Cells() == Swap(old(Cells()), Pos(r1, c1), Pos(r2, c2))
    {
      var i, j := Pos(r1, c1), Pos(r2, c2);
      tiles[i], tiles[j] := tiles[j], tiles[i];
    }

    /** Sets the blank flag of the tile in cell (r, c), keeping its order
        index; no other cell changes. */
    method SetIsEmpty(r: int, c: int, isEmpty: bool)
      requires Valid() && InBounds(r, c)
      modifies tiles
      ensures Cells() == old(Cells())[Pos(r, c) := Tile(old(Cells())[Pos(r, c)].orderIndex, isEmpty)]
    {
      var k := Pos(r, c);
      tiles[k] := Tile(tiles[k].orderIndex, isEmpty);
    }
  }
}
