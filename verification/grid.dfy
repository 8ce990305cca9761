/**
  The board of the same-game grid engine and its read-only queries.

  A board is a sequence of columns; a column is a sequence of cells indexed
  from the bottom (y = 0). A cell holds a tile of some colour or is null
  (its tile was removed). Columns may have different lengths once play has
  started. Every query here is total: asking about a cell that is not on the
  board gives a negative answer, never an error.
 */
module Grid {
  import opened Filtering

  datatype Cell = Null | Tile(colour: int)
  type Column = seq<Cell>
  type Board = seq<Column>

  /** A position on the board: column `x`, row `y` counted from the bottom. */
  datatype Pos = Pos(x: int, y: int)

  predicate IsTile(c: Cell) {
    c.Tile?
  }

  predicate IsTileAt(col: Column, y: int) {
    0 <= y < |col| && col[y].Tile?
  }

  /** A column holding no tile at all (every cell null, or no cells). */
  predicate ColumnEmpty(col: Column) {
    forall y :: 0 <= y < |col| ==> col[y].Null?
  }

  /** The positions of all tiles on the board. */
  ghost function Cells(b: Board): set<Pos> {
    set x, y | 0 <= x < |b| && 0 <= y < |b[x]| && b[x][y].Tile? :: Pos(x, y)
  }

  function Abs(n: int): nat {
    if n < 0 then -n else n
  }

  /** Orthogonal (4-)neighbours. */
  predicate Adjacent(p: Pos, q: Pos) {
    Abs(p.x - q.x) + Abs(p.y - q.y) == 1
  }

  /** The four neighbours in the order the engine visits them:
      below, above, left, right. */
  function Neighbours(p: Pos): seq<Pos> {
    [Pos(p.x, p.y - 1), Pos(p.x, p.y + 1), Pos(p.x - 1, p.y), Pos(p.x + 1, p.y)]
  }

  /** The four listed neighbours are exactly the orthogonal neighbours. */
  lemma NeighboursAreAdjacent(p: Pos)
    ensures forall q :: Adjacent(p, q) <==> q in Neighbours(p)
  {
  }

  /** `exists(x, y)`: the column is there, the row is inside it, and the
      cell has not been removed. False for every position off the board. */
  function Exists(b: Board, x: int, y: int): (r: bool)
    ensures r ==> 0 <= x < |b| && 0 <= y < |b[x]|
    ensures r <==> Pos(x, y) in Cells(b)
  {
    0 <= x < |b| && IsTileAt(b[x], y)
  }

  /** `checkValue(x, y, num)`: a tile of colour `num` is at (x, y). */
  function CheckValue(b: Board, x: int, y: int, num: int): (r: bool)
    ensures r ==> Exists(b, x, y)
  {
    Exists(b, x, y) && b[x][y] == Tile(num)
  }

  /** `getValue(x, y)`: the cell at (x, y); null for a missing column or a
      row outside the column. */
  function GetValue(b: Board, x: int, y: int): (r: Cell)
    ensures r.Tile? <==> Exists(b, x, y)
    ensures forall num :: r == Tile(num) <==> CheckValue(b, x, y, num)
  {
    if 0 <= x < |b| && 0 <= y < |b[x]| then b[x][y] else Null
  }

  /** `getColumn(i)`: column `i`, or an empty column when there is none. */
  function GetColumn(b: Board, i: int): (r: Column)
    ensures forall y :: IsTileAt(r, y) <==> Exists(b, i, y)
    ensures 0 <= i < |b| ==> r == b[i]
    ensures !(0 <= i < |b|) ==> |r| == 0
  {
    if 0 <= i < |b| then b[i] else []
  }

  /** Two tiles of the same colour at `p` and `q`. */
  predicate SameColour(b: Board, p: Pos, q: Pos) {
    Exists(b, p.x, p.y) && CheckValue(b, q.x, q.y, b[p.x][p.y].colour)
  }

  /** `isDestroyable(x, y)`: a tile is there and one of its four neighbours,
      checked below, above, right, left, holds a tile of the same colour. */
  function IsDestroyable(b: Board, x: int, y: int): (r: bool)
    ensures r ==> Exists(b, x, y)
    ensures r <==> exists q :: Adjacent(Pos(x, y), q) && SameColour(b, Pos(x, y), q)
  {
    var p := Pos(x, y);
    if !Exists(b, x, y) then false
    else
      var num := b[x][y].colour;
      var below := CheckValue(b, x, y - 1, num);
      var above := CheckValue(b, x, y + 1, num);
      var right := CheckValue(b, x + 1, y, num);
      var left := CheckValue(b, x - 1, y, num);
      assert below == SameColour(b, p, Pos(x, y - 1));
      assert above == SameColour(b, p, Pos(x, y + 1));
      assert right == SameColour(b, p, Pos(x + 1, y));
      assert left == SameColour(b, p, Pos(x - 1, y));
      NeighboursAreAdjacent(p);
      below || above || right || left
  }

  /** `arrayClean` on a column: its tiles, in order, with the nulls dropped. */
  function ArrayClean(col: Column): (r: Column)
    ensures |r| <= |col|
    ensures forall i :: 0 <= i < |r| ==> r[i].Tile?
  {
    Filter(col, IsTile)
  }

  /** Number of tiles on the board. */
  function TileCount(b: Board): nat
    decreases |b|
  {
    if b == [] then 0 else TileCount(b[..|b| - 1]) + |ArrayClean(b[|b| - 1])|
  }

  /** Every column is no taller than `height`, the height the board was
      generated with. Columns only ever shrink, so this holds throughout a game. */
  predicate WithinHeight(b: Board, height: int) {
    forall x :: 0 <= x < |b| ==> |b[x]| <= height
  }

  /** No column holds a null cell. */
  predicate NoHoles(b: Board) {
    forall x, y :: 0 <= x < |b| && 0 <= y < |b[x]| ==> b[x][y].Tile?
  }

  /** Fully packed: no null cell and no column without cells. */
  predicate Dense(b: Board) {
    NoHoles(b) && forall x :: 0 <= x < |b| ==> |b[x]| > 0
  }

  function Max0(n: int): nat {
    if n < 0 then 0 else n
  }

  /** One colour draw, `Math.floor(nbColors * Math.random())`, for a random
      number `roll` in [0, 1). */
  function Draw(nbColors: int, roll: real): (c: int)
    ensures c as real <= nbColors as real * roll < c as real + 1.0
    ensures nbColors <= 0 && 0.0 <= roll < 1.0 ==> nbColors <= c <= 0
  {
    var n := nbColors as real;
    if nbColors <= 0 && 0.0 <= roll < 1.0 then
      ScaleNonPositive(n, roll);
      FloorOf(n * roll)
    else
      FloorOf(n * roll)
  }

  /** The largest integer not above `a`. */
  function FloorOf(a: real): (r: int)
    ensures r as real <= a < r as real + 1.0
  {
    a.Floor
  }

  /** A scale of at most zero times a number in [0, 1) lies in [scale, 0]. */
  lemma ScaleNonPositive(n: real, r: real)
    requires n <= 0.0 && 0.0 <= r < 1.0
    ensures n <= n * r <= 0.0
  {
    assert (-n) * r >= 0.0;
    assert (-n) * (1.0 - r) >= 0.0;
  }

  lemma DrawRange(nbColors: int, roll: real)
    requires nbColors >= 1 && 0.0 <= roll < 1.0
    ensures 0 <= Draw(nbColors, roll) < nbColors
  {
    var n := nbColors as real;
    assert 0.0 <= n * roll;
    assert n * roll < n * 1.0 by {
      assert n * (1.0 - roll) > 0.0;
    }
  }

  lemma MulSucc(a: nat, h: nat)
    ensures (a + 1) * h == a * h + h
  {
  }

  /** One generated column: a tile per draw, bottom to top. */
  function GenerateColumn(nbColors: int, rolls: seq<real>): (col: Column)
    requires forall i :: 0 <= i < |rolls| ==> 0.0 <= rolls[i] < 1.0
    ensures |col| == |rolls|
    ensures forall y :: 0 <= y < |col| ==> col[y].Tile?
    ensures nbColors >= 1 ==> forall y :: 0 <= y < |col| ==> 0 <= col[y].colour < nbColors
    ensures nbColors == 0 ==> forall y :: 0 <= y < |col| ==> col[y].colour == 0
  {
    var col := seq(|rolls|, y requires 0 <= y < |rolls| => Tile(Draw(nbColors, rolls[y])));
    assert nbColors >= 1 ==> forall y :: 0 <= y < |col| ==> 0 <= col[y].colour < nbColors by {
      if nbColors >= 1 {
        forall y | 0 <= y < |col|
          ensures 0 <= col[y].colour < nbColors
        {
          DrawRange(nbColors, rolls[y]);
        }
      }
    }
    col
  }

  /** `generate(width, height, nbColors)`: a fresh, full, rectangular board.
      The engine draws the colours column by column, bottom to top; its random
      numbers are supplied here as `rolls`, `rolls[x][y]` being the draw for
      cell (x, y). A negative width or height gives no columns or empty
      columns, as the engine's counting loops do; `nbColors` is not validated. */
  function Generate(width: int, height: int, nbColors: int, rolls: seq<seq<real>>): (b: Board)
    requires |rolls| == Max0(width)
    requires forall x :: 0 <= x < |rolls| ==> |rolls[x]| == Max0(height)
    requires forall x, y :: 0 <= x < |rolls| && 0 <= y < |rolls[x]| ==> 0.0 <= rolls[x][y] < 1.0
    ensures |b| == Max0(width)
    ensures forall x :: 0 <= x < |b| ==> |b[x]| == Max0(height)
    ensures NoHoles(b) && WithinHeight(b, Max0(height))
    ensures TileCount(b) == Max0(width) * Max0(height)
    ensures nbColors >= 1 ==>
              forall x, y :: 0 <= x < |b| && 0 <= y < |b[x]| ==> 0 <= b[x][y].colour < nbColors
    ensures nbColors == 0 ==>
              forall x, y :: 0 <= x < |b| && 0 <= y < |b[x]| ==> b[x][y].colour == 0
  {
    var b := seq(|rolls|, x requires 0 <= x < |rolls| => GenerateColumn(nbColors, rolls[x]));
    FullBoardTileCount(b, Max0(width), Max0(height));
    b
  }

  /** A board of `w` full columns of height `h` holds `w * h` tiles. */
  lemma {:induction false} FullBoardTileCount(b: Board, w: nat, h: nat)
    requires |b| == w && NoHoles(b)
    requires forall x :: 0 <= x < w ==> |b[x]| == h
    ensures TileCount(b) == w * h
    decreases w
  {
    if w > 0 {
      var init := b[..w - 1];
      var last := b[w - 1];
      assert forall x :: 0 <= x < w - 1 ==> init[x] == b[x];
      FullBoardTileCount(init, w - 1, h);
      assert forall y :: 0 <= y < |last| ==> IsTile(last[y]);
      FilterKeepsAll(last, IsTile);
      assert TileCount(b) == TileCount(init) + |last|;
      MulSucc(w - 1, h);
    }
  }

  lemma ColumnEmptyIffNoTiles(col: Column)
    ensures ColumnEmpty(col) <==> |ArrayClean(col)| == 0
  {
    if !ColumnEmpty(col) {
      var y :| 0 <= y < |col| && col[y].Tile?;
      FilterRank(col, y, IsTile);
    } else {
      FilterKeepsNone(col, IsTile);
    }
  }

  /** A column's tile count as `Filter` sees it: one per tile cell. */
  lemma {:induction false} CleanLengthAfterNull(col: Column, y: int)
    requires 0 <= y < |col| && col[y].Tile?
    ensures |ArrayClean(col[y := Null])| == |ArrayClean(col)| - 1
  {
    var col' := col[y := Null];
    assert col == col[..y] + [col[y]] + col[y + 1..];
    assert col' == col[..y] + [Null] + col[y + 1..];
    FilterAppend(col[..y] + [col[y]], col[y + 1..], IsTile);
    FilterAppend(col[..y], [col[y]], IsTile);
    FilterAppend(col[..y] + [Null], col[y + 1..], IsTile);
    FilterAppend(col[..y], [Null], IsTile);
    assert Filter([col[y]], IsTile) == [col[y]] by {
      assert [col[y]][..0] == [];
    }
    assert Filter([Null], IsTile) == [] by {
      assert [Null][..0] == [];
    }
  }

  /** Replacing one column changes the tile count by that column's difference. */
  lemma {:induction false} TileCountUpdate(b: Board, x: int, col: Column)
    requires 0 <= x < |b|
    ensures TileCount(b[x := col]) == TileCount(b) - |ArrayClean(b[x])| + |ArrayClean(col)|
    decreases |b|
  {
    var n := |b| - 1;
    var b' := b[x := col];
    if x < n {
      assert b'[..n] == b[..n][x := col];
      TileCountUpdate(b[..n], x, col);
    } else {
      assert b'[..n] == b[..n];
    }
  }

  /** A fully packed board has tiles exactly when it has columns. */
  lemma DenseTileCount(b: Board)
    requires Dense(b)
    ensures |b| == 0 <==> TileCount(b) == 0
  {
    if |b| > 0 {
      var last := b[|b| - 1];
      assert IsTileAt(last, 0);
      FilterRank(last, 0, IsTile);
    }
  }

  /** Tile count of a board built by appending one column. */
  lemma TileCountSnoc(b: Board, col: Column)
    ensures TileCount(b + [col]) == TileCount(b) + |ArrayClean(col)|
  {
    assert (b + [col])[..|b|] == b;
  }

  /** The tile positions of one column, placed at column `x`. */
  ghost function ColumnCells(col: Column, x: int): set<Pos> {
    set y | 0 <= y < |col| && col[y].Tile? :: Pos(x, y)
  }

  /** A column's cleaned length is the number of its tile cells. */
  lemma {:induction false} ColumnCellsCount(col: Column, x: int)
    ensures |ColumnCells(col, x)| == |ArrayClean(col)|
    decreases |col|
  {
    if col != [] {
      var n := |col| - 1;
      ColumnCellsCount(col[..n], x);
      if col[n].Tile? {
        assert ColumnCells(col, x) == ColumnCells(col[..n], x) + {Pos(x, n)};
        assert Pos(x, n) !in ColumnCells(col[..n], x);
      } else {
        assert ColumnCells(col, x) == ColumnCells(col[..n], x);
      }
    }
  }

  /** The tile count is the number of tile positions on the board. */
  lemma {:induction false} TileCountIsCells(b: Board)
    ensures TileCount(b) == |Cells(b)|
    decreases |b|
  {
    if b != [] {
      var n := |b| - 1;
      TileCountIsCells(b[..n]);
      ColumnCellsCount(b[n], n);
      assert Cells(b) == Cells(b[..n]) + ColumnCells(b[n], n);
      assert Cells(b[..n]) !! ColumnCells(b[n], n);
    }
  }
}
