/**
  Gravity after a removal: `computeGravity`, `applyMoveVertical` and
  `applyMoveHorizontal`.

  The engine first describes the coming compaction as a move map, for the
  animation, and only then compacts its storage in two passes: tiles fall
  inside their column, then empty columns disappear and the columns to their
  right slide left. The lemmas at the end tie the two together: applying the
  passes puts every tile exactly where the move map says it goes.
 */
module Gravity {
  import opened Filtering
  import opened Grid

  /** A tile that falls: it sits at row `y` and drops by `dy` rows. */
  datatype Fall = Fall(y: int, dy: int)

  /** `horizontal[x]` is the (non-positive) column shift of column `x`;
      `vertical[x]` lists the falling tiles of column `x`, bottom to top. */
  datatype MoveMap = MoveMap(horizontal: seq<int>, vertical: seq<seq<Fall>>)

  /** Missing cells strictly below row `y`; rows past the top of the column
      count as missing, as the engine's scan sees them. */
  function Gaps(col: Column, y: int): nat
    decreases y
  {
    if y <= 0 then 0 else Gaps(col, y - 1) + (if IsTileAt(col, y - 1) then 0 else 1)
  }

  /** Columns without any tile strictly left of column `c`. */
  function EmptyBefore(b: Board, c: int): nat
    requires c <= |b|
    decreases c
  {
    if c <= 0 then 0 else EmptyBefore(b, c - 1) + (if ColumnEmpty(b[c - 1]) then 1 else 0)
  }

  /** The tile at row `y` of `col` has missing cells under it. */
  predicate Falls(col: Column, y: int) {
    IsTileAt(col, y) && Gaps(col, y) > 0
  }

  /** `v` lists, bottom to top, every tile of `col` below row `height` that
      has missing cells under it, each with the number of those cells. */
  ghost predicate FallsOf(col: Column, height: int, v: seq<Fall>) {
    && (forall i :: 0 <= i < |v| ==>
          0 <= v[i].y < height && IsTileAt(col, v[i].y)
          && v[i].dy == Gaps(col, v[i].y) && v[i].dy > 0)
    && (forall i, j :: 0 <= i < j < |v| ==> v[i].y < v[j].y)
    && (forall y :: 0 <= y < height && Falls(col, y) ==>
          exists i :: 0 <= i < |v| && v[i].y == y)
  }

  /** The move map of `b` for a board generated `height` rows high. */
  ghost predicate DescribesGravity(b: Board, height: int, mm: MoveMap) {
    && |mm.horizontal| == |b| && |mm.vertical| == |b|
    && (forall x :: 0 <= x < |b| ==> mm.horizontal[x] == -(EmptyBefore(b, x) as int))
    && (forall x :: 0 <= x < |b| ==> FallsOf(b[x], height, mm.vertical[x]))
  }

  /** The vertical part of `computeGravity` for one non-empty column: scan
      rows 0 up to (not including) the generated height, counting missing
      cells; each tile with a non-zero count below it is listed with that
      count. */
  method ColumnFalls(col: Column, height: int) returns (v: seq<Fall>)
    ensures FallsOf(col, height, v)
  {
    var wsCount := 0;
    var y := 0;
    v := [];
    while y < height
      invariant 0 <= y && (y <= height || y == 0)
      invariant wsCount == Gaps(col, y)
      invariant forall i :: 0 <= i < |v| ==>
                  0 <= v[i].y < y && IsTileAt(col, v[i].y)
                  && v[i].dy == Gaps(col, v[i].y) && v[i].dy > 0
      invariant forall i, j :: 0 <= i < j < |v| ==> v[i].y < v[j].y
      invariant forall y' :: 0 <= y' < y && Falls(col, y') ==>
                  exists i :: 0 <= i < |v| && v[i].y == y'
    {
      if !IsTileAt(col, y) {
        wsCount := wsCount + 1;
      } else if wsCount > 0 {
        ghost var v0 := v;
        v := v + [Fall(y, wsCount)];
        assert forall i :: 0 <= i < |v0| ==> v[i] == v0[i];
        assert v[|v| - 1].y == y;
      }
      y := y + 1;
    }
  }

  /** The inner loop of `computeGravity` for an empty column `x`: every
      column to its right moves one more place left. */
  method ShiftRightOf(h: seq<int>, x: int) returns (h': seq<int>)
    requires 0 <= x < |h|
    ensures |h'| == |h|
    ensures forall k :: 0 <= k < |h| ==> h'[k] == if k > x then h[k] - 1 else h[k]
  {
    h' := h;
    var c := x + 1;
    while c < |h|
      invariant x + 1 <= c <= |h|
      invariant |h'| == |h|
      invariant forall k :: 0 <= k < |h| ==> h'[k] == if x < k < c then h[k] - 1 else h[k]
    {
      h' := h'[c := h'[c] - 1];
      c := c + 1;
    }
  }

  /** The move map built for columns 0 .. x-1 of `b`: horizontal entries
      count the empty columns met so far, vertical entries are filled in for
      the columns already scanned. */
  ghost predicate GravityPrefix(b: Board, height: int, x: int, h: seq<int>, v: seq<seq<Fall>>) {
    && 0 <= x <= |b|
    && |h| == |b| && |v| == |b|
    && (forall c :: 0 <= c < |b| ==> h[c] == -(EmptyBefore(b, if c < x then c else x) as int))
    && (forall c :: 0 <= c < x ==> FallsOf(b[c], height, v[c]))
    && (forall c :: 0 <= c < x && ColumnEmpty(b[c]) ==> v[c] == [])
    && (forall c :: x <= c < |b| ==> v[c] == [])
  }

  /** An empty column moves every column right of it one more place left and
      gets no falls. */
  lemma EmptyColumnStep(b: Board, height: int, x: int, h: seq<int>, v: seq<seq<Fall>>,
                        h': seq<int>)
    requires GravityPrefix(b, height, x, h, v) && x < |b| && ColumnEmpty(b[x])
    requires |h'| == |h|
    requires forall k :: 0 <= k < |h| ==> h'[k] == if k > x then h[k] - 1 else h[k]
    ensures GravityPrefix(b, height, x + 1, h', v)
  {
    assert EmptyBefore(b, x + 1) == EmptyBefore(b, x) + 1;
    forall c | 0 <= c < |b|
      ensures h'[c] == -(EmptyBefore(b, if c < x + 1 then c else x + 1) as int)
    {
      assert h[c] == -(EmptyBefore(b, if c < x then c else x) as int);
    }
    forall y | 0 <= y < height
      ensures !Falls(b[x], y)
    {
      assert !IsTileAt(b[x], y);
    }
    assert v[x] == [];
    forall c | 0 <= c < x + 1
      ensures FallsOf(b[c], height, v[c])
    {
      if c < x {
        assert FallsOf(b[c], height, v[c]);
      }
    }
  }

  /** A column with tiles leaves the shifts alone and gets its falls. */
  lemma TileColumnStep(b: Board, height: int, x: int, h: seq<int>, v: seq<seq<Fall>>,
                       falls: seq<Fall>)
    requires GravityPrefix(b, height, x, h, v) && x < |b| && !ColumnEmpty(b[x])
    requires FallsOf(b[x], height, falls)
    ensures GravityPrefix(b, height, x + 1, h, v[x := falls])
  {
    assert EmptyBefore(b, x + 1) == EmptyBefore(b, x);
  }

  /** `computeGravity()`: the move map of the board as it stands after a
      removal, before any compaction. An empty column shifts every column to
      its right one place left (entries count down from 0) and gets no
      vertical entries; any other column gets its falling tiles. */
  method ComputeGravity(b: Board, height: int) returns (mm: MoveMap)
    ensures DescribesGravity(b, height, mm)
    ensures forall x :: 0 <= x < |b| && ColumnEmpty(b[x]) ==> mm.vertical[x] == []
  {
    var horizontal: seq<int> := seq(|b|, _ => 0);
    var vertical: seq<seq<Fall>> := seq(|b|, _ => []);
    var x := 0;
    while x < |b|
      invariant GravityPrefix(b, height, x, horizontal, vertical)
      decreases |b| - x
    {
      if ColumnEmpty(b[x]) {
        var shifted := ShiftRightOf(horizontal, x);
        EmptyColumnStep(b, height, x, horizontal, vertical, shifted);
        horizontal := shifted;
      } else {
        var falls := ColumnFalls(b[x], height);
        TileColumnStep(b, height, x, horizontal, vertical, falls);
        vertical := vertical[x := falls];
      }
      x := x + 1;
    }
    mm := MoveMap(horizontal, vertical);
  }

  /** `applyMoveVertical()`: every column loses its null cells, keeping its
      tiles in order. */
  function ApplyMoveVertical(b: Board): (r: Board)
    ensures |r| == |b|
    ensures NoHoles(r)
    ensures forall x :: 0 <= x < |b| ==> |r[x]| <= |b[x]|
    ensures forall x :: 0 <= x < |b| ==> (|r[x]| == 0 <==> ColumnEmpty(b[x]))
    ensures TileCount(r) == TileCount(b)
  {
    var r := seq(|b|, x requires 0 <= x < |b| => ArrayClean(b[x]));
    forall x | 0 <= x < |b|
      ensures |r[x]| == 0 <==> ColumnEmpty(b[x])
      ensures |ArrayClean(r[x])| == |ArrayClean(b[x])|
    {
      ColumnEmptyIffNoTiles(b[x]);
      FilterIdempotent(b[x], IsTile);
    }
    TileCountColumnwise(r, b);
    r
  }

  predicate NonEmpty(col: Column) {
    |col| > 0
  }

  /** `applyMoveHorizontal()`: columns with no cells left are dropped, the
      others keep their order. (The engine nulls them, then cleans the
      column array.) */
  function ApplyMoveHorizontal(b: Board): (r: Board)
    ensures |r| <= |b|
    ensures forall x :: 0 <= x < |r| ==> |r[x]| > 0
    ensures NoHoles(b) ==> Dense(r)
    ensures TileCount(r) == TileCount(b)
  {
    var r := Filter(b, NonEmpty);
    FilterSubset(b, NonEmpty);
    TileCountDropsEmptyColumns(b);
    r
  }

  /** Two boards whose columns pairwise hold as many tiles have as many tiles. */
  lemma {:induction false} TileCountColumnwise(b: Board, b': Board)
    requires |b| == |b'|
    requires forall x :: 0 <= x < |b| ==> |ArrayClean(b[x])| == |ArrayClean(b'[x])|
    ensures TileCount(b) == TileCount(b')
    decreases |b|
  {
    if b != [] {
      var n := |b| - 1;
      TileCountColumnwise(b[..n], b'[..n]);
    }
  }

  /** Dropping zero-length columns loses no tile. */
  lemma {:induction false} TileCountDropsEmptyColumns(b: Board)
    ensures TileCount(Filter(b, NonEmpty)) == TileCount(b)
    decreases |b|
  {
    if b != [] {
      var n := |b| - 1;
      TileCountDropsEmptyColumns(b[..n]);
      if NonEmpty(b[n]) {
        TileCountSnoc(Filter(b[..n], NonEmpty), b[n]);
      } else {
        assert b[n] == [];
        assert ArrayClean(b[n]) == [];
      }
    }
  }

  /** Missing cells below a row plus tiles below it make up the row index. */
  lemma {:induction false} GapsPlusTiles(col: Column, y: int)
    requires 0 <= y <= |col|
    ensures Gaps(col, y) + |ArrayClean(col[..y])| == y
    decreases y
  {
    if y > 0 {
      GapsPlusTiles(col, y - 1);
      FilterPrefixStep(col, y - 1, IsTile);
    }
  }

  /** Empty columns to the left of `x` are exactly the zero-length columns to
      the left of `x` once the vertical pass has run, and `x` minus their
      number is the rank of column `x` among the kept ones. */
  lemma {:induction false} EmptyBeforePlusKept(b: Board, vb: Board, x: int)
    requires |vb| == |b|
    requires forall i :: 0 <= i < |b| ==> (|vb[i]| == 0 <==> ColumnEmpty(b[i]))
    requires 0 <= x <= |b|
    ensures EmptyBefore(b, x) + |Filter(vb[..x], NonEmpty)| == x
    decreases x
  {
    if x > 0 {
      EmptyBeforePlusKept(b, vb, x - 1);
      FilterPrefixStep(vb, x - 1, NonEmpty);
    }
  }

  /** A tile at row `y` falls to row `y - Gaps(col, y)` of its cleaned column. */
  lemma VerticalLanding(b: Board, x: int, y: int)
    requires Exists(b, x, y)
    ensures var col := ApplyMoveVertical(b)[x];
            0 <= y - Gaps(b[x], y) < |col| && col[y - Gaps(b[x], y)] == b[x][y]
  {
    GapsPlusTiles(b[x], y);
    FilterRank(b[x], y, IsTile);
  }

  /** A column with tiles slides left by the number of empty columns before it. */
  lemma HorizontalLanding(b: Board, x: int)
    requires 0 <= x < |b| && !ColumnEmpty(b[x])
    ensures var nb := ApplyMoveHorizontal(ApplyMoveVertical(b));
            0 <= x - EmptyBefore(b, x) < |nb|
            && nb[x - EmptyBefore(b, x)] == ApplyMoveVertical(b)[x]
  {
    var vb := ApplyMoveVertical(b);
    EmptyBeforePlusKept(b, vb, x);
    assert NonEmpty(vb[x]);
    FilterRank(vb, x, NonEmpty);
  }

  /** The fall recorded for row `y` in a column's entries; 0 when none. */
  function FallOf(v: seq<Fall>, y: int): int {
    if v == [] then 0 else if v[0].y == y then v[0].dy else FallOf(v[1..], y)
  }

  /** In a list sorted by row, a listed row finds its own entry. */
  lemma {:induction false} FallOfListed(v: seq<Fall>, i: int)
    requires 0 <= i < |v|
    requires forall j, k :: 0 <= j < k < |v| ==> v[j].y < v[k].y
    ensures FallOf(v, v[i].y) == v[i].dy
    decreases |v|
  {
    if i > 0 {
      assert v[0].y < v[i].y;
      FallOfListed(v[1..], i - 1);
    }
  }

  /** A row with no entry does not fall. */
  lemma {:induction false} FallOfUnlisted(v: seq<Fall>, y: int)
    requires forall i :: 0 <= i < |v| ==> v[i].y != y
    ensures FallOf(v, y) == 0
    decreases |v|
  {
    if v != [] {
      FallOfUnlisted(v[1..], y);
    }
  }

  /** The move map's fall for a tile is the number of missing cells below it. */
  lemma FallIsGaps(col: Column, height: int, v: seq<Fall>, y: int)
    requires FallsOf(col, height, v)
    requires IsTileAt(col, y) && y < height
    ensures FallOf(v, y) == Gaps(col, y)
  {
    if Falls(col, y) {
      var i :| 0 <= i < |v| && v[i].y == y;
      FallOfListed(v, i);
    } else {
      FallOfUnlisted(v, y);
    }
  }

  /** The tile `t` sits at (nx, ny) of board `nb`. */
  predicate LandsAt(nb: Board, nx: int, ny: int, t: Cell) {
    0 <= nx < |nb| && 0 <= ny < |nb[nx]| && nb[nx][ny] == t
  }

  /** Both passes move the tile at (x, y), unchanged, to column
      x - EmptyBefore(b, x) and row y - Gaps(b[x], y). */
  lemma TileLands(b: Board, x: int, y: int)
    requires Exists(b, x, y)
    ensures LandsAt(ApplyMoveHorizontal(ApplyMoveVertical(b)),
                    x - EmptyBefore(b, x), y - Gaps(b[x], y), b[x][y])
  {
    assert !ColumnEmpty(b[x]);
    HorizontalLanding(b, x);
    VerticalLanding(b, x, y);
  }

  /** Both passes together: the tile at (x, y) ends in column x + dx,
      row y - FallOf(v, y), for the column's shift `dx` and falls `v`. */
  lemma PassesLanding(b: Board, height: int, dx: int, v: seq<Fall>, x: int, y: int)
    requires Exists(b, x, y) && y < height
    requires dx == -(EmptyBefore(b, x) as int) && FallsOf(b[x], height, v)
    ensures var nb := ApplyMoveHorizontal(ApplyMoveVertical(b));
            var nx := x + dx;
            var ny := y - FallOf(v, y);
            0 <= nx < |nb| && 0 <= ny < |nb[nx]| && nb[nx][ny] == b[x][y]
  {
    FallIsGaps(b[x], height, v, y);
    assert !ColumnEmpty(b[x]);
    HorizontalLanding(b, x);
    VerticalLanding(b, x, y);
  }

  /** The move map computed before compaction tells every tile where the two
      passes put it: the tile at (x, y) ends at (x + horizontal[x], y - dy),
      with dy its entry in vertical[x] (0 when it has none). */
  lemma GravityLanding(b: Board, height: int, mm: MoveMap, x: int, y: int)
    requires WithinHeight(b, height)
    requires DescribesGravity(b, height, mm)
    requires Exists(b, x, y)
    ensures var nb := ApplyMoveHorizontal(ApplyMoveVertical(b));
            var nx := x + mm.horizontal[x];
            var ny := y - FallOf(mm.vertical[x], y);
            0 <= nx < |nb| && 0 <= ny < |nb[nx]| && nb[nx][ny] == b[x][y]
  {
    PassesLanding(b, height, mm.horizontal[x], mm.vertical[x], x, y);
  }

  /** Both passes leave a fully packed board with every tile kept, no column
      taller than before, and no column at all exactly when no tile is left. */
  lemma Compaction(b: Board, height: int)
    requires WithinHeight(b, height)
    ensures var nb := ApplyMoveHorizontal(ApplyMoveVertical(b));
            && Dense(nb) && TileCount(nb) == TileCount(b) && WithinHeight(nb, height)
            && (|nb| == 0 <==> TileCount(b) == 0)
  {
    var vb := ApplyMoveVertical(b);
    var nb := ApplyMoveHorizontal(vb);
    FilterSubset(vb, NonEmpty);
    forall x | 0 <= x < |nb|
      ensures |nb[x]| <= height
    {
      var i :| 0 <= i < |vb| && vb[i] == nb[x];
    }
    DenseTileCount(nb);
  }
}
