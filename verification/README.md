# Same-game grid engine in Dafny

This project models `game.Grid`, the engine of a "same game" puzzle written in
JavaScript. The engine keeps the board as an array of columns, each column an
array of tile colours indexed from the bottom, and offers:

- random generation of a full board;
- read-only queries: `exists`, `checkValue`, `isDestroyable`, `getValue`,
  `getColumn`;
- the region a click removes (`computeDestroy`, a depth-first flood fill) and
  its removal (`applyDestroy`, which nulls cells);
- gravity: `computeGravity` describes the coming compaction as a move map for
  the animation, then `applyMoveVertical` lets tiles fall inside their
  columns and `applyMoveHorizontal` drops empty columns;
- the end-of-game test `noMoreDestroyable`.

The Dafny model is purely functional. A board is `seq<seq<Cell>>` with
`Cell = Null | Tile(colour)`. Every engine call that mutates the board becomes
a function or method from the old board to the new one.

Modules, one per file:

- `Filtering` (`filtering.dfy`): order-preserving filtering. `arrayClean` is
  this operation, and both gravity passes use it.
- `Grid` (`grid.dfy`): cells, positions, the queries, generation, tile counts.
- `Destroy` (`destroy.dfy`): same-colour paths and regions, the flood fill, and
  removal.
- `Gravity` (`gravity.dfy`): the move map, the two compaction passes, and the
  lemmas that tie the move map to what the passes do.
- `GameOver` (`gameover.dfy`): the end-of-game scan, as written and as
  intended (see Findings).
- `Turn` (`turn.dfy`): one click as the click handler sequences the engine
  calls.

Random numbers are a parameter: `Generate` takes the values `Math.random()`
would return, as exact reals in [0, 1). The canvas drawing, the animation
timers and the DOM event handling are not modelled.

## Model

| member | source | states |
|---|---|---|
| Grid.Exists | game.js:50-56 | true exactly when the column exists and holds a non-null cell at the row, i.e. the position is a tile of the board; false off the board |
| Grid.CheckValue | game.js:57-59 | true only where `exists` is true, so total and false off the board; the colour test is the body's `b[x][y] == Tile(num)` |
| Grid.NeighboursAreAdjacent | game.js:66-70 | the four positions the neighbour test looks at are exactly the orthogonal neighbours |
| Grid.IsDestroyable | game.js:123-125 | a tile is destroyable exactly when it exists and some orthogonal neighbour holds a tile of its colour |
| Grid.GetValue | game.js:249-251 | a tile comes back exactly when one exists there, with the colour `checkValue` confirms; null otherwise |
| Grid.GetColumn | game.js:240-242 | an existing column comes back unchanged, a missing one as an empty column; its tiles are exactly the tiles `exists` sees in that column |
| Grid.Draw | game.js:101 | the colour drawn is the floor of `nbColors * r`: the largest integer not above it; for `nbColors` at most zero and r in [0, 1) it lies in [nbColors, 0] |
| Grid.DrawRange | game.js:101 | `floor(nbColors * r)` for r in [0, 1) is a colour in [0, nbColors) |
| Grid.GenerateColumn | game.js:98-101 | one column: a tile per draw, colours in range |
| Grid.Generate | game.js:94-104 | width columns of height rows, no null cell, width * height tiles, colours in [0, nbColors) (all 0 for nbColors = 0); a negative width gives no columns, a negative height gives empty columns |
| Grid.ArrayClean | game.js:77-83 | `arrayClean` on a column: the result is no longer than the column and holds only tiles (which tiles, and where, is `Filtering.FilterRank` and `Filtering.FilterOrigin`) |
| Grid.ColumnCellsCount | game.js:77-83 | a column's cleaned length is the number of its tile cells |
| Grid.TileCountIsCells | game.js:77-83 | the tile count, summed from cleaned column lengths, is the number of tile positions on the board |
| Grid.ColumnEmptyIffNoTiles | game.js:144-148 | a column has no non-null cell exactly when cleaning it leaves nothing |
| Filtering.Filter | game.js:77-83 | the cleaned array is no longer than the input and holds only kept entries |
| Filtering.FilterRank | game.js:77-83 | every kept entry lands at its rank, the number of kept entries before it |
| Filtering.FilterRankMonotone | game.js:77-83 | ranks grow with the index: cleaning never reorders |
| Filtering.FilterOrigin | game.js:77-83 | every entry of the cleaned array is a kept input entry whose rank is its position |
| Filtering.FilterSubset | game.js:77-83 | cleaning adds nothing that was not in the input |
| Filtering.FilterAppend | game.js:77-83 | cleaning a concatenation is concatenating the cleaned parts |
| Filtering.FilterKeepsAll | game.js:77-83 | an array without nulls is cleaned to itself |
| Filtering.FilterKeepsNone | game.js:77-83 | an all-null array is cleaned to nothing |
| Filtering.FilterIdempotent | game.js:77-83 | cleaning twice is cleaning once |
| Destroy.ClosedConnectedIsRegion | game.js:181-194 | a set closed under same-colour adjacency whose members are all connected to the seed is exactly the seed's region |
| Destroy.Search | game.js:181-194 | the flood fill lists each position once, starting at the seed, all tiles of the seed's colour; each is connected to the seed, and no same-colour neighbour of a listed tile is left out |
| Destroy.SearchResult | game.js:176-198 | for a destroyable seed the flood fill's result has at least two positions and is exactly the seed's region |
| Destroy.ComputeDestroy | game.js:176-198 | empty exactly when the tile is not destroyable; otherwise at least two distinct positions, the clicked one first, all of the clicked colour, forming exactly the clicked tile's same-colour region |
| Destroy.SetNull | game.js:206 | writing null into a column: a negative row changes nothing, a row inside the column is nulled, a row past the end grows the column with null cells |
| Destroy.ApplyDestroy | game.js:204-207 | every listed cell, and nothing else, becomes null; no column shrinks, and none grows when every listed cell is on the board |
| Destroy.DestroyExactly | game.js:204-207 | after removal no listed position holds a tile; a position holds a tile exactly when it held one before and is not listed, and such a tile keeps its colour |
| Destroy.DestroyKeeps | game.js:204-207 | a tile that is not listed is still there, with its colour, after removal |
| Destroy.DestroyKeepsHeight | game.js:204-207 | removal keeps a board within its generated height |
| Destroy.DestroyTileCount | game.js:204-207 | removing n distinct tiles leaves exactly n fewer tiles |
| Gravity.ColumnFalls | game.js:158-165 | for one column, lists bottom to top every tile below the generated height with missing cells under it, with their number |
| Gravity.ShiftRightOf | game.js:151-156 | every column right of the empty one moves one more place left; the others keep their shift |
| Gravity.EmptyColumnStep | game.js:149-156 | after an empty column the move map so far stays correct for one more column |
| Gravity.TileColumnStep | game.js:157-165 | after a column with tiles the move map so far stays correct for one more column |
| Gravity.ComputeGravity | game.js:131-170 | each column's shift is minus the number of empty columns before it; each column's entries are its falling tiles; empty columns have no entries |
| Gravity.ApplyMoveVertical | game.js:212-215 | the board keeps its width, loses every null cell, no column grows, a column is left empty exactly when it held no tile, and the tile count is unchanged |
| Gravity.ApplyMoveHorizontal | game.js:220-225 | only columns with cells remain, the board gets no wider, a board without nulls comes out fully packed, and the tile count is unchanged |
| Gravity.GapsPlusTiles | game.js:159-164 | missing cells below a row plus tiles below it make up the row index |
| Gravity.EmptyBeforePlusKept | game.js:149-156 | a column's index is the empty columns before it plus the kept columns before it |
| Gravity.VerticalLanding | game.js:212-215 | a tile falls by the number of missing cells below it |
| Gravity.HorizontalLanding | game.js:220-225 | a column with tiles slides left by the number of empty columns before it |
| Gravity.TileLands | game.js:212-225 | the two passes move the tile at (x, y), unchanged, to column x minus the empty columns before it and row y minus the missing cells below it |
| Gravity.FallOfListed | game.js:163-164 | the fall recorded for a listed row is its entry's drop |
| Gravity.FallOfUnlisted | game.js:163-164 | a row with no entry falls by zero |
| Gravity.FallIsGaps | game.js:158-165 | the move map's fall for any tile below the generated height is the number of missing cells below it |
| Gravity.PassesLanding | game.js:212-225 | the two passes move the tile at (x, y), unchanged, to column x minus the empty columns before it and down by the fall its column's entries give it |
| Gravity.GravityLanding | game.js:131-170 | the move map says where every tile goes: the tile at (x, y) ends at (x + horizontal[x], y - its vertical drop) after the two passes |
| Gravity.Compaction | game.js:212-225 | the two passes leave a fully packed board with the same tiles, no taller than before, and no column at all exactly when no tile is left |
| GameOver.KeyPlusOne | game.js:68-69 | adding one to the string key of row or column n never reaches n + 1: for n >= 1 it lands past it, for n = 0 on no index at all |
| GameOver.IsDestroyableByKey | game.js:66-70 | the private test on string keys: below and left by subtraction, above and right at index 10n+1 (nothing for key "0"); a null cell or a position off the board matches nothing, so it holds only where a tile exists |
| GameOver.NoMoreDestroyableByKey | game.js:110-116 | the walk as written: true exactly when the key-based neighbour test fails on every cell |
| GameOver.ByKeySeesRealMoves | game.js:66-70 | every real move is seen by the key-based test, through the neighbour below or to the left |
| GameOver.ByKeyEndsOnlyFinishedGames | game.js:110-116 | when the walk as written reports no move, there is none |
| GameOver.ByKeyReportsPhantomMove | game.js:110-116 | on a single column of 12 tiles alternating two colours, no tile is destroyable but the walk as written finds a move |
| GameOver.NoMoreDestroyable | game.js:110-116 | true exactly when no tile on the board is destroyable |
| Turn.RemoveThenCompact | game.js:204-225 | removing distinct tiles and compacting packs the board, keeps it within its height and takes exactly those tiles off: none of them is left after the removal, the count drops by their number, and every other tile lands, unchanged, in column x minus the empty columns before it and row y minus the missing cells below it |
| Turn.SurvivorLands | game.js:204-225 | one tile that is not removed lands, unchanged, where the two passes put it on the board with the removed tiles nulled |
| Turn.SurvivorsLand | game.js:204-225 | every tile that is not removed lands, unchanged, where the two passes put it |
| Turn.SurvivorFollowsMap | game.js:521-523 | the move map computed after the removal sends each remaining tile to the cell the two passes put it in |
| Turn.Click | game.js:510-527 | a click on a tile that is not destroyable changes nothing; otherwise its whole region, at least two tiles, disappears, listed once each, the board ends packed and no taller with that many tiles fewer, the returned move map describes the board with the region removed, and every other tile ends exactly where that map sends it |

## Left out

- Canvas, CanvasBack, the DOM handlers and the animation are not modelled. The click handler (game.js:510-527) appears only as the order of engine calls in `Turn.Click`.
- `Math.random()` is a parameter. `Generate` takes the drawn numbers as exact reals in [0, 1), column by column and bottom to top, as the loops draw them. Floating-point rounding in `nbColors * Math.random()` is not modelled.
- Grid.Generate: negative sizes and a zero or negative `nbColors` are not rejected. The engine has no error path and draws `floor(nbColors * r)` for any value. A negative `nbColors` gives colours in [nbColors, 0], as `Grid.Draw` states; the contract of `Generate` states nothing for that case.
- Turn.Click: assumes both gravity passes run. With the animation on, the handler applies the vertical pass only if a frame lands after the vertical animation time and before the total animation time (game.js:425-429); once the total time has passed it calls the horizontal pass alone (game.js:392-393). If no frame lands in that window the vertical pass is skipped, and the board is not fully packed as `Dense(nb)` states.
- Destroy.ApplyDestroy: requires every listed column to exist. The engine indexes the column first, so a missing column is a runtime error there.
- Destroy.ComputeDestroy: the contract fixes the first position and the set of positions, not the full visiting order. The flood fill visits neighbours below, above, left, then right, using an explicit stack in that order. The proof does not follow that order.
- Grid.GetValue: the engine returns `undefined` for a row outside an existing column and `null` for a missing column or a removed cell. Both are "no tile" to every caller, and the model returns `Null` for all of them.
- The hover cache in the click handler, which reuses a region computed while hovering, and the win/lose message are not modelled. A full clear shows up as a board with no columns: `Gravity.Compaction` proves the compacted board has no column exactly when no tile is left.
- `getColumns` hands out the board itself. It is the identity on the model's board.
- The dead guard `if (c > x)` in `computeGravity` (game.js:153) always holds, because `c` starts at `x + 1`. `ShiftRightOf` omits it.
- `computeGravity` scans each column up to the generated height, not the column's length. The model does the same: `FallsOf` and `ColumnFalls` stop at `height`. A tile above that height would get no entry. `GravityLanding` therefore assumes the board is within its generated height, which `Generate` and every move keep true.
- The numbering of columns and rows past the generated size, and sparse arrays, appear only through `SetNull` padding with null cells. JavaScript holes and nulls both count as "no tile" everywhere the engine reads them.

## Findings

| source | as written | input that shows it | evidently intended | confidence | as-written member | corrected member |
|---|---|---|---|---|---|---|
| game.js:111-113 and game.js:68-69 | `for (var x in columns)` and `for (var y in columns[x])` pass string keys to the private neighbour test. There `y + 1` and `x + 1` concatenate, so from row "3" the test looks at row 31 rather than row 4 (and at nothing from row "0"). | one column of 12 tiles alternating colours 0 and 1: no tile has a same-colour neighbour, but row 1 is compared with row 11, both colour 1, so the scan reports a move and the game never ends | compare each tile with its four numeric neighbours, so the game ends exactly when no tile is destroyable | not executed | GameOver.NoMoreDestroyableByKey, GameOver.ByKeyReportsPhantomMove | GameOver.NoMoreDestroyable |

The slip can only delay the end of a game, never end one early.
`GameOver.ByKeyEndsOnlyFinishedGames` proves this. Every real pair of
same-colour neighbours is still found by its upper or right member, which
looks down or left by subtraction, and subtraction converts the key to a
number.
