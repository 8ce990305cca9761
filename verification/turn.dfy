/**
  One move of the game, as the click handler drives the grid: the group under
  the mouse is computed and removed, the move map is computed on the board
  with its holes, and the two gravity passes compact the board.
 */
module Turn {
  import opened Grid
  import opened Destroy
  import opened Gravity

  /** After the listed tiles are removed and both passes run, the tile at
      (x, y) of `b` sits, unchanged, in column x minus the empty columns
      before it and row y minus the missing cells below it, both counted on
      the board with the tiles removed. */
  predicate Settles(b: Board, ds: seq<Pos>, x: int, y: int)
    requires AllTiles(b, ds) && Exists(b, x, y)
  {
    var db := ApplyDestroy(b, ds);
    LandsAt(ApplyMoveHorizontal(ApplyMoveVertical(db)),
            x - EmptyBefore(db, x), y - Gaps(db[x], y), b[x][y])
  }

  /** The move map sends the tile `t` at (x, y) to the cell of `nb` that its
      column's shift and its recorded fall name, and `t` is there. */
  predicate MapSends(nb: Board, mm: MoveMap, x: int, y: int, t: Cell) {
    0 <= x < |mm.horizontal| && 0 <= x < |mm.vertical|
    && LandsAt(nb, x + mm.horizontal[x], y - FallOf(mm.vertical[x], y), t)
  }

  /** A click on (x, y). A tile without a neighbour of its colour leaves the
      board as it is. Otherwise its whole group, at least two tiles, leaves
      the board, which ends fully packed and no taller than before. The move
      map handed to the animation describes the board with the group
      removed, and every tile outside the group ends exactly where that map
      sends it. */
  method Click(b: Board, height: int, x: int, y: int)
    returns (nb: Board, mm: MoveMap, removed: seq<Pos>)
    requires WithinHeight(b, height)
    ensures !IsDestroyable(b, x, y) ==> nb == b && removed == []
    ensures IsDestroyable(b, x, y) ==>
              && |removed| >= 2 && Distinct(removed)
              && (set p | p in removed) == Region(b, b[x][y].colour, Pos(x, y))
              && Dense(nb) && WithinHeight(nb, height)
              && TileCount(nb) == TileCount(b) - |removed|
    ensures IsDestroyable(b, x, y) ==>
              && AllTiles(b, removed)
              && DescribesGravity(ApplyDestroy(b, removed), height, mm)
              && forall x', y' :: Exists(b, x', y') && Pos(x', y') !in removed ==>
                   MapSends(nb, mm, x', y', b[x'][y'])
  {
    if !IsDestroyable(b, x, y) {
      return b, MoveMap([], []), [];
    }
    removed := ComputeDestroy(b, x, y);
    assert AllTiles(b, removed);
    var db := ApplyDestroy(b, removed);
    mm := ComputeGravity(db, height);
    nb := ApplyMoveHorizontal(ApplyMoveVertical(db));
    RemoveThenCompact(b, height, removed);
    forall x', y' | Exists(b, x', y') && Pos(x', y') !in removed
      ensures MapSends(nb, mm, x', y', b[x'][y'])
    {
      SurvivorFollowsMap(b, height, removed, mm, x', y');
    }
  }

  /** Removing distinct tiles and compacting packs the board, keeps it within
      its height and takes exactly the removed tiles off it: none of them is
      left after the removal, and every other tile lands, unchanged, in
      column x minus the empty columns before it and row y minus the missing
      cells below it. */
  lemma RemoveThenCompact(b: Board, height: int, ds: seq<Pos>)
    requires WithinHeight(b, height) && AllTiles(b, ds) && Distinct(ds)
    ensures forall i :: 0 <= i < |ds| ==> !Exists(ApplyDestroy(b, ds), ds[i].x, ds[i].y)
    ensures var nb := ApplyMoveHorizontal(ApplyMoveVertical(ApplyDestroy(b, ds)));
            && Dense(nb) && WithinHeight(nb, height)
            && TileCount(nb) == TileCount(b) - |ds|
    ensures forall x, y :: Exists(b, x, y) && Pos(x, y) !in ds ==> Settles(b, ds, x, y)
  {
    assert OnBoard(b, ds);
    var db := ApplyDestroy(b, ds);
    assert WithinHeight(db, height);
    DestroyTileCount(b, ds);
    DestroyExactly(b, ds);
    Compaction(db, height);
    SurvivorsLand(b, ds);
  }

  /** Every tile outside the removed list, through removal and both passes. */
  lemma SurvivorsLand(b: Board, ds: seq<Pos>)
    requires AllTiles(b, ds)
    ensures forall x, y :: Exists(b, x, y) && Pos(x, y) !in ds ==> Settles(b, ds, x, y)
  {
    forall x, y | Exists(b, x, y) && Pos(x, y) !in ds
      ensures Settles(b, ds, x, y)
    {
      SurvivorLands(b, ds, x, y);
    }
  }

  /** One tile outside the removed list, through removal and both passes. */
  lemma SurvivorLands(b: Board, ds: seq<Pos>, x: int, y: int)
    requires AllTiles(b, ds) && Exists(b, x, y) && Pos(x, y) !in ds
    ensures Settles(b, ds, x, y)
  {
    DestroyKeeps(b, ds, x, y);
    TileLands(ApplyDestroy(b, ds), x, y);
  }

  /** The move map computed after a removal sends a remaining tile to the
      cell the two passes put it in. */
  lemma SurvivorFollowsMap(b: Board, height: int, ds: seq<Pos>, mm: MoveMap, x: int, y: int)
    requires WithinHeight(b, height) && AllTiles(b, ds)
    requires DescribesGravity(ApplyDestroy(b, ds), height, mm)
    requires Exists(b, x, y) && Pos(x, y) !in ds
    ensures MapSends(ApplyMoveHorizontal(ApplyMoveVertical(ApplyDestroy(b, ds))), mm, x, y, b[x][y])
  {
    DestroyKeepsHeight(b, ds, height);
    DestroyKeeps(b, ds, x, y);
    GravityLanding(ApplyDestroy(b, ds), height, mm, x, y);
  }
}
