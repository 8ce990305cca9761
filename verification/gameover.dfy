/**
  End of game: `noMoreDestroyable`.

  The engine walks every cell of every column and stops at the first one that
  can be destroyed. It walks the board with `for ... in`, so the indices it
  hands to the neighbour test are the array keys, which are strings. The
  neighbour test subtracts one from them (JavaScript converts the string to a
  number) but also adds one, which for a string appends the digit 1: from
  row "3" the test looks at row "31", not row 4. This module models that walk
  as written, shows a board on which it reports a move where there is none,
  and gives the scan the engine evidently intends, with its contract proved.
 */
module GameOver {
  import opened Grid

  /** The array index reached by `key + 1` when `key` is the string form of
      `n`: the decimal digits of `n` followed by 1, that is 10 * n + 1. For
      n = 0 the key is "01", which is not an array index at all and finds
      nothing; -1 stands for that. */
  function KeyPlusOne(n: nat): (r: int)
    ensures n == 0 ==> r < 0
    ensures n > 0 ==> r > n + 1
  {
    if n == 0 then -1 else 10 * n + 1
  }

  /** The private neighbour test as the `for ... in` walk runs it, on string
      keys `x` and `y`: below and left are found by subtraction, above and
      right by string concatenation. A null cell matches nothing. */
  predicate IsDestroyableByKey(b: Board, x: nat, y: nat)
    ensures IsDestroyableByKey(b, x, y) ==> Exists(b, x, y)
  {
    if x < |b| && y < |b[x]| then
      match b[x][y]
      case Null => false
      case Tile(num) =>
        CheckValue(b, x, y - 1, num) || CheckValue(b, x, KeyPlusOne(y), num)
        || CheckValue(b, KeyPlusOne(x), y, num) || CheckValue(b, x - 1, y, num)
    else false
  }

  /** `noMoreDestroyable()` as written: true when the key-based test fails on
      every cell. */
  method NoMoreDestroyableByKey(b: Board) returns (r: bool)
    ensures r <==> forall x: nat, y: nat :: !IsDestroyableByKey(b, x, y)
  {
    var x := 0;
    while x < |b|
      invariant 0 <= x <= |b|
      invariant forall x': nat, y': nat :: x' < x ==> !IsDestroyableByKey(b, x', y')
    {
      var y := 0;
      while y < |b[x]|
        invariant 0 <= y <= |b[x]|
        invariant forall x': nat, y': nat :: x' < x ==> !IsDestroyableByKey(b, x', y')
        invariant forall y': nat :: y' < y ==> !IsDestroyableByKey(b, x, y')
      {
        if IsDestroyableByKey(b, x, y) {
          return false;
        }
        y := y + 1;
      }
      x := x + 1;
    }
    return true;
  }

  /** `noMoreDestroyable()` as intended: true exactly when no cell of the
      board has a neighbour of its own colour, so no click removes anything. */
  method NoMoreDestroyable(b: Board) returns (r: bool)
    ensures r <==> forall x, y :: !IsDestroyable(b, x, y)
  {
    var x := 0;
    while x < |b|
      invariant 0 <= x <= |b|
      invariant forall x', y' :: 0 <= x' < x ==> !IsDestroyable(b, x', y')
    {
      var y := 0;
      while y < |b[x]|
        invariant 0 <= y <= |b[x]|
        invariant forall x', y' :: 0 <= x' < x ==> !IsDestroyable(b, x', y')
        invariant forall y' :: y' < y ==> !IsDestroyable(b, x, y')
      {
        if IsDestroyable(b, x, y) {
          return false;
        }
        y := y + 1;
      }
      x := x + 1;
    }
    return true;
  }

  /** Every real move is still seen by the key-based walk: of two adjacent
      tiles of one colour, the upper or right one looks at the other through
      a subtraction, which works on string keys. */
  lemma ByKeySeesRealMoves(b: Board, x: int, y: int)
    requires IsDestroyable(b, x, y)
    ensures exists x': nat, y': nat :: IsDestroyableByKey(b, x', y')
  {
    var p := Pos(x, y);
    var q :| Adjacent(p, q) && SameColour(b, p, q);
    NeighboursAreAdjacent(p);
    var num := b[x][y].colour;
    if q == Pos(x, y - 1) || q == Pos(x - 1, y) {
      assert IsDestroyableByKey(b, x, y);
    } else {
      assert b[q.x][q.y] == Tile(num);
      assert CheckValue(b, q.x, q.y - 1, num) || CheckValue(b, q.x - 1, q.y, num);
      assert IsDestroyableByKey(b, q.x, q.y);
    }
  }

  /** So the walk as written never ends a game that still has a move: when
      it reports no move, there is none. */
  lemma ByKeyEndsOnlyFinishedGames(b: Board)
    requires forall x: nat, y: nat :: !IsDestroyableByKey(b, x, y)
    ensures forall x, y :: !IsDestroyable(b, x, y)
  {
    forall x, y | IsDestroyable(b, x, y)
      ensures false
    {
      ByKeySeesRealMoves(b, x, y);
    }
  }

  /** One column of twelve tiles alternating between colours 0 and 1. */
  function AlternatingColumn(): (b: Board)
    ensures |b| == 1 && |b[0]| == 12
    ensures forall y :: 0 <= y < 12 ==> b[0][y] == Tile(y % 2)
  {
    [seq(12, y => Tile(y % 2))]
  }

  /** On that board no tile has a neighbour of its colour, so the game is
      over; but the walk as written compares row 1 with row "1" + "1" = 11,
      both of colour 1, and reports a move. */
  lemma ByKeyReportsPhantomMove()
    ensures forall x, y :: !IsDestroyable(AlternatingColumn(), x, y)
    ensures IsDestroyableByKey(AlternatingColumn(), 0, 1)
  {
    var b := AlternatingColumn();
    forall x, y
      ensures !IsDestroyable(b, x, y)
    {
      if Exists(b, x, y) {
        var num := y % 2;
        assert b[x][y] == Tile(num);
        assert !CheckValue(b, x, y - 1, num) by {
          if y >= 1 { assert b[0][y - 1] == Tile((y - 1) % 2); }
        }
        assert !CheckValue(b, x, y + 1, num) by {
          if y + 1 < 12 { assert b[0][y + 1] == Tile((y + 1) % 2); }
        }
        assert !Exists(b, x + 1, y) && !Exists(b, x - 1, y);
      }
    }
    assert KeyPlusOne(1) == 11;
    assert CheckValue(b, 0, 11, 1);
  }
}
