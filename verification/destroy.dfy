/**
  Regions and their removal: `computeDestroy` and `applyDestroy`.

  A click on a destroyable tile removes the whole 4-connected region of
  tiles of its colour. The engine computes that region with a depth-first
  search from the clicked tile, then nulls out every cell of it; compaction
  is a separate step (see module Gravity).
 */
module Destroy {
  import opened Grid

  /** A walk through tiles of colour `c`, each step to an orthogonal neighbour. */
  ghost predicate IsPath(b: Board, c: int, ps: seq<Pos>) {
    && |ps| > 0
    && (forall i :: 0 <= i < |ps| ==> CheckValue(b, ps[i].x, ps[i].y, c))
    && (forall i :: 0 < i < |ps| ==> Adjacent(ps[i - 1], ps[i]))
  }

  /** `p` can be reached from `s` through tiles of colour `c`. */
  ghost predicate Connected(b: Board, c: int, s: Pos, p: Pos) {
    exists ps :: IsPath(b, c, ps) && ps[0] == s && ps[|ps| - 1] == p
  }

  /** No tile of colour `c` next to a member of `S` is missing from `S`. */
  ghost predicate Closed(b: Board, c: int, S: set<Pos>) {
    forall p, q :: p in S && Adjacent(p, q) && CheckValue(b, q.x, q.y, c) ==> q in S
  }

  /** The connected component of colour `c` around `s`: the region a click
      on `s` removes. */
  ghost function Region(b: Board, c: int, s: Pos): set<Pos> {
    set p | p in Cells(b) && Connected(b, c, s, p)
  }

  predicate Distinct(ps: seq<Pos>) {
    forall i, j :: 0 <= i < j < |ps| ==> ps[i] != ps[j]
  }

  /** A set closed under same-colour adjacency that holds the start of a
      same-colour path holds its end too. */
  lemma {:induction false} ClosedHoldsPathEnd(b: Board, c: int, S: set<Pos>, ps: seq<Pos>)
    requires Closed(b, c, S) && IsPath(b, c, ps) && ps[0] in S
    ensures ps[|ps| - 1] in S
    decreases |ps|
  {
    if |ps| > 1 {
      var init := ps[..|ps| - 1];
      assert IsPath(b, c, init);
      ClosedHoldsPathEnd(b, c, S, init);
      assert Adjacent(ps[|ps| - 2], ps[|ps| - 1]);
    }
  }

  /** A closed set whose members are all connected to a member `s` is exactly
      the region of `s`: it misses no tile of the region and holds nothing else. */
  lemma ClosedConnectedIsRegion(b: Board, c: int, s: Pos, S: set<Pos>)
    requires s in S && Closed(b, c, S)
    requires forall p :: p in S ==> Connected(b, c, s, p)
    ensures S == Region(b, c, s)
  {
    forall p | p in S
      ensures p in Cells(b)
    {
      var ps: seq<Pos> :| IsPath(b, c, ps) && ps[0] == s && ps[|ps| - 1] == p;
      assert CheckValue(b, ps[|ps| - 1].x, ps[|ps| - 1].y, c);
    }
    forall p | p in Region(b, c, s)
      ensures p in S
    {
      var ps: seq<Pos> :| IsPath(b, c, ps) && ps[0] == s && ps[|ps| - 1] == p;
      ClosedHoldsPathEnd(b, c, S, ps);
    }
  }

  /** `paths[p]` is a same-colour path from `seed` to `p`. */
  ghost predicate PathTo(b: Board, c: int, seed: Pos, paths: map<Pos, seq<Pos>>, p: Pos) {
    p in paths && IsPath(b, c, paths[p]) && paths[p][0] == seed && paths[p][|paths[p]| - 1] == p
  }

  /** The positions recorded so far: `visited` as a set, `r` in visiting
      order, each a tile of colour `c`, none twice. */
  ghost predicate Recorded(b: Board, c: int, seed: Pos, visited: set<Pos>, r: seq<Pos>) {
    && (forall p :: p in visited <==> p in r)
    && Distinct(r)
    && (forall p :: p in visited ==> CheckValue(b, p.x, p.y, c))
    && (r == [] <==> visited == {})
    && (r != [] ==> r[0] == seed)
  }

  /** Every pending position is the seed or a neighbour of the visited tile it
      was pushed from. */
  ghost predicate Pending(seed: Pos, stack: seq<Pos>, from: seq<Pos>, visited: set<Pos>) {
    && |from| == |stack|
    && (forall i :: 0 <= i < |stack| ==>
          stack[i] == seed || (from[i] in visited && Adjacent(from[i], stack[i])))
  }

  /** Every same-colour neighbour of a visited tile is visited or pending. */
  ghost predicate Frontier(b: Board, c: int, stack: seq<Pos>, visited: set<Pos>) {
    forall p, q :: p in visited && Adjacent(p, q) && CheckValue(b, q.x, q.y, c) ==>
      q in visited || q in stack
  }

  /** The state of the depth-first search of `ComputeDestroy`: `stack` holds
      the pending positions, `from[i]` the visited tile `stack[i]` was pushed
      from, `visited` the positions recorded so far (in order, in `r`), and
      `paths` a same-colour path from the seed to each of them. */
  ghost predicate SearchInv(b: Board, c: int, seed: Pos, stack: seq<Pos>, from: seq<Pos>,
                            visited: set<Pos>, r: seq<Pos>, paths: map<Pos, seq<Pos>>)
  {
    && CheckValue(b, seed.x, seed.y, c)
    && Recorded(b, c, seed, visited, r)
    && (forall p :: p in visited ==> PathTo(b, c, seed, paths, p))
    && Pending(seed, stack, from, visited)
    && Frontier(b, c, stack, visited)
    && (seed in visited || seed in stack)
    && (r == [] ==> stack == [seed])
  }

  /** Popping a position that is not a new tile of the region keeps the
      search state consistent. */
  lemma SkipStep(b: Board, c: int, seed: Pos, stack: seq<Pos>, from: seq<Pos>,
                 visited: set<Pos>, r: seq<Pos>, paths: map<Pos, seq<Pos>>)
    requires SearchInv(b, c, seed, stack, from, visited, r, paths) && stack != []
    requires var p := stack[|stack| - 1]; !CheckValue(b, p.x, p.y, c) || p in visited
    ensures SearchInv(b, c, seed, stack[..|stack| - 1], from[..|from| - 1], visited, r, paths)
  {
    var n := |stack| - 1;
    assert stack == stack[..n] + [stack[n]];
    forall p, q | p in visited && Adjacent(p, q) && CheckValue(b, q.x, q.y, c)
      ensures q in visited || q in stack[..n]
    {
      assert q in visited || q in stack;
    }
  }

  lemma VisitRecorded(b: Board, c: int, seed: Pos, visited: set<Pos>, r: seq<Pos>, p: Pos,
                      visited': set<Pos>, r': seq<Pos>)
    requires Recorded(b, c, seed, visited, r)
    requires CheckValue(b, p.x, p.y, c) && p !in visited
    requires r == [] ==> p == seed
    requires visited' == visited + {p} && r' == r + [p]
    ensures Recorded(b, c, seed, visited', r')
    ensures |Cells(b) - visited'| < |Cells(b) - visited|
  {
    assert p in Cells(b);
    assert Cells(b) - visited' == (Cells(b) - visited) - {p};
  }

  lemma VisitPaths(b: Board, c: int, seed: Pos, visited: set<Pos>, paths: map<Pos, seq<Pos>>,
                   p: Pos, parent: Pos, visited': set<Pos>, paths': map<Pos, seq<Pos>>)
    requires forall v :: v in visited ==> PathTo(b, c, seed, paths, v)
    requires CheckValue(b, p.x, p.y, c)
    requires p != seed ==> parent in visited && Adjacent(parent, p)
    requires visited' == visited + {p}
    requires p == seed ==> paths' == paths[p := [seed]]
    requires p != seed ==> parent in paths && paths' == paths[p := paths[parent] + [p]]
    ensures forall v :: v in visited' ==> PathTo(b, c, seed, paths', v)
  {
    if p != seed {
      assert PathTo(b, c, seed, paths, parent);
    }
    assert PathTo(b, c, seed, paths', p);
    forall v | v in visited'
      ensures PathTo(b, c, seed, paths', v)
    {
      if v != p {
        assert PathTo(b, c, seed, paths, v);
      }
    }
  }

  lemma VisitPending(seed: Pos, stack: seq<Pos>, from: seq<Pos>, visited: set<Pos>, p: Pos,
                     stack': seq<Pos>, from': seq<Pos>, visited': set<Pos>)
    requires Pending(seed, stack, from, visited) && stack != []
    requires var ns := Neighbours(p);
             && stack' == stack[..|stack| - 1] + [ns[3], ns[2], ns[1], ns[0]]
             && from' == from[..|from| - 1] + [p, p, p, p]
             && visited' == visited + {p}
    ensures Pending(seed, stack', from', visited')
  {
    var n := |stack| - 1;
    var ns := Neighbours(p);
    forall i | 0 <= i < |stack'|
      ensures stack'[i] == seed || (from'[i] in visited' && Adjacent(from'[i], stack'[i]))
    {
      if i >= n {
        NeighboursAreAdjacent(p);
        assert stack'[i] in ns && from'[i] == p;
      } else {
        assert stack'[i] == stack[i] && from'[i] == from[i];
      }
    }
  }

  lemma VisitFrontier(b: Board, c: int, stack: seq<Pos>, visited: set<Pos>,
                      stack': seq<Pos>, visited': set<Pos>)
    requires Frontier(b, c, stack, visited) && stack != []
    requires var p := stack[|stack| - 1];
             var ns := Neighbours(p);
             && stack' == stack[..|stack| - 1] + [ns[3], ns[2], ns[1], ns[0]]
             && visited' == visited + {p}
    ensures Frontier(b, c, stack', visited')
  {
    var n := |stack| - 1;
    var p := stack[n];
    var ns := Neighbours(p);
    assert stack == stack[..n] + [p];
    forall v, q | v in visited' && Adjacent(v, q) && CheckValue(b, q.x, q.y, c)
      ensures q in visited' || q in stack'
    {
      if v == p {
        NeighboursAreAdjacent(p);
        assert q in ns;
      } else {
        assert q in visited || q in stack;
      }
    }
  }

  /** A member of a non-empty stack is its top or stays below it. */
  lemma PopMember(s: seq<Pos>, e: Pos)
    requires e in s
    ensures e == s[|s| - 1] || e in s[..|s| - 1]
  {
    assert s == s[..|s| - 1] + [s[|s| - 1]];
  }

  /** `computeDestroy(x, y)`: the positions to remove for a click on (x, y).

      Empty when no destroyable tile is there. Otherwise a depth-first search
      over same-colour neighbours, visiting below, above, left, right. The
      engine recurses; here the pending positions sit on an explicit stack,
      pushed in reverse so that they are visited in the same order, and each
      position is recorded once, when first visited. */
  method ComputeDestroy(b: Board, x: int, y: int) returns (r: seq<Pos>)
    ensures |r| == 0 <==> !IsDestroyable(b, x, y)
    ensures Distinct(r)
    ensures IsDestroyable(b, x, y) ==>
              var c := b[x][y].colour;
              && |r| >= 2 && r[0] == Pos(x, y)
              && (forall i :: 0 <= i < |r| ==> CheckValue(b, r[i].x, r[i].y, c))
              && (forall i :: 0 <= i < |r| ==> Connected(b, c, Pos(x, y), r[i]))
              && Closed(b, c, set p | p in r)
              && (set p | p in r) == Region(b, c, Pos(x, y))
  {
    if !(Exists(b, x, y) && IsDestroyable(b, x, y)) {
      return [];
    }
    var c := b[x][y].colour;
    r := Search(b, c, Pos(x, y));
    SearchResult(b, c, Pos(x, y), r);
  }

  /** The depth-first search proper, from `seed` over tiles of colour `c`.
      The search terminates because every visit records a new tile of the
      board, and every other step shrinks the stack. */
  method Search(b: Board, c: int, seed: Pos) returns (r: seq<Pos>)
    requires CheckValue(b, seed.x, seed.y, c)
    ensures |r| >= 1 && r[0] == seed && Distinct(r)
    ensures forall i :: 0 <= i < |r| ==> CheckValue(b, r[i].x, r[i].y, c)
    ensures forall i :: 0 <= i < |r| ==> Connected(b, c, seed, r[i])
    ensures Closed(b, c, set p | p in r)
  {
    var stack := [seed];
    var seen: set<Pos> := {};
    r := [];
    ghost var from := [seed];
    ghost var paths: map<Pos, seq<Pos>> := map[];

    while stack != []
      invariant SearchInv(b, c, seed, stack, from, seen, r, paths)
      decreases |Cells(b) - seen|, |stack|
    {
      var p := stack[|stack| - 1];
      if CheckValue(b, p.x, p.y, c) && p !in seen {
        var ns := Neighbours(p);
        var stack' := stack[..|stack| - 1] + [ns[3], ns[2], ns[1], ns[0]];
        ghost var from' := from[..|from| - 1] + [p, p, p, p];
        var seen' := seen + {p};
        var r' := r + [p];
        ghost var paths' := paths[p := if p == seed then [seed] else paths[from[|from| - 1]] + [p]];
        VisitRecorded(b, c, seed, seen, r, p, seen', r');
        VisitPaths(b, c, seed, seen, paths, p, from[|from| - 1], seen', paths');
        VisitPending(seed, stack, from, seen, p, stack', from', seen');
        VisitFrontier(b, c, stack, seen, stack', seen');
        if seed !in seen {
          PopMember(stack, seed);
        }
        stack, from, seen, r, paths := stack', from', seen', r', paths';
      } else {
        SkipStep(b, c, seed, stack, from, seen, r, paths);
        stack := stack[..|stack| - 1];
        from := from[..|from| - 1];
      }
    }
    SearchDone(b, c, seed, seen, r, paths);
  }

  /** When the stack is empty the search has recorded, from the seed on,
      distinct tiles of colour `c`, each connected to the seed, and no
      same-colour neighbour of a recorded tile is missing. */
  lemma SearchDone(b: Board, c: int, seed: Pos, visited: set<Pos>, r: seq<Pos>,
                   paths: map<Pos, seq<Pos>>)
    requires SearchInv(b, c, seed, [], [], visited, r, paths)
    ensures |r| >= 1 && r[0] == seed && Distinct(r)
    ensures forall i :: 0 <= i < |r| ==> CheckValue(b, r[i].x, r[i].y, c)
    ensures forall i :: 0 <= i < |r| ==> Connected(b, c, seed, r[i])
    ensures Closed(b, c, set p | p in r)
  {
    assert (set p | p in r) == visited;
    forall p | p in visited
      ensures Connected(b, c, seed, p)
    {
      var ps := paths[p];
      assert PathTo(b, c, seed, paths, p);
      assert IsPath(b, c, ps) && ps[0] == seed && ps[|ps| - 1] == p;
    }
  }

  /** For a destroyable seed the search result is the whole region, and it
      holds the seed's same-colour neighbour as well as the seed. */
  lemma SearchResult(b: Board, c: int, seed: Pos, r: seq<Pos>)
    requires |r| >= 1 && r[0] == seed && Distinct(r)
    requires forall i :: 0 <= i < |r| ==> Connected(b, c, seed, r[i])
    requires Closed(b, c, set p | p in r)
    requires IsDestroyable(b, seed.x, seed.y) && c == b[seed.x][seed.y].colour
    ensures |r| >= 2
    ensures (set p | p in r) == Region(b, c, seed)
  {
    var q :| Adjacent(seed, q) && SameColour(b, seed, q);
    assert seed in (set p | p in r);
    assert q in (set p | p in r) && q != seed;
    ClosedConnectedIsRegion(b, c, seed, set p | p in r);
  }

  /** Nulls the cell at `y` of a column, as the engine's `column[y] = null`
      does: a write past the end grows the column, the skipped slots reading
      as null; a negative index is not an array slot and changes nothing. */
  function SetNull(col: Column, y: int): (r: Column)
    ensures y < 0 ==> r == col
    ensures y >= 0 ==> |r| == if y < |col| then |col| else y + 1
    ensures forall i :: 0 <= i < |r| ==>
              r[i] == if i == y || i >= |col| then Null else col[i]
  {
    if y < 0 then col
    else if y < |col| then col[y := Null]
    else col + seq(y + 1 - |col|, _ => Null)
  }

  /** Every listed position is a cell of the board. */
  predicate OnBoard(b: Board, ds: seq<Pos>) {
    forall i :: 0 <= i < |ds| ==> 0 <= ds[i].x < |b| && 0 <= ds[i].y < |b[ds[i].x]|
  }

  /** `applyDestroy(destroy)`: nulls every listed cell. The engine indexes the
      column first, so a listed column must exist (a missing one is a runtime
      error there). Nothing is compacted. */
  function ApplyDestroy(b: Board, ds: seq<Pos>): (r: Board)
    requires forall i :: 0 <= i < |ds| ==> 0 <= ds[i].x < |b|
    ensures |r| == |b|
    ensures forall x :: 0 <= x < |b| ==> |b[x]| <= |r[x]|
    ensures forall x, y :: 0 <= x < |r| && 0 <= y < |r[x]| ==>
              r[x][y] == if Pos(x, y) in ds || y >= |b[x]| then Null else b[x][y]
    ensures OnBoard(b, ds) ==> forall x :: 0 <= x < |b| ==> |r[x]| == |b[x]|
    decreases |ds|
  {
    if ds == [] then b
    else
      var d := ds[0];
      var b1 := b[d.x := SetNull(b[d.x], d.y)];
      var r := ApplyDestroy(b1, ds[1..]);
      ApplyDestroyStep(b, ds, b1, r);
      r
  }

  /** One write of `applyDestroy` followed by the rest of the list behaves as
      the whole list: the cell equation for `b1` and the tail gives the one for
      `b` and the full list. */
  lemma ApplyDestroyStep(b: Board, ds: seq<Pos>, b1: Board, r: Board)
    requires ds != [] && 0 <= ds[0].x < |b|
    requires b1 == b[ds[0].x := SetNull(b[ds[0].x], ds[0].y)]
    requires |r| == |b1|
    requires forall x :: 0 <= x < |b1| ==> |b1[x]| <= |r[x]|
    requires forall x, y :: 0 <= x < |r| && 0 <= y < |r[x]| ==>
               r[x][y] == if Pos(x, y) in ds[1..] || y >= |b1[x]| then Null else b1[x][y]
    requires OnBoard(b1, ds[1..]) ==> forall x :: 0 <= x < |b1| ==> |r[x]| == |b1[x]|
    ensures forall x :: 0 <= x < |b| ==> |b[x]| <= |r[x]|
    ensures forall x, y :: 0 <= x < |r| && 0 <= y < |r[x]| ==>
              r[x][y] == if Pos(x, y) in ds || y >= |b[x]| then Null else b[x][y]
    ensures OnBoard(b, ds) ==> forall x :: 0 <= x < |b| ==> |r[x]| == |b[x]|
  {
    var d := ds[0];
    assert forall x :: 0 <= x < |b| && x != d.x ==> b1[x] == b[x];
    forall x, y | 0 <= x < |r| && 0 <= y < |r[x]|
      ensures r[x][y] == if Pos(x, y) in ds || y >= |b[x]| then Null else b[x][y]
    {
      assert Pos(x, y) in ds <==> Pos(x, y) == d || Pos(x, y) in ds[1..] by {
        assert ds == [d] + ds[1..];
      }
    }
    if OnBoard(b, ds) {
      assert OnBoard(b1, ds[1..]) by {
        forall i | 0 <= i < |ds[1..]|
          ensures 0 <= ds[1..][i].x < |b1| && 0 <= ds[1..][i].y < |b1[ds[1..][i].x]|
        {
          assert ds[1..][i] == ds[i + 1];
        }
      }
    }
  }

  /** Every listed position holds a tile. */
  predicate AllTiles(b: Board, ds: seq<Pos>) {
    forall i :: 0 <= i < |ds| ==> Exists(b, ds[i].x, ds[i].y)
  }

  /** Removing a list of distinct tiles takes exactly that many tiles off the
      board. */
  lemma {:induction false} DestroyTileCount(b: Board, ds: seq<Pos>)
    requires AllTiles(b, ds) && Distinct(ds)
    ensures TileCount(ApplyDestroy(b, ds)) == TileCount(b) - |ds|
    decreases |ds|
  {
    if ds != [] {
      var d := ds[0];
      var b1 := b[d.x := SetNull(b[d.x], d.y)];
      assert SetNull(b[d.x], d.y) == b[d.x][d.y := Null];
      CleanLengthAfterNull(b[d.x], d.y);
      TileCountUpdate(b, d.x, b[d.x][d.y := Null]);
      var rest := ds[1..];
      forall i | 0 <= i < |rest|
        ensures Exists(b1, rest[i].x, rest[i].y)
      {
        assert rest[i] == ds[i + 1] && ds[i + 1] != ds[0];
      }
      DestroyTileCount(b1, rest);
    }
  }

  /** Removal keeps every column's length, so a board within its height
      stays within it. */
  lemma DestroyKeepsHeight(b: Board, ds: seq<Pos>, height: int)
    requires AllTiles(b, ds) && WithinHeight(b, height)
    ensures WithinHeight(ApplyDestroy(b, ds), height)
  {
    assert OnBoard(b, ds);
  }

  /** A tile that is not listed survives the removal in place. */
  lemma DestroyKeeps(b: Board, ds: seq<Pos>, x: int, y: int)
    requires AllTiles(b, ds) && Exists(b, x, y) && Pos(x, y) !in ds
    ensures Exists(ApplyDestroy(b, ds), x, y) && ApplyDestroy(b, ds)[x][y] == b[x][y]
  {
  }

  /** Removal takes off exactly the listed tiles: none of them is left, and
      every other tile stays where it was with its colour. */
  lemma DestroyExactly(b: Board, ds: seq<Pos>)
    requires AllTiles(b, ds)
    ensures forall i :: 0 <= i < |ds| ==> !Exists(ApplyDestroy(b, ds), ds[i].x, ds[i].y)
    ensures forall x, y :: Exists(ApplyDestroy(b, ds), x, y) <==> Exists(b, x, y) && Pos(x, y) !in ds
    ensures forall x, y :: Exists(ApplyDestroy(b, ds), x, y) ==> ApplyDestroy(b, ds)[x][y] == b[x][y]
  {
    assert OnBoard(b, ds);
    var db := ApplyDestroy(b, ds);
    forall i | 0 <= i < |ds|
      ensures !Exists(db, ds[i].x, ds[i].y)
    {
      assert Pos(ds[i].x, ds[i].y) == ds[i];
    }
  }
}
