/**
 * The move resolver of the tile board: how one tile walks towards the edge
 * it is pushed to and then merges, slides or stays, and how a whole move
 * visits the cells in the order the input handler chooses.
 */
module Moves {
  import opened Options
  import opened Grids
  import opened Boards
  import opened Tiles
  import opened Scores

  /** The board together with the session score that merges feed. */
  datatype World = World(board: Board, score: Score)

  /** A world after some tiles were processed, and whether any of them moved or merged. */
  datatype Moved = Moved(world: World, changed: bool)

  /** A tile may merge into one of the same level that has not yet merged this move. */
  predicate CanMerge(a: Tile, b: Tile)
  {
    a.state == b.state && !b.locked
  }

  /** Mathf.Clamp on integers. */
  function Clamp(v: int, lo: int, hi: int): int
  {
    if v < lo then lo else if v > hi then hi else v
  }

  /** The position of the first level that is s, or -1 when s is not in the list. */
  function IndexOf(states: seq<TileState>, s: TileState?): (i: int)
    ensures -1 <= i < |states|
    ensures i == -1 <==> forall k :: 0 <= k < |states| ==> states[k] != s
    ensures i >= 0 ==> states[i] == s && forall k :: 0 <= k < i ==> states[k] != s
  {
    if states == [] then -1
    else if states[0] == s then 0
    else
      var j := IndexOf(states[1..], s);
      if j < 0 then -1 else j + 1
  }

  /**
   * The index of the level a merge produces from level s: the next one in
   * the list, held at the last one; a level missing from the list counts
   * as index -1 and so yields the first.
   */
  function NextLevel(states: seq<TileState>, s: TileState?): (r: nat)
    requires |states| > 0
    ensures r < |states|
    ensures 0 <= IndexOf(states, s) < |states| - 1 ==> r == IndexOf(states, s) + 1 && states[r - 1] == s
    ensures IndexOf(states, s) == |states| - 1 ==> r == |states| - 1 && states[r] == s
    ensures (forall k :: 0 <= k < |states| ==> states[k] != s) ==> r == 0
  {
    Clamp(IndexOf(states, s) + 1, 0, |states| - 1)
  }

  /**
   * Tile a merges into tile u: a leaves the live list and its cell, u keeps
   * its cell, takes the next level and is locked, and the score grows by
   * the new level's number.
   */
  function MergeTiles(w: World, a: TileId, u: TileId): (r: World)
    requires Consistent(w.board) && |w.board.states| > 0
    requires a in w.board.tiles && u in w.board.tiles && a != u
    ensures Consistent(r.board)
    ensures var b, c := w.board, r.board;
      && c.grid == b.grid && c.states == b.states && c.nextId == b.nextId && c.store.Keys == b.store.Keys
      && c.tiles == Remove(b.tiles, a) && |c.tiles| == |b.tiles| - 1
      && c.store[a] == b.store[a].(cell := None)
      && b.At(b.store[a].cell.value).Some? && c.At(b.store[a].cell.value).None?
      && c.store[u] == Tile(b.states[NextLevel(b.states, b.store[u].state)], b.store[u].cell, true)
      && (forall v :: v in b.store && v != a && v != u ==> c.store[v] == b.store[v])
      && r.score == IncreaseScore(w.score, b.states[NextLevel(b.states, b.store[u].state)].number)
  {
    var b := w.board;
    var b1 := b.(tiles := Remove(b.tiles, a));
    var b2 := MergeInto(b1, a, b.store[u].cell.value);
    var s := b.states[NextLevel(b.states, b2.store[u].state)];
    var c := SetState(b2, u, s);
    assert b.At(b.store[a].cell.value) == Some(a) && b.At(b.store[u].cell.value) == Some(u);
    b.grid.IndexApart(b.store[a].cell.value);
    assert c.cells == b.cells[b.grid.Index(b.store[a].cell.value) := None];
    MergePreserves(b, a, c);
    World(c, IncreaseScore(w.score, s.number))
  }

  /** MergeTiles unfolded into its three steps: leave the list, merge on the board, take the next level. */
  lemma MergeTilesSteps(w: World, a: TileId, u: TileId, merged: Board)
    requires Consistent(w.board) && |w.board.states| > 0
    requires a in w.board.tiles && u in w.board.tiles && a != u
    requires w.board.Placed(a) && w.board.Placed(u)
    requires merged == MergeInto(w.board.(tiles := Remove(w.board.tiles, a)), a, w.board.store[u].cell.value)
    ensures var s := w.board.states[NextLevel(w.board.states, merged.store[u].state)];
      MergeTiles(w, a, u) == World(SetState(merged, u, s), IncreaseScore(w.score, s.number))
  {
  }

  /**
   * Consistency after a merge, from what the merge does to cells and tiles:
   * a's cell is emptied, a leaves the live list, and every other tile keeps
   * its cell.
   */
  lemma MergePreserves(b: Board, a: TileId, c: Board)
    requires Consistent(b) && a in b.tiles && c.WellFormed()
    requires c.grid == b.grid && c.nextId == b.nextId && c.store.Keys == b.store.Keys
    requires c.cells == b.cells[b.grid.Index(b.store[a].cell.value) := None]
    requires c.tiles == Remove(b.tiles, a)
    requires forall t :: t in b.store && t != a ==> c.store[t].cell == b.store[t].cell
    ensures Consistent(c)
  {
    var pa := b.store[a].cell.value;
    var ia := b.grid.Index(pa);
    assert b.At(pa) == Some(a);
    CountUpdate(b.cells, ia, None);
    forall t | t in c.tiles
      ensures c.Placed(t)
    {
      assert t in b.tiles && b.Placed(t);
      assert b.store[t].cell != Some(pa);
    }
    forall i | 0 <= i < |c.cells| && c.cells[i].Some?
      ensures c.OccupantAgrees(i)
    {
      assert i != ia && b.cells[i].Some? && b.OccupantAgrees(i);
    }
  }

  /** Where a tile's walk ended: the last empty cell passed, and the occupied cell that stopped it. */
  datatype Walk = Walk(dest: Option<Pos>, blocker: Option<Pos>)

  /**
   * The walk of MoveTile from cell `adjacent` on: every empty cell becomes the
   * candidate destination and the walk goes on; an occupied cell or the edge
   * stops it.
   */
  function WalkFrom(b: Board, d: Direction, adjacent: Option<Pos>, dest: Option<Pos>): (w: Walk)
    requires b.WellFormed()
    requires adjacent.Some? ==> b.grid.InBounds(adjacent.value)
    requires dest.Some? ==> b.grid.InBounds(dest.value) && b.At(dest.value).None?
    ensures w.dest.Some? ==> b.grid.InBounds(w.dest.value) && b.At(w.dest.value).None?
    ensures w.blocker.Some? ==> b.grid.InBounds(w.blocker.value) && b.At(w.blocker.value).Some?
    ensures w.blocker.Some? ==>
      adjacent.Some? && b.grid.EdgeDistance(w.blocker.value, d) <= b.grid.EdgeDistance(adjacent.value, d)
    decreases if adjacent.Some? then b.grid.EdgeDistance(adjacent.value, d) + 1 else 0
  {
    match adjacent
    case None => Walk(dest, None)
    case Some(c) =>
      if b.At(c).Some? then Walk(dest, adjacent)
      else WalkFrom(b, d, b.grid.GetAdjacentCell(c, d), adjacent)
  }

  /**
   * Lock accounting between two moments of one move, from b0 to b: every tile
   * either keeps its lock and level, or was unlocked, is now locked and
   * stands exactly one merge above its earlier level.
   */
  ghost predicate LockAccount(b0: Board, b: Board)
  {
    forall t :: t in b0.store ==>
      && t in b.store
      && ((b.store[t].locked == b0.store[t].locked && b.store[t].state == b0.store[t].state)
          || (&& !b0.store[t].locked && b.store[t].locked && |b0.states| > 0
              && b.store[t].state == b0.states[NextLevel(b0.states, b0.store[t].state)]))
  }

  /** The points tile t has earned from b0 to b: its level's number if it became locked. */
  function Gain(b0: Board, b: Board, t: TileId): int
  {
    if t in b0.store && t in b.store && !b0.store[t].locked && b.store[t].locked && b.store[t].state != null
    then b.store[t].state.number
    else 0
  }

  /** The points earned by the tiles with ids below n. */
  function Gained(b0: Board, b: Board, n: nat): int
  {
    if n == 0 then 0 else Gained(b0, b, n - 1) + Gain(b0, b, n - 1)
  }

  /**
   * The facts every step of a move keeps: the same grid, levels and tile
   * objects; live tiles only leave; each tile absorbs at most one merge and
   * the score rises by exactly the new levels' numbers of the tiles that
   * became locked; the high score only grows and stays at least the score;
   * a change once made is remembered, and nothing changes unless a change
   * is reported.
   */
  ghost predicate Follows(m: Moved, r: Moved)
  {
    var b, c := m.world.board, r.world.board;
    && c.grid == b.grid && c.states == b.states && c.nextId == b.nextId && c.store.Keys == b.store.Keys
    && (forall u :: u in c.tiles ==> u in b.tiles) && |c.tiles| <= |b.tiles|
    && LockAccount(b, c)
    && r.world.score.score == m.world.score.score + Gained(b, c, b.nextId)
    && r.world.score.hiscore >= m.world.score.hiscore
    && (m.world.score.score <= m.world.score.hiscore ==> r.world.score.score <= r.world.score.hiscore)
    && (m.changed ==> r.changed)
    && (!r.changed ==> r.world == m.world)
  }

  lemma {:induction false} GainedChange(b0: Board, b: Board, c: Board, n: nat, u: TileId)
    requires forall i: nat :: i < n && i != u ==> Gain(b0, c, i) == Gain(b0, b, i)
    ensures Gained(b0, c, n) == Gained(b0, b, n) + (if u < n then Gain(b0, c, u) - Gain(b0, b, u) else 0)
  {
    if n > 0 {
      GainedChange(b0, b, c, n - 1, u);
    }
  }

  lemma {:induction false} GainedNothing(b0: Board, b: Board, n: nat)
    requires forall i: nat :: i < n ==> Gain(b0, b, i) == 0
    ensures Gained(b0, b, n) == 0
  {
    if n > 0 {
      GainedNothing(b0, b, n - 1);
    }
  }

  lemma {:induction false} GainedAdds(a: Board, b: Board, c: Board, n: nat)
    requires forall i: nat :: i < n ==> Gain(a, c, i) == Gain(a, b, i) + Gain(b, c, i)
    ensures Gained(a, c, n) == Gained(a, b, n) + Gained(b, c, n)
  {
    if n > 0 {
      GainedAdds(a, b, c, n - 1);
    }
  }

  /** The grid and the list of levels, which no step of a move touches. */
  predicate Keeps(m: Moved, r: Moved)
  {
    r.world.board.grid == m.world.board.grid && r.world.board.states == m.world.board.states
  }

  /** Two steps of a move make one. */
  lemma FollowsTransitive(m1: Moved, m2: Moved, m3: Moved)
    requires Follows(m1, m2) && Follows(m2, m3)
    ensures Follows(m1, m3)
  {
    var a, b, c := m1.world.board, m2.world.board, m3.world.board;
    forall i: nat | i < a.nextId
      ensures Gain(a, c, i) == Gain(a, b, i) + Gain(b, c, i)
    {
    }
    GainedAdds(a, b, c, a.nextId);
  }

  /** A merge is accounted for: only the absorbing tile becomes locked, and the score rises by its new level's number. */
  lemma MergeFollows(w: World, a: TileId, u: TileId)
    requires Consistent(w.board) && |w.board.states| > 0
    requires a in w.board.tiles && u in w.board.tiles && a != u && CanMerge(w.board.store[a], w.board.store[u])
    ensures Follows(Moved(w, false), Moved(MergeTiles(w, a, u), true))
  {
    var b := w.board;
    var c := MergeTiles(w, a, u).board;
    assert u < b.nextId;
    forall i: nat | i < b.nextId && i != u
      ensures Gain(b, c, i) == Gain(b, b, i)
    {
      if i != a && i in b.store {
        assert c.store[i] == b.store[i];
      }
    }
    GainedNothing(b, b, b.nextId);
    GainedChange(b, b, c, b.nextId, u);
  }

  /** A slide is accounted for: no lock, level or score changes. */
  lemma SlideFollows(w: World, t: TileId, p: Pos)
    requires Consistent(w.board) && t in w.board.tiles && w.board.grid.InBounds(p) && w.board.At(p).None?
    ensures Follows(Moved(w, false), Moved(World(Occupy(w.board, t, p), w.score), true))
  {
    var b := w.board;
    var c := Occupy(b, t, p);
    forall i: nat | i < b.nextId
      ensures Gain(b, c, i) == 0
    {
      if i in b.store && i != t {
        assert c.store[i] == b.store[i];
      }
    }
    GainedNothing(b, c, b.nextId);
  }

  /** Nothing happened: nothing is accounted. */
  lemma StayFollows(m: Moved)
    ensures Follows(m, m)
  {
    GainedNothing(m.world.board, m.world.board, m.world.board.nextId);
  }

  /** The tile that stops a walk is never the walking tile itself. */
  lemma BlockerIsAnother(b: Board, t: TileId, d: Direction)
    requires Consistent(b) && t in b.tiles
    ensures var w := WalkFrom(b, d, b.grid.GetAdjacentCell(b.store[t].cell.value, d), None);
      w.blocker.Some? ==> b.At(w.blocker.value).value in b.tiles && b.At(w.blocker.value).value != t
  {
    var p := b.store[t].cell.value;
    var w := WalkFrom(b, d, b.grid.GetAdjacentCell(p, d), None);
    if w.blocker.Some? {
      var q := w.blocker.value;
      assert b.grid.EdgeDistance(q, d) < b.grid.EdgeDistance(p, d);
      assert b.OccupantAgrees(b.grid.Index(q));
      if b.At(q).value == t {
        b.grid.IndexInjective(p, q);
      }
    }
  }

  /** A slide into an empty cell keeps the board consistent. */
  lemma SlidePreserves(b: Board, t: TileId, p: Pos)
    requires Consistent(b) && t in b.tiles && b.grid.InBounds(p) && b.At(p).None?
    ensures Consistent(Occupy(b, t, p))
  {
    var r := Occupy(b, t, p);
    var q := b.store[t].cell.value;
    var iq, ip := b.grid.Index(q), b.grid.Index(p);
    assert b.At(q) == Some(t);
    b.grid.IndexApart(p);
    assert r.cells == b.cells[iq := None][ip := Some(t)];
    CountUpdate(b.cells, iq, None);
    CountUpdate(b.cells[iq := None], ip, Some(t));
    forall u | u in r.tiles
      ensures r.Placed(u)
    {
      assert b.Placed(u);
    }
    forall i | 0 <= i < |r.cells| && r.cells[i].Some?
      ensures r.OccupantAgrees(i)
    {
      if i != ip {
        assert b.OccupantAgrees(i);
      }
    }
  }

  /**
   * MoveTile: walk towards the edge; merge into the first occupied cell when
   * the merge rule allows it, otherwise slide to the last empty cell passed,
   * otherwise report no change.
   */
  function MoveTile(w: World, t: TileId, d: Direction): (r: Moved)
    requires Consistent(w.board) && |w.board.states| > 0 && t in w.board.tiles
    ensures Consistent(r.world.board) && Keeps(Moved(w, false), r)
  {
    var b := w.board;
    var walk := WalkFrom(b, d, b.grid.GetAdjacentCell(b.store[t].cell.value, d), None);
    BlockerIsAnother(b, t, d);
    if walk.blocker.Some? && CanMerge(b.store[t], b.store[b.At(walk.blocker.value).value]) then
      Moved(MergeTiles(w, t, b.At(walk.blocker.value).value), true)
    else if walk.dest.Some? then
      SlidePreserves(b, t, walk.dest.value);
      Moved(World(Occupy(b, t, walk.dest.value), w.score), true)
    else
      Moved(w, false)
  }

  /**
   * What one MoveTile did is accounted for: a merge locks the absorbing
   * tile and adds its new level's number to the score, a slide changes no
   * level, lock or score, and a tile that stays changes nothing.
   */
  lemma MoveTileFollows(w: World, t: TileId, d: Direction)
    requires Consistent(w.board) && |w.board.states| > 0 && t in w.board.tiles
    ensures Follows(Moved(w, false), MoveTile(w, t, d))
  {
    var b := w.board;
    var walk := WalkFrom(b, d, b.grid.GetAdjacentCell(b.store[t].cell.value, d), None);
    BlockerIsAnother(b, t, d);
    if walk.blocker.Some? && CanMerge(b.store[t], b.store[b.At(walk.blocker.value).value]) {
      MergeFollows(w, t, b.At(walk.blocker.value).value);
    } else if walk.dest.Some? {
      SlideFollows(w, t, walk.dest.value);
    } else {
      StayFollows(Moved(w, false));
    }
  }

  /** The loop bounds of one move: where each axis starts and which way it steps. */
  datatype Traversal = Traversal(startX: int, incX: int, startY: int, incY: int)

  /**
   * The traversal the input handler asks for in each direction: every axis
   * runs in natural order except the one along the move, which starts one
   * cell away from the edge the tiles move towards and steps away from it.
   */
  function TraversalFor(g: Grid, d: Direction): Traversal
  {
    match d
    case Up => Traversal(0, 1, 1, 1)
    case Down => Traversal(0, 1, g.height - 2, -1)
    case Left => Traversal(1, 1, 0, 1)
    case Right => Traversal(g.width - 2, -1, 0, 1)
  }

  predicate UnitSteps(tr: Traversal)
  {
    (tr.incX == 1 || tr.incX == -1) && (tr.incY == 1 || tr.incY == -1)
  }

  /** One cell of the traversal: its tile, if any, is moved and any change is remembered. */
  function StepAt(m: Moved, d: Direction, x: int, y: int): (r: Moved)
    requires Consistent(m.world.board) && |m.world.board.states| > 0
    requires m.world.board.grid.InBounds(Pos(x, y))
    ensures Consistent(r.world.board) && Keeps(m, r)
  {
    var b := m.world.board;
    match b.At(Pos(x, y))
    case None => m
    case Some(t) =>
      assert b.OccupantAgrees(b.grid.Index(Pos(x, y)));
      var r := MoveTile(m.world, t, d);
      Moved(r.world, m.changed || r.changed)
  }

  /** The inner loop of a move: column x from row y on. */
  function RunRows(m: Moved, d: Direction, tr: Traversal, x: int, y: int): (r: Moved)
    requires Consistent(m.world.board) && |m.world.board.states| > 0 && UnitSteps(tr)
    requires 0 <= x < m.world.board.grid.width
    ensures Consistent(r.world.board) && Keeps(m, r)
    decreases if tr.incY > 0 then m.world.board.grid.height - y else y + 1
  {
    if 0 <= y < m.world.board.grid.height then
      RunRows(StepAt(m, d, x, y), d, tr, x, y + tr.incY)
    else
      m
  }

  /** The outer loop of a move: every column from x on. */
  function RunCols(m: Moved, d: Direction, tr: Traversal, x: int): (r: Moved)
    requires Consistent(m.world.board) && |m.world.board.states| > 0 && UnitSteps(tr)
    ensures Consistent(r.world.board) && Keeps(m, r)
    decreases if tr.incX > 0 then m.world.board.grid.width - x else x + 1
  {
    if 0 <= x < m.world.board.grid.width then
      RunCols(RunRows(m, d, tr, x, tr.startY), d, tr, x + tr.incX)
    else
      m
  }

  /** One step of the inner loop: the cell (x, y) is handled, then the rest of the column. */
  lemma RunRowsStep(m: Moved, d: Direction, tr: Traversal, x: int, y: int)
    requires Consistent(m.world.board) && |m.world.board.states| > 0 && UnitSteps(tr)
    requires m.world.board.grid.InBounds(Pos(x, y))
    ensures RunRows(m, d, tr, x, y) == RunRows(StepAt(m, d, x, y), d, tr, x, y + tr.incY)
  {
  }

  /** One step of the outer loop: column x is handled, then the remaining columns. */
  lemma RunColsStep(m: Moved, d: Direction, tr: Traversal, x: int)
    requires Consistent(m.world.board) && |m.world.board.states| > 0 && UnitSteps(tr)
    requires 0 <= x < m.world.board.grid.width
    ensures RunCols(m, d, tr, x) == RunCols(RunRows(m, d, tr, x, tr.startY), d, tr, x + tr.incX)
  {
  }

  /** StepAt on an occupied cell is MoveTile on its tile, with the change remembered. */
  lemma StepAtTile(m: Moved, d: Direction, x: int, y: int, t: TileId)
    requires Consistent(m.world.board) && |m.world.board.states| > 0
    requires m.world.board.grid.InBounds(Pos(x, y)) && m.world.board.At(Pos(x, y)) == Some(t)
    ensures t in m.world.board.tiles
    ensures var r := MoveTile(m.world, t, d);
      StepAt(m, d, x, y) == Moved(r.world, m.changed || r.changed)
  {
    assert m.world.board.OccupantAgrees(m.world.board.grid.Index(Pos(x, y)));
  }

  /**
   * A whole move: every cell of the traversal, in order. The result keeps
   * the board consistent, and a move that reports no change leaves board
   * and score exactly as they were.
   */
  function Move(w: World, d: Direction, tr: Traversal): (r: Moved)
    requires Consistent(w.board) && |w.board.states| > 0 && UnitSteps(tr)
    ensures Consistent(r.world.board) && Keeps(Moved(w, false), r)
  {
    RunCols(Moved(w, false), d, tr, tr.startX)
  }

  /** Every cell visited is accounted for: the step is one MoveTile or none. */
  lemma StepAtFollows(m: Moved, d: Direction, x: int, y: int)
    requires Consistent(m.world.board) && |m.world.board.states| > 0
    requires m.world.board.grid.InBounds(Pos(x, y))
    ensures Follows(m, StepAt(m, d, x, y))
  {
    var b := m.world.board;
    match b.At(Pos(x, y))
    case None => StayFollows(m);
    case Some(t) =>
      assert b.OccupantAgrees(b.grid.Index(Pos(x, y)));
      MoveTileFollows(m.world, t, d);
  }

  lemma {:induction false} RunRowsFollows(m: Moved, d: Direction, tr: Traversal, x: int, y: int)
    requires Consistent(m.world.board) && |m.world.board.states| > 0 && UnitSteps(tr)
    requires 0 <= x < m.world.board.grid.width
    ensures Follows(m, RunRows(m, d, tr, x, y))
    decreases if tr.incY > 0 then m.world.board.grid.height - y else y + 1
  {
    if 0 <= y < m.world.board.grid.height {
      var next := StepAt(m, d, x, y);
      RunRowsStep(m, d, tr, x, y);
      StepAtFollows(m, d, x, y);
      RunRowsFollows(next, d, tr, x, y + tr.incY);
      FollowsTransitive(m, next, RunRows(next, d, tr, x, y + tr.incY));
    } else {
      StayFollows(m);
    }
  }

  lemma {:induction false} RunColsFollows(m: Moved, d: Direction, tr: Traversal, x: int)
    requires Consistent(m.world.board) && |m.world.board.states| > 0 && UnitSteps(tr)
    ensures Follows(m, RunCols(m, d, tr, x))
    decreases if tr.incX > 0 then m.world.board.grid.width - x else x + 1
  {
    if 0 <= x < m.world.board.grid.width {
      var next := RunRows(m, d, tr, x, tr.startY);
      RunRowsFollows(m, d, tr, x, tr.startY);
      RunColsFollows(next, d, tr, x + tr.incX);
      FollowsTransitive(m, next, RunCols(next, d, tr, x + tr.incX));
    } else {
      StayFollows(m);
    }
  }

  /**
   * A whole move is accounted for: levels only rise by merging, the score
   * rises by exactly the merged levels' numbers, the tiles locked are the
   * ones that absorbed a merge, and a move that reports no change leaves
   * board and score exactly as they were.
   */
  lemma MoveFollows(w: World, d: Direction, tr: Traversal)
    requires Consistent(w.board) && |w.board.states| > 0 && UnitSteps(tr)
    ensures Follows(Moved(w, false), Move(w, d, tr))
  {
    RunColsFollows(Moved(w, false), d, tr, tr.startX);
  }

  /** One more step along a ray is one step from its last cell, and one step nearer the edge. */
  lemma RayStep(g: Grid, p: Pos, d: Direction, m: nat)
    ensures Ray(Ray(p, d, m), d, 1) == Ray(p, d, m + 1)
    ensures g.EdgeDistance(Ray(p, d, m + 1), d) == g.EdgeDistance(Ray(p, d, m), d) - 1
    ensures g.GetAdjacentCell(Ray(p, d, m), d) == if g.InBounds(Ray(p, d, m + 1)) then Some(Ray(p, d, m + 1)) else None
  {
  }

  /** The cells 1..n along the ray from p in direction d are on the grid and empty. */
  predicate Clear(b: Board, p: Pos, d: Direction, n: nat)
    requires b.WellFormed()
  {
    n == 0 || (Clear(b, p, d, n - 1) && b.grid.InBounds(Ray(p, d, n)) && b.At(Ray(p, d, n)).None?)
  }

  lemma {:induction false} ClearMeans(b: Board, p: Pos, d: Direction, n: nat)
    requires b.WellFormed()
    ensures Clear(b, p, d, n) <==> forall k :: 1 <= k <= n ==> b.grid.InBounds(Ray(p, d, k)) && b.At(Ray(p, d, k)).None?
  {
    if n > 0 {
      ClearMeans(b, p, d, n - 1);
    }
  }

  /**
   * The walk along the ray from p, having already passed the empty cells 1..m:
   * it passes exactly the empty cells 1..n and stops at cell n+1, which is
   * occupied or off the grid.
   */
  lemma {:induction false} WalkAlongRay(b: Board, p: Pos, d: Direction, m: nat) returns (n: nat)
    requires b.WellFormed() && b.grid.InBounds(p) && Clear(b, p, d, m)
    ensures m <= n && Clear(b, p, d, n)
    ensures !b.grid.InBounds(Ray(p, d, n + 1)) || b.At(Ray(p, d, n + 1)).Some?
    ensures WalkFrom(b, d, b.grid.GetAdjacentCell(Ray(p, d, m), d), if m == 0 then None else Some(Ray(p, d, m)))
         == Walk(if n == 0 then None else Some(Ray(p, d, n)),
                 if b.grid.InBounds(Ray(p, d, n + 1)) then Some(Ray(p, d, n + 1)) else None)
    decreases b.grid.EdgeDistance(Ray(p, d, m), d)
  {
    var q := Ray(p, d, m + 1);
    RayStep(b.grid, p, d, m);
    var dest := if m == 0 then None else Some(Ray(p, d, m));
    if !b.grid.InBounds(q) {
      n := m;
      assert WalkFrom(b, d, None, dest) == Walk(dest, None);
    } else if b.At(q).Some? {
      n := m;
      assert WalkFrom(b, d, Some(q), dest) == Walk(dest, Some(q));
    } else {
      assert WalkFrom(b, d, Some(q), dest) == WalkFrom(b, d, b.grid.GetAdjacentCell(q, d), Some(q));
      n := WalkAlongRay(b, p, d, m + 1);
      assert WalkFrom(b, d, b.grid.GetAdjacentCell(q, d), Some(q))
          == Walk(if n == 0 then None else Some(Ray(p, d, n)),
                  if b.grid.InBounds(Ray(p, d, n + 1)) then Some(Ray(p, d, n + 1)) else None);
    }
  }

  /**
   * Where MoveTile leaves a tile on cell p: with n the number of empty cells
   * in front of it before an occupied cell or the edge, it merges into the
   * tile on cell n+1 when the merge rule allows, else slides to cell n when
   * n > 0, else changes nothing.
   */
  lemma MoveTileOutcome(w: World, t: TileId, d: Direction) returns (n: nat)
    requires Consistent(w.board) && |w.board.states| > 0 && t in w.board.tiles
    ensures var b := w.board; var p := b.store[t].cell.value;
      && (forall k :: 1 <= k <= n ==> b.grid.InBounds(Ray(p, d, k)) && b.At(Ray(p, d, k)).None?)
      && (!b.grid.InBounds(Ray(p, d, n + 1)) || b.At(Ray(p, d, n + 1)).Some?)
      && (b.grid.InBounds(Ray(p, d, n + 1)) ==>
            b.At(Ray(p, d, n + 1)).value in b.tiles && b.At(Ray(p, d, n + 1)).value != t)
    ensures var b := w.board; var p := b.store[t].cell.value; var r := MoveTile(w, t, d);
      if b.grid.InBounds(Ray(p, d, n + 1)) && CanMerge(b.store[t], b.store[b.At(Ray(p, d, n + 1)).value])
      then r == Moved(MergeTiles(w, t, b.At(Ray(p, d, n + 1)).value), true)
      else if n > 0 then r == Moved(World(Occupy(b, t, Ray(p, d, n)), w.score), true)
      else r == Moved(w, false)
  {
    var b := w.board;
    var p := b.store[t].cell.value;
    assert Ray(p, d, 0) == p;
    n := WalkAlongRay(b, p, d, 0);
    ClearMeans(b, p, d, n);
    BlockerIsAnother(b, t, d);
  }

  /** A tile already on the edge it is pushed towards cannot move. */
  lemma EdgeTileStays(w: World, t: TileId, d: Direction)
    requires Consistent(w.board) && |w.board.states| > 0 && t in w.board.tiles
    requires w.board.grid.GetAdjacentCell(w.board.store[t].cell.value, d).None?
    ensures MoveTile(w, t, d) == Moved(w, false)
  {
  }

  /** The cells a traversal visits: on the grid and on or past its start on each axis. */
  predicate Visits(g: Grid, tr: Traversal, p: Pos)
  {
    && g.InBounds(p)
    && (if tr.incX > 0 then tr.startX <= p.x else p.x <= tr.startX)
    && (if tr.incY > 0 then tr.startY <= p.y else p.y <= tr.startY)
  }

  /**
   * Each direction's traversal visits exactly the cells that have a
   * neighbour in that direction: it skips only the edge the tiles move
   * towards, whose tiles cannot move.
   */
  lemma TraversalSkipsOnlyTheEdge(g: Grid, d: Direction, p: Pos)
    requires g.InBounds(p)
    ensures UnitSteps(TraversalFor(g, d))
    ensures Visits(g, TraversalFor(g, d), p) <==> g.GetAdjacentCell(p, d).Some?
  {
  }

}
