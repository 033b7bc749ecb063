/**
 * The board's bookkeeping around moves: clearing it, creating a tile, the
 * settle step that runs once a move has changed something (unlock, spawn,
 * game-over check), and the session that ties board, score, the `waiting`
 * gate and the board's `enabled` flag together.
 */
module Turns {
  import opened Options
  import opened Grids
  import opened Boards
  import opened Tiles
  import opened Scores
  import opened Moves

  /** Tile objects keep their cells and the cells keep their tiles: only levels and locks may differ. */
  lemma CellsKeptPreserve(b: Board, r: Board)
    requires Consistent(b) && SameFrame(b, r) && r.cells == b.cells
    requires forall t :: t in b.store ==> r.store[t].cell == b.store[t].cell
    ensures Consistent(r)
  {
    forall t | t in r.tiles
      ensures r.Placed(t)
    {
      assert b.Placed(t);
    }
    forall i | 0 <= i < |r.cells| && r.cells[i].Some?
      ensures r.OccupantAgrees(i)
    {
      assert b.OccupantAgrees(i);
    }
  }

  /**
   * ClearBoard: every cell forgets its tile and the live list is emptied.
   * The discarded tile objects are no longer reachable from the board.
   */
  function ClearBoard(b: Board): (r: Board)
    ensures r.grid == b.grid && r.states == b.states && r.store == b.store && r.nextId == b.nextId
    ensures |r.cells| == |b.cells| && r.tiles == []
    ensures forall p :: b.WellFormed() && b.grid.InBounds(p) ==> r.WellFormed() && r.At(p).None?
    ensures b.WellFormed() && (forall t: TileId :: t in b.store <==> t < b.nextId) ==> Consistent(r)
  {
    var r := b.(cells := seq(|b.cells|, _ => None), tiles := []);
    CountBounds(r.cells);
    r
  }

  /**
   * CreateTile: a new tile object is made, given the first level, spawned on
   * the empty cell p and appended to the live list.
   */
  function CreateTile(b: Board, p: Pos): (r: Board)
    requires Consistent(b) && |b.states| > 0 && b.grid.InBounds(p) && b.At(p).None?
    ensures Consistent(r)
    ensures r.grid == b.grid && r.states == b.states && r.nextId == b.nextId + 1
    ensures r.tiles == b.tiles + [b.nextId] && |r.tiles| == |b.tiles| + 1
    ensures r.store == b.store[b.nextId := Tile(b.states[0], Some(p), false)]
    ensures r.At(p) == Some(b.nextId)
    ensures forall q :: b.grid.InBounds(q) && q != p ==> r.At(q) == b.At(q)
  {
    var t := b.nextId;
    var r := b.(store := b.store[t := Tile(b.states[0], Some(p), false)], tiles := b.tiles + [t], nextId := t + 1)
              .SetAt(p, Some(t));
    CreatePreserves(b, p, r);
    r
  }

  lemma CreatePreserves(b: Board, p: Pos, r: Board)
    requires Consistent(b) && |b.states| > 0 && b.grid.InBounds(p) && b.At(p).None?
    requires var t := b.nextId;
      r == b.(store := b.store[t := Tile(b.states[0], Some(p), false)], tiles := b.tiles + [t], nextId := t + 1)
             .SetAt(p, Some(t))
    ensures Consistent(r)
  {
    var t := b.nextId;
    var ip := b.grid.Index(p);
    b.grid.IndexApart(p);
    assert r.cells == b.cells[ip := Some(t)];
    CountUpdate(b.cells, ip, Some(t));
    assert t !in b.tiles;
    forall u | u in r.tiles
      ensures r.Placed(u)
    {
      if u != t {
        assert b.Placed(u);
      }
    }
    forall i | 0 <= i < |r.cells| && r.cells[i].Some?
      ensures r.OccupantAgrees(i)
    {
      if i != ip {
        assert b.OccupantAgrees(i);
      }
    }
  }

  /**
   * CreateTile's own steps, in order: instantiate a blank tile object, set
   * its level to the first, spawn it on p, add it to the live list. They
   * produce exactly the board CreateTile describes.
   */
  lemma CreateTileSteps(b: Board, p: Pos)
    requires Consistent(b) && |b.states| > 0 && b.grid.InBounds(p) && b.At(p).None?
    ensures var t := b.nextId;
      var made := b.(store := b.store[t := Tile(null, None, false)], nextId := t + 1);
      var spawned := Occupy(SetState(made, t, b.states[0]), t, p);
      spawned.(tiles := spawned.tiles + [t]) == CreateTile(b, p)
  {
    var t := b.nextId;
    var made := b.(store := b.store[t := Tile(null, None, false)], nextId := t + 1);
    var spawned := Occupy(SetState(made, t, b.states[0]), t, p);
    var r := CreateTile(b, p);
    b.grid.IndexApart(p);
    assert spawned.cells == r.cells;
  }

  /** The settle step's loop over the live tiles ts, in order: each is unlocked. */
  function Unlock(b: Board, ts: seq<TileId>): (r: Board)
    requires forall t :: t in ts ==> t in b.store
    ensures SameFrame(b, r) && r.cells == b.cells
    ensures forall t :: t in b.store ==> r.store[t] == if t in ts then b.store[t].(locked := false) else b.store[t]
  {
    if ts == [] then b
    else
      var prev := Unlock(b, ts[..|ts| - 1]);
      var t := ts[|ts| - 1];
      assert forall u :: u in ts <==> u in ts[..|ts| - 1] || u == t;
      prev.(store := prev.store[t := prev.store[t].(locked := false)])
  }

  /** No live tile is locked: every tile may absorb a merge again. */
  ghost predicate AllUnlocked(b: Board)
  {
    forall t :: t in b.tiles && t in b.store ==> !b.store[t].locked
  }

  /** The tile on cell p of the grid may merge with the tile beside it in direction d. */
  predicate MergeableToward(b: Board, t: TileId, d: Direction)
    requires b.WellFormed() && t in b.store && b.store[t].cell.Some?
  {
    var c := b.grid.GetAdjacentCell(b.store[t].cell.value, d);
    && c.Some? && b.At(c.value).Some? && b.At(c.value).value in b.store
    && CanMerge(b.store[t], b.store[b.At(c.value).value])
  }

  /** No neighbour of the live tile t, above, below, left or right, allows a merge. */
  predicate Stuck(b: Board, t: TileId)
    requires Consistent(b) && t in b.tiles
  {
    assert b.Placed(t);
    && !MergeableToward(b, t, Up) && !MergeableToward(b, t, Down)
    && !MergeableToward(b, t, Left) && !MergeableToward(b, t, Right)
  }

  /**
   * CheckForGameOver: as many live tiles as cells, and every live tile is
   * stuck. (Once the count matches, every neighbour cell is occupied, so
   * the occupancy test in MergeableToward never fails there.)
   */
  predicate CheckForGameOver(b: Board)
    requires Consistent(b)
  {
    && |b.tiles| == b.grid.Size()
    && forall t :: t in b.tiles ==> Stuck(b, t)
  }

  /** The level of the tile on cell p, null for an empty cell. */
  function LevelAt(b: Board, p: Pos): TileState?
    requires b.WellFormed() && b.grid.InBounds(p)
  {
    if b.At(p).Some? && b.At(p).value in b.store then b.store[b.At(p).value].state else null
  }

  /** No two orthogonally adjacent cells hold the same level. */
  ghost predicate NoEqualNeighbours(b: Board)
    requires b.WellFormed()
  {
    forall p, d :: b.grid.InBounds(p) && b.grid.InBounds(Ray(p, d, 1)) ==> LevelAt(b, p) != LevelAt(b, Ray(p, d, 1))
  }

  /**
   * On a full board, the live tile t is stuck exactly when no neighbour of
   * its cell holds the same level.
   */
  lemma StuckMeans(b: Board, t: TileId)
    requires Consistent(b) && AllUnlocked(b) && b.Full() && t in b.tiles
    ensures b.Placed(t)
    ensures var p := b.store[t].cell.value;
      Stuck(b, t) <==> forall d :: b.grid.InBounds(Ray(p, d, 1)) ==> LevelAt(b, p) != LevelAt(b, Ray(p, d, 1))
  {
    assert b.Placed(t);
    var p := b.store[t].cell.value;
    forall d | b.grid.InBounds(Ray(p, d, 1))
      ensures MergeableToward(b, t, d) <==> LevelAt(b, p) == LevelAt(b, Ray(p, d, 1))
    {
      var j := b.grid.Index(Ray(p, d, 1));
      assert b.cells[j].Some? && b.OccupantAgrees(j);
    }
  }

  /** On a full board every cell holds a live tile that sits on that very cell. */
  lemma OccupantOf(b: Board, p: Pos) returns (t: TileId)
    requires Consistent(b) && b.Full() && b.grid.InBounds(p)
    ensures b.At(p) == Some(t) && t in b.tiles && b.Placed(t) && b.store[t].cell == Some(p)
  {
    var i := b.grid.Index(p);
    assert b.cells[i].Some? && b.OccupantAgrees(i);
    t := b.At(p).value;
    b.grid.IndexInjective(p, b.store[t].cell.value);
  }

  /**
   * Once every tile is unlocked, the game is over exactly when every cell
   * is occupied and no two neighbouring cells hold the same level.
   */
  lemma GameOverMeans(b: Board)
    requires Consistent(b) && AllUnlocked(b)
    ensures CheckForGameOver(b) <==> b.Full() && NoEqualNeighbours(b)
  {
    TileCountBound(b);
    if CheckForGameOver(b) {
      forall p, d | b.grid.InBounds(p) && b.grid.InBounds(Ray(p, d, 1))
        ensures LevelAt(b, p) != LevelAt(b, Ray(p, d, 1))
      {
        var t := OccupantOf(b, p);
        StuckMeans(b, t);
      }
    }
    if b.Full() && NoEqualNeighbours(b) {
      forall t | t in b.tiles
        ensures Stuck(b, t)
      {
        StuckMeans(b, t);
      }
    }
  }

  /** The settle step's reset: every live tile is unlocked, and nothing else changes. */
  function UnlockAll(b: Board): (r: Board)
    requires Consistent(b)
    ensures Consistent(r) && AllUnlocked(r)
    ensures SameFrame(b, r) && r.cells == b.cells
    ensures forall t :: t in b.tiles ==> r.store[t] == b.store[t].(locked := false)
    ensures forall t :: t in b.store && t !in b.tiles ==> r.store[t] == b.store[t]
  {
    var r := Unlock(b, b.tiles);
    CellsKeptPreserve(b, r);
    r
  }

  /** The settle step's spawn: a first-level tile on the empty cell `spawn`, unless every cell is taken. */
  function SpawnIfRoom(b: Board, spawn: Pos): (r: Board)
    requires Consistent(b) && |b.states| > 0 && AllUnlocked(b)
    requires |b.tiles| != b.grid.Size() ==> b.grid.InBounds(spawn) && b.At(spawn).None?
    ensures Consistent(r) && AllUnlocked(r)
    ensures r.grid == b.grid && r.states == b.states
    ensures forall t :: t in b.store ==> t in r.store && r.store[t] == b.store[t]
    ensures |b.tiles| != b.grid.Size() ==>
      && r.tiles == b.tiles + [b.nextId] && r.nextId == b.nextId + 1
      && r.store[b.nextId] == Tile(b.states[0], Some(spawn), false)
      && r.At(spawn) == Some(b.nextId)
      && forall q :: b.grid.InBounds(q) && q != spawn ==> r.At(q) == b.At(q)
    ensures |b.tiles| == b.grid.Size() ==> r == b
  {
    if |b.tiles| != b.grid.Size() then
      var r := CreateTile(b, spawn);
      assert b.nextId !in b.store;
      r
    else
      b
  }

  /** What the settle step leaves: the board and whether the game is over. */
  datatype Settled = Settled(board: Board, over: bool)

  /**
   * The settle step (the part of WaitForChanges after its pause): unlock
   * every live tile, create a tile on the empty cell `spawn` unless every
   * cell is taken, then check for game over.
   */
  function Settle(b: Board, spawn: Pos): (r: Settled)
    requires Consistent(b) && |b.states| > 0
    requires |b.tiles| != b.grid.Size() ==> b.grid.InBounds(spawn) && b.At(spawn).None?
    ensures Consistent(r.board) && AllUnlocked(r.board)
    ensures r.board == SpawnIfRoom(UnlockAll(b), spawn)
    ensures r.over <==> r.board.Full() && NoEqualNeighbours(r.board)
  {
    var c := SpawnIfRoom(UnlockAll(b), spawn);
    GameOverMeans(c);
    Settled(c, CheckForGameOver(c))
  }

  /** The state a player's input meets: board and score, the `waiting` gate and the board's `enabled` flag. */
  datatype Session = Session(world: World, waiting: bool, enabled: bool)

  /**
   * What the session keeps between inputs: a consistent board with at least
   * one level, a high score that is never negative and never below the
   * score, and, whenever no settle step is pending, no locked tile.
   */
  ghost predicate Inv(s: Session)
  {
    && Consistent(s.world.board) && |s.world.board.states| > 0
    && 0 <= s.world.score.hiscore && s.world.score.score <= s.world.score.hiscore
    && (!s.waiting ==> AllUnlocked(s.world.board))
  }

  /**
   * One frame of input: when the board is enabled and no settle step is
   * pending, a direction key moves the tiles with that direction's
   * traversal, and a move that changed something schedules the settle step.
   */
  function Update(s: Session, input: Option<Direction>): (r: Session)
    requires Consistent(s.world.board) && |s.world.board.states| > 0
    ensures !s.enabled || s.waiting || input.None? ==> r == s
    ensures !r.waiting ==> r == s
    ensures r.enabled == s.enabled
    ensures Consistent(r.world.board) && r.world.board.grid == s.world.board.grid
    ensures r.world.board.states == s.world.board.states
  {
    if s.enabled && !s.waiting && input.Some? then
      var d := input.value;
      var m := Move(s.world, d, TraversalFor(s.world.board.grid, d));
      MoveFollows(s.world, d, TraversalFor(s.world.board.grid, d));
      Session(m.world, m.changed, s.enabled)
    else
      s
  }

  /** What a frame of input did is what a move accounts for; a frame that scheduled nothing did nothing. */
  lemma UpdateFollows(s: Session, input: Option<Direction>)
    requires Consistent(s.world.board) && |s.world.board.states| > 0
    ensures var r := Update(s, input);
      Follows(Moved(s.world, false), Moved(r.world, r.waiting && !s.waiting))
  {
    if s.enabled && !s.waiting && input.Some? {
      MoveFollows(s.world, input.value, TraversalFor(s.world.board.grid, input.value));
    } else {
      StayFollows(Moved(s.world, false));
    }
  }

  /**
   * The settle step on the session: the gate reopens, the board settles,
   * and a game that is over disables the board.
   */
  function SettleStep(s: Session, spawn: Pos): (r: Session)
    requires Consistent(s.world.board) && |s.world.board.states| > 0 && s.waiting
    requires |s.world.board.tiles| != s.world.board.grid.Size() ==>
      s.world.board.grid.InBounds(spawn) && s.world.board.At(spawn).None?
    ensures !r.waiting && r.world.score == s.world.score
    ensures r.world.board == Settle(s.world.board, spawn).board
    ensures r.enabled <==> s.enabled && !(r.world.board.Full() && NoEqualNeighbours(r.world.board))
  {
    var st := Settle(s.world.board, spawn);
    Session(World(st.board, s.world.score), false, s.enabled && !st.over)
  }

  /**
   * The board part of NewGame: cleared, then given two tiles of the first
   * level on the distinct cells c1 and c2; nothing else is on it.
   */
  function NewBoard(b: Board, c1: Pos, c2: Pos): (r: Board)
    requires b.WellFormed() && |b.states| > 0 && (forall t: TileId :: t in b.store <==> t < b.nextId)
    requires b.grid.InBounds(c1) && b.grid.InBounds(c2) && c1 != c2
    ensures Consistent(r)
    ensures r.grid == b.grid && r.states == b.states && r.nextId == b.nextId + 2
    ensures r.tiles == [b.nextId, b.nextId + 1]
    ensures r.store == b.store[b.nextId := Tile(b.states[0], Some(c1), false)][b.nextId + 1 := Tile(b.states[0], Some(c2), false)]
  {
    var b0 := ClearBoard(b);
    var b1 := CreateTile(b0, c1);
    CreateTile(b1, c2)
  }

  /** On the new board exactly the cells c1 and c2 are occupied, by the two new tiles. */
  lemma NewBoardCells(b: Board, c1: Pos, c2: Pos)
    requires b.WellFormed() && |b.states| > 0 && (forall t: TileId :: t in b.store <==> t < b.nextId)
    requires b.grid.InBounds(c1) && b.grid.InBounds(c2) && c1 != c2
    ensures var r := NewBoard(b, c1, c2);
      && r.At(c1) == Some(b.nextId) && r.At(c2) == Some(b.nextId + 1)
      && forall q :: b.grid.InBounds(q) && q != c1 && q != c2 ==> r.At(q).None?
  {
    var b0 := ClearBoard(b);
    var b1 := CreateTile(b0, c1);
    var r := CreateTile(b1, c2);
    forall q | b.grid.InBounds(q) && q != c1 && q != c2
      ensures r.At(q).None?
    {
      assert r.At(q) == b1.At(q) == b0.At(q);
    }
  }

  /**
   * NewGame: the score is reset (the high score stays), the board is set
   * up afresh and enabled. A pending settle step stays pending.
   */
  function NewGame(s: Session, c1: Pos, c2: Pos): (r: Session)
    requires s.world.board.WellFormed() && |s.world.board.states| > 0
    requires forall t: TileId :: t in s.world.board.store <==> t < s.world.board.nextId
    requires s.world.board.grid.InBounds(c1) && s.world.board.grid.InBounds(c2) && c1 != c2
    ensures r.world.board == NewBoard(s.world.board, c1, c2)
    ensures r.enabled && r.waiting == s.waiting
    ensures r.world.score.score == 0 && r.world.score.hiscore == Max(s.world.score.hiscore, 0)
  {
    Session(World(NewBoard(s.world.board, c1, c2), SetScore(s.world.score, 0)), s.waiting, true)
  }

  lemma UpdateKeepsInv(s: Session, input: Option<Direction>)
    requires Inv(s)
    ensures Inv(Update(s, input))
  {
    UpdateFollows(s, input);
  }

  lemma SettleKeepsInv(s: Session, spawn: Pos)
    requires Inv(s) && s.waiting
    requires |s.world.board.tiles| != s.world.board.grid.Size() ==>
      s.world.board.grid.InBounds(spawn) && s.world.board.At(spawn).None?
    ensures Inv(SettleStep(s, spawn))
  {
  }

  lemma NewGameKeepsInv(s: Session, c1: Pos, c2: Pos)
    requires Inv(s)
    requires s.world.board.grid.InBounds(c1) && s.world.board.grid.InBounds(c2) && c1 != c2
    ensures Inv(NewGame(s, c1, c2))
  {
    var b, n := s.world.board, s.world.board.nextId;
    var r := NewGame(s, c1, c2).world.board;
    assert r.store[n].locked == false && r.store[n + 1].locked == false;
    assert forall t :: t in r.tiles ==> t == n || t == n + 1;
  }
}
