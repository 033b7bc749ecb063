/**
 * The board and the game manager as the objects they are: their fields are
 * updated in place, and every method is proved to have exactly the effect
 * that the value model (Tiles, Moves, Turns, Scores) describes.
 */
module Game {
  import opened Options
  import opened Grids
  import opened Boards
  import Tiles
  import Scores
  import Moves
  import Turns

  /**
   * The tile board. `cells` is the grid's cell array (the occupant of each
   * cell, row by row); `tiles` is the list of live tiles; `store` holds the
   * fields of every tile object created so far, named by id, and `nextId`
   * is the id the next one gets.
   */
  class TileBoard {
    var gameManager: GameManager?
    const grid: Grid
    const tileStates: seq<TileState>
    const cells: array<Option<TileId>>
    var tiles: seq<TileId>
    var store: map<TileId, Tile>
    var nextId: TileId
    var waiting: bool
    var enabled: bool

    /** The board's data as a value. */
    function Abs(): Board
      reads this, cells
    {
      Board(grid, tileStates, cells[..], tiles, store, nextId)
    }

    /** The board invariant, and a non-empty list of levels. */
    ghost predicate Valid()
      reads this, cells
    {
      cells.Length == grid.Size() && |tileStates| > 0 && Consistent(Abs())
    }

    /** The board together with the score kept by its game manager. */
    function World(): Moves.World
      requires gameManager != null
      reads this, cells, gameManager
    {
      Moves.World(Abs(), Scores.Score(gameManager.score, gameManager.hiscore))
    }

    /** Everything a player's input meets. */
    function Session(): Turns.Session
      requires gameManager != null
      reads this, cells, gameManager
    {
      Turns.Session(World(), waiting, enabled)
    }

    /** Awake: an empty board on the given grid with the given levels; the component starts enabled. */
    constructor (grid: Grid, tileStates: seq<TileState>)
      requires |tileStates| > 0
      ensures Valid() && fresh(cells)
      ensures this.grid == grid && this.tileStates == tileStates
      ensures tiles == [] && store == map[] && nextId == 0
      ensures !waiting && enabled && gameManager == null
    {
      this.grid := grid;
      this.tileStates := tileStates;
      cells := new Option<TileId>[grid.Size()](_ => None);
      tiles := [];
      store := map[];
      nextId := 0;
      waiting := false;
      enabled := true;
      gameManager := null;
      new;
      assert forall i :: 0 <= i < |cells[..]| ==> cells[..][i].None?;
      CountBounds(cells[..]);
      assert CountOccupied(Abs().cells) == 0 == |Abs().tiles|;
      assert Abs().WellFormed();
      assert forall t: TileId :: t in Abs().store <==> t < Abs().nextId;
    }

    /** Tile.SetState: the tile's level becomes s. */
    method SetState(t: TileId, s: TileState)
      requires t in store
      modifies this`store
      ensures Abs() == Tiles.SetState(old(Abs()), t, s)
    {
      store := store[t := store[t].(state := s)];
    }

    /** The binding shared by Tile.Spawn and Tile.MoveTo: the old cell forgets the tile, p takes it. */
    method Bind(t: TileId, p: Pos)
      requires Abs().WellFormed() && t in store && grid.InBounds(p)
      modifies this`store, cells
      ensures Abs() == Tiles.Occupy(old(Abs()), t, p)
    {
      ghost var b := Abs();
      match store[t].cell {
        case Some(q) =>
          cells[grid.Index(q)] := None;
          assert Abs() == b.SetAt(q, None);
        case None =>
      }
      store := store[t := store[t].(cell := Some(p))];
      ghost var m := Abs();
      cells[grid.Index(p)] := Some(t);
      assert Abs() == m.SetAt(p, Some(t));
    }

    /** Tile.Spawn: the tile is placed on cell p (its position is set at once). */
    method Spawn(t: TileId, p: Pos)
      requires Abs().WellFormed() && t in store && grid.InBounds(p)
      modifies this`store, cells
      ensures Abs() == Tiles.Occupy(old(Abs()), t, p)
    {
      Bind(t, p);
    }

    /** Tile.MoveTo: the tile moves to cell p (its position is then animated). */
    method MoveTo(t: TileId, p: Pos)
      requires Abs().WellFormed() && t in store && grid.InBounds(p)
      modifies this`store, cells
      ensures Abs() == Tiles.Occupy(old(Abs()), t, p)
    {
      Bind(t, p);
    }

    /** Tile.Merge: tile t leaves its cell for good and the tile on cell p is locked. */
    method Merge(t: TileId, p: Pos)
      requires Abs().WellFormed() && t in store && grid.InBounds(p)
      requires store[t].cell != Some(p) && cells[grid.Index(p)].Some? && cells[grid.Index(p)].value in store
      modifies this`store, cells
      ensures Abs() == Tiles.MergeInto(old(Abs()), t, p)
    {
      ghost var b := Abs();
      match store[t].cell {
        case Some(q) =>
          cells[grid.Index(q)] := None;
          assert Abs() == b.SetAt(q, None);
        case None =>
      }
      store := store[t := store[t].(cell := None)];
      var u := cells[grid.Index(p)].value;
      store := store[u := store[u].(locked := true)];
    }

    /** ClearBoard: every cell is emptied, then the live list. */
    method ClearBoard()
      modifies this`tiles, cells
      ensures Abs() == Turns.ClearBoard(old(Abs()))
    {
      for i := 0 to cells.Length
        invariant forall k :: 0 <= k < i ==> cells[k].None?
      {
        cells[i] := None;
      }
      tiles := [];
      assert cells[..] == seq(cells.Length, _ => None);
    }

    /** CreateTile: a new tile of the first level is spawned on the empty cell p. */
    method CreateTile(p: Pos)
      requires Valid() && grid.InBounds(p) && cells[grid.Index(p)].None?
      modifies this`store, this`nextId, this`tiles, cells
      ensures Valid() && Abs() == Turns.CreateTile(old(Abs()), p)
    {
      ghost var b := Abs();
      Turns.CreateTileSteps(b, p);
      var t := nextId;
      store := store[t := Tile(null, None, false)];
      nextId := nextId + 1;
      SetState(t, tileStates[0]);
      Spawn(t, p);
      tiles := tiles + [t];
    }

    /** IndexOf: a linear search for the first level that is s; -1 when there is none. */
    method IndexOf(s: TileState?) returns (i: int)
      ensures i == Moves.IndexOf(tileStates, s)
    {
      i := 0;
      while i < |tileStates|
        invariant 0 <= i <= |tileStates|
        invariant forall k :: 0 <= k < i ==> tileStates[k] != s
      {
        if s == tileStates[i] {
          return;
        }
        i := i + 1;
      }
      i := -1;
    }

    /**
     * MergeTiles: tile a leaves the live list and merges into tile u, which
     * takes the next level (held at the last) and reports its number to the
     * game manager's score.
     */
    method MergeTiles(a: TileId, u: TileId)
      requires Valid() && gameManager != null
      requires a in tiles && u in tiles && a != u
      modifies this`tiles, this`store, cells, gameManager`score, gameManager`hiscore
      ensures World() == Moves.MergeTiles(old(World()), a, u)
      ensures Valid()
    {
      ghost var w := World();
      ghost var b := Abs();
      assert b.Placed(a) && b.Placed(u);
      tiles := Remove(tiles, a);
      ghost var b1 := Abs();
      assert b1 == b.(tiles := Remove(b.tiles, a));
      Merge(a, store[u].cell.value);
      ghost var b2 := Abs();
      Moves.MergeTilesSteps(w, a, u, b2);
      var index := IndexOf(store[u].state);
      index := Moves.Clamp(index + 1, 0, |tileStates| - 1);
      assert index == Moves.NextLevel(b.states, b2.store[u].state);
      var newState := tileStates[index];
      SetState(u, newState);
      gameManager.IncreaseScore(newState.number);
    }

    /**
     * MoveTile: walk from the tile's cell towards the edge; merge into the
     * first occupied cell when the merge rule allows, else move to the last
     * empty cell passed; report whether anything changed.
     */
    method MoveTile(t: TileId, d: Direction) returns (changed: bool)
      requires Valid() && gameManager != null && t in tiles
      modifies this`tiles, this`store, cells, gameManager`score, gameManager`hiscore
      ensures Valid() && Moves.Moved(World(), changed) == Moves.MoveTile(old(World()), t, d)
    {
      ghost var w := World();
      ghost var b := w.board;
      assert b.Placed(t);
      ghost var walk := Moves.WalkFrom(b, d, grid.GetAdjacentCell(store[t].cell.value, d), None);
      Moves.BlockerIsAnother(b, t, d);
      var newCell: Option<Pos> := None;
      var adjacentCell := grid.GetAdjacentCell(store[t].cell.value, d);
      while adjacentCell.Some?
        invariant World() == w
        invariant adjacentCell.Some? ==> grid.InBounds(adjacentCell.value)
        invariant newCell.Some? ==> grid.InBounds(newCell.value) && b.At(newCell.value).None?
        invariant Moves.WalkFrom(b, d, adjacentCell, newCell) == walk
        decreases if adjacentCell.Some? then grid.EdgeDistance(adjacentCell.value, d) + 1 else 0
      {
        var c := adjacentCell.value;
        var occupant := cells[grid.Index(c)];
        assert occupant == b.At(c);
        if occupant.Some? {
          assert b.OccupantAgrees(grid.Index(c));
          if Moves.CanMerge(store[t], store[occupant.value]) {
            MergeTiles(t, occupant.value);
            return true;
          }
          break;
        }
        newCell := adjacentCell;
        adjacentCell := grid.GetAdjacentCell(c, d);
      }
      if newCell.Some? {
        Moves.SlidePreserves(b, t, newCell.value);
        MoveTo(t, newCell.value);
        return true;
      }
      return false;
    }

    /**
     * Move: visit the columns from startX and, within each, the rows from
     * startY, moving every tile met; if any tile changed, the settle step
     * is scheduled, which closes the `waiting` gate at once.
     */
    method Move(d: Direction, startX: int, incrementX: int, startY: int, incrementY: int)
      requires Valid() && gameManager != null
      requires Moves.UnitSteps(Moves.Traversal(startX, incrementX, startY, incrementY))
      modifies this`tiles, this`store, cells, this`waiting, gameManager`score, gameManager`hiscore
      ensures Valid()
      ensures var m := Moves.Move(old(World()), d, Moves.Traversal(startX, incrementX, startY, incrementY));
        World() == m.world && waiting == (old(waiting) || m.changed)
    {
      var tr := Moves.Traversal(startX, incrementX, startY, incrementY);
      ghost var cur := Moves.Moved(World(), false);
      ghost var target := Moves.Move(cur.world, d, tr);
      var changed := false;
      var x := startX;
      while 0 <= x < grid.width
        invariant Valid() && gameManager != null && waiting == old(waiting)
        invariant cur == Moves.Moved(World(), changed)
        invariant Moves.RunCols(cur, d, tr, x) == target
        decreases if incrementX > 0 then grid.width - x else x + 1
      {
        Moves.RunColsStep(cur, d, tr, x);
        changed, cur := MoveColumn(d, tr, x, changed, cur);
        x := x + incrementX;
      }
      if changed {
        waiting := true;
      }
    }

    /** The inner loop of Move: the rows of column x from tr.startY, moving every tile met. */
    method MoveColumn(d: Direction, tr: Moves.Traversal, x: int, changed: bool, ghost m: Moves.Moved)
      returns (changed': bool, ghost m': Moves.Moved)
      requires Valid() && gameManager != null && Moves.UnitSteps(tr) && 0 <= x < grid.width
      requires m == Moves.Moved(World(), changed)
      modifies this`tiles, this`store, cells, gameManager`score, gameManager`hiscore
      ensures Valid()
      ensures m' == Moves.Moved(World(), changed')
      ensures m' == Moves.RunRows(m, d, tr, x, tr.startY)
    {
      changed' := changed;
      m' := m;
      var y := tr.startY;
      while 0 <= y < grid.height
        invariant Valid() && gameManager != null
        invariant m' == Moves.Moved(World(), changed')
        invariant Moves.RunRows(m', d, tr, x, y) == Moves.RunRows(m, d, tr, x, tr.startY)
        decreases if tr.incY > 0 then grid.height - y else y + 1
      {
        Moves.RunRowsStep(m', d, tr, x, y);
        changed', m' := MoveCell(d, x, y, changed', m');
        y := y + tr.incY;
      }
    }

    /** One cell of Move's traversal: the tile on cell (x, y), if any, is moved. */
    method MoveCell(d: Direction, x: int, y: int, changed: bool, ghost m: Moves.Moved)
      returns (changed': bool, ghost m': Moves.Moved)
      requires Valid() && gameManager != null && grid.InBounds(Pos(x, y))
      requires m == Moves.Moved(World(), changed)
      modifies this`tiles, this`store, cells, gameManager`score, gameManager`hiscore
      ensures Valid()
      ensures m' == Moves.Moved(World(), changed')
      ensures m' == Moves.StepAt(m, d, x, y)
    {
      changed' := changed;
      var cell := cells[grid.Index(Pos(x, y))];
      if cell.Some? {
        Moves.StepAtTile(m, d, x, y, cell.value);
        var moved := MoveTile(cell.value, d);
        changed' := changed || moved;
      }
      m' := Moves.Moved(World(), changed');
    }

    /**
     * Update: while the board is enabled and no settle step is pending, a
     * direction key starts a move with that direction's traversal.
     */
    method Update(input: Option<Direction>)
      requires Valid() && gameManager != null
      modifies this`tiles, this`store, cells, this`waiting, gameManager`score, gameManager`hiscore
      ensures Valid() && Session() == Turns.Update(old(Session()), input)
    {
      if enabled && !waiting {
        match input {
          case Some(Up) => Move(Up, 0, 1, 1, 1);
          case Some(Down) => Move(Down, 0, 1, grid.height - 2, -1);
          case Some(Left) => Move(Left, 1, 1, 0, 1);
          case Some(Right) => Move(Right, grid.width - 2, -1, 0, 1);
          case None =>
        }
      }
    }

    /** The settle step's loop: every live tile is unlocked, in list order. */
    method UnlockAll()
      requires Valid()
      modifies this`store
      ensures Abs() == Turns.UnlockAll(old(Abs()))
    {
      ghost var b := Abs();
      assert forall t :: t in b.tiles ==> b.Placed(t);
      for i := 0 to |tiles|
        invariant forall t :: t in b.tiles ==> t in b.store
        invariant Abs() == Turns.Unlock(b, tiles[..i])
      {
        var t := tiles[i];
        assert tiles[..i + 1][..i] == tiles[..i];
        store := store[t := store[t].(locked := false)];
      }
      assert tiles[..|tiles|] == tiles;
    }

    /**
     * The settle step of WaitForChanges: reopen the gate, unlock every live
     * tile, create a tile on the empty cell `spawn` unless the board is
     * full, and report a game over to the game manager.
     */
    method Settle(spawn: Pos)
      requires Valid() && gameManager != null && gameManager.borad == this && waiting
      requires |tiles| != grid.Size() ==> grid.InBounds(spawn) && cells[grid.Index(spawn)].None?
      modifies this`waiting, this`store, this`tiles, this`nextId, cells, this`enabled
      ensures Valid() && Session() == Turns.SettleStep(old(Session()), spawn)
    {
      waiting := false;
      UnlockAll();
      if |tiles| != grid.Size() {
        CreateTile(spawn);
      }
      var over := CheckForGameOver();
      if over {
        gameManager.GameOver();
      }
    }

    /**
     * CheckForGameOver: false unless there are as many live tiles as cells;
     * then false as soon as a live tile can merge with a neighbour, true
     * when none can.
     */
    method CheckForGameOver() returns (over: bool)
      requires Valid()
      ensures over == Turns.CheckForGameOver(Abs())
    {
      if |tiles| != grid.Size() {
        return false;
      }
      ghost var b := Abs();
      TileCountBound(b);
      for i := 0 to |tiles|
        invariant forall t :: t in tiles[..i] ==> Turns.Stuck(b, t)
      {
        var stuck := Stuck(tiles[i]);
        if !stuck {
          return false;
        }
        assert tiles[..i + 1] == tiles[..i] + [tiles[i]];
      }
      assert tiles[..|tiles|] == tiles;
      return true;
    }

    /** The body of CheckForGameOver's loop: none of the four neighbours of tile t allows a merge. */
    method Stuck(t: TileId) returns (stuck: bool)
      requires Valid() && t in tiles && Abs().Full()
      ensures stuck == Turns.Stuck(Abs(), t)
    {
      var up := CanMergeToward(t, Up);
      var down := CanMergeToward(t, Down);
      var left := CanMergeToward(t, Left);
      var right := CanMergeToward(t, Right);
      stuck := !(up || down || left || right);
    }

    /**
     * One neighbour test of CheckForGameOver on a full board: the cell next
     * to tile t in direction d exists and its tile passes CanMerge.
     */
    method CanMergeToward(t: TileId, d: Direction) returns (r: bool)
      requires Valid() && t in tiles && Abs().Full()
      ensures r == Turns.MergeableToward(Abs(), t, d)
    {
      assert Abs().Placed(t);
      var c := grid.GetAdjacentCell(store[t].cell.value, d);
      if c.None? {
        return false;
      }
      var i := grid.Index(c.value);
      assert cells[..][i].Some? && Abs().OccupantAgrees(i);
      r := Moves.CanMerge(store[t], store[cells[i].value]);
    }
  }

  /**
   * The game manager: the session's score and the stored high score (the
   * value kept under "hiscore" in the engine's preference store).
   */
  class GameManager {
    var borad: TileBoard
    var score: int
    var hiscore: int

    /** Wires the manager to its board; the high score starts from what is stored. */
    constructor (borad: TileBoard, storedHiScore: int)
      modifies borad`gameManager
      ensures this.borad == borad && borad.gameManager == this
      ensures score == 0 && hiscore == storedHiScore
    {
      this.borad := borad;
      score := 0;
      hiscore := storedHiScore;
      new;
      borad.gameManager := this;
    }

    /**
     * NewGame: reset the score, clear the board, create two tiles on the
     * distinct cells c1 and c2, enable the board.
     */
    method NewGame(c1: Pos, c2: Pos)
      requires borad.Valid() && borad.gameManager == this
      requires borad.grid.InBounds(c1) && borad.grid.InBounds(c2) && c1 != c2
      modifies this`score, this`hiscore, borad`tiles, borad`store, borad`nextId, borad`enabled, borad.cells
      ensures borad.Valid() && borad.gameManager == this
      ensures borad.Session() == Turns.NewGame(old(borad.Session()), c1, c2)
    {
      SetScore(0);
      borad.ClearBoard();
      ghost var b := borad.Abs();
      assert borad.cells[borad.grid.Index(c1)].None? && borad.cells[borad.grid.Index(c2)].None?;
      borad.CreateTile(c1);
      borad.CreateTile(c2);
      borad.enabled := true;
    }

    /** GameOver: the board stops taking input. */
    method GameOver()
      modifies borad`enabled
      ensures !borad.enabled
    {
      borad.enabled := false;
    }

    method IncreaseScore(points: int)
      modifies this`score, this`hiscore
      ensures Scores.Score(score, hiscore) == Scores.IncreaseScore(old(Scores.Score(score, hiscore)), points)
    {
      SetScore(score + points);
    }

    method SetScore(score: int)
      modifies this`score, this`hiscore
      ensures Scores.Score(this.score, hiscore) == Scores.SetScore(old(Scores.Score(this.score, hiscore)), score)
    {
      this.score := score;
      SaveHiScore();
    }

    /** SaveHiScore: the stored value is overwritten only by a larger score. */
    method SaveHiScore()
      modifies this`hiscore
      ensures Scores.Score(score, hiscore) == Scores.SaveHiScore(old(Scores.Score(score, hiscore)))
    {
      var stored := LoadHiScore();
      if score > stored {
        hiscore := score;
      }
    }

    method LoadHiScore() returns (stored: int)
      ensures stored == hiscore
    {
      stored := hiscore;
    }
  }
}
