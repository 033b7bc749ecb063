/**
 * The board's data as a value: the grid cells with their occupants, the tile
 * objects' fields, and the list of live tiles.
 *
 * Tile objects are named by ids. `store` holds the fields of every tile object
 * created so far (ids 0 .. nextId-1, like a heap that is never collected);
 * `tiles` is the board's list of live tiles, in the order they were added.
 */
module Boards {
  import opened Options
  import opened Grids

  /**
   * One level definition. Levels are compared by identity, as the engine
   * compares the level assets; their colours are presentation only.
   */
  class TileState {
    const number: int

    constructor (number: int)
      ensures this.number == number
    {
      this.number := number;
    }
  }

  type TileId = nat

  /** The fields of one tile object; `state` is null until it is first set. */
  datatype Tile = Tile(state: TileState?, cell: Option<Pos>, locked: bool)

  datatype Board = Board(
    grid: Grid,
    states: seq<TileState>,
    cells: seq<Option<TileId>>,
    tiles: seq<TileId>,
    store: map<TileId, Tile>,
    nextId: TileId)
  {
    /** The cell array has one entry per grid cell, and every tile's cell lies on the grid. */
    predicate WellFormed()
    {
      && |cells| == grid.Size()
      && forall t :: t in store && store[t].cell.Some? ==> grid.InBounds(store[t].cell.value)
    }

    /** The occupant of cell p. */
    function At(p: Pos): Option<TileId>
      requires WellFormed() && grid.InBounds(p)
    {
      cells[grid.Index(p)]
    }

    /** Cell p with its occupant replaced by v. */
    function SetAt(p: Pos, v: Option<TileId>): (r: Board)
      requires WellFormed() && grid.InBounds(p)
      ensures r.grid == grid && r.states == states && r.tiles == tiles && r.store == store && r.nextId == nextId
      ensures r.WellFormed() && r.At(p) == v
      ensures forall q :: grid.InBounds(q) && q != p ==> r.At(q) == At(q)
    {
      grid.IndexApart(p);
      this.(cells := cells[grid.Index(p) := v])
    }

    /** Tile t sits on a cell and that cell names t as its occupant. */
    predicate Placed(t: TileId)
      requires WellFormed()
    {
      t in store && store[t].cell.Some? && At(store[t].cell.value) == Some(t)
    }

    /** The occupant of cell index i is a live tile that names that cell as its own. */
    predicate OccupantAgrees(i: nat)
      requires WellFormed() && i < |cells| && cells[i].Some?
    {
      var t := cells[i].value;
      t in tiles && t in store && store[t].cell.Some? && grid.Index(store[t].cell.value) == i
    }

    /** Every cell holds a tile. */
    predicate Full()
    {
      forall i :: 0 <= i < |cells| ==> cells[i].Some?
    }
  }

  predicate NoDup(s: seq<TileId>)
  {
    forall i, j :: 0 <= i < j < |s| ==> s[i] != s[j]
  }

  /**
   * The board invariant: occupied cells and live tiles correspond one to one
   * (each live tile's cell names it, each occupied cell names a live tile
   * that names that cell), no tile is listed twice, every created tile has
   * an id below nextId, and the number of occupied cells is the number of
   * live tiles.
   */
  ghost predicate Consistent(b: Board)
  {
    && b.WellFormed()
    && (forall t: TileId :: t in b.store <==> t < b.nextId)
    && NoDup(b.tiles)
    && (forall t :: t in b.tiles ==> b.Placed(t))
    && (forall i :: 0 <= i < |b.cells| && b.cells[i].Some? ==> b.OccupantAgrees(i))
    && CountOccupied(b.cells) == |b.tiles|
  }

  /** The number of occupied entries. */
  function CountOccupied(cells: seq<Option<TileId>>): nat
  {
    if cells == [] then 0
    else (if cells[0].Some? then 1 else 0) + CountOccupied(cells[1..])
  }

  lemma {:induction false} CountUpdate(cells: seq<Option<TileId>>, i: nat, v: Option<TileId>)
    requires i < |cells|
    ensures CountOccupied(cells[i := v])
            == CountOccupied(cells) - (if cells[i].Some? then 1 else 0) + (if v.Some? then 1 else 0)
  {
    if i == 0 {
      assert cells[i := v][1..] == cells[1..];
    } else {
      assert cells[i := v][1..] == cells[1..][i - 1 := v];
      CountUpdate(cells[1..], i - 1, v);
    }
  }

  lemma {:induction false} CountBounds(cells: seq<Option<TileId>>)
    ensures CountOccupied(cells) <= |cells|
    ensures CountOccupied(cells) == |cells| <==> forall i :: 0 <= i < |cells| ==> cells[i].Some?
    ensures CountOccupied(cells) == 0 <==> forall i :: 0 <= i < |cells| ==> cells[i].None?
  {
    if cells != [] {
      CountBounds(cells[1..]);
      assert forall i :: 1 <= i < |cells| ==> cells[i] == cells[1..][i - 1];
    }
  }

  /** The number of live tiles never exceeds the grid size, and equals it exactly when every cell is occupied. */
  lemma TileCountBound(b: Board)
    requires Consistent(b)
    ensures |b.tiles| <= b.grid.Size()
    ensures |b.tiles| == b.grid.Size() <==> b.Full()
  {
    CountBounds(b.cells);
  }

  /** While fewer tiles than cells are live, some cell is empty: a spawn can always find one. */
  lemma EmptyCellExists(b: Board) returns (p: Pos)
    requires Consistent(b) && |b.tiles| != b.grid.Size()
    ensures b.grid.InBounds(p) && b.At(p).None?
  {
    CountBounds(b.cells);
    var i :| 0 <= i < |b.cells| && b.cells[i].None?;
    p := b.grid.PosOf(i);
  }

  /** List.Remove: drop the first occurrence of x, keeping the order of the rest. */
  function Remove(s: seq<TileId>, x: TileId): (r: seq<TileId>)
    ensures x in s ==> |r| == |s| - 1
    ensures x !in s ==> r == s
    ensures forall y :: y in r ==> y in s
    ensures NoDup(s) ==> NoDup(r) && x !in r && forall y :: y in s && y != x ==> y in r
  {
    if s == [] then []
    else if s[0] == x then s[1..]
    else
      var rest := Remove(s[1..], x);
      assert NoDup(s) ==> s[0] !in s[1..] && s[0] !in rest && NoDup(s[1..]);
      assert forall i :: 1 <= i < |[s[0]] + rest| ==> ([s[0]] + rest)[i] == rest[i - 1];
      [s[0]] + rest
  }
}
