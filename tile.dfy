/**
 * What a tile does to itself and to the cells: setting its level, binding it
 * to a cell (spawning or moving), and merging it into the tile of another
 * cell. Each keeps the two links, cell to tile and tile to cell, in step.
 */
module Tiles {
  import opened Options
  import opened Grids
  import opened Boards

  /** Grid, level list, live list and id counter are the same, and no tile object appears or disappears. */
  predicate SameFrame(b: Board, r: Board)
  {
    && r.grid == b.grid && r.states == b.states && r.tiles == b.tiles && r.nextId == b.nextId
    && r.store.Keys == b.store.Keys
  }

  /** Setting a tile's level changes that field of that tile and nothing else. */
  function SetState(b: Board, t: TileId, s: TileState): (r: Board)
    requires t in b.store
    ensures SameFrame(b, r) && r.cells == b.cells
    ensures r.store[t].state == s
    ensures r.store[t].cell == b.store[t].cell && r.store[t].locked == b.store[t].locked
    ensures forall u :: u in b.store && u != t ==> r.store[u] == b.store[u]
    ensures b.WellFormed() ==> r.WellFormed()
  {
    b.(store := b.store[t := b.store[t].(state := s)])
  }

  /** The cell a tile sits on forgets it (`this.cell.tile = null`). */
  function Vacate(b: Board, t: TileId): Board
    requires b.WellFormed() && t in b.store
  {
    match b.store[t].cell
    case None => b
    case Some(q) => b.SetAt(q, None)
  }

  /**
   * Binding a tile to cell p, the common effect of spawning and of moving:
   * its previous cell is emptied, the tile's cell becomes p and p names the
   * tile; its level and lock are untouched, and so is every other cell and tile.
   */
  function Occupy(b: Board, t: TileId, p: Pos): (r: Board)
    requires b.WellFormed() && t in b.store && b.grid.InBounds(p)
    ensures r.WellFormed() && SameFrame(b, r)
    ensures r.store[t] == b.store[t].(cell := Some(p))
    ensures forall u :: u in b.store && u != t ==> r.store[u] == b.store[u]
    ensures r.At(p) == Some(t)
    ensures b.store[t].cell.Some? && b.store[t].cell.value != p ==> r.At(b.store[t].cell.value).None?
    ensures forall q :: b.grid.InBounds(q) && q != p && b.store[t].cell != Some(q) ==> r.At(q) == b.At(q)
  {
    var v := Vacate(b, t);
    var m := v.(store := v.store[t := v.store[t].(cell := Some(p))]);
    m.SetAt(p, Some(t))
  }

  /**
   * Merging tile t into the tile u on cell p: t's cell is emptied and t no
   * longer sits anywhere; u keeps its cell and level and becomes locked.
   * Every other cell and tile is untouched.
   */
  function MergeInto(b: Board, t: TileId, p: Pos): (r: Board)
    requires b.WellFormed() && t in b.store && b.grid.InBounds(p)
    requires b.store[t].cell != Some(p) && b.At(p).Some? && b.At(p).value in b.store
    ensures r.WellFormed() && SameFrame(b, r)
    ensures r.store[t].cell.None? && r.store[t].state == b.store[t].state
    ensures var u := b.At(p).value;
      && r.store[u].locked && r.store[u].state == b.store[u].state
      && (u != t ==> r.store[u].cell == b.store[u].cell && r.store[t].locked == b.store[t].locked)
      && forall v :: v in b.store && v != t && v != u ==> r.store[v] == b.store[v]
    ensures b.store[t].cell.Some? ==> r.At(b.store[t].cell.value).None?
    ensures forall q :: b.grid.InBounds(q) && b.store[t].cell != Some(q) ==> r.At(q) == b.At(q)
  {
    var v := Vacate(b, t);
    var m := v.(store := v.store[t := v.store[t].(cell := None)]);
    var u := m.At(p).value;
    m.(store := m.store[u := m.store[u].(locked := true)])
  }
}
