# 2048 tile board, modelled in Dafny

This project models the game logic of a Unity 2048 clone: the tile board
(`TileBoard`), the tiles on it (`Tile`) and the game manager that keeps the
score and starts and ends games (`GameManager`).

The model has two layers.

- **Values** (modules `Grids`, `Boards`, `Tiles`, `Scores`, `Moves`, `Turns`).
  A board is a grid of cells stored row by row (`y * width + x`), the list of
  tile levels (`TileState`, compared by identity as in the engine), the list
  of live tiles, and a store of tile objects addressed by id. A tile is its
  level, the cell it sits on, and its merge lock. Tile objects are never
  removed from the store: a destroyed tile is simply no longer live. Every
  operation of the board is a function on these values, and the properties
  are stated and proved about those functions.
- **Objects** (module `Game`). `Game.TileBoard` and `Game.GameManager` are
  classes with the source's fields. Their methods update those fields in
  place, with the source's loops (the two nested traversal loops of `Move`,
  the search in `IndexOf`, the unlock loop and the game-over loop). Each
  method is proved to leave exactly the state that the matching value
  function describes.

The board invariant, `Boards.Consistent`, says:
- every live tile sits on exactly one cell, and that cell names it back;
- every occupied cell names a live tile;
- the live list has no duplicates;
- the number of live tiles equals the number of occupied cells;
- tile ids are exactly the ids below the allocation counter.

Every operation keeps the invariant.

A move is accounted for by `Moves.Follows`, which says:
- the grid, the levels and the tile objects are unchanged;
- live tiles only leave;
- a tile becomes locked only by absorbing one merge, and its level rises by exactly one step (held at the top level);
- the score grows by exactly the numbers of the new levels;
- the high score never falls and stays at or above the score.

Directions follow the grid's screen layout: "up" moves a tile to the row
above, which has the smaller `y`.

## Model

| member | source | states |
|---|---|---|
| Boards.Remove | Assets/Scripts/TileBoard.cs:109 | Removing a tile from the live list drops exactly that tile, keeps the rest, and shortens the list by one when it was present |
| Boards.TileCountBound | Assets/Scripts/TileBoard.cs:144 | The number of live tiles never exceeds the grid size, and equals it exactly when every cell is occupied |
| Boards.EmptyCellExists | Assets/Scripts/TileBoard.cs:144 | While fewer tiles than cells are live, an empty cell exists for the spawn |
| Grids.Grid.GetCell | Assets/Scripts/TileBoard.cs:62 | The cell at (x, y) exists exactly when (x, y) is inside the grid |
| Grids.Grid.GetAdjacentCell | Assets/Scripts/TileBoard.cs:76 | The neighbour in a direction exists exactly when the next cell along that direction is inside the grid, and it is that cell |
| Tiles.SetState | Assets/Scripts/Tile.cs:22-23 | Setting a tile's level changes that tile's level and nothing else |
| Tiles.Occupy | Assets/Scripts/Tile.cs:31-36 | Binding a tile to a cell empties its old cell, links the tile and the new cell both ways, and leaves every other cell and tile alone |
| Tiles.MergeInto | Assets/Scripts/Tile.cs:51-56 | A merging tile leaves its cell and sits nowhere; the tile on the target cell becomes locked; nothing else changes |
| Game.TileBoard.SetState | Assets/Scripts/Tile.cs:22-23 | The object update is the value update `Tiles.SetState` |
| Game.TileBoard.Spawn | Assets/Scripts/Tile.cs:31-36 | The object update is `Tiles.Occupy` on the chosen cell |
| Game.TileBoard.MoveTo | Assets/Scripts/Tile.cs:42-46 | The object update is `Tiles.Occupy` on the destination cell |
| Game.TileBoard.Merge | Assets/Scripts/Tile.cs:51-56 | The object update is `Tiles.MergeInto` |
| Game.TileBoard.Bind | Assets/Scripts/Tile.cs:33-36 | The binding shared by `Spawn` and `MoveTo` (Tile.cs:33-36 and 43-46) is `Tiles.Occupy`: the old cell is emptied, then the tile and the new cell are linked both ways |
| Game.TileBoard.constructor | Assets/Scripts/TileBoard.cs:17-20 | A fresh board has an empty live list, satisfies the board invariant, and is enabled |
| Turns.ClearBoard | Assets/Scripts/TileBoard.cs:22-32 | After clearing, every cell is empty and no tile is live; the grid and levels are unchanged, and the invariant holds again |
| Game.TileBoard.ClearBoard | Assets/Scripts/TileBoard.cs:22-32 | The cell loop and list clear produce `Turns.ClearBoard` of the old board |
| Turns.CreateTile | Assets/Scripts/TileBoard.cs:34-39 | A new first-level, unlocked tile sits on the chosen empty cell and is appended to the live list; every other cell and tile is unchanged; the invariant is kept |
| Turns.CreateTileSteps | Assets/Scripts/TileBoard.cs:34-39 | Instantiating, setting the level, spawning and appending, in the source's order, give exactly `Turns.CreateTile` |
| Game.TileBoard.CreateTile | Assets/Scripts/TileBoard.cs:34-39 | The object steps produce `Turns.CreateTile` and keep the invariant |
| Moves.IndexOf | Assets/Scripts/TileBoard.cs:121-129 | The result is -1 exactly when the level is absent; otherwise it is the first position holding that level |
| Game.TileBoard.IndexOf | Assets/Scripts/TileBoard.cs:121-129 | The search loop returns `Moves.IndexOf` |
| Moves.NextLevel | Assets/Scripts/TileBoard.cs:113-115 | A merge yields the next level in the list, stays at the last level once there, and yields the first level when the level is not in the list |
| Moves.CanMerge | Assets/Scripts/TileBoard.cs:102-104 | Tile a may merge into tile b exactly when their levels are the same object and b is unlocked; a's own lock is never read |
| Moves.MergeTiles | Assets/Scripts/TileBoard.cs:107-119 | Tile a leaves the live list and its cell; tile b keeps its cell, takes the next level and is locked; the score grows by the new level's number; the invariant is kept |
| Moves.MergeFollows | Assets/Scripts/TileBoard.cs:102-119 | A merge allowed by the merge rule is a step a move may take: one lock, a level one step higher, the score up by that level's number |
| Game.TileBoard.MergeTiles | Assets/Scripts/TileBoard.cs:107-119 | The object steps and the manager's score update produce `Moves.MergeTiles` |
| Moves.WalkFrom | Assets/Scripts/TileBoard.cs:76-90 | A tile's walk ends on an empty cell, if it passed any, and a cell that stops it is occupied and lies at or beyond the first neighbour |
| Moves.WalkAlongRay | Assets/Scripts/TileBoard.cs:78-90 | The walk from p passes the n empty cells in front of p and stops at the edge or at the occupied cell n+1 |
| Moves.MoveTile | Assets/Scripts/TileBoard.cs:74-99 | Moving one tile keeps the invariant, the grid and the levels |
| Moves.MoveTileOutcome | Assets/Scripts/TileBoard.cs:74-104 | With n empty cells in front of the tile: the tile merges into the tile on cell n+1 when the merge rule allows; otherwise it slides n cells when n > 0; otherwise nothing changes. A merge or a slide reports a change and staying does not |
| Moves.MoveTileFollows | Assets/Scripts/TileBoard.cs:74-99 | Moving one tile is a step a move may take (`Moves.Follows`) |
| Moves.EdgeTileStays | Assets/Scripts/TileBoard.cs:76-98 | A tile with no neighbour cell in the pushed direction stays put and reports no change |
| Moves.StepAt | Assets/Scripts/TileBoard.cs:62-66 | Visiting one cell: an empty cell changes nothing; an occupied cell runs `MoveTile` on its tile and ors its result into `changed`. The board stays consistent with the same grid and levels |
| Moves.RunRows | Assets/Scripts/TileBoard.cs:61-67 | The inner loop: from row y, while y is inside the grid, visit (x, y) and step y by the increment. The board stays consistent with the same grid and levels |
| Moves.RunCols | Assets/Scripts/TileBoard.cs:60-68 | The outer loop: from column x, while x is inside the grid, run the inner loop from the start row and step x by the increment. The board stays consistent with the same grid and levels |
| Game.TileBoard.MoveTile | Assets/Scripts/TileBoard.cs:74-99 | The walk loop and the merge or move produce `Moves.MoveTile`, including the reported change |
| Moves.StepAtFollows | Assets/Scripts/TileBoard.cs:62-66 | Visiting one cell is a step a move may take |
| Moves.RunRowsFollows | Assets/Scripts/TileBoard.cs:61-67 | One column of the traversal is a step a move may take |
| Moves.RunColsFollows | Assets/Scripts/TileBoard.cs:60-68 | The whole traversal is a step a move may take |
| Moves.FollowsTransitive | Assets/Scripts/TileBoard.cs:60-68 | Two steps that are each accounted for make one step that is accounted for |
| Moves.Move | Assets/Scripts/TileBoard.cs:57-68 | A whole move keeps the invariant, the grid and the levels |
| Moves.MoveFollows | Assets/Scripts/TileBoard.cs:57-68 | A whole move is accounted for: tiles only leave, each absorbs at most one merge, the score grows by exactly the merged levels' numbers, the high score never falls, and nothing changes unless a change is reported |
| Moves.TraversalSkipsOnlyTheEdge | Assets/Scripts/TileBoard.cs:44-51 | Each key's loop bounds visit exactly the cells that have a neighbour in the pushed direction; they skip only the edge row or column, whose tiles cannot move |
| Moves.TraversalFor | Assets/Scripts/TileBoard.cs:44-51 | The loop bounds each key passes to `Move`: up (0, 1, 1, 1), down (0, 1, height-2, -1), left (1, 1, 0, 1), right (width-2, -1, 0, 1); `Moves.TraversalSkipsOnlyTheEdge` states what they visit |
| Game.TileBoard.Move | Assets/Scripts/TileBoard.cs:57-71 | The nested loops produce `Moves.Move`; a move that changed something closes the input gate |
| Game.TileBoard.MoveColumn | Assets/Scripts/TileBoard.cs:61-67 | The inner loop over one column produces `Moves.RunRows` |
| Game.TileBoard.MoveCell | Assets/Scripts/TileBoard.cs:62-66 | Visiting one cell produces `Moves.StepAt` |
| Turns.Update | Assets/Scripts/TileBoard.cs:41-55 | Without input, while a settle step is pending, or on a disabled board, nothing changes; a frame that schedules no settle step changes nothing; a move keeps the invariant |
| Turns.UpdateFollows | Assets/Scripts/TileBoard.cs:41-71 | What a frame of input did is accounted for like a move |
| Game.TileBoard.Update | Assets/Scripts/TileBoard.cs:41-55 | The object update is `Turns.Update` on the board, score and gate |
| Turns.UnlockAll | Assets/Scripts/TileBoard.cs:139-141 | Every live tile is unlocked, and nothing else changes |
| Turns.Unlock | Assets/Scripts/TileBoard.cs:139-141 | Unlocking the tiles of a list, in order: exactly the listed tiles lose their lock, and cells, levels and every other tile are unchanged |
| Game.TileBoard.UnlockAll | Assets/Scripts/TileBoard.cs:139-141 | The unlock loop produces `Turns.UnlockAll` |
| Turns.SpawnIfRoom | Assets/Scripts/TileBoard.cs:144 | When a cell is free, a first-level tile appears on the chosen empty cell and nothing else changes; on a full board nothing changes |
| Turns.Settle | Assets/Scripts/TileBoard.cs:136-149 | After the settle step no tile is locked, the invariant holds, and the game is over exactly when the board is full and no two neighbouring cells hold the same level |
| Turns.SettleStep | Assets/Scripts/TileBoard.cs:131-149 | The settle step reopens the input gate, keeps the score, and disables the board exactly when the game is over |
| Game.TileBoard.Settle | Assets/Scripts/TileBoard.cs:136-149 | The object steps produce `Turns.SettleStep` |
| Turns.StuckMeans | Assets/Scripts/TileBoard.cs:159-169 | On a full, unlocked board, a tile is stuck exactly when none of its four neighbours holds its level |
| Turns.MergeableToward | Assets/Scripts/TileBoard.cs:161-169 | One neighbour test: the neighbour cell in direction d exists, holds a tile, and `CanMerge` allows the tile to merge into it; `Turns.StuckMeans` states its meaning on a full board |
| Turns.Stuck | Assets/Scripts/TileBoard.cs:159-169 | None of the four neighbour tests allows a merge; `Turns.StuckMeans` states its meaning on a full board |
| Turns.CheckForGameOver | Assets/Scripts/TileBoard.cs:152-173 | As many live tiles as cells, and every live tile is stuck; `Turns.GameOverMeans` states its meaning |
| Turns.GameOverMeans | Assets/Scripts/TileBoard.cs:152-173 | On an unlocked board, the game-over check holds exactly when the board is full and no two neighbouring cells hold the same level |
| Game.TileBoard.CheckForGameOver | Assets/Scripts/TileBoard.cs:152-173 | The count test and the loop over tiles return `Turns.CheckForGameOver` |
| Game.TileBoard.Stuck | Assets/Scripts/TileBoard.cs:161-169 | The four neighbour tests return `Turns.Stuck` |
| Game.TileBoard.CanMergeToward | Assets/Scripts/TileBoard.cs:166-169 | One neighbour test returns `Turns.MergeableToward` |
| Turns.NewBoard | Assets/Scripts/GameManager.cs:25-27 | A new game's board holds exactly two live first-level tiles, on the two chosen cells, and satisfies the invariant |
| Turns.NewBoardCells | Assets/Scripts/GameManager.cs:25-27 | On the new board exactly the two chosen cells are occupied, by the two new tiles |
| Turns.NewGame | Assets/Scripts/GameManager.cs:18-29 | A new game resets the score to zero, keeps a non-negative high score, builds the new board and enables it |
| Game.GameManager.NewGame | Assets/Scripts/GameManager.cs:18-29 | The object steps produce `Turns.NewGame` |
| Turns.UpdateKeepsInv | Assets/Scripts/TileBoard.cs:41-71 | A frame of input keeps the session invariant: a consistent board, 0 <= high score, score <= high score, and no locked tile while no settle step is pending |
| Turns.SettleKeepsInv | Assets/Scripts/TileBoard.cs:131-151 | The settle step keeps the session invariant |
| Turns.NewGameKeepsInv | Assets/Scripts/GameManager.cs:18-29 | A new game keeps the session invariant |
| Game.GameManager.constructor | Assets/Scripts/GameManager.cs:7-10 | The manager is linked to its board, starts with score 0, and starts with the stored high score |
| Game.GameManager.GameOver | Assets/Scripts/GameManager.cs:31-32 | The board stops taking input |
| Scores.IncreaseScore | Assets/Scripts/GameManager.cs:54-56 | The score grows by the points; the high score is the larger of the old high score and the new score |
| Game.GameManager.IncreaseScore | Assets/Scripts/GameManager.cs:54-56 | The object update is `Scores.IncreaseScore` |
| Scores.SetScore | Assets/Scripts/GameManager.cs:58-62 | The score is set, and the high score becomes the larger of its old value and the new score |
| Game.GameManager.SetScore | Assets/Scripts/GameManager.cs:58-62 | The object update is `Scores.SetScore` |
| Scores.SaveHiScore | Assets/Scripts/GameManager.cs:64-70 | The stored high score is overwritten only by a larger score |
| Game.GameManager.SaveHiScore | Assets/Scripts/GameManager.cs:64-70 | The object update is `Scores.SaveHiScore` |
| Scores.NewGameKeepsHiScore | Assets/Scripts/GameManager.cs:19 | Resetting the score to zero leaves a non-negative high score unchanged |
| Game.GameManager.LoadHiScore | Assets/Scripts/GameManager.cs:72-74 | The stored high score is returned |

## Left out

- Rendering is not modelled: tile colours and text (Tile.cs:25-27), positions, the `Animate` and `Fade` coroutines, the score and high-score labels, and the game-over panel.
- Time is not modelled. The pause in `WaitForChanges` is dropped, so its second half is the separate settle step (`Turns.SettleStep`, `Game.TileBoard.Settle`), which runs while the gate is closed.
- The gate is set as soon as `Move` sees a change, because starting the coroutine sets `waiting` before its first pause.
- Key polling is modelled as one optional direction per frame. When several keys are down, the source's order (up, down, left, right) decides which direction that is.
- The engine skips `Update` on a disabled component. This is modelled by the `enabled` flag in the session, which `Turns.Update` tests.
- The preference store is not modelled. It becomes the manager's `hiscore` field, which the constructor initialises from the stored value (0 when nothing is stored).
- Creating and destroying game objects become fresh ids and leaving the live list. A tile object stays in the store after it is destroyed.
- `GetRandomEmptyCell` is random and is not modelled. The chosen cells are parameters (`spawn`, `c1`, `c2`), required to be empty and in bounds, and `Boards.EmptyCellExists` proves that an empty cell exists whenever a tile is spawned.
- `TileGrid` and `TileCell` are not part of this model. Their lookups (`GetCell`, `GetAdjacentCell`, `occupied`, `size`) are modelled in `Grids` and `Boards` from how the board calls them.
- The initial capacity of the tile list (16) is not modelled, because it has no effect on behaviour.
- `Start` is not modelled separately: it only calls `NewGame`.
- Game.GameManager.NewGame: requires its two cells to be distinct and in bounds, so it does not model a grid with fewer than two cells. There the second `CreateTile` finds no empty cell and `Spawn` dereferences a null cell (Tile.cs:35-36).
- Turns.NewGame: requires two distinct in-bounds cells, for the same reason.
- Game.TileBoard.Settle: requires the spawn cell to be empty whenever a tile is spawned, which `GetRandomEmptyCell` guarantees.
- Scores.IncreaseScore: the score is an unbounded integer. The source adds with 32-bit `int` (GameManager.cs:55), which wraps past 2147483647, so `score + points` is only exact below that bound. The same holds for `Scores.SetScore` and for the score that `Moves.MergeTiles` adds.
- Moves.NextLevel: merging two tiles of the last level yields the last level again and still scores its number. This is the source's clamp, which the model follows.
