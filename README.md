# py2048 move engine in Dafny

This project models the core of py2048, a terminal version of the 2048 sliding-tile
puzzle in one Python script (`2048.py`). The board is a dictionary from every cell
`(x, y)` of a `width x width` square to a tile value, where 0 means empty. Each turn
the player types `w`, `s`, `a` or `d`. That letter is decoded to a direction vector
and a traversal "preference". The script then does the following:

- it lists all cells in an order that depends on the direction;
- it takes the occupied cells of that list before anything moves;
- it processes each of those tiles against the grid as it stands at that moment.

A tile on the destination edge stays where it is. Otherwise it looks along its ray,
the cells beyond it toward the edge:

- it merges into the first tile of the ray when the two values are equal, and the
  score grows by twice the value;
- it stops right behind that tile when the values differ;
- it slides to the end of the ray when the ray holds no tile.

After a move one new tile is placed on an empty cell. The game goes on while an empty
cell exists.

The modules follow the script's parts:

- `Directions` (`directions.dfy`): the letters, the vectors and the preferences of
  `letter_to_direction`. It also holds the geometry used by the proofs. `Depth(d, w, c)`
  is the distance of cell `c` from the destination edge. `LineOf(d, c)` is the row or
  column the cell slides along. `Pos(d, w, j, p)` is the cell at depth `p` of line `j`.
- `Traversal` (`traversal.dfy`): the nested loops that build the list `total`
  (`BuildOrder`), proved equal to a layer-by-layer definition `Order`. Properties proved
  about `Order`:
  - it is a permutation of all cells;
  - within a line, a cell nearer the edge always comes first.
- `Board` (`board.dfy`): the grid queries `is_occupied`, `get_occupied_spaces`,
  `is_empty` and `get_empty_spaces` as filters over the key order. It also holds
  `get_next_spaces`, both as the loop of the script and as the function that specifies it.
- `Lines` (`lines.dfy`): an independent reference model of a move on one line, listed
  from the destination edge outward. The move is proved to leave each line packed.
- `Engine` (`engine.dfy`): one pass of the move loop (`Step`), the loop (`Resolve`) and a
  whole move (`Move`), as functions on the grid. The lemmas prove the following:
  - conservation: of the tile sum, of the occupied count minus the merges, and of the
    score as twice the merged values;
  - locality and never overwriting a tile;
  - equivalence with the line model: every line moves as `Lines.LineMove` says, and the
    move's score is the sum of the line scores.
- `Game` (`game.dfy`): the script's mutable state (`grid` and `score`) as a class. Its
  methods mirror the statements of the script: the grid set-up, `assign`, `populate`, one
  tile of the move loop, the whole move, one turn and the main loop. `MoveTile`,
  `MoveTiles`, `ApplyMove` and `Turn` are proved against the `Engine` functions. The
  constructor, `Assign`, `Populate` and `Start` state the new grid or its counts
  directly, and `Play` states what its loop keeps.

In the usual 2048 rules a merged tile does not merge again in the same move. This
script has no "already merged" mark, however, and the model follows the script. A tile made by a merge keeps its new
value, and a later tile of that value merges into it. So the row `[2, 2, 4, 0]` moved
left becomes `[8, 0, 0, 0]` and scores 12 (`Lines.MergedTileMergesAgain`,
`Engine.ChainMergeExample`). Three equal tiles in a row still give a single merge
(`Lines.ThreeEqualTilesMergeOnce`, `Engine.ThreeInARowExample`). This is because the
doubled tile no longer equals the third one.

## Model

| member | source | states |
|---|---|---|
| `Directions.Decode` | 2048.py:80-91 | after lower-casing, the input decodes to Up, Down, Left or Right exactly when it is `w`/`W`, `s`/`S`, `a`/`A` or `d`/`D` (both directions of each equivalence) |
| `Directions.LetterToDirection` | 2048.py:75-91 | the result is None exactly for inputs other than the eight letters, and the vector is (0,-1), (0,1), (-1,0) or (1,0) exactly for the letters of up, down, left and right |
| `Directions.Pos` | 2048.py:128-135 | the cell at depth p of line j lies in line j at depth p, and is on the board exactly when both indices are below width |
| `Directions.Shift` | 2048.py:44-52 | n steps of the direction vector keep the line and reduce the depth by n |
| `Traversal.BuildOrder` | 2048.py:125-135 | given the preference that d decodes to, the nested loops over its axes build exactly the layer-by-layer order `Order(d, width)` |
| `Traversal.OrderIsPermutation` | 2048.py:125-135 | the traversal list has width² entries, holds every cell of the board and nothing else, and has no duplicates |
| `Traversal.OrderNearestFirst` | 2048.py:125-135 | depth never decreases along the list, and of two cells of the same line the one nearer the destination edge comes first |
| `Board.Keys` | 2048.py:8-12 | the grid's key order holds exactly the width² in-bounds cells, each once |
| `Board.OccupiedMembers` | 2048.py:15-22 | filtering with is_occupied keeps exactly the listed cells that are occupied, where a missing key counts as occupied |
| `Board.OccupiedSpaces` | 2048.py:20-22 | get_occupied_spaces lists exactly the in-bounds cells that are occupied |
| `Board.EmptySpaces` | 2048.py:25-32 | get_empty_spaces lists exactly the in-bounds cells that are empty |
| `Board.OccupiedDistinct` | 2048.py:137 | filtering a list without duplicates gives a list without duplicates |
| `Board.OccupiedDepthSorted` | 2048.py:137 | filtering a list along which the depth never decreases keeps that order |
| `Board.Partition` | 2048.py:15-32 | every cell is counted by exactly one of the two filters |
| `Board.OccupiedUpdate` | 2048.py:35-37 | assigning one cell changes the occupied count by at most one, as its value goes from or to zero |
| `Board.TileSumUpdate` | 2048.py:35-37 | assigning one cell changes the tile sum by the difference of the new and old values |
| `Board.NextSpaces` | 2048.py:40-52 | the ray of xy lists the cells xy + k·vector for k = 1 .. Depth(xy), all on the board; the next one is off the board, so the ray is empty exactly on the destination edge |
| `Board.GetNextSpaces` | 2048.py:40-52 | given the vector `Vector(d)`, the loop that grows `spaces` returns exactly `NextSpaces(xy, d, width)` |
| `Board.NextSpacesInLine` | 2048.py:40-52 | seen from line j, the ray of the tile at depth p is the depths p-1, ..., 0 |
| `Lines.Nearest` | 2048.py:145-150 | the result is the depth of the nearest tile in front of depth p, with only empty cells between; None means every cell in front is empty |
| `Lines.LineMovePacks` | 2048.py:139-169 | after a line move the tiles form a gap-free block against the destination edge |
| `Lines.EmptyLineStays` | 2048.py:137-143 | a line without tiles is unchanged by a move and scores nothing |
| `Lines.MergedTileMergesAgain` | 2048.py:149-159 | the line [2, 2, 4, 0] moved toward its first cell becomes [8, 0, 0, 0] and scores 12 |
| `Lines.ThreeEqualTilesMergeOnce` | 2048.py:149-165 | the line [2, 2, 2, 0] becomes [4, 2, 0, 0] and scores 4 |
| `Lines.PairMerges` | 2048.py:149-169 | the line [2, 2, 0, 0] becomes [4, 0, 0, 0] and scores 4 |
| `Lines.MergeStopsBehindLargerTile` | 2048.py:149-169 | the line [4, 2, 0, 2] (the row [2, 0, 2, 4] seen from the right edge) becomes [4, 4, 0, 0] and scores 4 |
| `Engine.Step` | 2048.py:139-169 | one pass of the move loop keeps every cell of the board a key |
| `Engine.Resolve` | 2048.py:139-169 | the loop over the occupied cells keeps every cell of the board a key |
| `Engine.Move` | 2048.py:137-169 | a move keeps every cell of the board a key |
| `Engine.StepTarget` | 2048.py:139-169 | a pass writes 0 at xy and one value at one target, which is xy or a ray cell; without a merge it writes the tile's own value to xy or to an empty cell and scores 0; with a merge it doubles an equal non-zero tile of the ray and scores twice the value |
| `Engine.StepShape` | 2048.py:154-169 | a pass keeps exactly the board's keys with non-negative values, scores at least 0, and every merge is of a positive value |
| `Engine.StepIsLocal` | 2048.py:139-169 | a pass changes only xy and its ray, all of them in xy's own line and no farther from the edge than xy |
| `Engine.StepNeverOverwrites` | 2048.py:149-169 | a cell other than xy that a pass changes was empty, or it held the moving tile's value and is doubled by a merge |
| `Engine.StepOnEdge` | 2048.py:140-143 | a tile on the destination edge leaves the grid unchanged and scores 0 |
| `Engine.StepBlocked` | 2048.py:161-165 | a tile directly behind a tile of a different value stays where it is, because `new_xy` is xy and the value is written after the 0 |
| `Engine.StepConserves` | 2048.py:147-169 | a pass keeps the tile sum, loses one occupied cell per merge, and scores twice the merged value |
| `Engine.ResolveConserves` | 2048.py:139-169 | over any list of tiles: the grid stays well formed, the tile sum is kept, the occupied count falls by the number of merges, and the score is twice the merged values |
| `Engine.SnapshotContents` | 2048.py:125-137 | the snapshot a move processes holds every occupied cell of the board and nothing else, each once, with depth never decreasing along it |
| `Engine.MoveConserves` | 2048.py:137-169 | a move keeps the board well formed and the tile sum unchanged; the occupied count falls by the number of merges; the score gained is twice the merged values and at least 2 per merge |
| `Engine.MoveKeepsEmptyCell` | 2048.py:110-171 | a move on a board with an empty cell leaves an empty cell, so the populate after it always has a cell to choose |
| `Engine.StepOnLine` | 2048.py:139-169 | seen from any line, one pass is the line model's step on the moving tile's line and changes nothing on the others |
| `Engine.ResolveOnLine` | 2048.py:139-169 | seen from one line, processing a list of tiles is the line model's fold over the depths of the tiles in that line |
| `Engine.SnapshotOnLine` | 2048.py:125-137 | seen from one line, the snapshot of occupied cells in traversal order is the line's occupied depths in ascending order |
| `Engine.MoveOnLine` | 2048.py:125-169 | every line after a move is what the line model's move makes of it |
| `Engine.MovePacks` | 2048.py:125-169 | after a move the tiles of every line form a gap-free block against the destination edge |
| `Engine.MoveScores` | 2048.py:125-169 | the score of a move is the sum over the lines of the line model's scores |
| `Engine.OneLineMove` | 2048.py:125-169 | when only one line holds tiles, the move scores what the line model scores for it |
| `Engine.RightMoveExample` | 2048.py:122-169 | the top row [2, 0, 2, 4] moved right gives [0, 0, 4, 4] and scores 4 |
| `Engine.LeftMoveExample` | 2048.py:122-169 | the top row [2, 2, 0, 0] moved left gives [4, 0, 0, 0] and scores 4 |
| `Engine.ChainMergeExample` | 2048.py:149-159 | the top row [2, 2, 4, 0] moved left gives [8, 0, 0, 0] and scores 12: the merged tile merges again |
| `Engine.ThreeInARowExample` | 2048.py:149-165 | the top row [2, 2, 2, 0] moved left gives [4, 2, 0, 0] and scores 4 |
| `Game.Game.constructor` | 2048.py:8-12 | the set-up loop gives every cell of the board, and nothing else, the value 0: every cell is empty and none occupied |
| `Game.Game.Assign` | 2048.py:35-37 | assign sets one cell and leaves the rest of the grid alone |
| `Game.Game.Populate` | 2048.py:55-57 | populate puts the starting value on the chosen empty cell; with a non-zero starting value, one more cell is occupied and one fewer is empty |
| `Game.Game.Start` | 2048.py:96-97 | the starting populates need `starting_blocks` empty cells, since `choice` fails on an empty list; with a non-zero starting value they occupy exactly `starting_blocks` more cells, and with 0 they leave the grid as it was |
| `Game.Game.MoveTile` | 2048.py:139-169 | one pass of the loop, along the decoded vector `Vector(d)`, changes the grid and the score as `Engine.Step` says |
| `Game.Game.MoveTiles` | 2048.py:139-169 | the loop over the snapshot changes the grid and the score as `Engine.Resolve` says |
| `Game.Game.ApplyMove` | 2048.py:122-169 | given the decoded vector and preference, the move body builds the order from the preference, takes the snapshot and moves each tile along the vector; the grid becomes `Engine.Move`'s grid, the score grows by its gain, and the board stays well formed |
| `Game.Game.Turn` | 2048.py:117-171 | the vector and preference that `LetterToDirection` returns drive the move; an input that is not a direction changes nothing; a direction applies the move and then puts the starting value on the picked empty cell of the moved board, which always exists |
| `Game.Game.Play` | 2048.py:108-171 | the loop never decreases the score and keeps the board well formed; it stops early only when the board has no empty cell |

## Left out

- `print_grid`, the welcome banner and every `print`: terminal output is not modelled.
- `input()`: the lines the player types are the `inputs` parameter of `Game.Game.Play`.
  `Play` stops when they run out, which the script cannot do.
- `random.choice` in `populate`: the choice is a `pick` parameter, taken modulo the number
  of empty cells. Which cell the random generator would pick is not modelled.
- The settings `width`, `starting_blocks` and `starting_value` are constructor parameters
  instead of module constants. The `global grid` mechanics become the `grid` field of the
  class, and `main`'s local `score` becomes the `score` field.
- Directions.Decode: `str.lower()` is modelled for ASCII letters only. Any other character
  is left as it is, so a non-ASCII character that Python would lower to one of the four
  letters is not considered.
- Python's single-use `reversed(...)` iterator: only the order it yields matters, and that
  order is what `Directions.PreferenceOf` and `Traversal.BuildOrder` model.
- Game.Game.Play: states that the loop ends only on a full board or on exhausted input, and
  that the score never decreases, but does not restate every turn's grid; each turn's
  effect is stated by `Game.Game.Turn`.
- Game.Game.Start: states the number of occupied and empty cells after the starting tiles,
  not which cells were picked; each pick is stated by `Game.Game.Populate`.
- Game.Game.Populate: requires an empty cell where the script's `choice` raises `IndexError`
  on an empty list; the error path is not modelled, and `Game.Game.Turn` proves that a move
  never fills the board, so in play it cannot arise.
- Game.Game.Start: requires `starting_blocks` empty cells even when the starting value is 0,
  although then every populate leaves the cell empty and the script needs only one.
- Game.Game.constructor: requires a non-negative starting value (the script's is 2), so that
  the class invariant can promise that no tile value is negative.
- The game has no "game over" message or win check beyond the loop condition, and neither
  does the model.
