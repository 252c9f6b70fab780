# Minesweeper board engine, in Dafny

This project models the board engine of the `Minesweeper` class in
`minesweeper.py`, a tkinter Minesweeper game. It covers:
- building a board over a given mine layout, with each tile's count of adjacent mines;
- the neighbourhood lookup;
- the left click, including the flood fill ("cascade") that opens the area around a tile with no adjacent mine;
- the right-click flag toggle;
- the image each tile shows once the game is over.

It also proves what the game relies on:
- the counters agree with the tiles;
- a safe click never reveals a mine;
- the win check means "every safe tile is revealed";
- a cascade leaves every zero-count tile it opened with no untouched neighbour.

Modules, one per file:

- `Geometry` (`geometry.dfy`) covers positions, the rectangular grid, adjacency and the neighbour list. The board keeps its tiles in a dictionary keyed by coordinates, and a lookup off the board raises `KeyError`, which the neighbour lookup swallows. So tiles are modelled as a `map<Pos, Tile>`, and a neighbour is a candidate position that is a key. An index of -1 is a miss, not a wrap-around.
- `Board` (`board.dfy`) holds tiles, tile states and the game record with its counters. It defines the invariant `Valid`:
  - the tiles cover exactly the grid;
  - every tile's count is the number of mines around it;
  - `mines`, `clickedCount`, `flagCount` and `correctFlagCount` equal the number of tiles they count;
  - no revealed tile is a mine.
- `Setup` (`setup.dfy`) has the two passes of `setup`: placing the tiles and counting mines, then filling in the adjacency counts. These are loops with invariants.
- `Cascade` (`cascade.dfy`) is the worklist of `clearSurroundingTiles` and `clearTile`. The state is a `Work` record: the game, the worklist, and the sequence of every cell appended to the worklist. The rounds run until the worklist is empty. Termination is by the pair (untouched tiles, worklist length).
- `Minesweeper` (`minesweeper.dfy`) has the left click, the flag toggle, the images, and the properties that tie them to `Valid`.
- `TileIds` (`tile_ids.dfy`) covers the `x_y` id strings the worklist holds. Reading an id back gives the tile's coordinates, and distinct tiles have distinct ids. This is why the cascade model's worklist holds positions rather than strings.

A click is modelled as follows:
- A flagged tile ignores a left click, because the game unbinds the click handler while the flag is on.
- Clicking a mine reports a loss and changes nothing.
- Otherwise, a tile with no adjacent mine starts the cascade and scores a point.
- The tile is then marked revealed and counted, unless it is already revealed.
- The win check compares `clickedCount` with the number of cells minus the number of mines.

The clicked tile is still untouched while its own cascade runs. A zero-count neighbour can therefore reveal it, count it, and append it to the worklist a second time (`Minesweeper.OriginAppendedAgain`). The later "already revealed?" test keeps it from being counted twice (`Minesweeper.ClickKeepsValid`). Every other cell reaches the worklist at most once (`Cascade.DrainAppends`).

The source is followed where a plain description of the game would differ:
- A left click on an already revealed tile with no adjacent mine runs the cascade again and scores another point. It is not ignored.
- The score counts clicks on zero-count tiles only. A new game keeps it, because only the constructor resets it (`Setup.NewGame` takes the carried-over score).

## Model

| member | source | states |
|---|---|---|
| Geometry.Neighbors | minesweeper.py:174-191 | q is in the neighbour list of p exactly when q is a tile of the board and differs from p by at most one in each coordinate without being p; the list has no duplicates and at most 8 entries |
| Geometry.Present | minesweeper.py:186-190 | keeps exactly the candidates that are keys of the board (a missing key is dropped, not wrapped); a duplicate-free candidate list stays duplicate-free |
| Geometry.AroundIsAdjacency | minesweeper.py:176-185 | the eight listed offsets are exactly the positions adjacent to p, each once |
| Geometry.AdjacentSetBound | minesweeper.py:174-191 | any set of tiles adjacent to p has at most eight members |
| Geometry.GridSize | minesweeper.py:219 | the board has exactly sizeX * sizeY cells, the total the win check starts from |
| Board.MinesDetermineAdjacency | minesweeper.py:123-128 | two boards with the same mines have the same mine set and the same mines around every cell, whatever the tile states and stored counts |
| Board.LayoutKeepsAdjacency | minesweeper.py:123-128 | changing tile states keeps the mine set and keeps every stored count equal to the mines around its tile |
| Board.ZeroCountHasSafeNeighbors | minesweeper.py:263-265 | on a board whose counts are correct, a tile next to a zero-count tile is not a mine |
| Board.CountsInRange | minesweeper.py:125-128 | on a board whose counts are correct, every stored count lies in 0..8 |
| Setup.PlaceRow | minesweeper.py:91-121 | after row x the tiles are exactly rows 0..x, each untouched with its mine from the layout, and the mine counter equals the number of mine tiles |
| Setup.PlaceMines | minesweeper.py:88-121 | the first pass yields one untouched tile per grid cell, with the layout's mine, and a mine counter equal to the number of mine tiles |
| Setup.MineCountAdd | minesweeper.py:100-102 | placing a tile on a new cell adds one to the mine count exactly when the tile is a mine |
| Setup.CountNeighborMines | minesweeper.py:125-127 | the count over the neighbour list equals the number of mines adjacent to the cell |
| Setup.CountRow | minesweeper.py:124-128 | after row x every tile of rows 0..x holds the number of mines around it and the others are untouched; no mine moves |
| Setup.ComputeAdjacency | minesweeper.py:123-128 | after the second pass every tile holds the number of mines around it, and nothing else about it changed |
| Setup.NewGame | minesweeper.py:81-128 | a new game is valid, has the layout's mines, untouched tiles, counts in 0..8, a mine counter equal to the layout's mines, zeroed counters and the carried-over score |
| Cascade.ClearTile | minesweeper.py:259-271 | no tile but the given neighbour changes; it is revealed exactly when it was untouched, and then counted once; the worklist and the record of appended cells grow by that neighbour exactly when it was revealed with no adjacent mine, and otherwise stay the same |
| Cascade.ClearTiles | minesweeper.py:256-257 | after clearing a neighbour list none of its tiles is untouched, only untouched tiles were revealed, each counted once |
| Cascade.Round | minesweeper.py:250-257 | one round only reveals untouched tiles, counting each once, and either reveals a tile or just pops the worklist |
| Cascade.Drain | minesweeper.py:247-257 | the worklist loop terminates with an empty worklist, having only revealed untouched tiles and counted each reveal once |
| Cascade.ClearTileEffect | minesweeper.py:259-271 | clearing one neighbour appends it to the worklist exactly when it is revealed by this step and has no adjacent mine |
| Cascade.ClearTilesEffect | minesweeper.py:256-257 | clearing a neighbour list appends, without duplicates, exactly the zero-count tiles it revealed, and reveals only tiles of the list |
| Cascade.RoundEffect | minesweeper.py:250-257 | a round removes the head of the worklist, appends exactly the zero-count tiles it revealed, reveals only neighbours of the head, and leaves the head with no untouched neighbour |
| Cascade.DrainChains | minesweeper.py:250-265 | every cell the cascade appends is a neighbour of a starting cell or of a cell appended before it, so the appended cells grow outward from the starting cells |
| Cascade.DrainAppends | minesweeper.py:263-265 | the worklist only ever receives revealed zero-count tiles, each at most once, and every zero-count tile the cascade reveals is received |
| Cascade.DrainSettles | minesweeper.py:250-271 | when the worklist is empty, every cell that was on it and every zero-count tile the cascade revealed has no untouched neighbour |
| Cascade.DrainStaysNear | minesweeper.py:256-268 | every tile the cascade reveals is a neighbour of a starting cell or of a zero-count tile it revealed |
| Cascade.NearRevealsNoMine | minesweeper.py:256-268 | reveals that stay next to zero-count tiles, on a board whose counts are correct, reveal no mine |
| Cascade.DrainRevealsNoMine | minesweeper.py:256-271 | a cascade started from zero-count tiles never reveals a mine |
| Minesweeper.ClearSurroundingTiles | minesweeper.py:247-257 | the cascade from the clicked tile: it reveals only untouched tiles, counting each once; the clicked tile and every zero-count tile it revealed have no untouched neighbour; the appended tiles are exactly the revealed zero-count tiles, each appended once, and form a chain that starts next to the clicked tile; every revealed tile is the clicked tile or a neighbour of it or of a chain tile; no mine is revealed when the click is on a zero-count tile |
| Minesweeper.Cleared | minesweeper.py:208-214 | a zero-count tile starts the cascade and scores one point; a numbered tile leaves the board and the score unchanged; no mine is revealed |
| Minesweeper.MarkClicked | minesweeper.py:216-218 | the clicked tile ends revealed, nothing else changes, and the click counter moves only if the tile was not yet revealed |
| Minesweeper.Click | minesweeper.py:199-220 | a flagged tile ignores the click and a mine loses; in both cases nothing changes. A safe click reveals the tile, only reveals untouched tiles, counts each once, scores for a zero-count tile, and reports a win exactly when the counter reaches cells minus mines |
| Minesweeper.RevealKeepsValid | minesweeper.py:216-218 | a reveal that counts each tile once and uncovers no mine keeps the game invariant |
| Minesweeper.SafeClickRevealsNoMine | minesweeper.py:203-218 | a click on a safe tile uncovers no mine, the cascade included |
| Minesweeper.ClickKeepsValid | minesweeper.py:199-220 | every click keeps the invariant, so the clicked tile is counted once whether the cascade or the click reveals it |
| Minesweeper.WinCheckMeansAllSafeRevealed | minesweeper.py:219 | on a valid board the counter equals cells minus mines exactly when every safe tile is revealed |
| Minesweeper.ClickWinsIffAllSafeRevealed | minesweeper.py:219-220 | a safe click on a valid board wins exactly when it leaves every safe tile revealed |
| Minesweeper.ClickOpensRegion | minesweeper.py:208-210 | after a click on a zero-count tile, that tile and every zero-count tile the click revealed have no untouched neighbour; every revealed tile is the clicked one or a neighbour of it or of a tile on a chain of revealed zero-count tiles, each a neighbour of the clicked tile or of an earlier chain tile; so the revealed region is connected to the clicked tile |
| Minesweeper.ClickOnNumberRevealsOnlyIt | minesweeper.py:212-218 | a click on a numbered safe tile reveals that tile alone and does not score |
| Minesweeper.OriginAppendedAgain | minesweeper.py:259-265 | a zero-count clicked tile with an untouched zero-count neighbour is appended to the worklist again by its own cascade |
| Minesweeper.ToggleFlag | minesweeper.py:222-245 | untouched becomes flagged with one more flag, and one more correct flag exactly when it is a mine; flagged becomes untouched with the counters moved back; a revealed tile is left alone; no other tile changes |
| Minesweeper.FlagChangeKeepsReveals | minesweeper.py:226-238 | moving a tile between untouched and flagged changes neither the layout nor the set of revealed tiles |
| Minesweeper.ToggleFlagCounts | minesweeper.py:226-245 | after a right click both flag counters still equal the number of flags and of flags on mines |
| Minesweeper.ToggleFlagKeepsValid | minesweeper.py:222-245 | a right click keeps the game invariant |
| Minesweeper.ToggleFlagTwice | minesweeper.py:226-245 | two right clicks on the same tile restore the whole game, both counters included |
| Minesweeper.NumberImageInRange | minesweeper.py:213-214 | a revealed numbered tile on a valid board shows one of the eight number images |
| Minesweeper.Shown | minesweeper.py:259-268 | an untouched tile shows the plain image, a flagged one the flag, a revealed zero-count tile the blank image and a revealed numbered tile the number of its adjacent mines; the end-of-game images never appear during play (the plain and flag images of lines 98, 227 and 237 and the click images of lines 209 and 213-214 follow the same rule) |
| Minesweeper.GameOverImage | minesweeper.py:141-146 | a flag on a safe tile shows as wrong, an unflagged mine shows as a mine, and every other tile keeps its image |
| Minesweeper.GameOverShowsMines | minesweeper.py:139-146 | at game over every mine shows as a mine or a flag, no safe tile shows as a mine, and number images are in 1..8 on safe tiles |
| TileIds.ParseNat | minesweeper.py:253-254 | reading a string as a number succeeds exactly on non-empty strings of digits, and a numeral without superfluous leading zeros reads back to a number printed as that same numeral |
| TileIds.DigitsRoundTrip | minesweeper.py:253-254 | printing the value of a numeral without superfluous leading zeros gives the numeral back |
| TileIds.ParseDecimal | minesweeper.py:253-254 | reading a printed number gives the number back |
| TileIds.DecimalCanonical | minesweeper.py:95 | `str` writes a coordinate with no superfluous leading zero |
| TileIds.Split | minesweeper.py:252 | splitting gives at least one piece and no piece contains the separator |
| TileIds.JoinSplit | minesweeper.py:252 | joining the pieces of a split with the separator gives the string back |
| TileIds.SplitTwo | minesweeper.py:252 | two separator-free pieces joined by the separator split into exactly those two pieces |
| TileIds.DecimalRoundTrip | minesweeper.py:253-254 | reading back the decimal numeral of n gives n |
| TileIds.KeyPos | minesweeper.py:251-254 | a parsed id always has non-negative coordinates |
| TileIds.IdRoundTrip | minesweeper.py:95 | reading the id of the tile at p gives p back |
| TileIds.IdsDistinct | minesweeper.py:95 | two tiles have the same id exactly when they are the same tile |

## Left out

- Random mine placement: each tile's mine comes from a layout grid of booleans given to `Setup.NewGame` instead of a random draw.
- The timer: the start time, the periodic label update and the loss when the clock string reaches the time limit. This is wall-clock I/O and string formatting.
- The game-over dialogue: saving the score to the shelve file, the restart prompt and quitting the window.
- All widgets, labels, image loading, button binding and grid placement. The unbind/rebind pair around flags becomes the rule that a flagged tile ignores a left click (`Minesweeper.Click` returns `Ignored`).
- `refreshLabels`, `restart` and `restartGame` beyond the board rebuild that `Setup.NewGame` models.
- The difficulty menus and the module-level size and time constants. The board sizes are fields of the game record.
- The cascade's worklist holds positions, not id strings. `TileIds.IdRoundTrip` and `TileIds.IdsDistinct` show the two carry the same cells.
- TileIds.ParseNat: reads only unsigned decimal digits. Signs, surrounding whitespace and the other forms `int` accepts never occur in a tile id.
- TileIds.KeyPos: only states that a parsed position has non-negative coordinates. Its meaning on ids is given by `TileIds.IdRoundTrip`, and other strings never reach it.
- The image a tile shows during play changes with tile state only as `Minesweeper.Shown` describes. When the images are set is not modelled.
