# A verified model of the Tetris engine in `orangenexa.com.js`

This project models the game engine of a browser Tetris in Dafny and proves properties of the model. The engine is the part of `assets/js/orangenexa.com.js` that simulates the game:

- the 20 x 12 arena of cells, where 0 is empty and 1..7 are piece ids;
- the catalog of seven piece matrices;
- the player's matrix and position;
- score, level and drop counter;
- the three flags `gameOver`, `isPaused` and `gameStarted`.

The whole script drives this state: `collide`, `merge`, `rotate`, `arenaSweep`, `playerDrop`, `playerMove`, `playerReset`, `playerRotate`, `resetGame`, `startGame`, `togglePause`, the row search of `drawGhostPiece`, the keydown handler (hard drop included) and the drop rule of `update`.

The model has two layers.

- **Values.** `Engine` describes the game as a state machine over values.
  - `Engine.State` holds the board as a `seq<seq<int>>` and the contents of the shared catalog.
  - Each operation has a function such as `Drop`, `Move`, `RotateStep`, `Spawn`, `SweepStep` or `KeyDown`.
  - Lemmas say what each operation guarantees. Every operation keeps the invariant `Engine.Inv`:
    - the board has the game's size and holds cells in 0..7;
    - the catalog pieces are well formed;
    - the player lies within the walls;
    - `level == score / 100 + 1`;
    - the flags are consistent.
- **Imperative.** The class `Game.Game` is the script as it runs.
  - The arena and the seven catalog matrices are `array2<int>` objects updated in place.
  - The player's matrix is one of the catalog arrays itself.
  - The script's globals are fields.
  - Every method ensures that its fields end exactly in the state the matching `Engine` function gives.
  - Every method that stands for a whole operation of the script also ensures that the representation invariant `Valid` holds again: the constructor, `ArenaSweep`, `PlayerDrop`, `Lock`, `Settle`, `PlayerMove`, `PlayerRotate`, `HardDrop`, `ResetGame`, `StartGame`, `TogglePause`, `KeyDown` and `Update`.
  - `PlayerReset` and `RotateHeld` are steps inside such operations. They ensure only the representation facts that their callers need; the callers then re-establish `Valid`.

The core algorithms are proved to compute what their value-level definitions describe:

- `Collide`: the collision scan.
- `Merge`: the merge loop.
- `Transpose`, `ReverseEachRow` and `ReverseRowOrder`: the rotation.
- `SweepRows` and `RemoveRow`: the splice-and-unshift sweep.
- `KickSearch`: the wall-kick loop.
- `LandingRow`: the ghost/hard-drop row search.

Modules, in dependency order:

| module | file | contents |
|---|---|---|
| `Grids` | grids.dfy | matrices as values; `Mirrors(a, g)` links an array to a matrix; `createMatrix` |
| `Pieces` | pieces.dfy | the `PIECES` catalog, its keys, `createPiece` |
| `Collision` | collision.dfy | board size, `collide` and the ghost row |
| `Rotation` | rotation.dfy | `rotate`, as a value and in place |
| `Sweep` | sweep.dfy | `arenaSweep`: row removal and scoring |
| `Merging` | merge.dfy | `merge`, as a value and in place |
| `Engine` | engine.dfy | the state machine and its properties |
| `Game` | game.dfy | the `Game` class over arrays |

Several behaviours of the script are modelled as written, and the lemmas state them:

- **The catalog is shared.** `createPiece` hands out the catalog array itself. A rotation therefore rotates the catalog entry, and the next spawn of that type starts in the rotated orientation (`Engine.RotationIsShared`).
- **Game over is decided before the sweep.** `playerDrop` spawns the next piece, and decides game over against the board before the sweep runs. The sweep still scores afterwards (`Engine.DropFacts`). As a consequence, a new piece may overlap settled cells once the sweep shifts rows down. The invariant therefore promises only that the player lies within the walls, not that it is free.
- **Hard drop works while paused.** The keydown guard does not look at `isPaused`. A hard drop while paused moves the piece to its ghost row and merges nothing (`Engine.PausedHardDrop`).
- **A hard drop from an overlap locks one row up.** From an overlapping position the ghost loop runs zero times and then moves the piece up one row, to y = -1 when it spawned at row 0.
  - If the piece then has no filled cell above row 0, nothing throws. This happens because the catalog is shared, so an entry can have an empty top row, for example T or L turned twice, or I turned once. The piece locks one row up and silently overwrites any settled cell under one of its filled cells. The model does the same: `Engine.Locks` holds there, `Merging.MergedBoard` says which cells are overwritten, and `Engine.OverlapLocksSilently` shows one such hard drop.
  - If a filled cell lands above row 0, `merge` writes to `arena[-1]`, which is undefined, and throws. Dafny has no exceptions, so the model records this case as follows.
    - the state is exactly as it was before that `playerDrop`;
    - the method reports it in its `thrown` result (`Engine.DropThrows`, `Engine.DropThrowsKeeps`);
    - `Update` then does not request the next frame.

## Model

| member | source | states |
|---|---|---|
| Grids.CreateMatrix | assets/js/orangenexa.com.js:101-103 | a fresh height-by-width array whose every cell is 0 |
| Pieces.CatalogValid | assets/js/orangenexa.com.js:14-50 | seven catalog entries, one per key; each is square of side 2, 3 or 4, holds only 0 and its own id, and has a filled cell |
| Pieces.IndexOf | assets/js/orangenexa.com.js:105-106 | the position found holds the key; the key is missing exactly when the position is past the end |
| Pieces.PieceIndex | assets/js/orangenexa.com.js:105-107 | a catalog key selects its own entry; any other plain string falls back to 'T' |
| Pieces.PieceIndexOfKey | assets/js/orangenexa.com.js:283-286 | picking the key at a random index selects the entry at that index, so the fallback never applies |
| Collision.Collide | assets/js/orangenexa.com.js:190-203 | the scan changes nothing and answers true exactly when some filled piece cell lands on a row or column outside the arena (rows above 0 included) or on a filled cell, for any offset |
| Collision.FreePlacement | assets/js/orangenexa.com.js:190-203 | a piece that does not collide lies within the side walls and above the floor, and reaches no row above the top |
| Collision.EmptyBoardIsFree | assets/js/orangenexa.com.js:190-203 | on an empty arena, a piece within the walls and below the top row does not collide |
| Collision.GhostY | assets/js/orangenexa.com.js:180-183 | the ghost row: the piece collides one row below it, and every row from the start down to it is free |
| Merging.Merge | assets/js/orangenexa.com.js:205-213 | the in-place merge leaves the arena holding the merged board, or unchanged when a filled cell lies above row 0 and the write throws |
| Merging.MergedBoard | assets/js/orangenexa.com.js:205-213 | every filled piece cell is written with its value; every other cell keeps its value; the board keeps its size, and cells stay in 0..7 |
| Merging.MergedCollides | assets/js/orangenexa.com.js:205-213 | once merged, a piece inside the board collides where it stands |
| Rotation.Transpose | assets/js/orangenexa.com.js:216-221 | the swap loop leaves m[i][j] equal to the old m[j][i] for every cell |
| Rotation.ReverseEachRow | assets/js/orangenexa.com.js:224-225 | each row ends reversed: m[i][j] is the old m[i][w-1-j] |
| Rotation.ReverseRowOrder | assets/js/orangenexa.com.js:226-227 | the rows end in reverse order: m[i][j] is the old m[n-1-i][j] |
| Rotation.Rotate | assets/js/orangenexa.com.js:215-229 | the array ends holding the rotated matrix |
| Rotation.RotatedCells | assets/js/orangenexa.com.js:215-229 | rotation is a quarter turn: each cell comes from the cell at the turned position (clockwise for dir > 0, counter-clockwise otherwise), so cells are only permuted |
| Rotation.RotateBack | assets/js/orangenexa.com.js:215-229 | rotating by dir and then by -dir restores the matrix, for any dir other than 0 |
| Rotation.RotateTwice | assets/js/orangenexa.com.js:215-229 | two turns in the same direction give the half turn |
| Rotation.RotateFour | assets/js/orangenexa.com.js:215-229 | four turns in the same direction restore the matrix |
| Rotation.RotatedShape | assets/js/orangenexa.com.js:215-229 | a rotated catalog piece keeps its size and id and still has a filled cell |
| Sweep.RemoveRow | assets/js/orangenexa.com.js:241-242 | row r leaves the arena, the rows above it move down one place, and an empty row appears on top |
| Sweep.SweepRows | assets/js/orangenexa.com.js:231-245 | the bottom-up scan, re-examining the same index after each removal, leaves the swept board and counts exactly the full rows |
| Sweep.KeptRows | assets/js/orangenexa.com.js:234-244 | the rows kept number those not full, and each of them is a row of the board that is not full |
| Sweep.KeptNoFull | assets/js/orangenexa.com.js:234-244 | a board without full rows is kept whole and clears nothing |
| Sweep.KeptAppend | assets/js/orangenexa.com.js:234-244 | the sweep acts row by row: kept rows and full counts of a split board combine in order |
| Sweep.SweptBoard | assets/js/orangenexa.com.js:231-245 | after a sweep the board has 20 rows of 12 cells and no full row; there are as many empty rows on top as rows cleared, then the rows that were not full in their old order; cells stay in 0..7 |
| Sweep.SweptIdempotent | assets/js/orangenexa.com.js:231-245 | sweeping a swept board changes nothing |
| Sweep.ScoringGrows | assets/js/orangenexa.com.js:247-258 | score and level never decrease; clearing k > 0 rows adds exactly k * 10 * level at the level before the sweep |
| Sweep.LevelTracksScore | assets/js/orangenexa.com.js:247-258 | when the level is floor(score / 100) + 1 before a sweep, it still is afterwards |
| Collision.Collides | assets/js/orangenexa.com.js:190-203 | what collide answers, as a predicate; stated by Collision.Collide, Collision.FreePlacement and Collision.EmptyBoardIsFree |
| Merging.Merged | assets/js/orangenexa.com.js:205-213 | merge as a value; stated by Merging.MergedBoard and Merging.MergedCollides |
| Rotation.Rotated | assets/js/orangenexa.com.js:215-229 | rotate as a value; stated by Rotation.RotatedCells, Rotation.RotateBack, Rotation.RotateTwice, Rotation.RotateFour and Rotation.RotatedShape |
| Sweep.Kept | assets/js/orangenexa.com.js:234-244 | the rows the sweep keeps, in order; stated by Sweep.KeptRows, Sweep.KeptNoFull and Sweep.KeptAppend |
| Sweep.FullCount | assets/js/orangenexa.com.js:234-244 | linesCleared; stated by Sweep.KeptRows and Sweep.SweepRows |
| Sweep.Swept | assets/js/orangenexa.com.js:231-245 | the swept board; stated by Sweep.SweptBoard, Sweep.SweptIdempotent and Sweep.SweepRows |
| Sweep.ScoreAfter | assets/js/orangenexa.com.js:247-249 | the score after a sweep; stated by Sweep.ScoringGrows and Sweep.LevelTracksScore |
| Sweep.LevelAfter | assets/js/orangenexa.com.js:253-257 | the level after a sweep; stated by Sweep.ScoringGrows and Sweep.LevelTracksScore |
| Engine.SweepStep | assets/js/orangenexa.com.js:231-259 | arenaSweep on the state; stated by Engine.SweepKeepsInv and Game.Game.ArenaSweep |
| Engine.Spawn | assets/js/orangenexa.com.js:283-294 | playerReset with the chosen index; stated by Engine.SpawnInv, Engine.SpawnX, Engine.SpawnPlacement and Engine.SpawnOnEmpty |
| Engine.Initial | assets/js/orangenexa.com.js:59-89 | the state once the script has loaded; stated by Engine.InitialInv |
| Engine.ResetGame | assets/js/orangenexa.com.js:325-333 | resetGame; stated by Engine.ResetInv |
| Engine.StartGame | assets/js/orangenexa.com.js:91-99 | the flag logic of startGame; stated by Engine.FlagsKeepInv |
| Engine.TogglePause | assets/js/orangenexa.com.js:335-343 | the flag logic of togglePause; stated by Engine.FlagsKeepInv |
| Engine.Move | assets/js/orangenexa.com.js:274-281 | playerMove; stated by Engine.MoveFacts and Engine.InactiveIgnored |
| Engine.Drop | assets/js/orangenexa.com.js:261-272 | playerDrop; stated by Engine.DropFacts, Engine.DropStatus, Engine.DropThrowsKeeps, Engine.DropIgnoresCounter, Engine.SoftDropsDescend and Engine.InactiveIgnored |
| Engine.Land | assets/js/orangenexa.com.js:265-271 | the landing half of playerDrop; stated by Engine.DropFacts and Engine.HardDropLands |
| Engine.HardDrop | assets/js/orangenexa.com.js:392-399 | the space-bar case; stated by Engine.HardDropLands, Engine.HardDropIsSoftDrops, Engine.PausedHardDrop and Engine.HardDropInv |
| Engine.Shift | assets/js/orangenexa.com.js:313-315 | the column offset after k kicks; stated by Engine.KickStep |
| Engine.Offset | assets/js/orangenexa.com.js:313-315 | the offset variable after k kicks; stated by Engine.KickStep |
| Engine.Probes | assets/js/orangenexa.com.js:317 | the number of columns the kick loop tests; stated by Engine.KickStep |
| Engine.RotateStep | assets/js/orangenexa.com.js:306-323 | playerRotate; stated by Engine.RotateFacts, Engine.RotateKicked, Engine.RotateRestored, Engine.RotationIsShared and Engine.InactiveIgnored |
| Engine.KeyDown | assets/js/orangenexa.com.js:362-401 | the keydown handler; stated by Engine.KeyDownInv, Engine.KeyDownStatus, Engine.GameOverFrozen and Engine.InactiveIgnored |
| Engine.Update | assets/js/orangenexa.com.js:345-358 | update; stated by Engine.UpdateInv |
| Engine.InactiveIgnored | assets/js/orangenexa.com.js:261-323 | a game that is not running ignores ←, →, ↓, q and w: moving, dropping and rotating change nothing |
| Engine.OverlapLocksSilently | assets/js/orangenexa.com.js:392-399 | a T turned twice that spawned over a settled cell hard-drops to y = -1 without a TypeError and overwrites that cell |
| Engine.SpawnX | assets/js/orangenexa.com.js:288 | the spawn column is floor(12 / 2 - w / 2): 2x <= 12 - w < 2x + 2 |
| Engine.SpawnPlacement | assets/js/orangenexa.com.js:287-288 | a catalog piece at its spawn column lies within the walls on rows 0 and below |
| Engine.SpawnInv | assets/js/orangenexa.com.js:283-294 | a spawn keeps the invariant; it takes entry `next` at row 0 and changes neither board, catalog, score nor level; the game is over exactly when the new piece collides |
| Engine.SpawnOnEmpty | assets/js/orangenexa.com.js:283-294 | a spawn on an empty arena never ends the game |
| Engine.InitialInv | assets/js/orangenexa.com.js:59-89 | the loaded script satisfies the invariant: empty arena, score 0, game not started |
| Engine.ResetInv | assets/js/orangenexa.com.js:325-333 | a reset empties the arena, sets score 0 and level 1, clears game over, keeps the started flag and the invariant |
| Engine.FlagsKeepInv | assets/js/orangenexa.com.js:91-99 | start and pause keep the invariant; starting gives a running game; pause toggles between running and paused and ignores a game not started |
| Engine.MergeKeepsInv | assets/js/orangenexa.com.js:205-213 | a merge that throws nothing keeps the invariant |
| Engine.MoveFacts | assets/js/orangenexa.com.js:274-281 | a move shifts x by dir or not at all and changes nothing else; a free piece stays free; the invariant is kept |
| Engine.SweepKeepsInv | assets/js/orangenexa.com.js:231-259 | a sweep keeps the invariant and never lowers score or level |
| Engine.DropFacts | assets/js/orangenexa.com.js:261-272 | a drop keeps the invariant and never lowers score or level. On landing: the board is the sweep of the merged board; the score is scored from that board; the game is over exactly when the next piece collides with the merged board before the sweep; the new piece is entry `next` at row 0; the counter is 0 |
| Engine.DropStatus | assets/js/orangenexa.com.js:261-272 | a drop keeps the game's status, except that a running game can end |
| Engine.DropThrowsKeeps | assets/js/orangenexa.com.js:205-213 | a drop whose merge throws changes nothing, not even the counter |
| Engine.DropIgnoresCounter | assets/js/orangenexa.com.js:261-272 | the old drop counter does not affect a drop that does not throw |
| Engine.SoftDropsDescend | assets/js/orangenexa.com.js:261-272 | n drops through free rows move the piece down n rows and change nothing else |
| Engine.HardDropLands | assets/js/orangenexa.com.js:392-399 | from a free position, the ghost row is at or below the player; the piece locks there; the board becomes the sweep of the board merged at the ghost row |
| Engine.HardDropIsSoftDrops | assets/js/orangenexa.com.js:392-399 | from a free position, a hard drop equals dropping row by row to the ghost row and then once more |
| Engine.PausedHardDrop | assets/js/orangenexa.com.js:392-399 | while paused, a hard drop moves the piece to its ghost row and merges nothing |
| Engine.GhostKeepsInv | assets/js/orangenexa.com.js:394-397 | moving the player to its ghost row keeps the invariant |
| Engine.HardDropInv | assets/js/orangenexa.com.js:392-399 | a hard drop keeps the invariant and never lowers score or level |
| Engine.KickStep | assets/js/orangenexa.com.js:313-317 | the offset update yields the offsets 1, -2, 3, -4, ..., which visit the columns x+1, x-1, x+2, ...; the loop gives up exactly after Probes(width) tested columns |
| Engine.FirstFree | assets/js/orangenexa.com.js:313-322 | the index found is the first kick column where the piece is free, or the column count when none is |
| Engine.RotateKicked | assets/js/orangenexa.com.js:306-323 | when a kick column is free, the player's entry becomes the rotated matrix, free at one of the tested columns, and the invariant holds |
| Engine.RotateRestored | assets/js/orangenexa.com.js:317-320 | when no kick column is free, rotating back and restoring x restores the whole state |
| Engine.RotateFacts | assets/js/orangenexa.com.js:306-323 | a rotation keeps y and the other catalog entries; it ends with the rotated piece free at a tested column, or with everything restored; the invariant is kept |
| Engine.RotationIsShared | assets/js/orangenexa.com.js:105-107 | after a successful rotation, the next spawn of the same type starts in the rotated orientation |
| Engine.KeyDownInv | assets/js/orangenexa.com.js:362-401 | every key keeps the invariant; no key except Enter lowers score or level |
| Engine.GameOverFrozen | assets/js/orangenexa.com.js:363-371 | once the game is over, every key except Enter leaves the state unchanged |
| Engine.KeyDownStatus | assets/js/orangenexa.com.js:362-401 | keys move the status only along not started -> running <-> paused and running -> over -> running; Enter on a game that is not running gives a running game on an empty arena at score 0 |
| Engine.UpdateInv | assets/js/orangenexa.com.js:345-358 | a tick keeps the invariant, changes nothing unless the game is running, and never lowers the score |
| Game.KickSearch | assets/js/orangenexa.com.js:309-322 | the kick loop finds a column exactly when one of the tested columns is free, and then returns the first one |
| Game.LandingRow | assets/js/orangenexa.com.js:394-397 | the hard-drop loop ends on the ghost row |
| Game.SpawnTest | assets/js/orangenexa.com.js:288-290 | the spawn column and whether the new piece collides there |
| Game.CatalogMatrices | assets/js/orangenexa.com.js:14-50 | seven distinct fresh square arrays holding the catalog entries |
| Game.Game.constructor | assets/js/orangenexa.com.js:59-89 | the loaded script is the initial engine state, and is valid |
| Game.Game.PlayerReset | assets/js/orangenexa.com.js:283-294 | the fields end in the state of a spawn of entry r, and the layout of the arrays holds |
| Game.Game.ArenaSweep | assets/js/orangenexa.com.js:231-259 | the fields end in the state of a sweep; the arena array is kept; Valid holds |
| Game.Game.PlayerDrop | assets/js/orangenexa.com.js:261-272 | the fields end in the state of a drop; `thrown` says exactly when merge threw; Valid holds |
| Game.Game.Lock | assets/js/orangenexa.com.js:266-271 | the fields end in the landing state; `thrown` says exactly when a filled cell lay above row 0 |
| Game.Game.Settle | assets/js/orangenexa.com.js:268-271 | the fields end in the state of spawn, then sweep, with the drop counter reset |
| Game.Game.PlayerMove | assets/js/orangenexa.com.js:274-281 | the fields end in the state of a move; Valid holds |
| Game.Game.RotateHeld | assets/js/orangenexa.com.js:311 | the player's catalog entry is rotated in place and every other entry is kept |
| Game.Game.PlayerRotate | assets/js/orangenexa.com.js:306-323 | the fields end in the rotated state, including the shared catalog; Valid holds |
| Game.Game.HardDrop | assets/js/orangenexa.com.js:392-399 | the fields end in the state of a hard drop; `thrown` says exactly when its drop threw; Valid holds |
| Game.Game.ResetGame | assets/js/orangenexa.com.js:325-333 | a fresh arena array; the fields end in the reset state; Valid holds |
| Game.Game.StartGame | assets/js/orangenexa.com.js:91-99 | the fields end in the started state; Valid holds |
| Game.Game.TogglePause | assets/js/orangenexa.com.js:335-343 | the fields end in the toggled state; Valid holds |
| Game.Game.KeyDown | assets/js/orangenexa.com.js:362-401 | the fields end in the state the key leads to; `thrown` says exactly when a TypeError from merge escaped; Valid holds |
| Game.Game.Update | assets/js/orangenexa.com.js:345-358 | the fields end in the state of one tick; `rearmed` says whether the next frame is requested |

## Left out

- Rendering is not modelled: `drawMatrix`, `draw`, `drawStartScreen`, the canvas scaling, the alpha of `drawGhostPiece` and the `COLORS` strings. Only the ghost row search is kept, as `Collision.GhostY`.
- DOM updates are not modelled: the score display, and the start and game-over screens. Only their flag assignments are kept: `showGameOver` clears `gameStarted`.
- The touch listeners and the registration of the event listeners are input plumbing over floating-point coordinates, and are not modelled.
- `Math.random` is replaced by the parameter `next`/`r` of type `Choice`, an index below 7.
- Frame timing is not modelled: `performance.now`, `requestAnimationFrame` and the `deltaTime` computation. `Update` takes the elapsed time as an integer.
- The calls `update()` made with time 0 from `startGame` and `togglePause` are host timing and are not modelled. Their effect on the drop counter is not captured.
- `dropInterval = 1000 * 0.9^(level - 1)` is floating point. `Update` takes the interval as a parameter, and neither `resetGame` nor `arenaSweep` models the interval.
- Pieces.PieceIndex: the key domain is plain strings. For a name every object inherits, such as "toString" or "__proto__", `PIECES[type]` is a truthy inherited value, and the script returns it instead of falling back to 'T'. Only the seven own keys ever reach createPiece (line 285), so the game never takes that path.
- Merging.Merge: requires the piece to lie within the side walls and above the floor. Writes to columns outside the arena, which the script would perform as stray array properties, are not modelled. The invariant guarantees this precondition at every merge.
- Game.Game.PlayerRotate: requires `dir != 0`. The handler passes only 1 and -1. A rotation by 0 followed by one by -0 is two counter-clockwise turns, not a restore.
- Game.Game.ResetGame: requires `!isPaused`. Enter resets only a game that is not started or is over. By the invariant, such a game is never paused.
- Engine.SpawnInv: requires `!isPaused`. A spawn happens only after a drop or a reset, and neither runs while paused.
- Engine.ResetInv: requires `!isPaused`, for the same reason.
- Game.Game.PlayerDrop: tests the row below with `y + 1` and moves only when it is free. The script increments y, tests, and decrements on a collision. Both leave y, and everything the script reads, in the same state.
- Game.Game.PlayerReset: tests the collision before it assigns the player's fields, where the script assigns first. The test reads only the values being assigned.
- Game.KickSearch: runs on a local column, and the result is assigned to x once a free column is found. The script moves `player.pos.x` itself and restores it when it gives up. Both end with the same x.
- Game.LandingRow: the hard-drop loop runs on a local row in the same way.
- The arena is a two-dimensional array. `arenaSweep` re-inserts the removed row object on top. The model copies cells instead: the rows above move down and row 0 is zeroed. No other code keeps a reference to a row, so the two are indistinguishable.
- Integers are unbounded. The score never comes near the range where JavaScript numbers lose precision.
