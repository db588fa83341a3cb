# Falling blocks and a playlist, modelled in Dafny

This project models the game logic of a portfolio web site. The site has
two falling-block engines and two copies of a music player's playlist.

- `tetris/tetrisGame.ts` is the current engine. Figures are copied from a
  table of seven templates. A `Board` of cells has one collision query
  (`isValid`), locks figures in and clears full rows. A `Tetris` controller
  spawns, drops, moves, rotates, hard-drops and resets.
- `tetris/Tetris.ts` is the legacy canvas engine. Its class `Tetris` is a
  piece with an n×n template, indexed `template[i][j]` with `i` the column
  offset and `j` the row offset. The piece checks and makes its moves, and
  it rotates its template in place, layer by layer, undoing the turn on a
  collision. The module's globals (map, score, pieces, flags) are updated
  by `deleteCompleteRows`, `update`, `resetVars` and the keyboard handler.
- `pages/music_visualizer/music_visualizer.ts` and its older copy
  `music_visualizer/music_visualizer.ts` hold a list of tracks, the index of
  the track that is loaded, and a play flag.

The Dafny modules follow those files:

- `Grid` (grid.dfy). Cells, rows and grids, and the line clear both engines
  perform: the complete rows are removed, and as many empty rows are put on
  top.
- `JsNumber` (js_number.dfy). JavaScript's `Math.trunc` and its `%`
  operator, whose result takes the sign of the dividend.
- `TetrisGame` (tetris_game.dfy). The current engine.
  - `Figure` is a datatype. A figure is never shared, so the controller
    replaces it.
  - `Board` and `Tetris` are classes whose methods update their fields.
  - `Game` is the controller's fields as one value. The functions on `Game`
    specify the methods, and the lemmas on `Game` state what the methods
    keep.
- `LegacyTetris` (legacy_tetris.dfy). The legacy piece as class `Piece`.
  The source calls it `Tetris`; the name is changed so it does not clash
  with the controller. Its template is an `array2<int>` that the rotations
  change in place. `Block` is the piece as a value.
- `LegacyGame` (legacy_game.dfy). The legacy globals as class `Session`,
  specified through the value `State`.
- `Playlist` (playlist.dfy) and `LegacyPlaylist` (legacy_playlist.dfy). The
  two players, as classes.

Inputs the model does not compute:

- Random numbers are parameters. A template or shape index in `[0, 7)`
  replaces `Math.random`.
- Board sizes are parameters: `width`/`height` for the current engine, and
  `squareCountX`/`squareCountY` for the legacy one.
- The timestamp an update sees is a parameter, in integer milliseconds.

Three things the current engine's code does:

- The current engine's update throws away the count that `clearLines`
  returns, so a line clear scores nothing.
- A soft drop earns no points.
- A reset spawns one figure: the previewed figure becomes the falling one
  and only the preview is new.

So `Game.score` changes only in a hard drop and in a reset.

The legacy engine keeps a piece's position as a JavaScript number.
`squareCountX / 2` can be a half-integer, so `x` and `y` are `real` in the
model. Every grid access goes through `Math.trunc`, as the source does.

## Model

| member | source | states |
|---|---|---|
| Grid.ClearedShape | tetris/tetrisGame.ts:104-117 | line clearing keeps `height` rows of `width` cells, and leaves no complete row |
| Grid.ClearedRows | tetris/Tetris.ts:289-309 | after the line clear, the map has as many rows as before; every row is `width` cells long and none is complete |
| Grid.NoCompleteRowsUnchanged | tetris/tetrisGame.ts:104-117 | without a complete row, the count is 0 and the grid is unchanged |
| Grid.ClearSingleRow | tetris/tetrisGame.ts:104-117 | with exactly one complete row k, one empty row goes on top of the rows above k and the rows below k, in order |
| Grid.ClearedIdempotent | tetris/tetrisGame.ts:104-117 | clearing a cleared grid changes nothing |
| Grid.KeptSize | tetris/tetrisGame.ts:104-117 | the kept rows and the complete rows together account for every row |
| Grid.KeptRows | tetris/tetrisGame.ts:104-117 | every kept row is incomplete and keeps its width |
| Grid.KeptConcat | tetris/tetrisGame.ts:104-117 | the kept rows and the complete-row count of two stacked grids are those of each part, in order |
| Grid.ClearedSnoc | tetris/Tetris.ts:296-307 | one more row at the bottom: if it is complete, it turns into an empty row on top; otherwise it stays at the bottom |
| JsNumber.Trunc | tetris/Tetris.ts:27-29 | `Math.trunc`: the integer next to x on the side of zero |
| JsNumber.TruncOfInt | tetris/Tetris.ts:27-29 | truncating an integer gives it back |
| JsNumber.TruncStep | tetris/Tetris.ts:27-29 | adding or subtracting one moves the truncation by one, except across (-1, 1) |
| JsNumber.Rem | pages/music_visualizer/music_visualizer.ts:217 | JavaScript `%`: less than the divisor in size, with the sign of the dividend |
| JsNumber.RemOfNonNegative | pages/music_visualizer/music_visualizer.ts:217 | for a non-negative dividend, it is Dafny's remainder |
| JsNumber.RemSmall | pages/music_visualizer/music_visualizer.ts:217 | a dividend below twice the divisor loses the divisor at most once; a dividend of exactly twice the divisor leaves 0 |
| JsNumber.RemOfNegative | pages/music_visualizer/music_visualizer.ts:217 | for a negative dividend, JavaScript's remainder is Dafny's minus the divisor, or 0 when Dafny's is 0 |
| TetrisGame.Rotated | tetris/tetrisGame.ts:51-61 | the turned shape has one row per column of the old shape, and one column per row |
| TetrisGame.RotatedMoves | tetris/tetrisGame.ts:58 | entry (y, x) moves to (x, h-1-y) |
| TetrisGame.RotatedTwice | tetris/tetrisGame.ts:51-61 | two turns keep the dimensions and reflect every entry through the centre |
| TetrisGame.RotatedFourTimes | tetris/tetrisGame.ts:51-61 | four turns give back the original shape |
| TetrisGame.RotatedHasBlock | tetris/tetrisGame.ts:51-61 | a turned shape keeps an occupied square |
| TetrisGame.FiguresWellFormed | tetris/tetrisGame.ts:25-33 | seven templates, each rectangular with an occupied square |
| TetrisGame.BarRotation | tetris/tetrisGame.ts:30 | the 4×1 bar turns into a 1×4 bar, and four turns restore it |
| TetrisGame.Figure.RotateRight | tetris/tetrisGame.ts:51-61 | the loops fill a new matrix with the quarter turn of the shape, and the figure is not changed |
| TetrisGame.NewFigure | tetris/tetrisGame.ts:40-46 | a figure holds its own copy of the template, at the origin, with the template's sprite tag |
| TetrisGame.SpawnX | tetris/tetrisGame.ts:204 | the spawn column is the floor of width/2 - figureWidth/2 |
| TetrisGame.SpawnFigure | tetris/tetrisGame.ts:200-207 | randomFigure: template t's shape and tag, centred on the top row |
| TetrisGame.Board.constructor | tetris/tetrisGame.ts:67-74 | a board of `height` empty rows of `width` cells |
| TetrisGame.Board.IsValid | tetris/tetrisGame.ts:76-92 | true exactly when every occupied square, moved by (ox, oy), lands inside the board on an empty cell |
| TetrisGame.FitsInBounds | tetris/tetrisGame.ts:84-88 | a placement that is valid has every square inside the board |
| TetrisGame.FitsEmptyGrid | tetris/tetrisGame.ts:76-92 | on an empty board, validity is just being inside the board |
| TetrisGame.Board.Lock | tetris/tetrisGame.ts:94-102 | the grid becomes the locked grid: every cell under an occupied square takes the figure's tag, and every other cell is unchanged |
| TetrisGame.LockedCells | tetris/tetrisGame.ts:94-102 | cell by cell: a covered cell takes the tag; the grid keeps its size |
| TetrisGame.LockedOccupies | tetris/tetrisGame.ts:94-102 | after a lock, the same placement is no longer valid |
| TetrisGame.Board.ClearLines | tetris/tetrisGame.ts:104-117 | returns the number of complete rows; the grid becomes that many empty rows over the incomplete rows in their order |
| TetrisGame.ScanStep | tetris/tetrisGame.ts:106-114 | one step of the bottom-up scan, splice and unshift keeps the scan invariant, and re-examines the same index after a removal |
| TetrisGame.ScanDone | tetris/tetrisGame.ts:104-117 | when the scan ends, the rows are the cleared grid and the count is the number of complete rows |
| TetrisGame.Board.Descend | tetris/tetrisGame.ts:299-302 | the hardDrop loop moves the figure down by exactly its drop distance |
| TetrisGame.DropLands | tetris/tetrisGame.ts:299 | one row below the drop distance, the figure does not fit |
| TetrisGame.DropPasses | tetris/tetrisGame.ts:299-300 | the figure fits at every row it passes on the way down |
| TetrisGame.DropDistanceUnique | tetris/tetrisGame.ts:299-302 | any distance the figure fits all the way to, and cannot fall past, is the drop distance |
| TetrisGame.InitialConsistent | tetris/tetrisGame.ts:145-152 | the constructor's state keeps the controller invariant, with score 0 and an empty board |
| TetrisGame.Tetris.constructor | tetris/tetrisGame.ts:145-152 | a new board, the first spawn drawn from two template indices, and the invariant |
| TetrisGame.SpawnConsistent | tetris/tetrisGame.ts:209-217 | spawn keeps the board and the score, makes the previewed figure the falling one, previews a new figure on the top row, and ends a running game exactly when the promoted figure does not fit; a game already over stays over |
| TetrisGame.Tetris.Spawn | tetris/tetrisGame.ts:209-217 | the state becomes the spawned state |
| TetrisGame.UpdateConsistent | tetris/tetrisGame.ts:219-231 | within the delay, nothing changes; after it, the timer is set to `time`; the score never changes and the invariant holds |
| TetrisGame.UpdateIsDropOrLanding | tetris/tetrisGame.ts:224-230 | after the delay, an update is a one-row drop when the figure fits there, and otherwise lock, clear and spawn |
| TetrisGame.LandedConsistent | tetris/tetrisGame.ts:227-229 | a landing keeps the board's size, the score and the invariant |
| TetrisGame.LandedClean | tetris/tetrisGame.ts:227-229 | after a landing no row of the board is complete |
| TetrisGame.Tetris.Update | tetris/tetrisGame.ts:219-231 | the state becomes the updated state and keeps the invariant |
| TetrisGame.Tetris.Fall | tetris/tetrisGame.ts:224-230 | one row down if that fits, else a landing |
| TetrisGame.Tetris.Land | tetris/tetrisGame.ts:227-229 | lock, clear, then spawn |
| TetrisGame.TickConsistent | tetris/tetrisGame.ts:267-276 | a frame keeps the invariant and the score, and a finished game is left alone |
| TetrisGame.Tetris.Tick | tetris/tetrisGame.ts:267-276 | one frame: an update unless the game is over |
| TetrisGame.MoveConsistent | tetris/tetrisGame.ts:278-282 | a move changes only the figure's column, by dx or not at all, and keeps the invariant |
| TetrisGame.MoveBack | tetris/tetrisGame.ts:278-282 | a move that happened is undone by the opposite move |
| TetrisGame.Tetris.Move | tetris/tetrisGame.ts:278-282 | the state becomes the moved state |
| TetrisGame.TurnConsistent | tetris/tetrisGame.ts:284-289 | a turn changes only the figure's shape, to its quarter turn or not at all |
| TetrisGame.TurnFourTimes | tetris/tetrisGame.ts:284-289 | four turns that each fit restore the state |
| TetrisGame.Tetris.Rotate | tetris/tetrisGame.ts:284-289 | the state becomes the turned state |
| TetrisGame.SoftDropConsistent | tetris/tetrisGame.ts:291-295 | a soft drop changes only the figure's row, by one or not at all |
| TetrisGame.Tetris.SoftDrop | tetris/tetrisGame.ts:291-295 | the state becomes the soft-dropped state |
| TetrisGame.HardDropConsistent | tetris/tetrisGame.ts:297-303 | a hard drop keeps the board, the column and the shape; it moves the figure down k rows it all fits through, and adds exactly 10·k to the score |
| TetrisGame.HardDropLands | tetris/tetrisGame.ts:297-303 | afterwards the figure cannot fall: a soft drop or a second hard drop changes nothing |
| TetrisGame.Tetris.HardDrop | tetris/tetrisGame.ts:297-303 | the state becomes the hard-dropped state |
| TetrisGame.RestartConsistent | tetris/tetrisGame.ts:305-311 | reset gives an empty board of the same size, score 0, the previewed figure falling, and the invariant |
| TetrisGame.Tetris.Reset | tetris/tetrisGame.ts:305-311 | a fresh board, and the state becomes the restarted state |
| LegacyTetris.TurnedRight | tetris/Tetris.ts:117-129 | the layer-by-layer four-way swap maps a square template to a square template of the same size |
| LegacyTetris.TurnedLeft | tetris/Tetris.ts:158-170 | the same for the opposite swap |
| LegacyTetris.TurnsCancel | tetris/Tetris.ts:117-129 | the two swaps undo each other, in either order |
| LegacyTetris.FourRightTurns | tetris/Tetris.ts:117-129 | four right turns restore the template |
| LegacyTetris.SwapRight | tetris/Tetris.ts:122-127 | one step of the swap moves the four cells of one orbit one place round, and nothing else changes |
| LegacyTetris.SwapLeft | tetris/Tetris.ts:163-168 | the same step in the opposite direction |
| LegacyTetris.TurnRingRight | tetris/Tetris.ts:121-128 | one layer's loop turns that layer, and the layers outside it stay turned |
| LegacyTetris.TurnRingLeft | tetris/Tetris.ts:162-169 | the same for the left turn |
| LegacyTetris.TurnRightInPlace | tetris/Tetris.ts:117-129 | after the loops, the array holds the right turn of what it held |
| LegacyTetris.TurnLeftInPlace | tetris/Tetris.ts:158-170 | after the loops, the array holds the left turn of what it held |
| LegacyTetris.CopyOf | tetris/Tetris.ts:111-114 | the saved copy is a new array with the same contents |
| LegacyTetris.Piece.constructor | tetris/Tetris.ts:2-8 | a piece owns its template, with x = squareCountX / 2 and y = 0 |
| LegacyTetris.Piece.CheckBottom | tetris/Tetris.ts:10-25 | true exactly when the cell under every occupied square is on the map and empty |
| LegacyTetris.Piece.CheckLeft | tetris/Tetris.ts:30-44 | true exactly when the cell left of every occupied square is on the map and empty |
| LegacyTetris.Piece.CheckRight | tetris/Tetris.ts:46-60 | true exactly when the cell right of every occupied square is on the map and empty |
| LegacyTetris.Piece.Collides | tetris/Tetris.ts:132-144 | true exactly when some occupied square is off the map or on a taken cell |
| LegacyTetris.Piece.MoveRight | tetris/Tetris.ts:62-66 | x grows by one when checkRight passes, and nothing else changes |
| LegacyTetris.Piece.MoveLeft | tetris/Tetris.ts:68-72 | x drops by one when checkLeft passes, and nothing else changes |
| LegacyTetris.Piece.MoveBottom | tetris/Tetris.ts:74-79 | y grows by one, for 1 point, when checkBottom passes; otherwise nothing changes and no points |
| LegacyTetris.Piece.MoveLeftAndDown | tetris/Tetris.ts:81-87 | both coordinates move and 1 point is earned only when checkLeft and checkBottom both pass |
| LegacyTetris.Piece.MoveRightAndDown | tetris/Tetris.ts:89-95 | the same with checkRight |
| LegacyTetris.Piece.HardDropStep | tetris/Tetris.ts:99-106 | one interval step: one row down for 20 points when checkBottom passes, nothing otherwise |
| LegacyTetris.Piece.ChangeRotationRight | tetris/Tetris.ts:109-148 | returns whether the turned template fits; the piece holds the turned template then, and its old contents otherwise |
| LegacyTetris.Piece.ChangeRotationLeft | tetris/Tetris.ts:150-189 | the same for the left turn |
| LegacyTetris.FitsInside | tetris/Tetris.ts:138 | a template that fits lies on the map |
| LegacyTetris.ShiftKeepsInside | tetris/Tetris.ts:62-72 | a sideways move keeps the piece on the map |
| LegacyTetris.FallKeepsInside | tetris/Tetris.ts:74-79 | a fall keeps the piece on the map |
| LegacyTetris.SlideKeepsInside | tetris/Tetris.ts:81-95 | a diagonal move keeps the piece on the map, even though it can land on a taken cell |
| LegacyTetris.RotationKeepsInside | tetris/Tetris.ts:132-144 | a turn keeps the piece on the map |
| LegacyTetris.FallFits | tetris/Tetris.ts:10-25 | a piece that passes checkBottom moves one row down and fits there |
| LegacyTetris.ShiftFits | tetris/Tetris.ts:30-72 | a piece that passes checkLeft or checkRight moves one column and fits there, unless x lies in (-1, 1) where the truncated column may not move |
| LegacyTetris.RotationUndone | tetris/Tetris.ts:109-189 | on a piece that fits, a committed right turn is undone by a left turn, and the other way round |
| LegacyTetris.FourRotations | tetris/Tetris.ts:109-148 | when every turn fits, four right turns give back the piece |
| LegacyTetris.SlideCanOverlap | tetris/Tetris.ts:81-87 | on a concrete map, a square piece passes both checks and moves diagonally onto a taken cell |
| LegacyTetris.DiagonalTrap | tetris/Tetris.ts:81-87 | the concrete map of that example is 7 wide and 4 high |
| LegacyTetris.CheckedSlideFits | tetris/Tetris.ts:81-95 | a diagonal move that also checks the target cell keeps the piece fitting, and agrees with the source wherever the source's move fits |
| LegacyGame.ShapesWellFormed | tetris/Tetris.ts:218-255 | every template in the shapes table is square, 2 to 4 wide, with its squares in its first three rows |
| LegacyGame.SpawnInside | tetris/Tetris.ts:480-482 | a new piece lies on every map at least 7 wide and 3 high |
| LegacyGame.RandomShape | tetris/Tetris.ts:480-482 | getRandomShape with the index given: a new piece that owns a copy of shape k's template, at the spawn position |
| LegacyGame.EmptyLine | tetris/Tetris.ts:302-305 | the loop builds a row of squareCountX empty cells |
| LegacyGame.EmptyMap | tetris/Tetris.ts:484-491 | the loops build squareCountY empty rows |
| LegacyGame.IsCompleteRow | tetris/Tetris.ts:292-295 | the flag says exactly whether no cell of the row is empty |
| LegacyGame.StampedCells | tetris/Tetris.ts:316-323 | locking keeps the map's size, marks every square of the piece with its tag, and leaves every other cell alone |
| LegacyGame.Session.LockCurrent | tetris/Tetris.ts:316-323 | the nested loops leave the map equal to the stamped map |
| LegacyGame.Session.ShiftDown | tetris/Tetris.ts:299-306 | rows above i move down one, and an empty row goes in at index 0 |
| LegacyGame.ScanStep | tetris/Tetris.ts:290-308 | one step of the top-down scan: a complete row becomes an empty row on top; another row stays where it is |
| LegacyGame.Session.DeleteCompleteRows | tetris/Tetris.ts:289-309 | the map becomes its line clear, and the score grows by 1000 per complete row |
| LegacyGame.Session.LockAndClear | tetris/Tetris.ts:316-325 | lock and then delete the complete rows of the stamped map |
| LegacyGame.Session.Promote | tetris/Tetris.ts:326-331 | the next piece becomes the current one, a fresh piece is previewed, gameOver is set exactly when the promoted piece cannot fall, and 100 points |
| LegacyGame.Session.Land | tetris/Tetris.ts:316-331 | the state becomes the landed state |
| LegacyGame.UpdateConsistent | tetris/Tetris.ts:311-333 | update keeps the invariant and the start flag |
| LegacyGame.LandingClears | tetris/Tetris.ts:316-331 | a landing leaves no complete row, scores 100 plus 1000 per cleared row, promotes the next piece, and ends the game exactly when that piece cannot fall |
| LegacyGame.GameOverFreezes | tetris/Tetris.ts:312 | once the game is over, update changes nothing, and so does every key but Enter |
| LegacyGame.ScoreNeverDrops | tetris/Tetris.ts:311-333 | update never lowers the score, and raises it exactly when it lands a piece; no key but Enter lowers it |
| LegacyGame.Session.Update | tetris/Tetris.ts:311-333 | the state becomes the updated state and keeps the invariant |
| LegacyGame.ResetConsistent | tetris/Tetris.ts:483-497 | the start state and any reset keep the invariant: an empty map, score 0 and the game not over, with the start flag untouched |
| LegacyGame.Session.ResetVars | tetris/Tetris.ts:483-497 | the state becomes the reset state |
| LegacyGame.Session.constructor | tetris/Tetris.ts:256-262 | the script's start: the start screen up, then resetVars |
| LegacyGame.EnterRestarts | tetris/Tetris.ts:502-515 | Enter resets exactly when the start screen is up or the game is over, and leaves the start screen; otherwise it changes nothing |
| LegacyGame.SteeredConsistent | tetris/Tetris.ts:517-525 | every steering key keeps the invariant and the map and never lowers the score |
| LegacyGame.Session.Steer | tetris/Tetris.ts:517-525 | the state becomes the steered state |
| LegacyGame.PressedConsistent | tetris/Tetris.ts:499-526 | a key press keeps the invariant |
| LegacyGame.Session.KeyDown | tetris/Tetris.ts:499-526 | the state becomes the pressed state |
| Playlist.StepInRange | pages/music_visualizer/music_visualizer.ts:217 | a step of one either way from a valid index gives a valid index |
| Playlist.StepMoves | pages/music_visualizer/music_visualizer.ts:217 | forward is the next index, and 0 after the last; backward is the previous index, and the last one before 0 |
| Playlist.StepUndone | pages/music_visualizer/music_visualizer.ts:217 | forward then backward, or backward then forward, gives back the index |
| Playlist.Player.constructor | pages/music_visualizer/music_visualizer.ts:40-62 | three tracks, index 0, not playing, and track 0 loaded |
| Playlist.Player.LoadTrack | pages/music_visualizer/music_visualizer.ts:224-231 | the song at the index is loaded, and the list, the index and the play flag stay as they were |
| Playlist.Player.ChangeTrack | pages/music_visualizer/music_visualizer.ts:215-222 | one step round the list, the list unchanged, the new track loaded and playing |
| Playlist.Player.AddAndPlaySong | pages/music_visualizer/music_visualizer.ts:205-213 | the song is appended after the earlier ones, selected as the last index, loaded and playing |
| LegacyPlaylist.Player.constructor | music_visualizer/music_visualizer.ts:41-63 | three tracks, index 0, not playing, and track 0 loaded |
| LegacyPlaylist.Player.LoadTrack | music_visualizer/music_visualizer.ts:185-192 | the song at the index is loaded, and the index and the play flag stay as they were |
| LegacyPlaylist.Player.ChangeTrack | music_visualizer/music_visualizer.ts:176-183 | the same step of the index as the newer player, within range, with the list fixed and the track playing |

## Left out

- Rendering is left out: the Three.js scene and meshes, the canvas drawing
  functions, the score and preview canvases, and the start and game-over
  screens. It only shows the state.
- The animation loops are left out: `requestAnimationFrame`, the legacy
  `gameLoop` with its `1000 / gameSpeed` threshold, and the redraw timing.
  The current engine's frame is `Tetris.Tick` with the time as a parameter.
  The legacy `update` is modelled as one call.
- LegacyTetris.Piece.HardDropStep: models one run of the 5 ms interval
  callback. It does not model the timer, the `clearInterval`, or how the
  callbacks interleave with `update`.
- LegacyGame.RandomShape: `Object.create` gives each piece the prototype's
  template array, so an in-place rotation changes the shared entry in
  `shapes` and every later piece of that shape. The model gives each piece
  its own copy of the template and does not capture this sharing.
- `Math.random` is left out. The template index is a caller's parameter.
- The legacy script's second `keydown` handler is left out
  (tetris/Tetris.ts:532-548). So is the `keyup` handler that tracks held
  arrow keys (550-559). They never run in a handler of their own in the
  model. The diagonal moves they call are modelled as
  `Piece.MoveLeftAndDown` and `Piece.MoveRightAndDown`.
- LegacyGame.Session.constructor: requires `squareCountX >= 7` and
  `squareCountY >= 3`. The source takes these from the canvas size. A new
  piece sits at column `squareCountX / 2` and is up to four squares wide,
  so a narrower map would put it off the map.
- The legacy `update` and key handlers keep the invariant
  `LegacyGame.Consistent`: the map keeps its size, the score stays
  non-negative and both pieces stay on the map.
  `LegacyGame.UpdateConsistent` and `LegacyGame.PressedConsistent` prove
  this. The source does not check it.
- LegacyGame.Pressed: the key branches run whenever the game is not over,
  also while the start screen is up, as in the source. They are not
  restricted to a started game.
- Playlist.Player.ChangeTrack: requires `dir` to be 1 or -1 and the list to
  be non-empty. These are what the buttons and the end-of-track event pass.
  Other directions are not modelled.
- LegacyPlaylist.Player.ChangeTrack: the same requirement on `dir`.
- The players' audio element, the title, artist and cover elements are not
  modelled field by field. They are one field, `loaded`, for the song
  `loadTrack` last showed.
- Left out of the players: `play()`, `togglePlay`, volume, the progress
  bar, the analyser and the sphere animation, and drag-and-drop.
  `addAndPlaySong` is modelled from the point where it receives the song.
- TetrisGame.Board.constructor: requires a width and a height of at
  least 1, and so does TetrisGame.Tetris.constructor. The game state's
  invariant `Shaped`, and so `Consistent`, needs both.
  - A height-0 board is not modelled. The source builds an empty grid for
    it (tetris/tetrisGame.ts:71-72). Its game would be over at the first
    spawn, since `isValid` rejects every square at `py >= height`.
  - With width 0, `clearLines` (tetris/tetrisGame.ts:104-117) never ends.
    `every` is true on an empty row, so every row counts as complete, and
    `y++` after the splice sends the scan back to the same row forever.
    That livelock is not modelled.
- TetrisGame.Tetris.Update: the source's frame timestamp can be
  fractional. The model takes whole milliseconds. The comparison
  `time - lastUpdate < fallDelay` reads the same on either.
- `Board.width`/`height` and `squareCountX`/`squareCountY` are integers in
  the model. A canvas whose size is not a multiple of the square size
  would make them fractional in the source.
- Figure widths and heights are not modelled as getters. They are the
  lengths of a figure's shape sequence.
- The legacy shift: for x in (-1, 1), `Math.trunc` can leave the column
  unchanged after `x -= 1`. LegacyTetris.ShiftFits therefore promises the
  one-column move only outside that interval.

## Findings

| source | as written | input that shows it | evidently intended | confidence | as-written member | corrected member |
|---|---|---|---|---|---|---|
| tetris/Tetris.ts:81-95 | `moveLeftAndDown`/`moveRightAndDown` check the cell beside each square and the cell below it, but never the diagonal cell they move onto | a 2×2 piece at x = 3, y = 0 on a 7×4 map whose only taken cell is row 2, column 2: both checks pass, and the piece moves onto that cell | a diagonal move only when the target position is free as well | not executed | LegacyTetris.SlideCanOverlap | LegacyTetris.CheckedSlideFits |
