# Brick game engines in Dafny

A model of the two game engines of the brick game: Snake and Tetris. Both are
sequential state machines over a 20 x 10 grid of small integer color codes,
driven by the eight user actions (Start, Pause, Terminate, Left, Right, Up,
Down, Action) and read back through a snapshot (`GameInfo`) that a front end
renders.

- `common.dfy` (`Common`): field sizes, the level markers (start 0, win -1,
  loss -2, level 1), the user actions, grids, and the snapshot record.
- `snake.dfy` (`Snake`): the snake engine as an immutable record and pure
  transitions: direction commit, collision classification, apple placement,
  eating, one movement step, the action handler, construction and the render
  buffer.
- `snake_properties.dfy` (`SnakeProperties`): the invariant every transition
  keeps, the 200-cell length bound, and the scenarios of the engine's unit
  tests.
- `tetris_backend.dfy` (`TetrisBackend`): board, pieces and the seven shape
  tables; border and board collision; stamping a piece; the full-row search,
  the row shift and the line-clearing loop; scoring and levels.
- `tetris_fsm.dfy` (`TetrisFsm`): rotation with wall nudging, the three moves,
  the per-state handlers and the dispatcher.
- `tetris_properties.dfy` (`TetrisProperties`): the invariant every transition
  keeps, what can end or lose a game, score monotonicity, moves undoing each
  other, line clearing as seen from the attaching state, and two behaviours of
  rotation next to the left wall.
- `tetris_controller.dfy` (`TetrisController`): the action-to-signal mapping,
  the timed fall, and the snapshot with the falling piece drawn in.

Random draws are a `roll: nat` parameter and the index taken is `roll mod n`
(the Tetris backend itself computes `rand() % 7`). The high score read back
from storage is a parameter. The Snake 50 ms cooldown is a boolean parameter
and the Tetris elapsed time is an integer parameter.

Decisions where the code leaves room:

- The Tetris board collision test does not range-check columns. The board is
  one contiguous array of 200 ints, so a column outside 0..9 reads element
  `row * 10 + col` of that array, a cell of a neighbouring row. The model
  reads it that way (`FlatOccupied`). An element outside the array (row 0,
  column -1; or past the last cell) is counted as occupied. A cell below row
  19 counts as a collision whatever the read yields.
- Line clearing copies every row above a full row down by one and leaves row 0
  as it was, so row 0 is duplicated, not blanked. Clearing stops as soon as the
  topmost full row is row 0. The model follows the code.
- The Tetris snapshot writes the falling piece's cells without bounds checks,
  and attaching does the same. Both therefore require the piece to lie on the
  board (`Inside`). `TetrisFsm.Valid` holds for the initial game, and
  `TetrisProperties.SigactPreservesValid` shows every transition keeps it.

## Model

| member | source | states |
|---|---|---|
| Snake.UpdateDirectionIdempotent | src/brick_game/snake/snake_model.cc:117-124 | committing twice is committing once: after a commit the pending direction is the committed one, so a second commit changes nothing |
| Snake.UpdateDirection | src/brick_game/snake/snake_model.cc:108-125 | the pending direction is committed exactly when it is not the reverse of the current one; the result never reverses; afterwards pending equals committed; nothing else changes |
| Snake.CheckCollision | src/brick_game/snake/snake_model.cc:170-191 | the next head is a wall hit iff outside 20 x 10; a body hit iff inside and on any body cell, tail included; an apple hit iff inside, off the body and on the apple; otherwise no hit |
| Snake.EmptyCellsFrom | src/brick_game/snake/snake_model.cc:256-262 | collects exactly the zero cells of the render buffer from a row-major position on, in strictly increasing row-major order |
| Snake.EmptyCells | src/brick_game/snake/snake_model.cc:253-264 | the collected cells are exactly the zero cells of the buffer, each once, and the list is empty iff the buffer has no zero cell |
| Snake.GenerateApple | src/brick_game/snake/snake_model.cc:252-273 | with a zero cell in the buffer only the apple changes and it lands on a zero cell; with none the game ends with the win marker |
| Snake.GenerateAppleReachesEveryEmptyCell | src/brick_game/snake/snake_model.cc:268-271 | every zero cell of the buffer is the apple for some random draw |
| Snake.EatApple | src/brick_game/snake/snake_model.cc:234-250 | the apple becomes the new head, score +1, high score is the maximum, direction and speed kept; 200 cells or no free buffer cell wins; otherwise a new apple on a free buffer cell and the level goes up exactly when the new score is a multiple of 5 below level 10 |
| Snake.MoveOneStepForward | src/brick_game/snake/snake_model.cc:193-232 | no change unless running; a wall or body hit ends the game with the loss marker and the body unchanged; an apple is eaten; otherwise the new head is pushed and the tail dropped, so the length is unchanged |
| Snake.Fsm | src/brick_game/snake/snake_model.cc:127-169 | Start acts only before the game (running, level 1); Pause toggles running and paused; Terminate ends the game from anywhere; the four directions only set the pending direction; Action steps only when running and the cooldown has passed |
| Snake.Initial | src/brick_game/snake/snake_model.cc:9-33 | four vertical cells from row 8 down in column 5, facing up, score 0, level 0, speed 1, the stored high score, an apple inside the field |
| Snake.RenderField | src/brick_game/snake/snake_model.cc:92-102 | a buffer cell is 2 iff it holds the apple, 1 iff it holds a body cell and not the apple, 0 otherwise |
| Snake.PaintField | src/brick_game/snake/snake_model.cc:92-102 | the clear-paint-paint loops produce exactly the buffer described by the render rule |
| Snake.Snapshot | src/brick_game/snake/snake_model.cc:92-105 | the snapshot carries that buffer, no next-piece grid, the counters unchanged, and pause iff the game is paused |
| SnakeProperties.InitialSatisfiesInv | src/brick_game/snake/snake_model.cc:18-32 | the constructed engine has at least four pairwise different cells inside the field and an apple inside the field |
| SnakeProperties.StepPreservesInv | src/brick_game/snake/snake_model.cc:193-232 | a movement step keeps the body inside the field and free of repeated cells |
| SnakeProperties.FsmPreservesInv | src/brick_game/snake/snake_model.cc:127-169 | every action keeps that invariant |
| SnakeProperties.FsmKeepsHighScore | src/brick_game/snake/snake_model.cc:236-240 | no action lowers the high score |
| SnakeProperties.StepNeverReverses | src/brick_game/snake/snake_model.cc:117-124 | after a step the direction is never the reverse of the one before |
| SnakeProperties.BodyLengthBounded | src/brick_game/snake/snake_model.h:97 | under the invariant the body has between 4 and 200 cells |
| SnakeProperties.SnapshotScenario | src/brick_game/tests/test_snake_model.cc:41-59 | three body cells on row 0 paint 1, the apple at (1, 1) paints 2, and the counters are copied |
| SnakeProperties.UpdateDirectionScenario | src/brick_game/tests/test_snake_model.cc:61-83 | a queued reversal is ignored and a queued turn is taken, in the five cases of the unit test |
| SnakeProperties.CheckCollisionScenario | src/brick_game/tests/test_snake_model.cc:85-96 | the four classifications of the unit test |
| SnakeProperties.StartPauseResumeScenario | src/brick_game/tests/test_snake_model.cc:98-105 | Start makes a fresh engine run at level 1, Pause pauses it, a second Pause resumes it unchanged |
| SnakeProperties.EatScenario | src/brick_game/tests/test_snake_model.cc:107-113 | with the apple right above the initial head, one tick grows the snake onto it and the game goes on |
| SnakeProperties.StepScenario | src/brick_game/snake/snake_model.cc:201-230 | with the apple off row 7, one tick of the running initial snake moves the head from row 8 to row 7 and keeps four cells |
| SnakeProperties.WinScenario | src/brick_game/tests/test_snake_model.cc:139-156 | a 199-cell snake eating its 200th cell ends the game with the win marker |
| TetrisBackend.LeftBorderCollide | src/brick_game/tetris/tetris_backend.c:21-31 | holds iff some occupied cell of the current rotation lies left of column 0 |
| TetrisBackend.RightBorderCollide | src/brick_game/tetris/tetris_backend.c:33-43 | holds iff some occupied cell of the current rotation lies right of column 9 |
| TetrisBackend.BoardCollide | src/brick_game/tetris/tetris_backend.c:45-59 | holds iff some occupied cell lies below row 19 or reads a nonzero board element; for a piece within the columns and not above the board that read is the ordinary cell |
| TetrisBackend.Attach | src/brick_game/tetris/tetris_backend.c:61-69 | the piece's color is written at every covered cell and every other board cell is unchanged |
| TetrisBackend.AttachTetramino | src/brick_game/tetris/tetris_backend.c:61-69 | the nested loops over the 16 mask cells produce exactly that board |
| TetrisBackend.FilledCountAll | src/brick_game/tetris/tetris_backend.c:74-78 | a row's filled count never exceeds its length and equals it iff no cell is zero |
| TetrisBackend.FullRowHasNoEmptyCell | src/brick_game/tetris/tetris_backend.c:74-81 | a row of the board is full iff all ten cells are nonzero |
| TetrisBackend.FirstFullRowFrom | src/brick_game/tetris/tetris_backend.c:73-82 | from row k on, returns the first full row, or -1 iff there is none |
| TetrisBackend.FindFullRows | src/brick_game/tetris/tetris_backend.c:71-84 | returns the index of the topmost full row, or -1 iff no row is full (an index, not a count) |
| TetrisBackend.ShiftBoard | src/brick_game/tetris/tetris_backend.c:86-90 | rows 1..n take the old row above; row 0 and the rows below n are unchanged |
| TetrisBackend.ShiftDeletesRow | src/brick_game/tetris/tetris_backend.c:86-90 | shifting at n removes row n and puts a second copy of row 0 on top |
| TetrisBackend.ShiftLowersFullCount | src/brick_game/tetris/fsm.c:110-113 | each round of the clearing loop leaves exactly one full row fewer |
| TetrisBackend.ClearRows | src/brick_game/tetris/fsm.c:108-113 | the loop ends with no full row, or with row 0 topmost full; row 0 is kept; rows removed plus full rows left equals full rows before |
| TetrisBackend.ClearRowsCompacts | src/brick_game/tetris/fsm.c:108-113 | with row 0 not full, every full row is removed, the others keep their order, and copies of row 0 fill the top |
| TetrisBackend.ClearRowsStopsAtFullTopRow | src/brick_game/tetris/fsm.c:110 | a full row 0 stops the loop at once with nothing removed |
| TetrisBackend.UpdateScore | src/brick_game/tetris/tetris_backend.c:92-118 | 1 to 4 rows score 100, 300, 700, 1500 and any other count nothing; the high score is the maximum; for a non-negative score the level is the 600-point band plus one, capped at 10 |
| TetrisBackend.FiguresShape | src/brick_game/tetris/tetris_backend.c:120-249 | each of the seven shapes has 1, 2 or 4 rotations of exactly four cells, a visible color, and empty masks past the last rotation |
| TetrisBackend.GenNextTetramino | src/brick_game/tetris/tetris_backend.c:250-263 | a new piece is a table shape in rotation 0 at row 0, column 4, entirely on the board |
| TetrisBackend.GenNextReachesEveryFigure | src/brick_game/tetris/tetris_backend.c:258 | every shape of the table is drawn for some random value |
| TetrisFsm.ZeroBoard | src/brick_game/tetris/tetris_backend.c:11-16 | every board cell is empty |
| TetrisFsm.Initial | src/console_tetris.cc:9-15 | a new game is well formed, waiting to start, has an all-empty board, holds the next piece drawn from the shape table with the given random value, holds a current piece that covers nothing, and has score 0, level 0 and the stored high score |
| TetrisFsm.NextRotation | src/brick_game/tetris/fsm.c:7-9 | the next rotation index, wrapping to 0 after the last |
| TetrisFsm.NudgeRight | src/brick_game/tetris/fsm.c:14-15 | the piece moves right to the first column with no left-border collision, changing nothing else |
| TetrisFsm.NudgeLeft | src/brick_game/tetris/fsm.c:16-17 | the piece moves left to the first column with no right-border collision, changing nothing else and not creating a left-border collision |
| TetrisFsm.Rotate | src/brick_game/tetris/fsm.c:5-19 | a turned piece that collides leaves the piece as it was and attaches; otherwise the piece takes the next rotation, clears both side borders, and keeps its column when the turn already did |
| TetrisFsm.MoveDown | src/brick_game/tetris/fsm.c:21-30 | one row down and Moving exactly when the lowered piece fits; otherwise unchanged and Attaching |
| TetrisFsm.MoveRight | src/brick_game/tetris/fsm.c:32-38 | one column right exactly when the shifted piece clears the right border and the board; the state never changes |
| TetrisFsm.MoveLeft | src/brick_game/tetris/fsm.c:40-46 | one column left exactly when the shifted piece clears the left border and the board; the state never changes |
| TetrisFsm.OnStart | src/brick_game/tetris/fsm.c:48-61 | start spawns at level 1, escape exits, anything else waits; the board is untouched |
| TetrisFsm.OnSpawn | src/brick_game/tetris/fsm.c:63-72 | the next piece becomes current and a new one is drawn; game over iff the new current piece collides, Moving otherwise |
| TetrisFsm.OnPause | src/brick_game/tetris/fsm.c:74-79 | only the pause button resumes, to Moving |
| TetrisFsm.OnMoving | src/brick_game/tetris/fsm.c:81-104 | each movement signal does its move, pause pauses, escape exits, start and no-signal do nothing |
| TetrisFsm.OnAttach | src/brick_game/tetris/fsm.c:106-117 | the piece is stamped, full rows are cleared, their number is scored, and the next state is Spawn |
| TetrisFsm.OnGameOver | src/brick_game/tetris/fsm.c:125-135 | the level becomes the loss marker; start clears the board, keeps the current piece, draws a next one, resets the stats with the stored high score and spawns at level 1; escape exits |
| TetrisFsm.Sigact | src/brick_game/tetris/fsm.c:138-165 | each state is handled by its own handler and the exit state never changes |
| TetrisProperties.LoweredStaysInside | src/brick_game/tetris/fsm.c:21-30 | a piece lowered without collision stays on the board |
| TetrisProperties.ShiftedStaysInside | src/brick_game/tetris/fsm.c:32-46 | a piece shifted sideways that clears both borders stays on the board |
| TetrisProperties.RotateStaysInside | src/brick_game/tetris/fsm.c:5-19 | after a rotation attempt the piece is on the board, in the same row |
| TetrisProperties.SigactPreservesValid | src/brick_game/tetris/fsm.c:138-165 | every transition keeps the board rectangular, both pieces on the board and not above it, the score non-negative and the level between the loss marker and 10 |
| TetrisProperties.SigactScoreMonotone | src/brick_game/tetris/fsm.c:106-135 | score and high score never drop except on a restart from game over |
| TetrisProperties.ExitOnlyByEscape | src/brick_game/tetris/fsm.c:138-165 | the program exits exactly on escape from the start screen, a falling piece, or game over |
| TetrisProperties.GameOverOnlyFromSpawn | src/brick_game/tetris/fsm.c:63-72 | a game is lost exactly when a freshly spawned piece collides |
| TetrisProperties.MoveLeftUndoesMoveRight | src/brick_game/tetris/fsm.c:32-46 | a successful move right followed by a move left restores the game, for a piece on the board overlapping nothing |
| TetrisProperties.MoveRightUndoesMoveLeft | src/brick_game/tetris/fsm.c:32-46 | a successful move left followed by a move right restores the game, for a piece on the board overlapping nothing |
| TetrisProperties.AttachClearsAllFullRows | src/brick_game/tetris/fsm.c:106-117 | with row 0 not full after stamping, all full rows go, the others keep their order under copies of row 0, and their number is scored |
| TetrisProperties.AttachWithFullTopRow | src/brick_game/tetris/fsm.c:110 | with row 0 full after stamping, nothing is cleared and nothing scored |
| TetrisProperties.TurnedICells | src/brick_game/tetris/tetris_backend.c:126-136 | the upright I piece against the left wall, turned, lies across row 1 from column -1 to 2 |
| TetrisProperties.RotateNudgesOntoOccupiedCell | src/brick_game/tetris/fsm.c:10-18 | the nudge after a turn does not consult the board: the turned I piece is pushed onto an occupied cell |
| TetrisProperties.RotateReadsNeighbouringRow | src/brick_game/tetris/tetris_backend.c:53-54 | a turn that sticks out at column -1 reads the last cell of the row above, so it can fail although no board cell lies under the piece |
| TetrisController.ActionToSignal | src/brick_game/tetris/tetris_controller.cc:94-124 | every action maps to a signal; exactly Up maps to no-signal |
| TetrisController.SignalToAction | src/brick_game/tetris/tetris_controller.cc:94-124 | every signal except no-signal names the action it comes from |
| TetrisController.ActionSignalRoundTrip | src/brick_game/tetris/tetris_controller.cc:94-124 | every action but Up is recovered from its signal |
| TetrisController.SignalActionRoundTrip | src/brick_game/tetris/tetris_controller.cc:94-124 | every signal but no-signal comes from exactly one action |
| TetrisController.UserInput | src/brick_game/tetris/tetris_controller.cc:94-132 | an action is applied as its signal, once; Up leaves a waiting, paused, falling or exited game untouched |
| TetrisController.Tick | src/brick_game/tetris/tetris_controller.cc:47-50 | past the level's delay exactly one Down is applied; before it nothing changes |
| TetrisController.Preview | src/brick_game/tetris/tetris_controller.cc:79-89 | the 4 x 4 preview holds the next piece's color at its occupied cells and 0 elsewhere |
| TetrisController.PreviewShowsFourCells | src/brick_game/tetris/tetris_controller.cc:79-89 | the preview of a table shape has exactly four colored cells |
| TetrisController.Snapshot | src/brick_game/tetris/tetris_controller.cc:52-89 | the field is the board with the current piece's cells in its color and every other cell copied; counters copied; level is the loss marker in game over; pause iff paused; speed 1 |
| TetrisController.UpdateCurrentState | src/brick_game/tetris/tetris_controller.cc:31-92 | the timed fall first, then the snapshot of the resulting game, which keeps the invariant |

## Left out

- Front ends (the GTK and ncurses views), the program entry points, and the
  controller singleton and its forwarding calls: rendering, key polling and
  plumbing, with no game logic.
- The Snake engine's single-instance guard: its constructor throws when an
  instance already exists (snake_model.cc:12-14); engines are values here, so
  there is no instance to count.
- Heap allocation of the snapshot grids: grids are values here.
- High-score files: loading is the `storedHighScore` parameter; the writes
  after a new high score are file output and are not modelled.
- Wall-clock time: the Snake cooldown is the `cooldownElapsed` flag; the
  automatic Snake tick at the top of its update function, the next-advance
  time kept by the Tetris move state, and the time source itself are not
  modelled. No handler enters the Tetris move state; it is modelled anyway.
- Random number generators: replaced by the `roll` parameter; the
  distribution of the draw is not modelled.
- Fixed-width integers: counters are unbounded, and Snake cells are stored as
  8-bit values in the engine; the model uses unbounded coordinates (they
  stay within -1..20 for reachable states).
- Memory outside the Tetris board array: a flat read before the first or past
  the last element is taken as occupied; the C code reads whatever memory
  lies there.
- TetrisController.UpdateCurrentState: requires the full invariant `Valid`
  rather than only the piece lying on the board, since the invariant is what
  shows the piece is still on the board after the timed fall.
