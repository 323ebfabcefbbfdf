/**
 Definitions shared by the Snake and Tetris engines: the fixed field size,
 the reserved level values, the user actions a front end sends, and the
 snapshot structure a front end reads back.
 */
module Common {

  /** Playing field: 20 rows of 10 columns. */
  const FieldWidth := 10
  const FieldHeight := 20
  /** Preview grid for the next Tetris piece. */
  const NextFieldWidth := 4
  const NextFieldHeight := 4

  /** Level values with a special meaning (the rest of 1..10 are ordinary levels). */
  const LevelStart := 0
  const LevelWin := -1
  const LevelLoss := -2
  const Level1 := 1

  /** The input signal set shared by both engines. */
  datatype UserAction = Start | Pause | Terminate | Left | Right | Up | Down | Action

  datatype Option<T> = None | Some(value: T)

  /** A rectangular grid of color codes, row-major: g[row][col]. 0 means empty. */
  type Grid = seq<seq<int>>

  predicate IsGrid(g: Grid, rows: nat, cols: nat) {
    |g| == rows && forall r :: 0 <= r < rows ==> |g[r]| == cols
  }

  predicate IsField(g: Grid) {
    IsGrid(g, FieldHeight, FieldWidth)
  }

  function ZeroGrid(rows: nat, cols: nat): (g: Grid)
    ensures IsGrid(g, rows, cols)
    ensures forall r, c :: 0 <= r < rows && 0 <= c < cols ==> g[r][c] == 0
  {
    seq(rows, _ => seq(cols, _ => 0))
  }

  /** What an engine hands to a renderer. `next` is absent for Snake. */
  datatype GameInfo = GameInfo(
    field: Grid,
    next: Option<Grid>,
    score: int,
    highScore: int,
    level: int,
    speed: int,
    pause: bool)

  lemma ModOfSmaller(i: int, n: int)
    requires 0 <= i < n
    ensures i % n == i
  {
  }

  function Max(a: int, b: int): int {
    if a < b then b else a
  }
}
