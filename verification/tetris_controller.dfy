/**
 The Tetris controller: front-end actions mapped to state-machine signals,
 the timed fall, and the snapshot a renderer reads (the board with the
 falling piece drawn in, and a preview of the next piece).
 */
module TetrisController {
  import Common
  import opened TetrisBackend
  import opened TetrisFsm
  import TetrisProperties

  /** Up has no meaning in Tetris; every other action has its own signal. */
  function ActionToSignal(a: Common.UserAction): (sig: Signal)
    ensures sig == NoSig <==> a == Common.Up
  {
    match a
    case Start => SigStart
    case Pause => SigPause
    case Action => SigAction
    case Terminate => SigEscape
    case Left => SigLeft
    case Right => SigRight
    case Up => NoSig
    case Down => SigDown
  }

  /** The action a signal comes from; no-signal has none. */
  function SignalToAction(sig: Signal): (a: Common.Option<Common.UserAction>)
    ensures a.None? <==> sig == NoSig
  {
    match sig
    case SigStart => Common.Some(Common.Start)
    case SigPause => Common.Some(Common.Pause)
    case SigAction => Common.Some(Common.Action)
    case SigEscape => Common.Some(Common.Terminate)
    case SigLeft => Common.Some(Common.Left)
    case SigRight => Common.Some(Common.Right)
    case SigDown => Common.Some(Common.Down)
    case NoSig => Common.None
  }

  /** Every action except Up is recovered from its signal, so the mapping is
      one-to-one off Up. */
  lemma ActionSignalRoundTrip(a: Common.UserAction)
    requires a != Common.Up
    ensures SignalToAction(ActionToSignal(a)) == Common.Some(a)
  {
  }

  /** Every signal except no-signal comes from exactly one action. */
  lemma SignalActionRoundTrip(sig: Signal)
    requires sig != NoSig
    ensures ActionToSignal(SignalToAction(sig).value) == sig
  {
  }

  /** One front-end action: its signal, applied once. Up leaves a game
      waiting to start, paused, falling or finished untouched. */
  function UserInput(g: Game, a: Common.UserAction, roll: nat, storedHighScore: int): (r: Game)
    requires WellFormed(g)
    ensures r == Sigact(ActionToSignal(a), g, roll, storedHighScore)
    ensures a == Common.Up && g.state in {Start, Pause, Moving, ExitState} ==> r == g
  {
    Sigact(ActionToSignal(a), g, roll, storedHighScore)
  }

  /** The fall delay for a level, in milliseconds. */
  function FallDelay(level: int): int {
    500 - 35 * level
  }

  /** The timed fall: once more than the level's delay has elapsed since
      the last one, exactly one Down is applied. */
  function Tick(g: Game, elapsedMs: int, roll: nat, storedHighScore: int): (r: Game)
    requires WellFormed(g)
    ensures elapsedMs > FallDelay(g.stats.level) ==> r == UserInput(g, Common.Down, roll, storedHighScore)
    ensures elapsedMs <= FallDelay(g.stats.level) ==> r == g
  {
    if elapsedMs > FallDelay(g.stats.level) then UserInput(g, Common.Down, roll, storedHighScore) else g
  }

  /** The next piece on a blank 4 x 4 grid, in its color. */
  function Preview(p: Tetramino): (grid: Common.Grid)
    requires WfPiece(p)
    ensures Common.IsGrid(grid, Common.NextFieldHeight, Common.NextFieldWidth)
    ensures forall i, j :: 0 <= i < 4 && 0 <= j < 4 ==>
      (Occupies(p, i, j) ==> grid[i][j] == p.figure.color) && (!Occupies(p, i, j) ==> grid[i][j] == 0)
  {
    seq(4, i requires 0 <= i < 4 => seq(4, j requires 0 <= j < 4 => if Occupies(p, i, j) then p.figure.color else 0))
  }

  /** The preview of a piece from the shape table shows exactly its four
      cells. */
  lemma PreviewShowsFourCells(p: Tetramino)
    requires WfPiece(p) && p.figure in Figures
    ensures MaskCount(Preview(p)) == 4
  {
    FiguresShape();
    var k :| 0 <= k < Tetraminos && Figures[k] == p.figure;
    var grid := Preview(p);
    var mask := p.figure.sprite[p.rotation];
    assert forall i, j :: 0 <= i < 4 && 0 <= j < 4 ==> Bit(grid[i][j]) == Bit(mask[i][j]);
    assert forall i :: 0 <= i < 4 ==> RowBits(grid[i]) == RowBits(mask[i]);
  }

  /** What the renderer gets: the board with the falling piece drawn in,
      the next piece's preview, the statistics, the loss marker as level in
      game over, and the pause flag. The stored board is not changed. */
  function Snapshot(g: Game): (info: Common.GameInfo)
    requires WellFormed(g)
    ensures Common.IsField(info.field)
    ensures forall r, c :: Covers(g.board.current, r, c) ==> info.field[r][c] == g.board.current.figure.color
    ensures forall r, c :: 0 <= r < BoardRows && 0 <= c < BoardCols && !Covers(g.board.current, r, c) ==>
      info.field[r][c] == g.board.cells[r][c]
    ensures info.next == Common.Some(Preview(g.board.next))
    ensures info.score == g.stats.score && info.highScore == g.stats.highScore
    ensures info.level == if g.state == GameOver then Common.LevelLoss else g.stats.level
    ensures info.pause <==> g.state == Pause
    ensures info.speed == 1
  {
    Common.GameInfo(
      Attach(g.board.cells, g.board.current),
      Common.Some(Preview(g.board.next)),
      g.stats.score,
      g.stats.highScore,
      if g.state == GameOver then Common.LevelLoss else g.stats.level,
      1,
      g.state == Pause)
  }

  /** The periodic update: the timed fall, then the snapshot of the
      resulting game. The snapshot's speed stays at the value 1 the game
      info is created with. */
  function UpdateCurrentState(g: Game, elapsedMs: int, roll: nat, storedHighScore: int): (r: (Game, Common.GameInfo))
    requires Valid(g)
    ensures r.0 == Tick(g, elapsedMs, roll, storedHighScore)
    ensures Valid(r.0) && r.1 == Snapshot(r.0)
  {
    var g' := Tick(g, elapsedMs, roll, storedHighScore);
    assert Valid(g') by {
      TetrisProperties.SigactPreservesValid(SigDown, g, roll, storedHighScore);
    }
    (g', Snapshot(g'))
  }
}
