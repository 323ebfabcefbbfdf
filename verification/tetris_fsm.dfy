/**
 The Tetris state machine: one transition per signal, dispatched on the
 current state. Rotation with border nudging, the three moves, spawning,
 attaching with line clearing, pause, game over and restart.
 */
module TetrisFsm {
  import Common
  import opened TetrisBackend

  datatype State = Start | Spawn | Moving | Move | Attaching | GameOver | Pause | ExitState

  datatype Signal = SigAction | SigDown | SigRight | SigLeft | SigPause | SigStart | SigEscape | NoSig

  datatype Game = Game(state: State, stats: Stats, board: Board)

  /** What the transitions need to index the board and the masks in range:
      rectangular board, rotation indices inside the shapes, and the current
      piece entirely on the board (attaching and the snapshot write its
      cells). */
  ghost predicate WellFormed(g: Game) {
    && IsBoard(g.board.cells)
    && WfPiece(g.board.current)
    && WfPiece(g.board.next)
    && Inside(g.board.current)
  }

  /** The state invariant: well formed, neither piece above row 0, the
      next piece on the board, a non-negative score, and a level
      that is the loss marker or between 0 and the maximum. */
  ghost predicate Valid(g: Game) {
    && WellFormed(g)
    && g.board.current.row >= 0
    && g.board.next.row >= 0
    && Inside(g.board.next)
    && g.stats.score >= 0
    && Common.LevelLoss <= g.stats.level <= MaxLevel
  }

  function ZeroBoard(): (cells: Common.Grid)
    ensures IsBoard(cells)
    ensures forall r, c :: 0 <= r < BoardRows && 0 <= c < BoardCols ==> cells[r][c] == 0
  {
    Common.ZeroGrid(BoardRows, BoardCols)
  }

  /** The zero-initialised piece a fresh board holds before the first
      spawn: it covers no cell. */
  const NoPiece := Tetramino(0, 0, EmptyFigure, 0)

  /** A new game as the front ends set it up: empty board, a first next
      piece, zero score and level, the stored high score. */
  function Initial(roll: nat, storedHighScore: int): (g: Game)
    ensures Valid(g) && g.state == Start
    ensures forall r, c :: !Covers(g.board.current, r, c)
    ensures g.stats == Stats(0, storedHighScore, Common.LevelStart)
    ensures g.board.cells == ZeroBoard() && g.board.next == GenNextTetramino(roll)
  {
    var g := Game(Start, Stats(0, storedHighScore, 0), Board(ZeroBoard(), NoPiece, GenNextTetramino(roll)));
    assert forall r, c :: !Covers(NoPiece, r, c) by {
      assert forall i, j :: 0 <= i < 4 && 0 <= j < 4 ==> EmptyFigure.sprite[0][i][j] == 0;
    }
    g
  }

  /* ---------------------------------------------------------------- */
  /* Piece movement                                                    */
  /* ---------------------------------------------------------------- */

  /** The rotation after the current one, wrapping after the last. */
  function NextRotation(p: Tetramino): (r: int)
    requires WfPiece(p)
    ensures 0 <= r <= p.figure.maxRotation
    ensures p.rotation < p.figure.maxRotation ==> r == p.rotation + 1
    ensures p.rotation == p.figure.maxRotation ==> r == 0
  {
    (p.rotation + 1) % (p.figure.maxRotation + 1)
  }

  /** Moves the piece right while it sticks out on the left: the result
      is the first column, from the current one rightwards, with no
      left-border collision. */
  function NudgeRight(p: Tetramino): (q: Tetramino)
    requires WfPiece(p)
    ensures q == p.(col := q.col) && p.col <= q.col
    ensures !LeftBorderCollide(q)
    ensures forall c :: p.col <= c < q.col ==> LeftBorderCollide(p.(col := c))
    decreases if p.col < 0 then -p.col else 0
  {
    if LeftBorderCollide(p) then NudgeRight(p.(col := p.col + 1)) else p
  }

  /** Moves the piece left while it sticks out on the right: the result is
      the first column, from the current one leftwards, with no
      right-border collision. A piece clear of the left border stays clear. */
  function NudgeLeft(p: Tetramino): (q: Tetramino)
    requires WfPiece(p)
    ensures q == p.(col := q.col) && q.col <= p.col
    ensures !RightBorderCollide(q)
    ensures forall c :: q.col < c <= p.col ==> RightBorderCollide(p.(col := c))
    ensures !LeftBorderCollide(p) ==> !LeftBorderCollide(q)
    decreases p.col
  {
    if RightBorderCollide(p) then NudgeLeft(p.(col := p.col - 1)) else p
  }

  /** Action button: turn to the next rotation. If the turned piece collides
      with the board or the floor, the turn is undone and the piece
      attaches; otherwise it is nudged back inside the side borders (the
      board is not consulted again while nudging). */
  function Rotate(g: Game): (r: Game)
    requires IsBoard(g.board.cells) && WfPiece(g.board.current)
    ensures var turned := g.board.current.(rotation := NextRotation(g.board.current));
      && (BoardCollide(turned, g.board.cells) ==> r == g.(state := Attaching))
      && (!BoardCollide(turned, g.board.cells) ==>
            && r.state == g.state && r.stats == g.stats
            && r.board == g.board.(current := r.board.current)
            && r.board.current == turned.(col := r.board.current.col)
            && !LeftBorderCollide(r.board.current)
            && !RightBorderCollide(r.board.current)
            && (!LeftBorderCollide(turned) && !RightBorderCollide(turned) ==> r.board.current == turned))
  {
    var p := g.board.current;
    var turned := p.(rotation := NextRotation(p));
    if BoardCollide(turned, g.board.cells) then
      g.(state := Attaching)
    else
      g.(board := g.board.(current := NudgeLeft(NudgeRight(turned))))
  }

  /** One row down if the lowered piece fits (state becomes Moving);
      otherwise the piece stays and attaches. */
  function MoveDown(g: Game): (r: Game)
    requires IsBoard(g.board.cells) && WfPiece(g.board.current)
    ensures var p := g.board.current;
      var lowered := p.(row := p.row + 1);
      && r.stats == g.stats && r.board.cells == g.board.cells && r.board.next == g.board.next
      && (!BoardCollide(lowered, g.board.cells) <==> r.state == Moving && r.board.current == lowered)
      && (BoardCollide(lowered, g.board.cells) <==> r.state == Attaching && r.board.current == p)
  {
    var p := g.board.current;
    var lowered := p.(row := p.row + 1);
    if !BoardCollide(lowered, g.board.cells) then
      g.(state := Moving, board := g.board.(current := lowered))
    else
      g.(state := Attaching)
  }

  /** One column right when the shifted piece clears the right border and
      the board; the state never changes. */
  function MoveRight(g: Game): (r: Game)
    requires IsBoard(g.board.cells) && WfPiece(g.board.current)
    ensures var p := g.board.current;
      var shifted := p.(col := p.col + 1);
      && r.state == g.state && r.stats == g.stats
      && r.board == g.board.(current := r.board.current)
      && (r.board.current == shifted <==>
            !RightBorderCollide(shifted) && !BoardCollide(shifted, g.board.cells))
      && (r.board.current == p || r.board.current == shifted)
  {
    var p := g.board.current;
    var shifted := p.(col := p.col + 1);
    if !RightBorderCollide(shifted) && !BoardCollide(shifted, g.board.cells) then
      g.(board := g.board.(current := shifted))
    else
      g
  }

  /** One column left when the shifted piece clears the left border and
      the board; the state never changes. */
  function MoveLeft(g: Game): (r: Game)
    requires IsBoard(g.board.cells) && WfPiece(g.board.current)
    ensures var p := g.board.current;
      var shifted := p.(col := p.col - 1);
      && r.state == g.state && r.stats == g.stats
      && r.board == g.board.(current := r.board.current)
      && (r.board.current == shifted <==>
            !LeftBorderCollide(shifted) && !BoardCollide(shifted, g.board.cells))
      && (r.board.current == p || r.board.current == shifted)
  {
    var p := g.board.current;
    var shifted := p.(col := p.col - 1);
    if !LeftBorderCollide(shifted) && !BoardCollide(shifted, g.board.cells) then
      g.(board := g.board.(current := shifted))
    else
      g
  }

  /* ---------------------------------------------------------------- */
  /* State handlers                                                    */
  /* ---------------------------------------------------------------- */

  /** Waiting for the first start: the start button begins at level 1,
      escape quits, anything else waits. */
  function OnStart(sig: Signal, g: Game): (r: Game)
    ensures sig == SigStart ==> r.state == Spawn && r.stats == g.stats.(level := Common.Level1)
    ensures sig == SigEscape ==> r.state == ExitState && r.stats == g.stats
    ensures sig != SigStart && sig != SigEscape ==> r == g.(state := Start)
    ensures r.board == g.board
  {
    match sig
    case SigStart => g.(state := Spawn, stats := g.stats.(level := Common.Level1))
    case SigEscape => g.(state := ExitState)
    case _ => g.(state := Start)
  }

  /** The next piece becomes the current one, a new next piece is drawn,
      and the game is over exactly when the new current piece collides. */
  function OnSpawn(g: Game, roll: nat): (r: Game)
    requires IsBoard(g.board.cells) && WfPiece(g.board.next)
    ensures r.board.current == g.board.next
    ensures r.board.next == GenNextTetramino(roll)
    ensures r.board.cells == g.board.cells && r.stats == g.stats
    ensures r.state == GameOver <==> BoardCollide(g.board.next, g.board.cells)
    ensures r.state == Moving <==> !BoardCollide(g.board.next, g.board.cells)
  {
    var b := g.board.(current := g.board.next, next := GenNextTetramino(roll));
    Game(if BoardCollide(b.current, b.cells) then GameOver else Moving, g.stats, b)
  }

  /** Paused: only the pause button resumes, back to Moving. */
  function OnPause(sig: Signal, g: Game): (r: Game)
    ensures sig == SigPause ==> r == g.(state := Moving)
    ensures sig != SigPause ==> r == g
  {
    if sig == SigPause then g.(state := Moving) else g
  }

  /** A falling piece reacts to the four movement signals, pause and
      escape; start and no-signal change nothing. */
  function OnMoving(sig: Signal, g: Game): (r: Game)
    requires IsBoard(g.board.cells) && WfPiece(g.board.current)
    ensures sig == SigAction ==> r == Rotate(g)
    ensures sig == SigDown ==> r == MoveDown(g)
    ensures sig == SigRight ==> r == MoveRight(g)
    ensures sig == SigLeft ==> r == MoveLeft(g)
    ensures sig == SigPause ==> r == g.(state := Pause)
    ensures sig == SigEscape ==> r == g.(state := ExitState)
    ensures sig == SigStart || sig == NoSig ==> r == g
  {
    match sig
    case SigAction => Rotate(g)
    case SigDown => MoveDown(g)
    case SigRight => MoveRight(g)
    case SigLeft => MoveLeft(g)
    case SigPause => g.(state := Pause)
    case SigEscape => g.(state := ExitState)
    case _ => g
  }

  /** Stamps the piece, clears rows, scores the number cleared, and moves on
      to spawning. */
  function OnAttach(g: Game): (r: Game)
    requires WellFormed(g)
    ensures var cleared := ClearRows(Attach(g.board.cells, g.board.current));
      && r.state == Spawn
      && r.board == g.board.(cells := cleared.cells)
      && r.stats == UpdateScore(g.stats, cleared.removed)
  {
    var cleared := ClearRows(Attach(g.board.cells, g.board.current));
    Game(Spawn, UpdateScore(g.stats, cleared.removed), g.board.(cells := cleared.cells))
  }

  /** Game over: the level always becomes the loss marker. Start resets the
      board (a new next piece, the current one kept) and the statistics
      (with the stored high score) and spawns at level 1; escape quits. */
  function OnGameOver(sig: Signal, g: Game, roll: nat, storedHighScore: int): (r: Game)
    ensures sig == SigStart ==>
      && r.state == Spawn
      && r.stats == Stats(0, storedHighScore, Common.Level1)
      && r.board == Board(ZeroBoard(), g.board.current, GenNextTetramino(roll))
    ensures sig == SigEscape ==> r == g.(state := ExitState, stats := g.stats.(level := Common.LevelLoss))
    ensures sig != SigStart && sig != SigEscape ==> r == g.(stats := g.stats.(level := Common.LevelLoss))
  {
    var lost := g.(stats := g.stats.(level := Common.LevelLoss));
    if sig == SigStart then
      Game(Spawn, Stats(0, storedHighScore, Common.Level1),
           Board(ZeroBoard(), g.board.current, GenNextTetramino(roll)))
    else if sig == SigEscape then
      lost.(state := ExitState)
    else
      lost
  }

  /** One transition: dispatch on the state. `roll` stands for the random
      draw of any piece generated, `storedHighScore` for the value a restart
      reads back from storage. Exit is final. */
  function Sigact(sig: Signal, g: Game, roll: nat, storedHighScore: int): (r: Game)
    requires WellFormed(g)
    ensures g.state == Start ==> r == OnStart(sig, g)
    ensures g.state == Spawn ==> r == OnSpawn(g, roll)
    ensures g.state == Moving ==> r == OnMoving(sig, g)
    ensures g.state == Move ==> r == MoveDown(g)
    ensures g.state == Attaching ==> r == OnAttach(g)
    ensures g.state == Pause ==> r == OnPause(sig, g)
    ensures g.state == GameOver ==> r == OnGameOver(sig, g, roll, storedHighScore)
    ensures g.state == ExitState ==> r == g
  {
    match g.state
    case Start => OnStart(sig, g)
    case Spawn => OnSpawn(g, roll)
    case Moving => OnMoving(sig, g)
    case Move => MoveDown(g)
    case Attaching => OnAttach(g)
    case Pause => OnPause(sig, g)
    case GameOver => OnGameOver(sig, g, roll, storedHighScore)
    case ExitState => g
  }
}
