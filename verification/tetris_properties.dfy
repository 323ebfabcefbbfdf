/**
 Properties of the Tetris state machine that relate several calls: the
 invariant every transition keeps, what can end a game, monotone score,
 moves that undo each other, line clearing as seen from the attaching
 state, and two behaviours of rotation at the side walls.
 */
module TetrisProperties {
  import Common
  import opened TetrisBackend
  import opened TetrisFsm

  /** A piece moved by (dr, dc) covers the moved cells. */
  lemma MovedCovers(p: Tetramino, dr: int, dc: int, r: int, c: int)
    requires WfPiece(p)
    ensures Covers(p.(row := p.row + dr, col := p.col + dc), r, c) <==> Covers(p, r - dr, c - dc)
  {
  }

  /** Lowering a piece that then does not collide keeps it on the board. */
  lemma LoweredStaysInside(p: Tetramino, cells: Common.Grid)
    requires WfPiece(p) && IsBoard(cells) && Inside(p)
    requires !BoardCollide(p.(row := p.row + 1), cells)
    ensures Inside(p.(row := p.row + 1))
  {
    var lowered := p.(row := p.row + 1);
    forall r, c | Covers(lowered, r, c)
      ensures 0 <= r < BoardRows && 0 <= c < BoardCols
    {
      MovedCovers(p, 1, 0, r, c);
    }
  }

  /** A piece shifted sideways that clears both borders and the floor is
      on the board. */
  lemma ShiftedStaysInside(p: Tetramino, dc: int)
    requires WfPiece(p) && Inside(p)
    requires !LeftBorderCollide(p.(col := p.col + dc)) && !RightBorderCollide(p.(col := p.col + dc))
    ensures Inside(p.(col := p.col + dc))
  {
    var shifted := p.(col := p.col + dc);
    forall r, c | Covers(shifted, r, c)
      ensures 0 <= r < BoardRows && 0 <= c < BoardCols
    {
      MovedCovers(p, 0, dc, r, c);
    }
  }

  /** A successful rotation leaves the piece on the board. */
  lemma RotateStaysInside(g: Game)
    requires IsBoard(g.board.cells) && WfPiece(g.board.current)
    requires Inside(g.board.current) && g.board.current.row >= 0
    ensures Inside(Rotate(g).board.current) && Rotate(g).board.current.row == g.board.current.row
  {
    var p := g.board.current;
    var turned := p.(rotation := NextRotation(p));
    if !BoardCollide(turned, g.board.cells) {
      var q := Rotate(g).board.current;
      forall r, c | Covers(q, r, c)
        ensures 0 <= r < BoardRows && 0 <= c < BoardCols
      {
        assert q == turned.(col := turned.col + (q.col - turned.col));
        MovedCovers(turned, 0, q.col - turned.col, r, c);
      }
    }
  }

  /** Every transition keeps the state invariant. */
  lemma SigactPreservesValid(sig: Signal, g: Game, roll: nat, storedHighScore: int)
    requires Valid(g)
    ensures Valid(Sigact(sig, g, roll, storedHighScore))
  {
    if g.state == Moving {
      MovingPreservesValid(sig, g);
    } else if g.state == Move {
      MoveDownPreservesValid(g);
    }
  }

  /** A step down keeps the invariant. */
  lemma MoveDownPreservesValid(g: Game)
    requires Valid(g)
    ensures Valid(MoveDown(g))
  {
    var p := g.board.current;
    if !BoardCollide(p.(row := p.row + 1), g.board.cells) {
      LoweredStaysInside(p, g.board.cells);
    }
  }

  /** Every signal handled while a piece falls keeps the invariant. */
  lemma MovingPreservesValid(sig: Signal, g: Game)
    requires Valid(g) && g.state == Moving
    ensures Valid(OnMoving(sig, g))
  {
    var p := g.board.current;
    var cells := g.board.cells;
    if sig == SigAction {
      RotateStaysInside(g);
    } else if sig == SigDown {
      MoveDownPreservesValid(g);
    } else if sig == SigRight {
      if !RightBorderCollide(p.(col := p.col + 1)) && !BoardCollide(p.(col := p.col + 1), cells) {
        ShiftRightClearsLeft(p);
        ShiftedStaysInside(p, 1);
      }
    } else if sig == SigLeft {
      if !LeftBorderCollide(p.(col := p.col - 1)) && !BoardCollide(p.(col := p.col - 1), cells) {
        ShiftLeftClearsRight(p);
        ShiftedStaysInside(p, -1);
      }
    }
  }

  lemma ShiftRightClearsLeft(p: Tetramino)
    requires WfPiece(p) && Inside(p)
    ensures !LeftBorderCollide(p.(col := p.col + 1))
  {
    var shifted := p.(col := p.col + 1);
    forall r, c | Covers(shifted, r, c)
      ensures c >= 0
    {
      MovedCovers(p, 0, 1, r, c);
    }
  }

  lemma ShiftLeftClearsRight(p: Tetramino)
    requires WfPiece(p) && Inside(p)
    ensures !RightBorderCollide(p.(col := p.col - 1))
  {
    var shifted := p.(col := p.col - 1);
    forall r, c | Covers(shifted, r, c)
      ensures c <= BoardCols - 1
    {
      MovedCovers(p, 0, -1, r, c);
    }
  }

  /* ---------------------------------------------------------------- */
  /* What a transition can change                                      */
  /* ---------------------------------------------------------------- */

  /** Score and high score never drop, except on a restart from game over,
      which zeroes the score and reloads the stored high score. */
  lemma SigactScoreMonotone(sig: Signal, g: Game, roll: nat, storedHighScore: int)
    requires WellFormed(g)
    requires !(g.state == GameOver && sig == SigStart)
    ensures var r := Sigact(sig, g, roll, storedHighScore);
      r.stats.score >= g.stats.score && r.stats.highScore >= g.stats.highScore
  {
  }

  /** Only escape ends the program, and only from the start screen, a
      falling piece, or game over. */
  lemma ExitOnlyByEscape(sig: Signal, g: Game, roll: nat, storedHighScore: int)
    requires WellFormed(g)
    requires g.state != ExitState
    ensures Sigact(sig, g, roll, storedHighScore).state == ExitState <==>
      sig == SigEscape && g.state in {Start, Moving, GameOver}
  {
  }

  /** A game is lost only when a freshly spawned piece collides. */
  lemma GameOverOnlyFromSpawn(sig: Signal, g: Game, roll: nat, storedHighScore: int)
    requires WellFormed(g)
    requires g.state != GameOver
    ensures Sigact(sig, g, roll, storedHighScore).state == GameOver <==>
      g.state == Spawn && BoardCollide(g.board.next, g.board.cells)
  {
  }

  /** A move right that succeeds is undone by a move left, for a piece on
      the board that overlaps nothing. */
  lemma MoveLeftUndoesMoveRight(g: Game)
    requires WellFormed(g)
    requires !BoardCollide(g.board.current, g.board.cells)
    requires MoveRight(g).board.current != g.board.current
    ensures MoveLeft(MoveRight(g)) == g
  {
    var p := g.board.current;
    var moved := MoveRight(g);
    assert moved.board.current.(col := moved.board.current.col - 1) == p;
    assert !LeftBorderCollide(p) by {
      MovedCovers(p, 0, 0, 0, 0);
    }
  }

  /** A move left that succeeds is undone by a move right, for a piece on
      the board that overlaps nothing. */
  lemma MoveRightUndoesMoveLeft(g: Game)
    requires WellFormed(g)
    requires !BoardCollide(g.board.current, g.board.cells)
    requires MoveLeft(g).board.current != g.board.current
    ensures MoveRight(MoveLeft(g)) == g
  {
    var p := g.board.current;
    var moved := MoveLeft(g);
    assert moved.board.current.(col := moved.board.current.col + 1) == p;
  }

  /* ---------------------------------------------------------------- */
  /* Line clearing in the attaching state                              */
  /* ---------------------------------------------------------------- */

  /** With the top row not full after stamping, attaching removes every
      full row, scores their number, and keeps the other rows in order
      below copies of the top row. */
  lemma AttachClearsAllFullRows(g: Game)
    requires WellFormed(g)
    requires !FullRow(Attach(g.board.cells, g.board.current)[0])
    ensures var stamped := Attach(g.board.cells, g.board.current);
      var r := OnAttach(g);
      var n := FullCount(stamped);
      && r.board.cells == Repeat(stamped[0], n) + NonFullRows(stamped)
      && FullCount(r.board.cells) == 0
      && r.stats == UpdateScore(g.stats, n)
  {
    ClearRowsCompacts(Attach(g.board.cells, g.board.current));
  }

  /** With the top row full after stamping, attaching clears nothing and
      scores nothing, whatever lies below. */
  lemma AttachWithFullTopRow(g: Game)
    requires WellFormed(g)
    requires FullRow(Attach(g.board.cells, g.board.current)[0])
    ensures OnAttach(g).board.cells == Attach(g.board.cells, g.board.current)
    ensures OnAttach(g).stats.score == g.stats.score
  {
    ClearRowsStopsAtFullTopRow(Attach(g.board.cells, g.board.current));
  }

  /* ---------------------------------------------------------------- */
  /* Rotation at the left wall                                         */
  /* ---------------------------------------------------------------- */

  /** Board with one occupied cell. */
  function OneCell(r: int, c: int): (cells: Common.Grid)
    requires 0 <= r < BoardRows && 0 <= c < BoardCols
    ensures IsBoard(cells)
    ensures forall r', c' :: 0 <= r' < BoardRows && 0 <= c' < BoardCols ==>
      (cells[r'][c'] != 0 <==> r' == r && c' == c)
  {
    seq(BoardRows, r' requires 0 <= r' < BoardRows => seq(BoardCols, c' requires 0 <= c' < BoardCols =>
      if r' == r && c' == c then 1 else 0))
  }

  /** The upright I piece hugging the left wall: its mask column 1 is board
      column 0, rows 0 to 3. */
  function UprightIAtWall(): (p: Tetramino)
    ensures WfPiece(p)
  {
    FiguresShape();
    Tetramino(0, -1, Figures[0], 0)
  }

  /** Turning it lays it across row 1 at columns -1 to 2. */
  lemma TurnedICells()
    ensures var p := UprightIAtWall();
      var turned := p.(rotation := NextRotation(p));
      forall r, c :: Covers(turned, r, c) <==> r == 1 && -1 <= c <= 2
  {
  }

  /** The nudge back from the wall does not look at the board: with (1, 3)
      occupied, the turned piece is pushed onto it. */
  lemma RotateNudgesOntoOccupiedCell(g: Game)
    requires g.board.cells == OneCell(1, 3) && g.board.current == UprightIAtWall()
    ensures var q := Rotate(g).board.current;
      && Rotate(g).state == g.state
      && Covers(q, 1, 3) && g.board.cells[1][3] != 0
  {
    var p := g.board.current;
    var turned := p.(rotation := NextRotation(p));
    TurnedICells();
    assert !BoardCollide(turned, g.board.cells) by {
      forall r, c | Covers(turned, r, c)
        ensures r <= BoardRows - 1 && !FlatOccupied(g.board.cells, r, c)
      {
        assert r == 1;
        if c == -1 {
          assert g.board.cells[0][9] == 0;
        }
      }
    }
    assert LeftBorderCollide(turned) by {
      assert Covers(turned, 1, -1);
    }
    var shifted := turned.(col := turned.col + 1);
    assert !LeftBorderCollide(shifted) && !RightBorderCollide(shifted) by {
      forall r, c | Covers(shifted, r, c)
        ensures 0 <= c <= BoardCols - 1
      {
        MovedCovers(turned, 0, 1, r, c);
      }
    }
    assert NudgeRight(turned) == shifted;
    assert Covers(shifted, 1, 3) by {
      MovedCovers(turned, 0, 1, 1, 3);
    }
  }

  /** The turned piece sticks out at column -1 of row 1, which the board
      read takes as the last cell of row 0: that cell being occupied makes
      the turn fail and the piece attach, though nothing on the board lies
      under the turned piece. */
  lemma RotateReadsNeighbouringRow(g: Game)
    requires g.board.cells == OneCell(0, 9) && g.board.current == UprightIAtWall()
    ensures Rotate(g).state == Attaching
    ensures var turned := g.board.current.(rotation := NextRotation(g.board.current));
      forall r, c :: Covers(turned, r, c) && 0 <= c < BoardCols ==> g.board.cells[r][c] == 0
  {
    var p := g.board.current;
    var turned := p.(rotation := NextRotation(p));
    TurnedICells();
    assert Covers(turned, 1, -1);
    assert FlatOccupied(g.board.cells, 1, -1);
  }
}
