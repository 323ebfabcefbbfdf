/**
 The Snake engine: a body of cells (head first), a committed and a pending
 direction, an apple, score / high score / level, and a four-state machine
 driven by user actions.

 The engine is a value here. The three things the engine reads from outside
 its own state are parameters: the render buffer that apple placement scans
 (the buffer filled by the last snapshot), a random roll that picks among the
 free cells, and whether the 50 ms cooldown between processed ticks has
 elapsed.
 */
module Snake {
  import Common

  const InitialLength := 4
  const MaxLevel := 10
  /** The body length that wins the game: the whole field. */
  const SizeToWin := Common.FieldHeight * Common.FieldWidth

  /** Render colors: body cells and the apple. */
  const ColorGreen := 1
  const ColorRed := 2

  /** (row, column). The engine stores two 8-bit integers; every value a
      reachable state produces lies in [-1, 20], so no wrap-around occurs. */
  type Cell = (int, int)

  datatype GameState = Ready | Running | OnPause | GameOver

  datatype Direction = Up | Down | Left | Right

  datatype CollisionType = NoHit | WallHit | SnakeHit | AppleHit

  datatype SnakeModel = SnakeModel(
    body: seq<Cell>,
    direction: Direction,
    nextDirection: Direction,
    apple: Cell,
    score: int,
    highScore: int,
    level: int,
    speed: int,
    state: GameState)

  predicate InField(c: Cell) {
    0 <= c.0 < Common.FieldHeight && 0 <= c.1 < Common.FieldWidth
  }

  predicate Distinct<T(==)>(s: seq<T>) {
    forall i, j :: 0 <= i < j < |s| ==> s[i] != s[j]
  }

  predicate AllInField(s: seq<Cell>) {
    forall i :: 0 <= i < |s| ==> InField(s[i])
  }

  /* ---------------------------------------------------------------- */
  /* Direction                                                         */
  /* ---------------------------------------------------------------- */

  function Opposite(d: Direction): Direction {
    match d
    case Up => Down
    case Down => Up
    case Left => Right
    case Right => Left
  }

  /** Commits the pending direction unless it would reverse the snake, then
      aligns the pending direction with the committed one. */
  function UpdateDirection(m: SnakeModel): (r: SnakeModel)
    ensures r.direction == m.direction || r.direction == m.nextDirection
    ensures r.direction == m.nextDirection <==> m.nextDirection != Opposite(m.direction)
    ensures r.direction != Opposite(m.direction)
    ensures r.nextDirection == r.direction
    ensures r == m.(direction := r.direction, nextDirection := r.direction)
  {
    var d := if m.nextDirection != Opposite(m.direction) then m.nextDirection else m.direction;
    m.(direction := d, nextDirection := d)
  }

  /** Committing is idempotent: once the pending direction equals the
      committed one, a second commit leaves the engine as it is. */
  lemma UpdateDirectionIdempotent(m: SnakeModel)
    ensures UpdateDirection(UpdateDirection(m)) == UpdateDirection(m)
  {
  }

  /** The neighbouring cell one step in direction d. */
  function Advance(c: Cell, d: Direction): Cell {
    match d
    case Up => (c.0 - 1, c.1)
    case Down => (c.0 + 1, c.1)
    case Left => (c.0, c.1 - 1)
    case Right => (c.0, c.1 + 1)
  }

  /* ---------------------------------------------------------------- */
  /* Collision classification                                          */
  /* ---------------------------------------------------------------- */

  /** Classifies the cell the head is about to enter: a wall first, then any
      body cell (the tail included, although it would move away), then the
      apple. */
  function CheckCollision(m: SnakeModel, next: Cell): (r: CollisionType)
    ensures r == WallHit <==> !InField(next)
    ensures r == SnakeHit <==> InField(next) && next in m.body
    ensures r == AppleHit <==> InField(next) && next !in m.body && next == m.apple
    ensures r == NoHit <==> InField(next) && next !in m.body && next != m.apple
  {
    if next.0 < 0 || next.0 >= Common.FieldHeight || next.1 < 0 || next.1 >= Common.FieldWidth then
      WallHit
    else if exists i :: 0 <= i < |m.body| && m.body[i] == next then
      SnakeHit
    else if next == m.apple then
      AppleHit
    else
      NoHit
  }

  /* ---------------------------------------------------------------- */
  /* Free cells of the render buffer, in row-major order               */
  /* ---------------------------------------------------------------- */

  /** Position of a cell in a row-major walk of the field. */
  function FlatIndex(c: Cell): int {
    c.0 * Common.FieldWidth + c.1
  }

  function CellAt(k: int): Cell {
    (k / Common.FieldWidth, k % Common.FieldWidth)
  }

  lemma CellAtFlatIndex(c: Cell)
    requires InField(c)
    ensures CellAt(FlatIndex(c)) == c
  {
  }

  lemma FlatIndexCellAt(k: int)
    requires 0 <= k < SizeToWin
    ensures InField(CellAt(k)) && FlatIndex(CellAt(k)) == k
  {
  }

  predicate HasEmptyCell(field: Common.Grid)
    requires Common.IsField(field)
  {
    exists r, c :: 0 <= r < Common.FieldHeight && 0 <= c < Common.FieldWidth && field[r][c] == 0
  }

  /** The cells at row-major position k or later that are 0 in the buffer,
      in the order the engine's nested loops collect them. */
  function EmptyCellsFrom(field: Common.Grid, k: int): (r: seq<Cell>)
    requires Common.IsField(field)
    requires 0 <= k <= SizeToWin
    ensures forall c :: c in r ==> InField(c) && FlatIndex(c) >= k && field[c.0][c.1] == 0
    ensures forall c :: InField(c) && FlatIndex(c) >= k && field[c.0][c.1] == 0 ==> c in r
    ensures forall i, j :: 0 <= i < j < |r| ==> FlatIndex(r[i]) < FlatIndex(r[j])
    decreases SizeToWin - k
  {
    if k == SizeToWin then
      []
    else
      var c := CellAt(k);
      FlatIndexCellAt(k);
      forall c' | InField(c') && FlatIndex(c') == k
        ensures c' == c
      {
        CellAtFlatIndex(c');
      }
      var rest := EmptyCellsFrom(field, k + 1);
      if field[c.0][c.1] == 0 then [c] + rest else rest
  }

  function EmptyCells(field: Common.Grid): (r: seq<Cell>)
    requires Common.IsField(field)
    ensures forall c :: c in r <==> InField(c) && field[c.0][c.1] == 0
    ensures Distinct(r)
    ensures |r| > 0 <==> HasEmptyCell(field)
  {
    var r := EmptyCellsFrom(field, 0);
    EmptyCellWitness(field, r);
    r
  }

  lemma EmptyCellWitness(field: Common.Grid, r: seq<Cell>)
    requires Common.IsField(field)
    requires forall c :: InField(c) && FlatIndex(c) >= 0 && field[c.0][c.1] == 0 ==> c in r
    requires forall c :: c in r ==> InField(c) && field[c.0][c.1] == 0
    ensures HasEmptyCell(field) <==> |r| > 0
  {
    if |r| > 0 {
      assert r[0] in r;
      var row, col := r[0].0, r[0].1;
      assert field[row][col] == 0;
    }
    if HasEmptyCell(field) {
      var row, col :| 0 <= row < Common.FieldHeight && 0 <= col < Common.FieldWidth && field[row][col] == 0;
      assert (row, col) in r;
    }
  }

  /* ---------------------------------------------------------------- */
  /* Apple, eating, movement                                           */
  /* ---------------------------------------------------------------- */

  /** Places the apple on a cell that is 0 in the render buffer, chosen by
      `roll`; with no such cell the game is won. The buffer, not the body,
      decides which cells are free. */
  function GenerateApple(m: SnakeModel, field: Common.Grid, roll: nat): (r: SnakeModel)
    requires Common.IsField(field)
    ensures !HasEmptyCell(field) ==> r == m.(state := GameOver, level := Common.LevelWin)
    ensures HasEmptyCell(field) ==>
      && r == m.(apple := r.apple)
      && InField(r.apple)
      && field[r.apple.0][r.apple.1] == 0
  {
    var empty := EmptyCells(field);
    if |empty| == 0 then
      m.(state := GameOver, level := Common.LevelWin)
    else
      m.(apple := empty[roll % |empty|])
  }

  /** Every free cell of the buffer is the outcome of some roll. */
  lemma GenerateAppleReachesEveryEmptyCell(m: SnakeModel, field: Common.Grid, c: Cell)
    requires Common.IsField(field)
    requires InField(c) && field[c.0][c.1] == 0
    ensures exists roll: nat :: GenerateApple(m, field, roll).apple == c
  {
    var empty := EmptyCells(field);
    assert c in empty;
    var i :| 0 <= i < |empty| && empty[i] == c;
    Common.ModOfSmaller(i, |empty|);
    assert GenerateApple(m, field, i).apple == c;
  }

  /** The score and level bookkeeping of eating, before the win test. */
  function Fed(m: SnakeModel): SnakeModel {
    var score := m.score + 1;
    var high := if score > m.highScore then score else m.highScore;
    // score % 5 == 0 has the same truth value under C++'s truncating % as
    // under Dafny's Euclidean %.
    var level := if score % 5 == 0 && m.level < MaxLevel then m.level + 1 else m.level;
    m.(body := [m.apple] + m.body, score := score, highScore := high, level := level)
  }

  /** Grows the snake onto the apple, scores, and either declares a win (the
      body fills the field) or places a new apple. */
  function EatApple(m: SnakeModel, field: Common.Grid, roll: nat): (r: SnakeModel)
    requires Common.IsField(field)
    ensures r.body == [m.apple] + m.body
    ensures r.score == m.score + 1
    ensures r.highScore == Common.Max(m.highScore, m.score + 1)
    ensures r.direction == m.direction && r.nextDirection == m.nextDirection && r.speed == m.speed
    ensures |m.body| + 1 == SizeToWin ==>
      r.state == GameOver && r.level == Common.LevelWin && r.apple == m.apple
    ensures |m.body| + 1 != SizeToWin && !HasEmptyCell(field) ==>
      r.state == GameOver && r.level == Common.LevelWin && r.apple == m.apple
    ensures |m.body| + 1 != SizeToWin && HasEmptyCell(field) ==>
      && r.state == m.state
      && InField(r.apple) && field[r.apple.0][r.apple.1] == 0
      && (r.level == m.level || r.level == m.level + 1)
      && (r.level == m.level + 1 <==> (m.score + 1) % 5 == 0 && m.level < MaxLevel)
  {
    var fed := Fed(m);
    if |fed.body| == SizeToWin then
      fed.(state := GameOver, level := Common.LevelWin)
    else
      GenerateApple(fed, field, roll)
  }

  /** One movement step. Only a running game moves. */
  function MoveOneStepForward(m: SnakeModel, field: Common.Grid, roll: nat): (r: SnakeModel)
    requires |m.body| > 0
    requires Common.IsField(field)
    ensures m.state != Running ==> r == m
    ensures m.state == Running ==>
      var d := UpdateDirection(m);
      var head := Advance(m.body[0], d.direction);
      && (!InField(head) || head in m.body ==>
            r == d.(state := GameOver, level := Common.LevelLoss))
      && (InField(head) && head !in m.body && head == m.apple ==>
            r == EatApple(d, field, roll))
      && (InField(head) && head !in m.body && head != m.apple ==>
            && |r.body| == |m.body|
            && r == d.(body := r.body)
            && r.body[0] == head
            && r.body[1..] == m.body[..|m.body| - 1])
  {
    if m.state != Running then
      m
    else
      var d := UpdateDirection(m);
      var head := Advance(d.body[0], d.direction);
      match CheckCollision(d, head)
      case WallHit | SnakeHit => d.(state := GameOver, level := Common.LevelLoss)
      case AppleHit => EatApple(d, field, roll)
      case NoHit => d.(body := [head] + d.body[..|d.body| - 1])
  }

  /* ---------------------------------------------------------------- */
  /* The state machine                                                 */
  /* ---------------------------------------------------------------- */

  /** Applies one user action. `cooldownElapsed` says whether the 50 ms gap
      after the previous processed tick has passed. */
  function Fsm(m: SnakeModel, action: Common.UserAction, cooldownElapsed: bool,
               field: Common.Grid, roll: nat): (r: SnakeModel)
    requires |m.body| > 0
    requires Common.IsField(field)
    ensures action == Common.Start ==>
      r == (if m.state == Ready then m.(state := Running, level := Common.Level1) else m)
    ensures action == Common.Pause ==>
      && (m.state == Running ==> r == m.(state := OnPause))
      && (m.state == OnPause ==> r == m.(state := Running))
      && (m.state != Running && m.state != OnPause ==> r == m)
    ensures action == Common.Terminate ==> r == m.(state := GameOver)
    ensures action == Common.Left ==> r == m.(nextDirection := Left)
    ensures action == Common.Right ==> r == m.(nextDirection := Right)
    ensures action == Common.Up ==> r == m.(nextDirection := Up)
    ensures action == Common.Down ==> r == m.(nextDirection := Down)
    ensures action == Common.Action && !(m.state == Running && cooldownElapsed) ==> r == m
    ensures action == Common.Action && m.state == Running && cooldownElapsed ==>
      r == MoveOneStepForward(m, field, roll)
  {
    match action
    case Start => if m.state == Ready then m.(state := Running, level := Common.Level1) else m
    case Pause =>
      if m.state == Running then m.(state := OnPause)
      else if m.state == OnPause then m.(state := Running)
      else m
    case Terminate => m.(state := GameOver)
    case Left => m.(nextDirection := Left)
    case Right => m.(nextDirection := Right)
    case Up => m.(nextDirection := Up)
    case Down => m.(nextDirection := Down)
    case Action =>
      if m.state == Running && cooldownElapsed then MoveOneStepForward(m, field, roll) else m
  }

  /* ---------------------------------------------------------------- */
  /* Construction                                                      */
  /* ---------------------------------------------------------------- */

  /** A fresh engine: a vertical snake of four cells in the middle column,
      head (row 8) first, facing up, level 0, and an apple drawn from a buffer
      that is still all zero, so any cell, a body cell included, may get it.
      `storedHighScore` is what the high-score file yields (0 when absent). */
  function Initial(storedHighScore: int, roll: nat): (r: SnakeModel)
    ensures r.body == [(8, 5), (9, 5), (10, 5), (11, 5)]
    ensures r.direction == Up && r.nextDirection == Up
    ensures InField(r.apple)
    ensures r.score == 0 && r.highScore == storedHighScore
    ensures r.level == Common.LevelStart && r.speed == 1 && r.state == Ready
  {
    var body := seq(InitialLength, i =>
      ((Common.FieldHeight - InitialLength) / 2 + i, Common.FieldWidth / 2));
    assert body[0] == (8, 5) && body[1] == (9, 5) && body[2] == (10, 5) && body[3] == (11, 5);
    assert body == [(8, 5), (9, 5), (10, 5), (11, 5)];
    var m := SnakeModel(body, Up, Up, (0, 0), 0, storedHighScore, Common.LevelStart, 1, Ready);
    var buffer := Common.ZeroGrid(Common.FieldHeight, Common.FieldWidth);
    assert buffer[0][0] == 0;
    GenerateApple(m, buffer, roll)
  }

  /* ---------------------------------------------------------------- */
  /* Snapshot                                                          */
  /* ---------------------------------------------------------------- */

  /** The render buffer: 0 everywhere, 1 on body cells, 2 on the apple (the
      apple is painted last, so it wins over a body cell). */
  function RenderField(m: SnakeModel): (f: Common.Grid)
    requires AllInField(m.body) && InField(m.apple)
    ensures Common.IsField(f)
    ensures forall r, c :: 0 <= r < Common.FieldHeight && 0 <= c < Common.FieldWidth ==>
      && (f[r][c] == ColorRed <==> (r, c) == m.apple)
      && (f[r][c] == ColorGreen <==> (r, c) != m.apple && (r, c) in m.body)
      && (f[r][c] == 0 <==> (r, c) != m.apple && (r, c) !in m.body)
  {
    seq(Common.FieldHeight, r => seq(Common.FieldWidth, c =>
      if (r, c) == m.apple then ColorRed
      else if (r, c) in m.body then ColorGreen
      else 0))
  }

  /** The render loops of the engine, in their order: clear, paint each
      body cell, paint the apple. */
  method PaintField(m: SnakeModel) returns (f: Common.Grid)
    requires AllInField(m.body) && InField(m.apple)
    ensures f == RenderField(m)
  {
    f := Common.ZeroGrid(Common.FieldHeight, Common.FieldWidth);
    var k := 0;
    while k < |m.body|
      invariant 0 <= k <= |m.body|
      invariant Common.IsField(f)
      invariant forall r, c :: 0 <= r < Common.FieldHeight && 0 <= c < Common.FieldWidth ==>
        f[r][c] == (if (r, c) in m.body[..k] then ColorGreen else 0)
    {
      var (row, col) := m.body[k];
      f := f[row := f[row][col := ColorGreen]];
      assert m.body[..k + 1] == m.body[..k] + [m.body[k]];
      k := k + 1;
    }
    assert m.body[..k] == m.body;
    f := f[m.apple.0 := f[m.apple.0][m.apple.1 := ColorRed]];
    assert forall r :: 0 <= r < Common.FieldHeight ==> f[r] == RenderField(m)[r];
  }

  /** The snapshot handed to a renderer. */
  function Snapshot(m: SnakeModel): (info: Common.GameInfo)
    requires AllInField(m.body) && InField(m.apple)
    ensures info.field == RenderField(m) && info.next == Common.None
    ensures info.score == m.score && info.highScore == m.highScore
    ensures info.level == m.level && info.speed == m.speed
    ensures info.pause <==> m.state == OnPause
  {
    Common.GameInfo(RenderField(m), Common.None, m.score, m.highScore, m.level, m.speed,
                    m.state == OnPause)
  }
}
