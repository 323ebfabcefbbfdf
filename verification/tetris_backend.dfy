/**
 The Tetris backend: a 20 x 10 board of color codes, tetrominoes given as a
 4 x 4 mask per rotation, the collision tests, stamping a piece into the
 board, the full-row search and row shift used by line clearing, scoring,
 and the seven shape tables.
 */
module TetrisBackend {
  import Common

  const BoardRows := 20
  const BoardCols := 10
  const Tetraminos := 7

  const Score1 := 100
  const Score2 := 300
  const Score3 := 700
  const Score4 := 1500
  const MaxLevel := 10
  /** Points per level step in the level formula. */
  const PointsPerLevel := 600

  const ColorBlack := 0
  const ColorGreen := 1
  const ColorRed := 2
  const ColorYellow := 3
  const ColorBlue := 4
  const ColorCyan := 5
  const ColorMagenta := 6
  const ColorWhite := 7

  /** A shape: one 4 x 4 mask per rotation (rotations past maxRotation are
      all zero), the last valid rotation index, and the color it paints. */
  datatype Figure = Figure(sprite: seq<Common.Grid>, maxRotation: int, color: int)

  /** A piece on the board: the board position of its mask's top-left cell,
      its shape and its rotation index. */
  datatype Tetramino = Tetramino(row: int, col: int, figure: Figure, rotation: int)

  datatype Board = Board(cells: Common.Grid, current: Tetramino, next: Tetramino)

  datatype Stats = Stats(score: int, highScore: int, level: int)

  predicate IsBoard(cells: Common.Grid) {
    Common.IsGrid(cells, BoardRows, BoardCols)
  }

  predicate WfFigure(f: Figure) {
    && |f.sprite| == 4
    && (forall r :: 0 <= r < 4 ==> Common.IsGrid(f.sprite[r], 4, 4))
    && 0 <= f.maxRotation < 4
  }

  predicate WfPiece(p: Tetramino) {
    WfFigure(p.figure) && 0 <= p.rotation <= p.figure.maxRotation
  }

  /** Mask cell (i, j) of the piece's current rotation is occupied. */
  predicate Occupies(p: Tetramino, i: int, j: int)
    requires WfPiece(p)
  {
    0 <= i < 4 && 0 <= j < 4 && p.figure.sprite[p.rotation][i][j] != 0
  }

  /** Board cell (r, c) lies under an occupied mask cell of the piece. */
  predicate Covers(p: Tetramino, r: int, c: int)
    requires WfPiece(p)
  {
    Occupies(p, r - p.row, c - p.col)
  }

  /** Every covered cell lies on the board. */
  ghost predicate Inside(p: Tetramino)
    requires WfPiece(p)
  {
    forall r, c :: Covers(p, r, c) ==> 0 <= r < BoardRows && 0 <= c < BoardCols
  }

  /* ---------------------------------------------------------------- */
  /* Collision tests                                                   */
  /* ---------------------------------------------------------------- */

  /** Some occupied cell sticks out past the left border. */
  function LeftBorderCollide(p: Tetramino): (hit: bool)
    requires WfPiece(p)
    ensures hit <==> exists r, c :: Covers(p, r, c) && c < 0
  {
    exists r, c | p.row <= r < p.row + 4 && p.col <= c < p.col + 4 :: Covers(p, r, c) && c < 0
  }

  /** Some occupied cell sticks out past the right border. */
  function RightBorderCollide(p: Tetramino): (hit: bool)
    requires WfPiece(p)
    ensures hit <==> exists r, c :: Covers(p, r, c) && c > BoardCols - 1
  {
    exists r, c | p.row <= r < p.row + 4 && p.col <= c < p.col + 4 ::
      Covers(p, r, c) && c > BoardCols - 1
  }

  /** How the C code reads board[r][c]: the board is one contiguous array
      of 20 * 10 ints, so a column outside 0..9 lands on element r * 10 + c
      of a neighbouring row. An element outside the array is counted as
      occupied (see README). */
  predicate FlatOccupied(cells: Common.Grid, r: int, c: int)
    requires IsBoard(cells)
  {
    var k := r * BoardCols + c;
    0 <= k < BoardRows * BoardCols ==> cells[k / BoardCols][k % BoardCols] != 0
  }

  lemma FlatReadInRange(cells: Common.Grid, r: int, c: int)
    requires IsBoard(cells)
    requires 0 <= r < BoardRows && 0 <= c < BoardCols
    ensures FlatOccupied(cells, r, c) <==> cells[r][c] != 0
  {
    var k := r * BoardCols + c;
    assert k / BoardCols == r && k % BoardCols == c;
  }

  /** Some occupied cell is below the last row or on a nonzero board cell.
      Columns are not range-checked: they are read through the flat index. */
  function BoardCollide(p: Tetramino, cells: Common.Grid): (hit: bool)
    requires WfPiece(p) && IsBoard(cells)
    ensures hit <==> exists r, c :: Covers(p, r, c) && (r > BoardRows - 1 || FlatOccupied(cells, r, c))
    ensures (forall r, c :: Covers(p, r, c) ==> 0 <= r && 0 <= c < BoardCols) ==>
      (hit <==> exists r, c :: Covers(p, r, c) && (r > BoardRows - 1 || cells[r][c] != 0))
  {
    forall r, c | Covers(p, r, c) && 0 <= r < BoardRows && 0 <= c < BoardCols
      ensures FlatOccupied(cells, r, c) <==> cells[r][c] != 0
    {
      FlatReadInRange(cells, r, c);
    }
    exists r, c | p.row <= r < p.row + 4 && p.col <= c < p.col + 4 ::
      Covers(p, r, c) && (r > BoardRows - 1 || FlatOccupied(cells, r, c))
  }

  /* ---------------------------------------------------------------- */
  /* Attaching a piece                                                 */
  /* ---------------------------------------------------------------- */

  /** The board with the piece's color written at its occupied cells. */
  function Attach(cells: Common.Grid, p: Tetramino): (res: Common.Grid)
    requires IsBoard(cells) && WfPiece(p) && Inside(p)
    ensures IsBoard(res)
    ensures forall r, c :: Covers(p, r, c) ==> res[r][c] == p.figure.color
    ensures forall r, c :: 0 <= r < BoardRows && 0 <= c < BoardCols && !Covers(p, r, c) ==>
      res[r][c] == cells[r][c]
  {
    seq(BoardRows, r requires 0 <= r < BoardRows => seq(BoardCols, c requires 0 <= c < BoardCols =>
      if Covers(p, r, c) then p.figure.color else cells[r][c]))
  }

  /** Mask cell (i0, j0) comes before (i, j) in the loops' order. */
  predicate Before(i0: int, j0: int, i: int, j: int) {
    i0 < i || (i0 == i && j0 < j)
  }

  /** The C code's loops over the 16 mask cells, writing the color at
      every occupied one. */
  method AttachTetramino(cells: Common.Grid, p: Tetramino) returns (res: Common.Grid)
    requires IsBoard(cells) && WfPiece(p) && Inside(p)
    ensures res == Attach(cells, p)
  {
    res := cells;
    for i := 0 to 4
      invariant IsBoard(res)
      invariant forall r, c :: 0 <= r < BoardRows && 0 <= c < BoardCols ==>
        res[r][c] == if Covers(p, r, c) && Before(r - p.row, c - p.col, i, 0) then p.figure.color else cells[r][c]
    {
      for j := 0 to 4
        invariant IsBoard(res)
        invariant forall r, c :: 0 <= r < BoardRows && 0 <= c < BoardCols ==>
          res[r][c] == if Covers(p, r, c) && Before(r - p.row, c - p.col, i, j) then p.figure.color else cells[r][c]
      {
        if p.figure.sprite[p.rotation][i][j] != 0 {
          assert Covers(p, p.row + i, p.col + j);
          res := res[p.row + i := res[p.row + i][p.col + j := p.figure.color]];
        }
      }
    }
    assert forall r :: 0 <= r < BoardRows ==> res[r] == Attach(cells, p)[r];
  }

  /* ---------------------------------------------------------------- */
  /* Full rows                                                         */
  /* ---------------------------------------------------------------- */

  /** Number of nonzero cells in a row. */
  function FilledCount(row: seq<int>): nat {
    if |row| == 0 then 0 else (if row[0] != 0 then 1 else 0) + FilledCount(row[1..])
  }

  lemma {:induction false} FilledCountAll(row: seq<int>)
    ensures FilledCount(row) <= |row|
    ensures FilledCount(row) == |row| <==> forall c :: 0 <= c < |row| ==> row[c] != 0
  {
    if |row| > 0 {
      FilledCountAll(row[1..]);
      assert forall c :: 1 <= c < |row| ==> row[c] == row[1..][c - 1];
    }
  }

  /** A row is full when its filled count equals the board width. */
  predicate FullRow(row: seq<int>) {
    FilledCount(row) == BoardCols
  }

  lemma FullRowHasNoEmptyCell(row: seq<int>)
    requires |row| == BoardCols
    ensures FullRow(row) <==> forall c :: 0 <= c < BoardCols ==> row[c] != 0
  {
    FilledCountAll(row);
  }

  function FirstFullRowFrom(cells: Common.Grid, k: int): (r: int)
    requires IsBoard(cells) && 0 <= k <= BoardRows
    ensures r == -1 || k <= r < BoardRows
    ensures r == -1 <==> forall q :: k <= q < BoardRows ==> !FullRow(cells[q])
    ensures r >= 0 ==> FullRow(cells[r]) && forall q :: k <= q < r ==> !FullRow(cells[q])
    decreases BoardRows - k
  {
    if k == BoardRows then -1
    else if FullRow(cells[k]) then k
    else FirstFullRowFrom(cells, k + 1)
  }

  /** Index of the topmost full row, or -1 when there is none. (The
      C header calls the result a count; it is an index.) */
  function FindFullRows(cells: Common.Grid): (r: int)
    requires IsBoard(cells)
    ensures -1 <= r < BoardRows
    ensures r == -1 <==> forall q :: 0 <= q < BoardRows ==> !FullRow(cells[q])
    ensures r >= 0 ==> FullRow(cells[r]) && forall q :: 0 <= q < r ==> !FullRow(cells[q])
  {
    FirstFullRowFrom(cells, 0)
  }

  /** Copies every row 1..n from the row above it. Row 0 keeps its content
      and rows below n are untouched. */
  function ShiftBoard(cells: Common.Grid, n: int): (res: Common.Grid)
    requires IsBoard(cells) && n < BoardRows
    ensures IsBoard(res)
    ensures res[0] == cells[0]
    ensures forall k :: 1 <= k <= n ==> res[k] == cells[k - 1]
    ensures forall k :: 0 <= k < BoardRows && n < k ==> res[k] == cells[k]
  {
    seq(BoardRows, k requires 0 <= k < BoardRows => if 1 <= k <= n then cells[k - 1] else cells[k])
  }

  /** Shifting at row n deletes row n and duplicates row 0 on top. */
  lemma ShiftDeletesRow(cells: Common.Grid, n: int)
    requires IsBoard(cells) && 1 <= n < BoardRows
    ensures ShiftBoard(cells, n) == [cells[0]] + cells[..n] + cells[n + 1..]
  {
    var res := ShiftBoard(cells, n);
    var expected := [cells[0]] + cells[..n] + cells[n + 1..];
    assert |expected| == BoardRows;
    forall k | 0 <= k < BoardRows
      ensures res[k] == expected[k]
    {
      if 1 <= k <= n {
        assert expected[k] == cells[..n][k - 1];
      } else if k > n {
        assert expected[k] == cells[n + 1..][k - n - 1];
      }
    }
  }

  /** Number of full rows. */
  function FullCount(rows: seq<seq<int>>): nat {
    if |rows| == 0 then 0 else (if FullRow(rows[0]) then 1 else 0) + FullCount(rows[1..])
  }

  lemma {:induction false} FullCountAppend(a: seq<seq<int>>, b: seq<seq<int>>)
    ensures FullCount(a + b) == FullCount(a) + FullCount(b)
  {
    if |a| > 0 {
      assert (a + b)[1..] == a[1..] + b;
      FullCountAppend(a[1..], b);
    } else {
      assert a + b == b;
    }
  }

  lemma FullCountSingle(row: seq<int>)
    ensures FullCount([row]) == if FullRow(row) then 1 else 0
  {
    assert [row][1..] == [];
  }

  /** The full rows of a board are those above row n, row n itself, and
      those below it. */
  lemma FullCountSplit(cells: seq<seq<int>>, n: int)
    requires 0 <= n < |cells|
    ensures FullCount(cells) == FullCount(cells[..n]) + FullCount([cells[n]]) + FullCount(cells[n + 1..])
  {
    assert cells == cells[..n] + [cells[n]] + cells[n + 1..];
    FullCountAppend(cells[..n] + [cells[n]], cells[n + 1..]);
    FullCountAppend(cells[..n], [cells[n]]);
  }

  /** Shifting at the topmost full row, when that row is not row 0, leaves
      exactly one full row fewer. */
  lemma ShiftLowersFullCount(cells: Common.Grid, n: int)
    requires IsBoard(cells) && 1 <= n < BoardRows
    requires n == FindFullRows(cells)
    ensures FullCount(ShiftBoard(cells, n)) == FullCount(cells) - 1
  {
    assert !FullRow(cells[0]) && FullRow(cells[n]);
    FullCountSingle(cells[0]);
    FullCountSingle(cells[n]);
    FullCountSplit(cells, n);
    ShiftDeletesRow(cells, n);
    FullCountAppend([cells[0]] + cells[..n], cells[n + 1..]);
    FullCountAppend([cells[0]], cells[..n]);
  }

  /* ---------------------------------------------------------------- */
  /* Line clearing                                                     */
  /* ---------------------------------------------------------------- */

  datatype Cleared = Cleared(cells: Common.Grid, removed: nat)

  /** The clearing loop of the attaching state: while the topmost full row
      has index 1 or more, shift at it and count. A full row 0 stops the
      loop, whatever lies below. Each round removes one full row. */
  function ClearRows(cells: Common.Grid): (res: Cleared)
    requires IsBoard(cells)
    ensures IsBoard(res.cells)
    ensures FindFullRows(res.cells) == -1 || FindFullRows(res.cells) == 0
    ensures res.cells[0] == cells[0]
    ensures res.removed + FullCount(res.cells) == FullCount(cells)
    decreases FullCount(cells)
  {
    var top := FindFullRows(cells);
    if top == 0 || top == -1 then
      Cleared(cells, 0)
    else
      ShiftLowersFullCount(cells, top);
      var rest := ClearRows(ShiftBoard(cells, top));
      Cleared(rest.cells, rest.removed + 1)
  }

  /** The rows of a board that are not full, top to bottom. */
  function NonFullRows(rows: seq<seq<int>>): seq<seq<int>> {
    if |rows| == 0 then []
    else (if FullRow(rows[0]) then [] else [rows[0]]) + NonFullRows(rows[1..])
  }

  lemma {:induction false} NonFullRowsAppend(a: seq<seq<int>>, b: seq<seq<int>>)
    ensures NonFullRows(a + b) == NonFullRows(a) + NonFullRows(b)
  {
    if |a| > 0 {
      assert (a + b)[1..] == a[1..] + b;
      NonFullRowsAppend(a[1..], b);
    } else {
      assert a + b == b;
    }
  }

  lemma {:induction false} NonFullRowsOfNoFull(rows: seq<seq<int>>)
    requires forall q :: 0 <= q < |rows| ==> !FullRow(rows[q])
    ensures NonFullRows(rows) == rows
  {
    if |rows| > 0 {
      NonFullRowsOfNoFull(rows[1..]);
    }
  }

  function Repeat(row: seq<int>, n: nat): (res: seq<seq<int>>)
    ensures |res| == n && forall k :: 0 <= k < n ==> res[k] == row
  {
    seq(n, _ => row)
  }

  /** When row 0 is not full, clearing removes every full row, keeps the
      other rows in order, and fills the top with copies of row 0 (the
      C code never blanks row 0). */
  lemma {:induction false} ClearRowsCompacts(cells: Common.Grid)
    requires IsBoard(cells)
    requires !FullRow(cells[0])
    ensures var res := ClearRows(cells);
      && res.cells == Repeat(cells[0], res.removed) + NonFullRows(cells)
      && res.removed == FullCount(cells)
      && FullCount(res.cells) == 0
    decreases FullCount(cells)
  {
    var top := FindFullRows(cells);
    if top == -1 {
      ClearRowsWithoutFullRows(cells);
    } else {
      var shifted := ShiftBoard(cells, top);
      ShiftLowersFullCount(cells, top);
      ClearRowsCompacts(shifted);
      var rest := ClearRows(shifted);
      var c0 := cells[0];
      assert ClearRows(cells) == Cleared(rest.cells, rest.removed + 1);
      NonFullRowsAfterShift(cells, top);
      assert rest.cells == Repeat(c0, rest.removed) + ([c0] + NonFullRows(cells));
      RepeatSnoc(c0, rest.removed);
      AppendAssoc(Repeat(c0, rest.removed), [c0], NonFullRows(cells));
    }
  }

  lemma AppendAssoc(a: seq<seq<int>>, b: seq<seq<int>>, c: seq<seq<int>>)
    ensures a + (b + c) == (a + b) + c
  {
  }

  lemma ClearRowsWithoutFullRows(cells: Common.Grid)
    requires IsBoard(cells)
    requires FindFullRows(cells) == -1
    ensures ClearRows(cells) == Cleared(cells, 0)
    ensures cells == Repeat(cells[0], 0) + NonFullRows(cells)
    ensures FullCount(cells) == 0
  {
    NonFullRowsOfNoFull(cells);
    FullCountOfNoFull(cells);
    assert Repeat(cells[0], 0) + cells == cells;
  }

  /** Shifting at a full row other than row 0, with row 0 not full, leaves
      the non-full rows with one more copy of row 0 on top. */
  lemma NonFullRowsAfterShift(cells: Common.Grid, n: int)
    requires IsBoard(cells) && 1 <= n < BoardRows
    requires FullRow(cells[n]) && !FullRow(cells[0])
    ensures NonFullRows(ShiftBoard(cells, n)) == [cells[0]] + NonFullRows(cells)
  {
    var above, below := cells[..n], cells[n + 1..];
    ShiftDeletesRow(cells, n);
    assert cells == above + [cells[n]] + below;
    NonFullRowsAppend(above + [cells[n]], below);
    NonFullRowsAppend(above, [cells[n]]);
    NonFullRowsSingle(cells[n]);
    NonFullRowsAppend([cells[0]] + above, below);
    NonFullRowsAppend([cells[0]], above);
    NonFullRowsSingle(cells[0]);
  }

  lemma NonFullRowsSingle(row: seq<int>)
    ensures NonFullRows([row]) == if FullRow(row) then [] else [row]
  {
    assert [row][1..] == [];
  }

  lemma RepeatSnoc(row: seq<int>, n: nat)
    ensures Repeat(row, n) + [row] == Repeat(row, n + 1)
  {
  }

  lemma {:induction false} FullCountOfNoFull(rows: seq<seq<int>>)
    requires forall q :: 0 <= q < |rows| ==> !FullRow(rows[q])
    ensures FullCount(rows) == 0
  {
    if |rows| > 0 {
      FullCountOfNoFull(rows[1..]);
    }
  }

  /** A full row 0 stops the clearing loop at once: nothing is removed, even
      when rows below are full. */
  lemma ClearRowsStopsAtFullTopRow(cells: Common.Grid)
    requires IsBoard(cells)
    requires FullRow(cells[0])
    ensures ClearRows(cells) == Cleared(cells, 0)
  {
  }

  /* ---------------------------------------------------------------- */
  /* Score and level                                                   */
  /* ---------------------------------------------------------------- */

  /** C integer division, truncating toward zero. */
  function CDiv(a: int, b: int): int
    requires b > 0
  {
    if a >= 0 then a / b else -((-a) / b)
  }

  /** Adds the points for the rows removed in one attach, raises the high
      score, and recomputes the level from the score. */
  function UpdateScore(s: Stats, rowsRemoved: int): (r: Stats)
    ensures rowsRemoved == 1 ==> r.score == s.score + 100
    ensures rowsRemoved == 2 ==> r.score == s.score + 300
    ensures rowsRemoved == 3 ==> r.score == s.score + 700
    ensures rowsRemoved == 4 ==> r.score == s.score + 1500
    ensures (rowsRemoved < 1 || rowsRemoved > 4) ==> r.score == s.score
    ensures r.highScore == Common.Max(s.highScore, r.score)
    ensures r.level <= MaxLevel
    ensures r.score >= 0 ==>
      && 1 <= r.level
      && (r.level < MaxLevel ==>
            PointsPerLevel * (r.level - 1) <= r.score < PointsPerLevel * r.level)
      && (r.level == MaxLevel ==> PointsPerLevel * (MaxLevel - 1) <= r.score)
  {
    var points :=
      match rowsRemoved
      case 1 => Score1
      case 2 => Score2
      case 3 => Score3
      case 4 => Score4
      case _ => 0;
    var score := s.score + points;
    var high := if score > s.highScore then score else s.highScore;
    var level := CDiv(score, PointsPerLevel) + 1;
    Stats(score, high, if level > MaxLevel then MaxLevel else level)
  }

  /* ---------------------------------------------------------------- */
  /* Shapes                                                            */
  /* ---------------------------------------------------------------- */

  /** The empty 4 x 4 mask. */
  const EmptyMask := Common.ZeroGrid(4, 4)

  /** One mask per listed rotation; the remaining masks of the four are empty. */
  function SpriteOf(rotations: seq<Common.Grid>): (s: seq<Common.Grid>)
    requires |rotations| <= 4
    ensures |s| == 4
    ensures forall r :: 0 <= r < |rotations| ==> s[r] == rotations[r]
    ensures forall r :: |rotations| <= r < 4 ==> s[r] == EmptyMask
  {
    rotations + seq(4 - |rotations|, _ => EmptyMask)
  }

  /* The rotations of each shape, one 4 x 4 mask each (1 = occupied). */
  const ShapeI: seq<Common.Grid> := [[[0, 1, 0, 0],
                                      [0, 1, 0, 0],
                                      [0, 1, 0, 0],
                                      [0, 1, 0, 0]],
                                     [[0, 0, 0, 0],
                                      [1, 1, 1, 1],
                                      [0, 0, 0, 0],
                                      [0, 0, 0, 0]]]

  const ShapeZ: seq<Common.Grid> := [[[1, 1, 0, 0],
                                      [0, 1, 1, 0],
                                      [0, 0, 0, 0],
                                      [0, 0, 0, 0]],
                                     [[0, 1, 0, 0],
                                      [1, 1, 0, 0],
                                      [1, 0, 0, 0],
                                      [0, 0, 0, 0]]]

  const ShapeS: seq<Common.Grid> := [[[0, 1, 1, 0],
                                      [1, 1, 0, 0],
                                      [0, 0, 0, 0],
                                      [0, 0, 0, 0]],
                                     [[1, 0, 0, 0],
                                      [1, 1, 0, 0],
                                      [0, 1, 0, 0],
                                      [0, 0, 0, 0]]]

  const ShapeT: seq<Common.Grid> := [[[0, 1, 0, 0],
                                      [1, 1, 1, 0],
                                      [0, 0, 0, 0],
                                      [0, 0, 0, 0]],
                                     [[0, 1, 0, 0],
                                      [0, 1, 1, 0],
                                      [0, 1, 0, 0],
                                      [0, 0, 0, 0]],
                                     [[0, 0, 0, 0],
                                      [1, 1, 1, 0],
                                      [0, 1, 0, 0],
                                      [0, 0, 0, 0]],
                                     [[0, 1, 0, 0],
                                      [1, 1, 0, 0],
                                      [0, 1, 0, 0],
                                      [0, 0, 0, 0]]]

  const ShapeL: seq<Common.Grid> := [[[0, 1, 0, 0],
                                      [0, 1, 0, 0],
                                      [0, 1, 1, 0],
                                      [0, 0, 0, 0]],
                                     [[0, 0, 0, 0],
                                      [1, 1, 1, 0],
                                      [1, 0, 0, 0],
                                      [0, 0, 0, 0]],
                                     [[1, 1, 0, 0],
                                      [0, 1, 0, 0],
                                      [0, 1, 0, 0],
                                      [0, 0, 0, 0]],
                                     [[0, 0, 1, 0],
                                      [1, 1, 1, 0],
                                      [0, 0, 0, 0],
                                      [0, 0, 0, 0]]]

  const ShapeJ: seq<Common.Grid> := [[[0, 1, 0, 0],
                                      [0, 1, 0, 0],
                                      [1, 1, 0, 0],
                                      [0, 0, 0, 0]],
                                     [[1, 0, 0, 0],
                                      [1, 1, 1, 0],
                                      [0, 0, 0, 0],
                                      [0, 0, 0, 0]],
                                     [[1, 1, 0, 0],
                                      [1, 0, 0, 0],
                                      [1, 0, 0, 0],
                                      [0, 0, 0, 0]],
                                     [[0, 0, 0, 0],
                                      [1, 1, 1, 0],
                                      [0, 0, 1, 0],
                                      [0, 0, 0, 0]]]

  const ShapeO: seq<Common.Grid> := [[[1, 1, 0, 0],
                                      [1, 1, 0, 0],
                                      [0, 0, 0, 0],
                                      [0, 0, 0, 0]]]

  /** The seven shapes, in table order: I, Z, S, T, L, J, O. */
  const Figures: seq<Figure> := [
    Figure(SpriteOf(ShapeI), 1, ColorCyan),
    Figure(SpriteOf(ShapeZ), 1, ColorRed),
    Figure(SpriteOf(ShapeS), 1, ColorGreen),
    Figure(SpriteOf(ShapeT), 3, ColorMagenta),
    Figure(SpriteOf(ShapeL), 3, ColorWhite),
    Figure(SpriteOf(ShapeJ), 3, ColorBlue),
    Figure(SpriteOf(ShapeO), 0, ColorYellow)
  ]

  /** The zero-initialised shape a board starts with before the first spawn. */
  const EmptyFigure := Figure(SpriteOf([]), 0, ColorBlack)

  function Bit(v: int): nat {
    if v != 0 then 1 else 0
  }

  function RowBits(row: seq<int>): nat
    requires |row| == 4
  {
    Bit(row[0]) + Bit(row[1]) + Bit(row[2]) + Bit(row[3])
  }

  /** Number of occupied cells of a 4 x 4 mask. */
  function MaskCount(g: Common.Grid): nat
    requires Common.IsGrid(g, 4, 4)
  {
    RowBits(g[0]) + RowBits(g[1]) + RowBits(g[2]) + RowBits(g[3])
  }

  /** Masks of four occupied cells each. */
  predicate Tetrominoes(rotations: seq<Common.Grid>) {
    forall r :: 0 <= r < |rotations| ==> Common.IsGrid(rotations[r], 4, 4) && MaskCount(rotations[r]) == 4
  }

  /** One entry of the shape table: 1, 2 or 4 rotations, each made of
      exactly four cells, a visible color, and empty masks past the last
      rotation. */
  predicate GoodFigure(f: Figure) {
    && WfFigure(f)
    && f.maxRotation in {0, 1, 3}
    && f.color != ColorBlack
    && (forall r :: 0 <= r <= f.maxRotation ==> MaskCount(f.sprite[r]) == 4)
    && (forall r :: f.maxRotation < r < 4 ==> MaskCount(f.sprite[r]) == 0)
  }

  /** A shape built from 1, 2 or 4 rotations of four cells each is good. */
  lemma GoodSprite(rotations: seq<Common.Grid>, color: int)
    requires |rotations| in {1, 2, 4}
    requires Tetrominoes(rotations)
    requires color != ColorBlack
    ensures GoodFigure(Figure(SpriteOf(rotations), |rotations| - 1, color))
  {
    assert MaskCount(EmptyMask) == 0;
  }

  /** Each table entry is good, one shape at a time. */
  lemma ShapeIGood()
    ensures GoodFigure(Figures[0])
  {
    assert Tetrominoes(ShapeI);
    GoodSprite(ShapeI, ColorCyan);
  }

  lemma ShapeZGood()
    ensures GoodFigure(Figures[1])
  {
    assert Tetrominoes(ShapeZ);
    GoodSprite(ShapeZ, ColorRed);
  }

  lemma ShapeSGood()
    ensures GoodFigure(Figures[2])
  {
    assert Tetrominoes(ShapeS);
    GoodSprite(ShapeS, ColorGreen);
  }

  lemma ShapeTGood()
    ensures GoodFigure(Figures[3])
  {
    assert Tetrominoes(ShapeT);
    GoodSprite(ShapeT, ColorMagenta);
  }

  lemma ShapeLGood()
    ensures GoodFigure(Figures[4])
  {
    assert Tetrominoes(ShapeL);
    GoodSprite(ShapeL, ColorWhite);
  }

  lemma ShapeJGood()
    ensures GoodFigure(Figures[5])
  {
    assert Tetrominoes(ShapeJ);
    GoodSprite(ShapeJ, ColorBlue);
  }

  lemma ShapeOGood()
    ensures GoodFigure(Figures[6])
  {
    assert Tetrominoes(ShapeO);
    GoodSprite(ShapeO, ColorYellow);
  }

  /** The whole shape table is well formed. */
  lemma FiguresShape()
    ensures |Figures| == Tetraminos
    ensures forall k :: 0 <= k < Tetraminos ==> GoodFigure(Figures[k])
  {
    ShapeIGood();
    ShapeZGood();
    ShapeSGood();
    ShapeTGood();
    ShapeLGood();
    ShapeJGood();
    ShapeOGood();
    forall k | 0 <= k < Tetraminos
      ensures GoodFigure(Figures[k])
    {
      assert k in {0, 1, 2, 3, 4, 5, 6};
    }
  }

  /** The next piece: shape number roll mod 7 (the C code's rand() % 7),
      rotation 0, at row 0 and column 4. */
  function GenNextTetramino(roll: nat): (p: Tetramino)
    ensures WfPiece(p) && Inside(p)
    ensures p.figure in Figures
    ensures p.row == 0 && p.col == BoardCols / 2 - 1 && p.rotation == 0
  {
    FiguresShape();
    Tetramino(0, BoardCols / 2 - 1, Figures[roll % Tetraminos], 0)
  }

  /** Every shape can come next. */
  lemma GenNextReachesEveryFigure(k: int)
    requires 0 <= k < Tetraminos
    ensures GenNextTetramino(k).figure == Figures[k]
  {
    Common.ModOfSmaller(k, Tetraminos);
  }
}
