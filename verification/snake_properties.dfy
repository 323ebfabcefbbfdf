/**
 Properties of the Snake engine that relate several calls: the state
 invariant every transition keeps, the length bound it implies, and the
 behaviour the engine's unit tests pin down.
 */
module SnakeProperties {
  import Common
  import opened Snake

  /** What every state reachable from construction satisfies: at least the
      initial four cells, all inside the field and pairwise different, and an
      apple inside the field. */
  predicate Inv(m: SnakeModel) {
    && InitialLength <= |m.body|
    && AllInField(m.body)
    && Distinct(m.body)
    && InField(m.apple)
  }

  lemma InitialSatisfiesInv(storedHighScore: int, roll: nat)
    ensures Inv(Initial(storedHighScore, roll))
  {
    var m := Initial(storedHighScore, roll);
    assert m.body == [(8, 5), (9, 5), (10, 5), (11, 5)];
  }

  lemma DistinctCons(x: Cell, s: seq<Cell>)
    requires Distinct(s) && x !in s
    ensures Distinct([x] + s)
  {
    var t := [x] + s;
    forall i, j | 0 <= i < j < |t|
      ensures t[i] != t[j]
    {
      if i == 0 {
        assert t[j] == s[j - 1];
      } else {
        assert t[i] == s[i - 1] && t[j] == s[j - 1];
      }
    }
  }

  /** One movement step keeps the invariant: the new head is never a wall or
      body cell, and an eaten apple leaves a new one inside the field. */
  lemma {:induction false} StepPreservesInv(m: SnakeModel, field: Common.Grid, roll: nat)
    requires Inv(m)
    requires Common.IsField(field)
    ensures Inv(MoveOneStepForward(m, field, roll))
  {
    if m.state == Running {
      var d := UpdateDirection(m);
      var head := Advance(m.body[0], d.direction);
      var r := MoveOneStepForward(m, field, roll);
      if InField(head) && head !in m.body {
        DistinctCons(head, m.body);
        if head != m.apple {
          var rest := m.body[..|m.body| - 1];
          assert r.body == [head] + rest;
          assert forall x :: x in rest ==> x in m.body;
          assert Distinct(rest);
          DistinctCons(head, rest);
        } else {
          assert r.body == [head] + m.body;
        }
      }
    }
  }

  /** Every user action keeps the invariant. */
  lemma FsmPreservesInv(m: SnakeModel, action: Common.UserAction, cooldownElapsed: bool,
                        field: Common.Grid, roll: nat)
    requires Inv(m)
    requires Common.IsField(field)
    ensures Inv(Fsm(m, action, cooldownElapsed, field, roll))
  {
    if action == Common.Action && m.state == Running && cooldownElapsed {
      StepPreservesInv(m, field, roll);
    }
  }

  /** A single action never lowers the high score. */
  lemma FsmKeepsHighScore(m: SnakeModel, action: Common.UserAction, cooldownElapsed: bool,
                          field: Common.Grid, roll: nat)
    requires |m.body| > 0
    requires Common.IsField(field)
    ensures Fsm(m, action, cooldownElapsed, field, roll).highScore >= m.highScore
  {
  }

  /** A step never turns the snake around: queued Down while moving Up still
      moves Up. */
  lemma StepNeverReverses(m: SnakeModel, field: Common.Grid, roll: nat)
    requires |m.body| > 0
    requires Common.IsField(field)
    requires m.state == Running
    ensures MoveOneStepForward(m, field, roll).direction != Opposite(m.direction)
  {
  }

  /* ---------------------------------------------------------------- */
  /* Length bound                                                      */
  /* ---------------------------------------------------------------- */

  function Elements(s: seq<int>): set<int> {
    set x | x in s
  }

  lemma {:induction false} DistinctElementsCount(s: seq<int>)
    requires Distinct(s)
    ensures |Elements(s)| == |s|
  {
    if |s| > 0 {
      var t := s[1..];
      assert Distinct(t);
      DistinctElementsCount(t);
      assert Elements(s) == {s[0]} + Elements(t);
      assert s[0] !in Elements(t);
    } else {
      assert Elements(s) == {};
    }
  }

  /** The integers 0 .. n-1. */
  function Range(n: nat): (r: set<int>)
    ensures forall k :: k in r <==> 0 <= k < n
  {
    if n == 0 then {} else Range(n - 1) + {n - 1}
  }

  lemma {:induction false} RangeCount(n: nat)
    ensures |Range(n)| == n
  {
    if n > 0 {
      RangeCount(n - 1);
      assert n - 1 !in Range(n - 1);
    }
  }

  lemma SubsetCount(a: set<int>, b: set<int>)
    requires a <= b
    ensures |a| <= |b|
  {
    assert b == a + (b - a);
  }

  /** Pairwise different cells of the field are at most as many as the
      field has cells. */
  lemma DistinctCellsBounded(s: seq<Cell>)
    requires AllInField(s) && Distinct(s)
    ensures |s| <= SizeToWin
  {
    var flats := seq(|s|, i requires 0 <= i < |s| => FlatIndex(s[i]));
    forall i, j | 0 <= i < j < |flats|
      ensures flats[i] != flats[j]
    {
      CellAtFlatIndex(s[i]);
      CellAtFlatIndex(s[j]);
    }
    DistinctElementsCount(flats);
    assert Elements(flats) <= Range(SizeToWin);
    SubsetCount(Elements(flats), Range(SizeToWin));
    RangeCount(SizeToWin);
  }

  /** The body never outgrows the field. */
  lemma BodyLengthBounded(m: SnakeModel)
    requires Inv(m)
    ensures InitialLength <= |m.body| <= SizeToWin
  {
    DistinctCellsBounded(m.body);
  }

  /* ---------------------------------------------------------------- */
  /* Scenarios of the engine's unit tests                            */
  /* ---------------------------------------------------------------- */

  /** A three-cell snake along row 0 with the apple below its middle: the
      snapshot paints the body 1 and the apple 2 and copies the counters. */
  lemma SnapshotScenario(m: SnakeModel)
    requires m.body == [(0, 0), (0, 1), (0, 2)] && m.apple == (1, 1)
    requires m.score == 123 && m.highScore == 666 && m.level == 3 && m.speed == 2
    requires m.state == Running
    ensures var info := Snapshot(m);
      && info.field[0][0] == ColorGreen && info.field[0][1] == ColorGreen
      && info.field[0][2] == ColorGreen && info.field[1][1] == ColorRed
      && info.score == 123 && info.highScore == 666 && info.level == 3 && info.speed == 2
      && !info.pause
  {
    assert (0, 0) in m.body && (0, 1) in m.body && (0, 2) in m.body;
  }

  /** A queued reversal is ignored; a queued turn is taken. */
  lemma UpdateDirectionScenario(m: SnakeModel)
    ensures UpdateDirection(m.(direction := Up, nextDirection := Down)).direction == Up
    ensures UpdateDirection(m.(direction := Up, nextDirection := Left)).direction == Left
    ensures UpdateDirection(m.(direction := Left, nextDirection := Right)).direction == Left
    ensures UpdateDirection(m.(direction := Down, nextDirection := Up)).direction == Down
    ensures UpdateDirection(m.(direction := Down, nextDirection := Right)).direction == Right
  {
  }

  /** Classification for a three-cell snake along row 0 with the apple at
      (1, 2). */
  lemma CheckCollisionScenario(m: SnakeModel)
    requires m.body == [(0, 0), (0, 1), (0, 2)] && m.apple == (1, 2)
    ensures CheckCollision(m, (0, 3)) == NoHit
    ensures CheckCollision(m, (0, 2)) == SnakeHit
    ensures CheckCollision(m, (-1, 2)) == WallHit
    ensures CheckCollision(m, (1, 2)) == AppleHit
  {
  }

  /** The initial snake, running, with the apple off row 7: one tick moves
      the head from row 8 to row 7, drops the tail and keeps four cells. */
  lemma StepScenario(m: SnakeModel, field: Common.Grid, roll: nat)
    requires Common.IsField(field)
    requires m.body == [(8, 5), (9, 5), (10, 5), (11, 5)]
    requires m.direction == Up && m.nextDirection == Up && m.state == Running
    requires m.apple.0 != 7
    ensures var r := Fsm(m, Common.Action, true, field, roll);
      && |r.body| == 4 && r.body[0] == (7, 5) && r.body[1..] == m.body[..3]
      && r.state == Running
  {
    assert (7, 5) !in m.body;
    var r := Fsm(m, Common.Action, true, field, roll);
    assert r == MoveOneStepForward(m, field, roll);
  }

  /** Start, pause and resume from a fresh engine: running at level 1,
      and the second pause undoes the first. */
  lemma StartPauseResumeScenario(storedHighScore: int, roll: nat, field: Common.Grid, roll2: nat)
    requires Common.IsField(field)
    ensures
      var m0 := Initial(storedHighScore, roll);
      var m1 := Fsm(m0, Common.Start, true, field, roll2);
      var m2 := Fsm(m1, Common.Pause, true, field, roll2);
      && m1 == m0.(state := Running, level := Common.Level1)
      && m2.state == OnPause
      && Fsm(m2, Common.Pause, true, field, roll2) == m1
  {
  }

  /** The initial snake, running, with the apple right above its head: one
      tick grows it onto the apple, and with a free cell left in the buffer
      the game goes on. */
  lemma EatScenario(m: SnakeModel, field: Common.Grid, roll: nat)
    requires Common.IsField(field) && field[0][0] == 0
    requires m.body == [(8, 5), (9, 5), (10, 5), (11, 5)]
    requires m.direction == Up && m.nextDirection == Up && m.state == Running
    requires m.apple == (7, 5) && m.score == 0
    ensures var r := Fsm(m, Common.Action, true, field, roll);
      && |r.body| == 5 && r.body[0] == (7, 5) && r.body[1..] == m.body
      && r.score == 1 && r.state == Running
  {
    assert (7, 5) !in m.body;
    var r := Fsm(m, Common.Action, true, field, roll);
    assert r == EatApple(UpdateDirection(m), field, roll);
  }

  /** A 199-cell body whose head is one step below the apple: the step eats
      it, reaches 200 cells and wins. */
  lemma WinScenario(m: SnakeModel, field: Common.Grid, roll: nat)
    requires Common.IsField(field)
    requires m.body == seq(199, i => (i + 1, 0))
    requires m.apple == (0, 0) && m.direction == Up && m.nextDirection == Up
    requires m.state == Running
    ensures
      var r := Fsm(m, Common.Action, true, field, roll);
      r.state == GameOver && r.level == Common.LevelWin && |r.body| == SizeToWin
  {
    assert (0, 0) !in m.body;
  }
}
