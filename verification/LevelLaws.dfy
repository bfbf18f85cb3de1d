// What the player sees of the rules of a level: which squares are uncovered, which
// fruit is gone, and when the level is won.
module LevelLaws {
  import opened Lattice
  import opened MazeGraph
  import opened MazeShape
  import opened MazeReady
  import opened Pixels
  import opened Motion
  import opened Drawing
  import opened Walking
  import opened Level

  function Abs(n: int): int { if n < 0 then -n else n }

  // k is the cell of a point of the map at most two steps away from (x,y).
  ghost predicate Near(d: Dims, x: int, y: int, k: int) {
    exists a, b :: 0 <= a <= 2 * d.x && 0 <= b <= 2 * d.y && Abs(a - x) + Abs(b - y) <= 2 && k == Idx(d, a, b)
  }

  // The player stands at a square, and k is near it, or is its cell.
  ghost predicate SeesFrom(d: Dims, s: Motion, k: int) { s.moveCnt == 0 && Near(d, SquareX(s), SquareY(s), k) }

  ghost predicate AtCell(d: Dims, s: Motion, k: int) { s.moveCnt == 0 && k == Idx(d, SquareX(s), SquareY(s)) }

  // A tick at a square uncovers what is near and eats the fruit there; a tick
  // between squares does nothing to the maze.
  lemma TickVisits(d: Dims, m: Grid, s: Motion, next: Heading, k: int)
    requires d.Legal() && MotionInv(d, m, s) && 0 <= k < MAZE_SIZE
    ensures var c := MazeAfter(d, m, s, next)[k];
      && c.wall == m[k].wall && c.exit == m[k].exit && (c.reach <==> m[k].reach || SeesFrom(d, s, k))
      && c.fruit == if AtCell(d, s, k) then 0 else m[k].fruit
  {
    var x, y := SquareX(s), SquareY(s);
    InvInside(d, m, s);
    PlayerPoint(d, s);
    TurnWaits(d, m, s, next);
    hide MotionInv, TurnBack, Idx;
    assert Near(d, x, y, k) <==> k in AroundCells(d, x, y) by { NearIsAround(d, x, y, k); }
  }

  lemma TurnWaits(d: Dims, m: Grid, s: Motion, next: Heading)
    requires d.Legal() && MotionInv(d, m, s)
    ensures TurnBack(s, next).moveCnt == 0 <==> s.moveCnt == 0
  {
    hide OpenPoint, WindowInv, InsideMap;
  }

  lemma NearIsAround(d: Dims, x: int, y: int, k: int)
    ensures Near(d, x, y, k) <==> k in AroundCells(d, x, y)
  {
    hide Idx;
  }

  // ----- a whole level -----

  // At one of the first n ticks of a run the player was at a square near k; at k.
  ghost predicate SawCell(d: Dims, m: Grid, s: Motion, inputs: Inputs, n: int, k: int)
    requires d.Legal() && Fenced(d, m) && MotionInv(d, m, s) && n <= |inputs|
  {
    exists i :: 0 <= i < n && SeesFrom(d, Run(d, m, s, inputs[..i]), k)
  }

  ghost predicate CameTo(d: Dims, m: Grid, s: Motion, inputs: Inputs, n: int, k: int)
    requires d.Legal() && Fenced(d, m) && MotionInv(d, m, s) && n <= |inputs|
  {
    exists i :: 0 <= i < n && AtCell(d, Run(d, m, s, inputs[..i]), k)
  }

  // The states of a run after its first tick are those of the rest of it.
  lemma LaterStates(d: Dims, m: Grid, m1: Grid, s: Motion, inputs: Inputs, n: int, k: int)
    requires d.Legal() && Fenced(d, m) && Fenced(d, m1) && MotionInv(d, m, s) && SameWalls(m, m1) && 0 < n <= |inputs|
    ensures InsideMap(d, s)
    ensures var s1 := Step(d, m1, s, inputs[0].0, inputs[0].1);
      && MotionInv(d, m1, s1)
      && (SawCell(d, m, s, inputs, n, k) <==> SeesFrom(d, s, k) || SawCell(d, m1, s1, inputs[1..], n - 1, k))
      && (CameTo(d, m, s, inputs, n, k) <==> AtCell(d, s, k) || CameTo(d, m1, s1, inputs[1..], n - 1, k))
  {
    hide Step, MotionInv, Fenced, SameWalls, SeesFrom, AtCell;
    InvInside(d, m, s);
    MotionOfWalls(d, m, m1, s);
    StepOfWalls(d, m, m1, s, inputs[0].0, inputs[0].1);
    StepKeeps(d, m, s, inputs[0].0, inputs[0].1);
    StepKeeps(d, m1, s, inputs[0].0, inputs[0].1);
    var s1 := Step(d, m1, s, inputs[0].0, inputs[0].1);
    forall i | 0 < i <= |inputs| ensures Run(d, m, s, inputs[..i]) == Run(d, m1, s1, inputs[1..][..i - 1]) {
      assert inputs[..i][0] == inputs[0] && inputs[..i][1..] == inputs[1..][..i - 1];
      RunOfWalls(d, m, m1, s1, inputs[1..][..i - 1]);
    }
    assert Run(d, m, s, inputs[..0]) == s;
    if i :| 0 <= i < n - 1 && SeesFrom(d, Run(d, m1, s1, inputs[1..][..i]), k) {
      assert Run(d, m, s, inputs[..i + 1]) == Run(d, m1, s1, inputs[1..][..i]);
    }
    if i :| 0 <= i < n - 1 && AtCell(d, Run(d, m1, s1, inputs[1..][..i]), k) {
      assert Run(d, m, s, inputs[..i + 1]) == Run(d, m1, s1, inputs[1..][..i]);
    }
  }

  // Over a whole level, won or not: exactly the cells near the squares the player has
  // been at are uncovered, and exactly the fruit on those squares is gone.
  lemma {:induction false} LevelVisits(d: Dims, m: Grid, s: Motion, inputs: Inputs, k: int)
    requires d.Legal() && Fenced(d, m) && MotionInv(d, m, s) && 0 <= k < MAZE_SIZE
    ensures var e := Play(d, m, s, inputs);
      && (e.m[k].reach <==> m[k].reach || SawCell(d, m, s, inputs, e.ticks, k))
      && e.m[k].fruit == if CameTo(d, m, s, inputs, e.ticks, k) then 0 else m[k].fruit
    decreases |inputs|
  {
    if inputs != [] {
      var input := inputs[0];
      var m1 := MazeAfter(d, m, s, input.0);
      VisitKeeps(d, m, s, input.0, input.1);
      TickVisits(d, m, s, input.0, k);
      var e := Play(d, m, s, inputs);
      LaterStates(d, m, m1, s, inputs, e.ticks, k);
      hide Step, MotionInv, Fenced, SameWalls, SeesFrom, AtCell, MazeAfter, WinsAt;
      if !WinsAt(d, m1, s, input.0) {
        hide SawCell, CameTo;
        LevelVisits(d, m1, Step(d, m1, s, input.0, input.1), inputs[1..], k);
      }
    }
  }

  // A level is won only at the exit and with no fruit left.
  lemma {:induction false} WonMeans(d: Dims, m: Grid, s: Motion, inputs: Inputs, ex: int, ey: int)
    requires d.Legal() && Fenced(d, m) && MotionInv(d, m, s) && OneExit(d, m, ex, ey)
    ensures var e := Play(d, m, s, inputs);
      e.won ==>
        && e.ticks > 0 && e.s.moveCnt == 0 && e.s.playX == ex * BLOCK_X_DIM && e.s.playY == ey * BLOCK_Y_DIM
        && forall k :: 0 <= k < MAZE_SIZE ==> e.m[k].fruit == 0
    decreases |inputs|
  {
    if inputs != [] {
      var input := inputs[0];
      var m1 := MazeAfter(d, m, s, input.0);
      VisitKeeps(d, m, s, input.0, input.1);
      ExitStays(d, m, m1, ex, ey);
      hide Step, MotionInv, Fenced, SameWalls, MazeAfter, OneExit;
      if WinsAt(d, m1, s, input.0) {
        TurnWaits(d, m, s, input.0);
        TurnStays(s, input.0);
        AtExit(d, m1, ex, ey, TurnBack(s, input.0));
        forall k | 0 <= k < MAZE_SIZE ensures m1[k].fruit == 0 { assert k !in Fruited(m1); }
        hide *;
      } else {
        WonMeans(d, m1, Step(d, m1, s, input.0, input.1), inputs[1..], ex, ey);
      }
    }
  }

  lemma TurnStays(s: Motion, next: Heading)
    ensures TurnBack(s, next).playX == s.playX && TurnBack(s, next).playY == s.playY
  {}

  lemma ExitStays(d: Dims, m: Grid, m': Grid, ex: int, ey: int)
    requires d.Legal() && OneExit(d, m, ex, ey) && SameWalls(m, m')
    ensures OneExit(d, m', ex, ey)
  {
    hide Idx, OddPoint;
  }

  // And it is won in the very tick that finds the player there with no other fruit
  // left.
  lemma WonAtOnce(d: Dims, m: Grid, s: Motion, inputs: Inputs, ex: int, ey: int)
    requires d.Legal() && Fenced(d, m) && MotionInv(d, m, s) && OneExit(d, m, ex, ey) && inputs != []
    requires s.moveCnt == 0 && s.playX == ex * BLOCK_X_DIM && s.playY == ey * BLOCK_Y_DIM
    requires forall k :: 0 <= k < MAZE_SIZE && k != Idx(d, ex, ey) ==> m[k].fruit == 0
    ensures Play(d, m, s, inputs).won && Play(d, m, s, inputs).ticks == 1
  {
    var next := inputs[0].0;
    var m1 := MazeAfter(d, m, s, next);
    VisitKeeps(d, m, s, next, inputs[0].1);
    ExitStays(d, m, m1, ex, ey);
    TurnWaits(d, m, s, next);
    InvInside(d, m, s);
    PlayerPoint(d, s);
    assert SquareX(s) == ex && SquareY(s) == ey;
    hide Step, MotionInv, Fenced, SameWalls, InsideMap, Idx;
    forall k | 0 <= k < MAZE_SIZE ensures m1[k].fruit == 0 { TickVisits(d, m, s, next, k); }
    hide MazeAfter, TurnBack;
    assert Fruited(m1) == {};
    assert WinsAt(d, m1, s, next);
  }
}
