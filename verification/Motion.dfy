// The player's motion and the panning of the view (mazegame.c): what one tick of
// the game does to the numbers, and what every run keeps.
module Motion {
  import opened Lattice
  import opened MazeGraph
  import opened MazeShape
  import opened MazeReady
  import opened MazeDig
  import opened Pixels
  import opened MazeImage

  const SHOW_MIN := 6
  const PAN_BORDER := 5
  const MAX_LEVEL := 10
  const DIR_STOP := 4

  // A direction of motion, or DIR_STOP.
  type Heading = k: int | 0 <= k <= 4

  datatype Motion = Motion(mapX: int, mapY: int, playX: int, playY: int, dir: Heading, lastDir: Direction, moveCnt: int)

  function AlongX(dir: Heading, n: int): int { if dir == 1 then n else if dir == 3 then -n else 0 }

  function AlongY(dir: Heading, n: int): int { if dir == 2 then n else if dir == 0 then -n else 0 }

  predicate Backwards(a: Heading, b: Heading) {
    (a == 0 && b == 2) || (a == 2 && b == 0) || (a == 3 && b == 1) || (a == 1 && b == 3)
  }

  // An inside point that is not a wall.
  predicate OpenPoint(d: Dims, m: Grid, x: int, y: int)
    requires d.Legal()
  {
    Inside(d, x, y) && InMaze(d, x, y) && !m[Idx(d, x, y)].wall
  }

  // find_open_directions
  predicate OpenDir(d: Dims, m: Grid, x: int, y: int, dir: Direction)
    requires d.Legal() && Inside(d, x, y)
  {
    NextInMaze(d, x, y, dir);
    !m[Idx(d, x + AlongX(dir, 1), y + AlongY(dir, 1))].wall
  }

  lemma NextInMaze(d: Dims, x: int, y: int, dir: Direction)
    requires d.Legal() && Inside(d, x, y)
    ensures InMaze(d, x + AlongX(dir, 1), y + AlongY(dir, 1))
  {
    IdxBounds(d, x + AlongX(dir, 1), y + AlongY(dir, 1));
  }

  // The boundary is closed, so an open neighbour is inside.
  lemma OpenNeighbour(d: Dims, m: Grid, x: int, y: int, dir: Direction)
    requires d.Legal() && Fenced(d, m) && Inside(d, x, y) && OpenDir(d, m, x, y, dir)
    ensures OpenPoint(d, m, x + AlongX(dir, 1), y + AlongY(dir, 1))
  {
    var x', y' := x + AlongX(dir, 1), y + AlongY(dir, 1);
    NextInMaze(d, x, y, dir);
    IdxWrap(d, 0, y');
    hide Idx;
    assert InMaze(d, 0, y' + 1) && m[Idx(d, 0, y' + 1)].wall;
  }

  // ----- one tick -----

  // A turn backwards takes effect at once, in the middle of a square too.
  function TurnBack(s: Motion, next: Heading): Motion {
    if Backwards(s.dir, next) then
      s.(dir := next, moveCnt := if s.moveCnt > 0 then BLOCK_X_DIM - s.moveCnt else s.moveCnt)
    else s
  }

  // At a new square.  `stray` is what the array of open directions holds past
  // its end, read when no direction is asked for.
  function Choose(d: Dims, m: Grid, s: Motion, next: Heading, stray: bool): Motion
    requires d.Legal() && Inside(d, s.playX / BLOCK_X_DIM, s.playY / BLOCK_Y_DIM)
  {
    var x, y := s.playX / BLOCK_X_DIM, s.playY / BLOCK_Y_DIM;
    var dir := if (if next == DIR_STOP then stray else OpenDir(d, m, x, y, next)) then next else s.dir;
    if dir == DIR_STOP then s.(dir := DIR_STOP)
    else if !OpenDir(d, m, x, y, dir) then s.(dir := DIR_STOP)
    else s.(dir := dir, moveCnt := BLOCK_X_DIM)
  }

  // The last window position that shows the right (bottom) boundary.
  function MaxMapX(d: Dims): int { (2 * d.x + 1) * BLOCK_X_DIM - SHOW_MIN - SCROLL_X_DIM }

  function MaxMapY(d: Dims): int { (2 * d.y + 1) * BLOCK_Y_DIM - SHOW_MIN - SCROLL_Y_DIM }

  // move_up, move_right, move_down, move_left
  function Advance(d: Dims, s: Motion): Motion
    requires s.dir != DIR_STOP
  {
    var s1 := s.(lastDir := s.dir, moveCnt := s.moveCnt - 1, playX := s.playX + AlongX(s.dir, 1),
      playY := s.playY + AlongY(s.dir, 1));
    if s.dir == 0 then
      if s1.playY < s.mapY + BLOCK_Y_DIM * PAN_BORDER && s.mapY > SHOW_MIN then s1.(mapY := s.mapY - 1) else s1
    else if s.dir == 1 then
      if s1.playX > s.mapX + SCROLL_X_DIM - BLOCK_X_DIM * (PAN_BORDER + 1) && s.mapX < MaxMapX(d)
      then s1.(mapX := s.mapX + 1) else s1
    else if s.dir == 2 then
      if s1.playY > s.mapY + SCROLL_Y_DIM - BLOCK_Y_DIM * (PAN_BORDER + 1) && s.mapY < MaxMapY(d)
      then s1.(mapY := s.mapY + 1) else s1
    else
      if s1.playX < s.mapX + BLOCK_X_DIM * PAN_BORDER && s.mapX > SHOW_MIN then s1.(mapX := s.mapX - 1) else s1
  }

  function Decide(d: Dims, m: Grid, s: Motion, next: Heading, stray: bool): Motion
    requires d.Legal() && InsideMap(d, s)
  {
    var s1 := TurnBack(s, next);
    if s1.moveCnt == 0 then Choose(d, m, s1, next, stray) else s1
  }

  function Step(d: Dims, m: Grid, s: Motion, next: Heading, stray: bool): Motion
    requires d.Legal() && InsideMap(d, s)
  {
    var s2 := Decide(d, m, s, next, stray);
    if s2.dir != DIR_STOP then Advance(d, s2) else s2
  }

  // ----- the invariant -----

  predicate InsideMap(d: Dims, s: Motion) {
    BLOCK_X_DIM <= s.playX <= BLOCK_X_DIM * (d.W() - 1) && BLOCK_Y_DIM <= s.playY <= BLOCK_Y_DIM * (2 * d.y - 1)
  }

  // The window hides SHOW_MIN pixels of the map or more on every side.
  predicate WindowRange(d: Dims, mapX: int, mapY: int) {
    SHOW_MIN <= mapX <= MaxMapX(d) && SHOW_MIN <= mapY <= MaxMapY(d)
  }

  // Moreover the player is away from the border of the window unless the window
  // is as far as it goes.
  predicate WindowInv(d: Dims, s: Motion) {
    && WindowRange(d, s.mapX, s.mapY)
    && (s.playX >= s.mapX + BLOCK_X_DIM * PAN_BORDER || s.mapX == SHOW_MIN)
    && (s.playX <= s.mapX + SCROLL_X_DIM - BLOCK_X_DIM * (PAN_BORDER + 1) || s.mapX == MaxMapX(d))
    && (s.playY >= s.mapY + BLOCK_Y_DIM * PAN_BORDER || s.mapY == SHOW_MIN)
    && (s.playY <= s.mapY + SCROLL_Y_DIM - BLOCK_Y_DIM * (PAN_BORDER + 1) || s.mapY == MaxMapY(d))
  }

  // After moveCnt more steps the player stands on an open square; between squares
  // the one behind is open too.
  predicate OnTrack(d: Dims, m: Grid, s: Motion)
    requires d.Legal()
  {
    var tx, ty := s.playX + AlongX(s.dir, s.moveCnt), s.playY + AlongY(s.dir, s.moveCnt);
    && 0 <= s.moveCnt <= BLOCK_X_DIM && (s.moveCnt > 0 ==> s.dir != DIR_STOP)
    && tx % BLOCK_X_DIM == 0 && ty % BLOCK_Y_DIM == 0
    && OpenPoint(d, m, tx / BLOCK_X_DIM, ty / BLOCK_Y_DIM)
    && (s.moveCnt > 0 ==> OpenPoint(d, m, tx / BLOCK_X_DIM - AlongX(s.dir, 1), ty / BLOCK_Y_DIM - AlongY(s.dir, 1)))
  }

  predicate MotionInv(d: Dims, m: Grid, s: Motion)
    requires d.Legal()
  {
    InsideMap(d, s) && WindowInv(d, s) && OnTrack(d, m, s) && s.moveCnt < BLOCK_X_DIM
  }

  // The parameters of a level (level 1 is the first).
  function LevelDims(level: int): Dims {
    var x, y := MAZE_MIN_X_DIM + 2 * (level - 1), MAZE_MIN_Y_DIM + 2 * (level - 1);
    Dims(if x > MAZE_MAX_X_DIM then MAZE_MAX_X_DIM else x, if y > MAZE_MAX_Y_DIM then MAZE_MAX_Y_DIM else y)
  }

  function LevelFruits(level: int): int {
    var n := 1 + (level - 1) / 2;
    if n > 6 then 6 else n
  }

  // Every level asks for a legal maze with room for its fruit.
  lemma LevelLegal(level: int)
    requires level >= 1
    ensures LevelDims(level).Legal() && 1 <= LevelFruits(level) < LevelDims(level).x * LevelDims(level).y
  {
    var d := LevelDims(level);
    assert 14 * 8 <= d.x * 8 <= d.x * d.y;
  }

  // A new level: the player at (1,1), the window in the corner.
  const START := Motion(SHOW_MIN, SHOW_MIN, BLOCK_X_DIM, BLOCK_Y_DIM, DIR_STOP, 0, 0)

  lemma MotionStart(d: Dims, m: Grid)
    requires d.Legal() && OpenPoint(d, m, 1, 1)
    ensures MotionInv(d, m, START)
  {}

  lemma TurnKeeps(d: Dims, m: Grid, s: Motion, next: Heading)
    requires d.Legal() && MotionInv(d, m, s)
    ensures MotionInv(d, m, TurnBack(s, next))
  {
    hide OpenPoint;
  }

  lemma AtSquare(d: Dims, m: Grid, s: Motion)
    requires d.Legal() && MotionInv(d, m, s) && s.moveCnt == 0
    ensures OpenPoint(d, m, s.playX / BLOCK_X_DIM, s.playY / BLOCK_Y_DIM)
    ensures s.playX % BLOCK_X_DIM == 0 && s.playY % BLOCK_Y_DIM == 0
  {}

  // The player, standing on an open square, and the square chosen.
  lemma ChooseKeeps(d: Dims, m: Grid, s: Motion, next: Heading, stray: bool)
    requires d.Legal() && Fenced(d, m) && MotionInv(d, m, s) && s.moveCnt == 0
    ensures var s2 := Choose(d, m, s, next, stray);
      OnTrack(d, m, s2) && (s2.dir != DIR_STOP <==> s2.moveCnt > 0)
  {
    var x, y := s.playX / BLOCK_X_DIM, s.playY / BLOCK_Y_DIM;
    AtSquare(d, m, s);
    hide Fenced, WindowInv, OpenPoint, OpenDir, Choose, OnTrack, InsideMap;
    var s2 := Choose(d, m, s, next, stray);
    if s2.dir != DIR_STOP {
      ChosenOpen(d, m, s, next, stray);
      OpenNeighbour(d, m, x, y, s2.dir);
      OffOn(d, m, s, s2.dir);
    } else {
      ChosenStop(d, m, s, next, stray);
      StandsOn(d, m, s2);
    }
  }

  // From an open square to the open one next to it.
  lemma OffOn(d: Dims, m: Grid, s: Motion, dir: Direction)
    requires d.Legal() && s.playX % BLOCK_X_DIM == 0 && s.playY % BLOCK_Y_DIM == 0
    requires OpenPoint(d, m, s.playX / BLOCK_X_DIM, s.playY / BLOCK_Y_DIM)
    requires OpenPoint(d, m, s.playX / BLOCK_X_DIM + AlongX(dir, 1), s.playY / BLOCK_Y_DIM + AlongY(dir, 1))
    ensures OnTrack(d, m, s.(dir := dir, moveCnt := BLOCK_X_DIM))
  {
    OneSquareOn(s, dir);
    hide OpenPoint, AlongX, AlongY;
  }

  lemma StandsOn(d: Dims, m: Grid, s: Motion)
    requires d.Legal() && s.moveCnt == 0 && s.playX % BLOCK_X_DIM == 0 && s.playY % BLOCK_Y_DIM == 0
    requires OpenPoint(d, m, s.playX / BLOCK_X_DIM, s.playY / BLOCK_Y_DIM)
    ensures OnTrack(d, m, s)
  {
    hide OpenPoint;
  }

  // A block further on is the next square.
  lemma OneSquareOn(s: Motion, dir: Direction)
    requires s.playX % BLOCK_X_DIM == 0 && s.playY % BLOCK_Y_DIM == 0
    ensures var tx, ty := s.playX + AlongX(dir, BLOCK_X_DIM), s.playY + AlongY(dir, BLOCK_Y_DIM);
      && tx % BLOCK_X_DIM == 0 && ty % BLOCK_Y_DIM == 0
      && tx / BLOCK_X_DIM == s.playX / BLOCK_X_DIM + AlongX(dir, 1)
      && ty / BLOCK_Y_DIM == s.playY / BLOCK_Y_DIM + AlongY(dir, 1)
      && tx / BLOCK_X_DIM - AlongX(dir, 1) == s.playX / BLOCK_X_DIM
      && ty / BLOCK_Y_DIM - AlongY(dir, 1) == s.playY / BLOCK_Y_DIM
  {}

  lemma ChosenOpen(d: Dims, m: Grid, s: Motion, next: Heading, stray: bool)
    requires d.Legal() && Inside(d, s.playX / BLOCK_X_DIM, s.playY / BLOCK_Y_DIM)
    requires Choose(d, m, s, next, stray).dir != DIR_STOP
    ensures var s2 := Choose(d, m, s, next, stray);
      OpenDir(d, m, s.playX / BLOCK_X_DIM, s.playY / BLOCK_Y_DIM, s2.dir)
        && s2 == s.(dir := s2.dir, moveCnt := BLOCK_X_DIM)
  {}

  lemma ChosenStop(d: Dims, m: Grid, s: Motion, next: Heading, stray: bool)
    requires d.Legal() && Inside(d, s.playX / BLOCK_X_DIM, s.playY / BLOCK_Y_DIM)
    requires Choose(d, m, s, next, stray).dir == DIR_STOP
    ensures Choose(d, m, s, next, stray) == s.(dir := DIR_STOP)
  {}

  lemma DecideKeeps(d: Dims, m: Grid, s: Motion, next: Heading, stray: bool)
    requires d.Legal() && Fenced(d, m) && MotionInv(d, m, s)
    ensures var s2 := Decide(d, m, s, next, stray);
      InsideMap(d, s2) && WindowInv(d, s2) && OnTrack(d, m, s2) && (s2.dir != DIR_STOP <==> s2.moveCnt > 0)
  {
    var s1 := TurnBack(s, next);
    TurnKeeps(d, m, s, next);
    hide Fenced, WindowInv, OpenPoint, OpenDir, TurnBack;
    if s1.moveCnt == 0 {
      AtSquare(d, m, s1);
      ChooseKeeps(d, m, s1, next, stray);
      WindowOf(d, s1, Choose(d, m, s1, next, stray));
    }
  }

  lemma WindowOf(d: Dims, s: Motion, s': Motion)
    requires WindowInv(d, s) && s'.mapX == s.mapX && s'.mapY == s.mapY && s'.playX == s.playX && s'.playY == s.playY
    ensures WindowInv(d, s')
  {}

  lemma AdvanceKeeps(d: Dims, m: Grid, s: Motion)
    requires d.Legal() && InsideMap(d, s) && WindowInv(d, s) && OnTrack(d, m, s) && s.moveCnt > 0
    ensures MotionInv(d, m, Advance(d, s))
  {
    var tx, ty := s.playX + AlongX(s.dir, s.moveCnt), s.playY + AlongY(s.dir, s.moveCnt);
    assert Inside(d, tx / BLOCK_X_DIM, ty / BLOCK_Y_DIM);
    hide OpenPoint;
    assert WindowInv(d, Advance(d, s));
  }

  // Every tick keeps the invariant, whatever is asked for.
  lemma StepKeeps(d: Dims, m: Grid, s: Motion, next: Heading, stray: bool)
    requires d.Legal() && Fenced(d, m) && MotionInv(d, m, s)
    ensures MotionInv(d, m, Step(d, m, s, next, stray))
  {
    DecideKeeps(d, m, s, next, stray);
    var s2 := Decide(d, m, s, next, stray);
    hide OpenPoint, Fenced, Decide;
    if s2.dir != DIR_STOP {
      AdvanceKeeps(d, m, s2);
    }
  }

  // The state after a whole run of ticks.
  function Run(d: Dims, m: Grid, s: Motion, inputs: seq<(Heading, bool)>): Motion
    requires d.Legal() && Fenced(d, m) && MotionInv(d, m, s)
    decreases |inputs|
  {
    if inputs == [] then s
    else
      StepKeeps(d, m, s, inputs[0].0, inputs[0].1);
      Run(d, m, Step(d, m, s, inputs[0].0, inputs[0].1), inputs[1..])
  }

  // Whatever keys are pressed, for however long.
  lemma {:induction false} RunKeeps(d: Dims, m: Grid, s: Motion, inputs: seq<(Heading, bool)>)
    requires d.Legal() && Fenced(d, m) && MotionInv(d, m, s)
    ensures MotionInv(d, m, Run(d, m, s, inputs))
    decreases |inputs|
  {
    if inputs != [] {
      StepKeeps(d, m, s, inputs[0].0, inputs[0].1);
      RunKeeps(d, m, Step(d, m, s, inputs[0].0, inputs[0].1), inputs[1..]);
    }
  }

  // ----- what the invariant is for -----

  // The player's block is never clipped, so drawing and undrawing it is sound.
  lemma PlayerInSight(d: Dims, s: Motion)
    requires d.Legal() && InsideMap(d, s) && WindowInv(d, s)
    ensures Clip(s.mapX, s.mapY, s.playX, s.playY) == Clipped(s.playX, s.playY, BLOCK_X_DIM, BLOCK_Y_DIM)
    ensures Restorable(s.mapX, s.mapY, s.playX, s.playY)
  {}

  // Every pixel of the player is over a cell that is not a wall.
  lemma PlayerOnOpenCells(d: Dims, m: Grid, s: Motion, px: int, py: int)
    requires d.Legal() && MotionInv(d, m, s) && InBlock(s.playX, s.playY, px, py)
    ensures OpenPoint(d, m, px / BLOCK_X_DIM, py / BLOCK_Y_DIM)
  {
    var tx, ty := s.playX + AlongX(s.dir, s.moveCnt), s.playY + AlongY(s.dir, s.moveCnt);
    var x, y := tx / BLOCK_X_DIM, ty / BLOCK_Y_DIM;
    hide OpenPoint, WindowInv;
    assert (px / BLOCK_X_DIM == x && py / BLOCK_Y_DIM == y)
        || (s.moveCnt > 0 && px / BLOCK_X_DIM == x - AlongX(s.dir, 1) && py / BLOCK_Y_DIM == y - AlongY(s.dir, 1));
  }

  // Every pixel of the view is a pixel of the map.
  lemma WindowOnMap(d: Dims, mapX: int, mapY: int, px: int, py: int)
    requires d.Legal() && WindowRange(d, mapX, mapY) && InWindow(mapX, mapY, px, py)
    ensures MapPixel(d, px, py)
  {}

  // The left and the right boundary are the same cells one row apart.  Where the
  // player stands when one of them is unveiled, the other is out of sight.
  predicate AliasHidden(d: Dims, mapX: int, x: int) {
    (x == 0 ==> mapX + SCROLL_X_DIM <= d.W() * BLOCK_X_DIM) && (x == d.W() ==> mapX >= BLOCK_X_DIM)
  }

  lemma UnveilSafe(d: Dims, s: Motion, x: int)
    requires d.Legal() && InsideMap(d, s) && WindowInv(d, s) && -2 <= x - s.playX / BLOCK_X_DIM <= 2
    ensures AliasHidden(d, s.mapX, x)
  {}

  // The invariant depends on the walls alone.
  lemma MotionOfWalls(d: Dims, m: Grid, m': Grid, s: Motion)
    requires d.Legal() && SameWalls(m, m') && MotionInv(d, m, s)
    ensures MotionInv(d, m', s)
  {
    hide Idx, WindowInv, InsideMap;
  }

  lemma StepOfWalls(d: Dims, m: Grid, m': Grid, s: Motion, next: Heading, stray: bool)
    requires d.Legal() && InsideMap(d, s) && SameWalls(m, m')
    ensures Step(d, m, s, next, stray) == Step(d, m', s, next, stray)
  {
    hide Advance, Idx;
    var s1 := TurnBack(s, next);
    var x, y := s1.playX / BLOCK_X_DIM, s1.playY / BLOCK_Y_DIM;
    assert Inside(d, x, y) by { SquareInside(d, s1); }
    forall dir: Direction ensures OpenDir(d, m, x, y, dir) == OpenDir(d, m', x, y, dir) { NextInMaze(d, x, y, dir); }
    hide OpenDir;
  }

  lemma SquareInside(d: Dims, s: Motion)
    requires InsideMap(d, s)
    ensures Inside(d, s.playX / BLOCK_X_DIM, s.playY / BLOCK_Y_DIM)
  {}

  // One more tick at the end of a run.
  lemma {:induction false} RunSnoc(d: Dims, m: Grid, s: Motion, inputs: seq<(Heading, bool)>, last: (Heading, bool))
    requires d.Legal() && Fenced(d, m) && MotionInv(d, m, s)
    ensures MotionInv(d, m, Run(d, m, s, inputs))
    ensures Run(d, m, s, inputs + [last]) == Step(d, m, Run(d, m, s, inputs), last.0, last.1)
    decreases |inputs|
  {
    hide Step, MotionInv, Fenced;
    RunKeeps(d, m, s, inputs);
    if inputs == [] {
      assert inputs + [last] == [last];
      StepKeeps(d, m, s, last.0, last.1);
    } else {
      InvInside(d, m, s);
      StepKeeps(d, m, s, inputs[0].0, inputs[0].1);
      assert (inputs + [last])[1..] == inputs[1..] + [last];
      RunSnoc(d, m, Step(d, m, s, inputs[0].0, inputs[0].1), inputs[1..], last);
    }
  }

  // Fruit and mist do not influence the motion.
  lemma {:induction false} RunOfWalls(d: Dims, m: Grid, m': Grid, s: Motion, inputs: seq<(Heading, bool)>)
    requires d.Legal() && Fenced(d, m) && Fenced(d, m') && MotionInv(d, m, s) && SameWalls(m, m')
    ensures MotionInv(d, m', s) && Run(d, m, s, inputs) == Run(d, m', s, inputs)
    decreases |inputs|
  {
    hide Step, MotionInv, Fenced, SameWalls;
    MotionOfWalls(d, m, m', s);
    if inputs != [] {
      InvInside(d, m, s);
      StepOfWalls(d, m, m', s, inputs[0].0, inputs[0].1);
      StepKeeps(d, m, s, inputs[0].0, inputs[0].1);
      RunOfWalls(d, m, m', Step(d, m, s, inputs[0].0, inputs[0].1), inputs[1..]);
    }
  }

  lemma InvInside(d: Dims, m: Grid, s: Motion)
    requires d.Legal() && MotionInv(d, m, s)
    ensures InsideMap(d, s)
  {}

  lemma PlayerPoint(d: Dims, s: Motion)
    requires d.Legal() && InsideMap(d, s)
    ensures var x, y := s.playX / BLOCK_X_DIM, s.playY / BLOCK_Y_DIM;
      Inside(d, x, y) && InMaze(d, x, y)
  {
    SquareInside(d, s);
    InsideInMaze(d, s.playX / BLOCK_X_DIM, s.playY / BLOCK_Y_DIM);
  }
}
