// What the player sees of the motion rules, in coordinates.
module MotionLaws {
  import opened Arith
  import opened Lattice
  import opened MazeGraph
  import opened MazeShape
  import opened MazeReady
  import opened MazeDig
  import opened Pixels
  import opened Motion
  import opened Walking

  // From s to t the player has gone n pixels up, right, down or left.
  predicate WentBy(s: Motion, t: Motion, dir: Heading, n: int) {
    && (dir == 0 ==> t.playX == s.playX && t.playY == s.playY - n)
    && (dir == 1 ==> t.playX == s.playX + n && t.playY == s.playY)
    && (dir == 2 ==> t.playX == s.playX && t.playY == s.playY + n)
    && (dir == 3 ==> t.playX == s.playX - n && t.playY == s.playY)
    && (dir == DIR_STOP ==> t.playX == s.playX && t.playY == s.playY)
  }

  // The square above, right of, below or left of (x,y) is not a wall.
  predicate OpenBeside(d: Dims, m: Grid, x: int, y: int, dir: Direction)
    requires d.Legal()
  {
    && (dir == 0 ==> OpenPoint(d, m, x, y - 1)) && (dir == 1 ==> OpenPoint(d, m, x + 1, y))
    && (dir == 2 ==> OpenPoint(d, m, x, y + 1)) && (dir == 3 ==> OpenPoint(d, m, x - 1, y))
  }

  function Opposite(dir: Direction): Direction { (dir + 2) % 4 }

  // ----- between squares -----

  // A turn back in mid-square takes effect at once.
  lemma TurnsBackAtOnce(d: Dims, m: Grid, s: Motion, stray: bool)
    requires d.Legal() && MotionInv(d, m, s) && s.moveCnt > 0
    ensures s.dir != DIR_STOP
    ensures var next := Opposite(s.dir); var t := Step(d, m, s, next, stray);
      t.dir == next && WentBy(s, t, next, 1) && t.moveCnt == BLOCK_X_DIM - s.moveCnt - 1
  {
    hide OpenPoint, WindowInv;
  }

  // Held for as long as the player has come into the square, it leads back to the
  // square that was left, which is open.
  lemma BackToTheSquareLeft(d: Dims, m: Grid, s: Motion)
    requires d.Legal() && Fenced(d, m) && MotionInv(d, m, s) && s.moveCnt > 0
    ensures s.dir != DIR_STOP
    ensures var next := Opposite(s.dir); var t := Run(d, m, s, Hold(next, BLOCK_X_DIM - s.moveCnt));
      && Stands(d, m, t, SquareX(t), SquareY(t)) && OpenPoint(d, m, SquareX(t), SquareY(t))
      && WentBy(s, t, next, BLOCK_X_DIM - s.moveCnt)
  {
    TurnsBackAtOnce(d, m, s, false);
    var next := Opposite(s.dir);
    var s1 := s.(dir := next, moveCnt := BLOCK_X_DIM - s.moveCnt);
    TurnedBack(d, m, s, next);
    Coast(d, m, s1);
    var n := BLOCK_X_DIM - s.moveCnt;
    assert Hold(next, n)[0] == (next, false);
    var t := Run(d, m, s, Hold(next, n));
    assert t == Run(d, m, s1, Hold(next, n));
    hide Run, Step, MotionInv, Fenced, OpenPoint;
    StandsOpen(d, m, t, SquareX(t), SquareY(t));
  }

  lemma TurnedBack(d: Dims, m: Grid, s: Motion, next: Direction)
    requires d.Legal() && Fenced(d, m) && MotionInv(d, m, s)
    requires s.moveCnt > 0 && s.dir != DIR_STOP && next == Opposite(s.dir)
    ensures var s1 := s.(dir := next, moveCnt := BLOCK_X_DIM - s.moveCnt);
      MotionInv(d, m, s1) && Step(d, m, s, next, false) == Step(d, m, s1, next, false)
  {
    TurnKeeps(d, m, s, next);
    hide OpenPoint, WindowInv, Advance, OnTrack;
  }

  // Any other direction asked for in mid-square waits: the player goes on.
  lemma OthersWait(d: Dims, m: Grid, s: Motion, next: Heading, stray: bool)
    requires d.Legal() && MotionInv(d, m, s) && s.moveCnt > 0
    ensures s.dir != DIR_STOP
    ensures next != Opposite(s.dir) ==>
      var t := Step(d, m, s, next, stray);
      t.dir == s.dir && WentBy(s, t, s.dir, 1) && t.moveCnt == s.moveCnt - 1
  {
    hide OpenPoint, WindowInv;
  }

  // ----- at a square -----

  // The direction asked for is taken when the square there is open; otherwise the
  // player keeps going when the square ahead is open; otherwise he stops.
  lemma AtASquare(d: Dims, m: Grid, s: Motion, x: int, y: int, next: Direction, stray: bool)
    requires d.Legal() && Fenced(d, m) && Stands(d, m, s, x, y)
    ensures InsideMap(d, s)
    ensures var t := Step(d, m, s, next, stray);
      if OpenBeside(d, m, x, y, next) then t.dir == next && WentBy(s, t, next, 1)
      else if s.dir != DIR_STOP && OpenBeside(d, m, x, y, s.dir) && s.dir != Opposite(next) then
        t.dir == s.dir && WentBy(s, t, s.dir, 1)
      else t.dir == DIR_STOP && WentBy(s, t, DIR_STOP, 0) && t.moveCnt == 0
  {
    StandsOpen(d, m, s, x, y);
    OpenIsBeside(d, m, x, y, next);
    if s.dir != DIR_STOP { OpenIsBeside(d, m, x, y, s.dir); }
    StandsInside(d, m, s, x, y);
    HeadingAt(d, m, s, x, y, next, stray);
    var s2 := Decide(d, m, s, next, stray);
    hide OpenPoint, OpenDir, OpenBeside, Fenced, Decide, Advance, Stands, WentBy, InsideMap, Inside;
    if s2.dir != DIR_STOP { GoesOne(d, s2); }
    WentFrom(s, s2, Step(d, m, s, next, stray));
  }

  // When no direction is asked for, the source reads past its array of open
  // directions: what stands there decides whether the player stops or keeps going.
  lemma NothingAsked(d: Dims, m: Grid, s: Motion, x: int, y: int, stray: bool)
    requires d.Legal() && Fenced(d, m) && Stands(d, m, s, x, y)
    ensures InsideMap(d, s)
    ensures var t := Step(d, m, s, DIR_STOP, stray);
      if !stray && s.dir != DIR_STOP && OpenBeside(d, m, x, y, s.dir) then t.dir == s.dir && WentBy(s, t, s.dir, 1)
      else t.dir == DIR_STOP && WentBy(s, t, DIR_STOP, 0) && t.moveCnt == 0
  {
    StandsOpen(d, m, s, x, y);
    if s.dir != DIR_STOP { OpenIsBeside(d, m, x, y, s.dir); }
    StandsInside(d, m, s, x, y);
    hide OpenPoint, OpenDir, OpenBeside, Fenced, Stands, WindowInv, OnTrack;
  }

  lemma StandsInside(d: Dims, m: Grid, s: Motion, x: int, y: int)
    requires d.Legal() && Stands(d, m, s, x, y)
    ensures InsideMap(d, s) && s.moveCnt == 0 && x == s.playX / BLOCK_X_DIM && y == s.playY / BLOCK_Y_DIM
  {
    hide OpenPoint, WindowInv;
  }

  lemma WentFrom(s: Motion, s2: Motion, t: Motion)
    requires s2.playX == s.playX && s2.playY == s.playY
    ensures WentBy(s, s, DIR_STOP, 0)
    ensures forall dir: Heading, n :: WentBy(s2, t, dir, n) ==> WentBy(s, t, dir, n)
    ensures t == s2 ==> WentBy(s, t, DIR_STOP, 0)
  {}

  lemma GoesOne(d: Dims, s: Motion)
    requires s.dir != DIR_STOP
    ensures WentBy(s, Advance(d, s), s.dir, 1) && Advance(d, s).dir == s.dir
  {}

  lemma HeadingAt(d: Dims, m: Grid, s: Motion, x: int, y: int, next: Direction, stray: bool)
    requires d.Legal() && InsideMap(d, s) && s.moveCnt == 0
    requires x == s.playX / BLOCK_X_DIM && y == s.playY / BLOCK_Y_DIM && Inside(d, x, y)
    ensures var s2 := Decide(d, m, s, next, stray);
      && s2.playX == s.playX && s2.playY == s.playY && (s2.dir == DIR_STOP ==> s2.moveCnt == 0)
      && s2.dir == (if OpenDir(d, m, x, y, next) then next
        else if s.dir != DIR_STOP && s.dir != Opposite(next) && OpenDir(d, m, x, y, s.dir) then s.dir
        else DIR_STOP)
  {
    hide OpenDir, InsideMap, Inside;
  }

  // find_open_directions finds exactly the open squares beside.
  lemma OpenIsBeside(d: Dims, m: Grid, x: int, y: int, dir: Direction)
    requires d.Legal() && Fenced(d, m) && Inside(d, x, y)
    ensures OpenDir(d, m, x, y, dir) <==> OpenBeside(d, m, x, y, dir)
  {
    NextInMaze(d, x, y, dir);
    if OpenDir(d, m, x, y, dir) { OpenNeighbour(d, m, x, y, dir); }
    hide Fenced, Idx;
  }

  // ----- the view -----

  // The view moves by one pixel at most, the way the player goes, and only when he
  // would come closer than five squares to its border.  The picture is the one of
  // the direction he goes in.
  lemma ViewFollows(d: Dims, m: Grid, s: Motion, next: Heading, stray: bool)
    requires d.Legal() && Fenced(d, m) && MotionInv(d, m, s)
    ensures InsideMap(d, s)
    ensures var t := Step(d, m, s, next, stray);
      && (t.mapX != s.mapX ==>
           || (t.dir == 1 && t.mapX == s.mapX + 1 && t.playX > s.mapX + 320 - 6 * 12)
           || (t.dir == 3 && t.mapX == s.mapX - 1 && t.playX < s.mapX + 5 * 12))
      && (t.mapY != s.mapY ==>
           || (t.dir == 2 && t.mapY == s.mapY + 1 && t.playY > s.mapY + 182 - 6 * 12)
           || (t.dir == 0 && t.mapY == s.mapY - 1 && t.playY < s.mapY + 5 * 12))
      && (t.dir != DIR_STOP ==> t.lastDir == t.dir) && (t.dir == DIR_STOP ==> t.lastDir == s.lastDir)
  {
    DecideKeeps(d, m, s, next, stray);
    DecideLeaves(d, m, s, next, stray);
    hide OpenPoint, WindowInv, OpenDir, Fenced, OnTrack, Idx, Decide;
  }

  lemma DecideLeaves(d: Dims, m: Grid, s: Motion, next: Heading, stray: bool)
    requires d.Legal() && InsideMap(d, s)
    ensures var s2 := Decide(d, m, s, next, stray);
      s2.mapX == s.mapX && s2.mapY == s.mapY && s2.playX == s.playX && s2.playY == s.playY && s2.lastDir == s.lastDir
  {
    hide OpenDir;
  }

  // ----- levels -----

  // The first level has 14 by 8 nodes and one fruit.  Every level has two more nodes
  // each way than the one before, up to 50 by 30, and every second level one more
  // fruit, up to six.
  lemma LevelsGrow(level: int)
    requires level >= 1
    ensures LevelDims(1) == Dims(14, 8) && LevelFruits(1) == 1 && LevelFruits(2) == 1
    ensures LevelDims(level + 1) == Dims(Min(LevelDims(level).x + 2, 50), Min(LevelDims(level).y + 2, 30))
    ensures LevelFruits(level + 2) == Min(LevelFruits(level) + 1, 6)
  {}
}
