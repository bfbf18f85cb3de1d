// The game: maze, view and player together (maze.c, modex.c, mazegame.c).
module GameModule {
  import opened Lattice
  import opened MazeGraph
  import opened MazeShape
  import opened MazeJoin
  import opened MazeReady
  import opened MazeDig
  import opened MazeModule
  import opened Pixels
  import opened DisplayModule
  import opened MazeImage
  import opened Motion
  import opened Drawing
  import opened MazeWorms
  import opened Walking
  import opened Level

  class Game {
    const blocks: Pictures
    const maze: Maze
    const disp: Display
    var mapX: int            // game_info.map_x, map_y
    var mapY: int
    var playX: int
    var playY: int
    var dir: Heading
    var lastDir: Direction
    var moveCnt: int

    constructor (pictures: Pictures)
      ensures Booted() && fresh(maze) && fresh(maze.cells) && fresh(disp) && fresh(disp.build) && fresh(disp.video)
      ensures blocks == pictures
    {
      blocks := pictures;
      maze := new Maze();
      disp := new Display();
      mapX, mapY, playX, playY, dir, lastDir, moveCnt := 0, 0, 0, 0, 0, 0, 0;
    }

    // Before the first level there is a display but no maze.
    ghost predicate Booted()
      reads this, disp
    {
      maze.cells.Length == MAZE_SIZE && disp.Valid()
    }

    ghost predicate Valid()
      reads this, maze, disp
    {
      maze.Valid() && disp.Valid() && disp.showX == mapX && disp.showY == mapY
    }

    ghost function Mot(): Motion
      reads this
    {
      Motion(mapX, mapY, playX, playY, dir, lastDir, moveCnt)
    }

    // Every pixel of the view is a pixel of the map.
    ghost predicate OnMapView()
      requires Valid()
      reads this, maze, disp
    {
      forall x, y :: disp.Sees(x, y) ==> MapPixel(maze.d, x, y)
    }

    // The build buffer holds the image of the maze at every pixel of the view.
    ghost predicate Coherent()
      requires Valid()
      reads this, maze, maze.cells, disp, disp.build
    {
      forall x, y :: disp.Sees(x, y) ==>
        MapPixel(maze.d, x, y) && disp.Pix(x, y) == ImageAt(blocks, maze.d, maze.Now(), maze.nFruits, x, y)
    }

    // What the game keeps at all times.
    ghost predicate Playing()
      reads this, maze, maze.cells, disp, disp.build
    {
      Valid() && maze.Ready() && MotionInv(maze.d, maze.Now(), Mot()) && Coherent()
    }

    // ----- drawing lines of the maze into the view -----

    method DrawHorizLine(y: int) returns (r: int)
      requires Valid() && OnMapView()
      modifies disp.build
      ensures r == if 0 <= y < SCROLL_Y_DIM then 0 else -1
      ensures forall a, b :: disp.Sees(a, b) ==>
        disp.Pix(a, b) ==
          if r == 0 && b == mapY + y then ImageAt(blocks, maze.d, maze.Now(), maze.nFruits, a, b)
          else old(disp.Pix(a, b))
    {
      hide ImageAt;
      if y < 0 || y >= SCROLL_Y_DIM {
        return -1;
      }
      var buf := new bv8[SCROLL_X_DIM];
      assert disp.Sees(disp.showX, disp.showY + y) && disp.Sees(disp.showX + SCROLL_X_DIM - 1, disp.showY + y);
      FillHorizBuffer(blocks, maze.d, maze.cells, maze.nFruits, disp.showX, disp.showY + y, buf);
      disp.CopyHorizLine(disp.showY + y, buf[..]);
      return 0;
    }

    method DrawVertLine(x: int) returns (r: int)
      requires Valid() && OnMapView()
      modifies disp.build
      ensures r == if 0 <= x < SCROLL_X_DIM then 0 else -1
      ensures forall a, b :: disp.Sees(a, b) ==>
        disp.Pix(a, b) ==
          if r == 0 && a == mapX + x then ImageAt(blocks, maze.d, maze.Now(), maze.nFruits, a, b)
          else old(disp.Pix(a, b))
    {
      hide ImageAt;
      if x < 0 || x >= SCROLL_X_DIM {
        return -1;
      }
      var buf := new bv8[SCROLL_Y_DIM];
      assert disp.Sees(disp.showX + x, disp.showY) && disp.Sees(disp.showX + x, disp.showY + SCROLL_Y_DIM - 1);
      FillVertBuffer(blocks, maze.d, maze.cells, maze.nFruits, disp.showX + x, disp.showY, buf);
      disp.CopyVertLine(disp.showX + x, buf[..]);
      return 0;
    }

    // Redraws the block of one lattice point.
    method DrawPoint(x: int, y: int)
      requires Valid() && OnMap(maze.d, x, y)
      modifies disp.build
      ensures forall a, b :: disp.Sees(a, b) ==>
        disp.Pix(a, b) ==
          if OverPoint(x, y, a, b) then PointPixel(blocks, maze.d, maze.Now(), maze.nFruits, x, y, a, b)
          else old(disp.Pix(a, b))
    {
      hide FindBlock;
      disp.DrawFullBlock(x * BLOCK_X_DIM, y * BLOCK_Y_DIM,
        blocks[FindBlock(maze.d, maze.cells[..], maze.nFruits, x, y)]);
    }

    // ----- what the player uncovers -----

    method UnveilSpace(x: int, y: int)
      requires Valid() && Coherent() && AliasHidden(maze.d, mapX, x)
      modifies maze.cells, disp.build
      ensures Coherent()
      ensures maze.Now() == MarkAll(old(maze.Now()), CellOf(maze.d, x, y))
    {
      hide FindBlock, Idx, ImageAt, OverPoint, PointPixel, MarkAll;
      ghost var m := maze.Now();
      MarkSingle(m, if InMaze(maze.d, x, y) then Idx(maze.d, x, y) else 0);
      if x < 0 || x > 2 * maze.d.x || y < 0 || y > 2 * maze.d.y {
        return;
      }
      OnMapBounds(maze.d, x, y);
      var cur := Idx(maze.d, x, y);
      if maze.cells[cur].reach {
        return;
      }
      maze.cells[cur] := maze.cells[cur].(reach := true);
      assert maze.Now() == m[cur := m[cur].(reach := true)];
      DrawPoint(x, y);
      forall a, b | disp.Sees(a, b)
        ensures disp.Pix(a, b) == ImageAt(blocks, maze.d, maze.Now(), maze.nFruits, a, b)
      {
        assert old(disp.Sees(a, b));
        UnveilImage(blocks, maze.d, m, maze.nFruits, x, y, mapX, a, b);
      }
    }

    // Eats the fruit at (x,y), if there is one; with the last fruit the exit appears.
    method CheckForFruit(x: int, y: int) returns (fnum: int)
      requires Valid() && Coherent() && maze.Ready()
      modifies maze.cells, maze`nFruits, disp.build
      ensures Coherent() && FruitCount(maze.d, maze.Now(), maze.nFruits)
      ensures fnum ==
        if 0 <= x < 2 * maze.d.x && 0 <= y < 2 * maze.d.y && InMaze(maze.d, x, y)
        then old(maze.cells[Idx(maze.d, x, y)].fruit) as int else 0
      ensures maze.nFruits == old(maze.nFruits) - if fnum != 0 then 1 else 0
      ensures forall k :: 0 <= k < MAZE_SIZE ==>
        maze.cells[k] ==
          if fnum != 0 && k == Idx(maze.d, x, y) then old(maze.cells[k]).(fruit := 0) else old(maze.cells[k])
    {
      hide FindBlock, Idx, ImageAt, OverPoint, PointPixel, WellConnected, FruitCount, OneExit;
      if x < 0 || x >= 2 * maze.d.x || y < 0 || y >= 2 * maze.d.y {
        return 0;
      }
      OnMapBounds(maze.d, x, y);
      var cur := Idx(maze.d, x, y);
      fnum := maze.cells[cur].fruit as int;
      if fnum != 0 {
        ghost var m, n := maze.Now(), maze.nFruits;
        EatFruitCounts(maze.d, m, n, cur);
        maze.cells[cur] := maze.cells[cur].(fruit := 0);
        assert maze.Now() == m[cur := m[cur].(fruit := 0)];
        maze.nFruits := maze.nFruits - 1;
        ExitOnMap(maze.d, m, maze.exitX, maze.exitY);
        if maze.nFruits == 0 {
          DrawPoint(maze.exitX, maze.exitY);
        }
        DrawPoint(x, y);
        forall a, b | disp.Sees(a, b)
          ensures disp.Pix(a, b) == ImageAt(blocks, maze.d, maze.Now(), maze.nFruits, a, b)
        {
          assert old(disp.Sees(a, b));
          EatImage(blocks, maze.d, m, n, x, y, maze.exitX, maze.exitY, a, b);
        }
      }
    }

    // Won when no fruit is left and the exit is at (x,y).
    predicate CheckForWin(x: int, y: int)
      requires maze.Valid()
      reads this, maze, maze.cells
    {
      if x < 0 || x >= 2 * maze.d.x || y < 0 || y >= 2 * maze.d.y then false
      else
        OnMapBounds(maze.d, x, y);
        maze.nFruits == 0 && maze.cells[Idx(maze.d, x, y)].exit
    }

    // The squares in an area around (x,y).
    method UnveilAround(x: int, y: int)
      requires Valid() && Coherent() && forall a :: -2 <= a - x <= 2 ==> AliasHidden(maze.d, mapX, a)
      modifies maze.cells, disp.build
      ensures Coherent() && maze.Now() == MarkAll(old(maze.Now()), AroundCells(maze.d, x, y))
    {
      hide FindBlock, Idx, ImageAt, AliasHidden, Passed, CellOf, AroundCells, MarkAll;
      ghost var m, d := maze.Now(), maze.d;
      MarkUncovers(m, {});
      PassedStart(d, x, y);
      var i := -1;
      while i < 2
        invariant -1 <= i <= 2
        invariant Coherent() && maze.Now() == MarkAll(m, Passed(d, x, y, i, -1))
      {
        var j := -1;
        while j < 2
          invariant -1 <= j <= 2
          invariant Coherent() && maze.Now() == MarkAll(m, Passed(d, x, y, i, j))
        {
          MarkMore(m, Passed(d, x, y, i, j), CellOf(d, x + i, y + j));
          PassedStep(d, x, y, i, j);
          UnveilSpace(x + i, y + j);
          j := j + 1;
        }
        PassedRow(d, x, y, i);
        i := i + 1;
      }
      ghost var s := Passed(d, x, y, 2, -1);
      MarkMore(m, s, CellOf(d, x, y - 2));
      UnveilSpace(x, y - 2);
      s := s + CellOf(d, x, y - 2);
      MarkMore(m, s, CellOf(d, x + 2, y));
      UnveilSpace(x + 2, y);
      s := s + CellOf(d, x + 2, y);
      MarkMore(m, s, CellOf(d, x, y + 2));
      UnveilSpace(x, y + 2);
      s := s + CellOf(d, x, y + 2);
      MarkMore(m, s, CellOf(d, x - 2, y));
      UnveilSpace(x - 2, y);
      PassedAll(d, x, y);
    }

    // unveil_around_player: eats, uncovers the squares around, and tells whether
    // the level is won.
    method UnveilAroundPlayer() returns (won: bool)
      requires Playing() && moveCnt == 0
      modifies maze.cells, maze`nFruits, disp.build
      ensures Playing() && SameWalls(old(maze.Now()), maze.Now())
      ensures won == CheckForWin(playX / BLOCK_X_DIM, playY / BLOCK_Y_DIM)
      ensures maze.nFruits <= old(maze.nFruits)
      ensures maze.Now() == Visited(maze.d, old(maze.Now()), playX / BLOCK_X_DIM, playY / BLOCK_Y_DIM)
    {
      hide FindBlock, Idx, ImageAt, WellConnected, FruitCount, OneExit, OnTrack, WindowInv, InsideMap, AliasHidden,
        AroundCells, MarkAll;
      var x, y := playX / BLOCK_X_DIM, playY / BLOCK_Y_DIM;
      ghost var m0 := maze.Now();
      var fnum := CheckForFruit(x, y);
      EatKeeps(maze.d, m0, maze.Now(), maze.exitX, maze.exitY);
      ghost var m1 := maze.Now();
      assert m1 == Eaten(maze.d, m0, x, y) by { PlayerPoint(maze.d, Mot()); }
      forall a | -2 <= a - x <= 2 ensures AliasHidden(maze.d, mapX, a) { UnveilSafe(maze.d, Mot(), a); }
      UnveilAround(x, y);
      MarkUncovers(m1, AroundCells(maze.d, x, y));
      UnveilKeeps(maze.d, m1, maze.Now(), maze.nFruits, maze.exitX, maze.exitY);
      MotionOfWalls(maze.d, m0, maze.Now(), Mot());
      return CheckForWin(x, y);
    }

    // ----- motion -----

    // The line that a pan has brought into view has been drawn; everything else
    // was in view before.
    method PanTo(newX: int, newY: int)
      requires maze.Valid() && disp.Valid() && mapX == newX && mapY == newY && WindowRange(maze.d, newX, newY)
      requires WindowRange(maze.d, disp.showX, disp.showY)
      requires forall x, y :: disp.Sees(x, y) ==>
        MapPixel(maze.d, x, y) && disp.Pix(x, y) == ImageAt(blocks, maze.d, maze.Now(), maze.nFruits, x, y)
      modifies disp`img3Off, disp`showX, disp`showY, disp.build
      ensures Valid() && OnMapView()
      ensures forall x, y :: disp.Sees(x, y) && InWindow(old(disp.showX), old(disp.showY), x, y) ==>
        disp.Pix(x, y) == ImageAt(blocks, maze.d, maze.Now(), maze.nFruits, x, y)
    {
      hide ImageAt, MapPixel, WindowRange;
      disp.SetViewWindow(newX, newY);
      forall x, y | disp.Sees(x, y) ensures MapPixel(maze.d, x, y) { WindowOnMap(maze.d, newX, newY, x, y); }
      forall x, y | disp.Sees(x, y) && InWindow(old(disp.showX), old(disp.showY), x, y)
        ensures disp.Pix(x, y) == ImageAt(blocks, maze.d, maze.Now(), maze.nFruits, x, y)
      {
        assert old(disp.Sees(x, y));
      }
    }

    method MoveUp()
      requires Valid() && Coherent() && WindowRange(maze.d, mapX, mapY)
      modifies `playY, `mapY, disp`img3Off, disp`showX, disp`showY, disp.build
      ensures Valid() && Coherent() && playY == old(playY) - 1
      ensures mapY == old(mapY) - if playY < old(mapY) + BLOCK_Y_DIM * PAN_BORDER && old(mapY) > SHOW_MIN then 1 else 0
    {
      hide ImageAt, MapPixel;
      playY := playY - 1;
      if playY < mapY + BLOCK_Y_DIM * PAN_BORDER && mapY > SHOW_MIN {
        mapY := mapY - 1;
        PanTo(mapX, mapY);
        var r := DrawHorizLine(0);
      }
    }

    method MoveRight()
      requires Valid() && Coherent() && WindowRange(maze.d, mapX, mapY)
      modifies `playX, `mapX, disp`img3Off, disp`showX, disp`showY, disp.build
      ensures Valid() && Coherent() && playX == old(playX) + 1
      ensures mapX == old(mapX) +
        if playX > old(mapX) + SCROLL_X_DIM - BLOCK_X_DIM * (PAN_BORDER + 1) && old(mapX) < MaxMapX(maze.d) then 1
        else 0
    {
      hide ImageAt, MapPixel;
      playX := playX + 1;
      if playX > mapX + SCROLL_X_DIM - BLOCK_X_DIM * (PAN_BORDER + 1)
        && mapX + SCROLL_X_DIM < (2 * maze.d.x + 1) * BLOCK_X_DIM - SHOW_MIN {
        mapX := mapX + 1;
        PanTo(mapX, mapY);
        var r := DrawVertLine(SCROLL_X_DIM - 1);
      }
    }

    method MoveDown()
      requires Valid() && Coherent() && WindowRange(maze.d, mapX, mapY)
      modifies `playY, `mapY, disp`img3Off, disp`showX, disp`showY, disp.build
      ensures Valid() && Coherent() && playY == old(playY) + 1
      ensures mapY == old(mapY) +
        if playY > old(mapY) + SCROLL_Y_DIM - BLOCK_Y_DIM * (PAN_BORDER + 1) && old(mapY) < MaxMapY(maze.d) then 1
        else 0
    {
      hide ImageAt, MapPixel;
      playY := playY + 1;
      if playY > mapY + SCROLL_Y_DIM - BLOCK_Y_DIM * (PAN_BORDER + 1)
        && mapY + SCROLL_Y_DIM < (2 * maze.d.y + 1) * BLOCK_Y_DIM - SHOW_MIN {
        mapY := mapY + 1;
        PanTo(mapX, mapY);
        var r := DrawHorizLine(SCROLL_Y_DIM - 1);
      }
    }

    method MoveLeft()
      requires Valid() && Coherent() && WindowRange(maze.d, mapX, mapY)
      modifies `playX, `mapX, disp`img3Off, disp`showX, disp`showY, disp.build
      ensures Valid() && Coherent() && playX == old(playX) - 1
      ensures mapX == old(mapX) - if playX < old(mapX) + BLOCK_X_DIM * PAN_BORDER && old(mapX) > SHOW_MIN then 1 else 0
    {
      hide ImageAt, MapPixel;
      playX := playX - 1;
      if playX < mapX + BLOCK_X_DIM * PAN_BORDER && mapX > SHOW_MIN {
        mapX := mapX - 1;
        PanTo(mapX, mapY);
        var r := DrawVertLine(0);
      }
    }

    // ----- showing the player -----

    // The monitor shows the maze with the player drawn over it.
    ghost predicate ScreenShows(s: Motion)
      requires Valid() && InsideMap(maze.d, s) && WindowInv(maze.d, s)
      reads this, maze, maze.cells, disp, disp.video
    {
      forall dx, dy :: 0 <= dx < SCROLL_X_DIM && 0 <= dy < SCROLL_Y_DIM ==>
        MapPixel(maze.d, s.mapX + dx, s.mapY + dy)
        && disp.Shown(dx, dy) == SceneAt(blocks, maze.d, maze.Now(), maze.nFruits, s, s.mapX + dx, s.mapY + dy)
    }

    // Draws the player, shows the screen, and takes the player out again: the
    // build buffer ends up exactly as it was.
    method ShowPlayer(saved0: Picture) returns (saved: Picture)
      requires Valid() && Coherent() && InsideMap(maze.d, Mot()) && WindowInv(maze.d, Mot())
      modifies disp`targetImg, disp.build, disp.video
      ensures Valid() && Coherent() && ScreenShows(Mot())
      ensures disp.build[..] == old(disp.build[..])
    {
      hide ImageAt, MapPixel, InsideMap, WindowInv, Clip, Restorable;
      PlayerInSight(maze.d, Mot());
      saved := disp.ShowOver(playX, playY, blocks[BLOCK_PLAYER_UP + lastDir], blocks[BLOCK_PLAYER_MASK_UP + lastDir],
        saved0);
      forall x, y | disp.Sees(x, y)
        ensures MapPixel(maze.d, x, y) && disp.Pix(x, y) == ImageAt(blocks, maze.d, maze.Now(), maze.nFruits, x, y)
      {
        assert old(disp.Sees(x, y));
      }
    }

    // ----- one tick -----

    method Advance1()
      requires Valid() && Coherent() && InsideMap(maze.d, Mot()) && WindowInv(maze.d, Mot())
        && OnTrack(maze.d, maze.Now(), Mot())
      requires dir != DIR_STOP && moveCnt > 0
      modifies `lastDir, `moveCnt, `playX, `playY, `mapX, `mapY, disp`img3Off, disp`showX, disp`showY, disp.build
      ensures Valid() && Coherent() && Mot() == Advance(maze.d, old(Mot()))
    {
      lastDir := dir;
      moveCnt := moveCnt - 1;
      hide ImageAt, MapPixel, OnTrack, InsideMap;
      match dir {
        case 0 => MoveUp();
        case 1 => MoveRight();
        case 2 => MoveDown();
        case _ => MoveLeft();
      }
    }

    // Takes up the direction asked for, if it can.  At a new square the squares
    // around are uncovered first, and the level may be won.
    method TakeDirection(next: Heading, stray: bool) returns (won: bool)
      requires Playing()
      modifies `dir, `moveCnt, maze.cells, maze`nFruits, disp.build
      ensures SameWalls(old(maze.Now()), maze.Now()) && maze.nFruits <= old(maze.nFruits)
      ensures maze.Now() == MazeAfter(maze.d, old(maze.Now()), old(Mot()), next)
      ensures Valid() && maze.Ready() && Coherent() && (won ==> Playing() && moveCnt == 0)
      ensures won <==> WinsAt(maze.d, maze.Now(), old(Mot()), next)
      ensures Mot() ==
        if won then TurnBack(old(Mot()), next) else Decide(maze.d, maze.Now(), old(Mot()), next, stray)
    {
      hide FindBlock, Idx, ImageAt, WellConnected, FruitCount, OneExit, OnTrack, WindowInv, Visited, Choose, Fruited;
      ghost var s := Mot();
      TurnKeeps(maze.d, maze.Now(), s, next);
      if next != dir {
        if (dir == 0 && next == 2) || (dir == 2 && next == 0) || (dir == 3 && next == 1) || (dir == 1 && next == 3) {
          if moveCnt > 0 {
            if dir == 0 || dir == 2 {
              moveCnt := BLOCK_Y_DIM - moveCnt;
            } else {
              moveCnt := BLOCK_X_DIM - moveCnt;
            }
          }
          dir := next;
        }
      }
      assert Mot() == TurnBack(s, next);
      won := false;
      if moveCnt == 0 {
        ghost var m0 := maze.Now();
        won := UnveilAroundPlayer();
        NoFruitLeft(maze.d, maze.Now(), maze.nFruits);
        PlayerPoint(maze.d, Mot());
        if won { return; }
        ChooseSquare(next, stray);
      }
    }

    // At a new square: the direction asked for if it is open, else the present one,
    // else none.
    method ChooseSquare(next: Heading, stray: bool)
      requires Valid() && moveCnt == 0 && Inside(maze.d, playX / BLOCK_X_DIM, playY / BLOCK_Y_DIM)
      modifies `dir, `moveCnt
      ensures Mot() == Choose(maze.d, maze.Now(), old(Mot()), next, stray)
    {
      hide OpenDir;
      var x, y := playX / BLOCK_X_DIM, playY / BLOCK_Y_DIM;
      var asked := if next == DIR_STOP then stray else OpenDir(maze.d, maze.cells[..], x, y, next);
      if asked {
        dir := next;
      }
      if dir != DIR_STOP {
        if !OpenDir(maze.d, maze.cells[..], x, y, dir) {
          dir := DIR_STOP;
        } else if dir == 0 || dir == 2 {
          moveCnt := BLOCK_Y_DIM;
        } else {
          moveCnt := BLOCK_X_DIM;
        }
      }
    }

    // The body of the tick loop of rtc_thread, for any direction asked for.
    method Tick(next: Heading, stray: bool, saved0: Picture) returns (won: bool, saved: Picture)
      requires Playing()
      modifies `dir, `lastDir, `moveCnt, `playX, `playY, `mapX, `mapY
      modifies maze.cells, maze`nFruits, disp, disp.build, disp.video
      ensures Playing() && SameWalls(old(maze.Now()), maze.Now()) && maze.nFruits <= old(maze.nFruits)
      ensures maze.Now() == MazeAfter(maze.d, old(maze.Now()), old(Mot()), next)
      ensures won <==> WinsAt(maze.d, maze.Now(), old(Mot()), next)
      ensures Mot() ==
        if won then TurnBack(old(Mot()), next) else Step(maze.d, maze.Now(), old(Mot()), next, stray)
      ensures !won ==> ScreenShows(Mot())
      ensures won ==> maze.nFruits == 0 && playX == maze.exitX * BLOCK_X_DIM && playY == maze.exitY * BLOCK_Y_DIM
      ensures won ==>
        forall dx, dy :: 0 <= dx < SCROLL_X_DIM && 0 <= dy < SCROLL_Y_DIM ==>
          disp.Shown(dx, dy) == disp.Pix(mapX + dx, mapY + dy)
    {
      hide FindBlock, Idx, ImageAt, WellConnected, FruitCount, OneExit, OnTrack, WindowInv, OpenPoint, Visited;
      ghost var s, m0 := Mot(), maze.Now();
      won := TakeDirection(next, stray);
      saved := saved0;
      if won {
        NoFruitLeft(maze.d, maze.Now(), maze.nFruits);
        AtExit(maze.d, maze.Now(), maze.exitX, maze.exitY, Mot());
        disp.ShowScreen();
        return;
      }
      MotionOfWalls(maze.d, m0, maze.Now(), s);
      ConnectedIsFenced(maze.d, maze.Now());
      DecideKeeps(maze.d, maze.Now(), s, next, stray);
      StepKeeps(maze.d, maze.Now(), s, next, stray);
      saved := ShowPlayer(saved);
      if dir != DIR_STOP {
        Advance1();
        saved := ShowPlayer(saved);
      }
    }

    // ----- levels -----

    // prepare_maze_level
    method PrepareMazeLevel(level: int, god: bool, draws: seq<nat>)
        returns (r: int, cut: bool, ghost starts: seq<WormStart>)
      requires Booted() && level >= 1
      modifies this, maze, maze.cells, disp, disp.build
      ensures Booted() && r == 0 && maze.d == LevelDims(level) && maze.d.Legal()
      ensures MayRun(maze.d, starts, draws) && cut == !Worms(maze.d, starts, draws).turned
      ensures !cut ==> Valid() && maze.Ready() && Coherent() && mapX == SHOW_MIN && mapY == SHOW_MIN
      ensures !cut ==> maze.nFruits == LevelFruits(level)
      ensures !cut ==>
        Made(maze.d, god, maze.Now(), LevelFruits(level), maze.exitX, maze.exitY, starts, draws)
    {
      hide FindBlock, Idx, ImageAt, WellConnected, FruitCount, OneExit, Worms, MayRun, Shape, Repaired, NoMarks;
      LevelLegal(level);
      var dims, fruits := LevelDims(level), LevelFruits(level);
      mapX, mapY := SHOW_MIN, SHOW_MIN;
      r, cut, starts := maze.MakeMaze(dims.x, dims.y, fruits, god, draws);
      if r != 0 || cut { return; }
      disp.SetViewWindow(mapX, mapY);
      DrawView();
    }

    // Draws the whole view, line by line.
    method DrawView()
      requires Valid() && WindowRange(maze.d, mapX, mapY)
      modifies disp.build
      ensures Coherent()
    {
      hide FindBlock, Idx, ImageAt, MapPixel;
      forall x, y | disp.Sees(x, y) ensures MapPixel(maze.d, x, y) { WindowOnMap(maze.d, mapX, mapY, x, y); }
      var i := 0;
      while i < SCROLL_Y_DIM
        modifies disp.build
        invariant 0 <= i <= SCROLL_Y_DIM
        invariant Valid() && OnMapView()
        invariant forall x, y :: disp.Sees(x, y) && y < mapY + i ==>
          disp.Pix(x, y) == ImageAt(blocks, maze.d, maze.Now(), maze.nFruits, x, y)
      {
        var r := DrawHorizLine(i);
        i := i + 1;
      }
    }

    // The start of a level in rtc_thread: `made` is the maze as it was made.
    method StartLevel(level: int, god: bool, draws: seq<nat>, saved0: Picture)
      returns (cut: bool, saved: Picture, ghost made: Grid)
      requires Booted() && level >= 1
      modifies this, maze, maze.cells, disp, disp.build, disp.video
      ensures Booted() && maze.d == LevelDims(level) && maze.d.Legal()
      ensures cut ==> CutShort(level, draws)
      ensures !cut ==> MadeFor(level, god, made, draws) && maze.Now() == Visited(maze.d, made, 1, 1)
      ensures !cut ==> Playing() && Mot() == START && ScreenShows(Mot())
      ensures !cut ==> InPlay(maze.d, maze.Now(), maze.exitX, maze.exitY)
    {
      hide FindBlock, Idx, ImageAt, WellConnected, FruitCount, OneExit, Worms, MayRun, Made, InPlay, Visited;
      saved := saved0;
      var r;
      ghost var starts;
      r, cut, starts := PrepareMazeLevel(level, god, draws);
      made := maze.Now();
      if cut { return; }
      NewLevel(maze.d, god, made, LevelFruits(level), maze.exitX, maze.exitY, starts, draws);
      playX, playY := BLOCK_X_DIM, BLOCK_Y_DIM;
      moveCnt := 0;
      lastDir := 0;
      dir := DIR_STOP;
      StartOpen(maze.d, maze.Now());
      MotionStart(maze.d, maze.Now());
      var won := UnveilAroundPlayer();
      saved := ShowPlayer(saved);
    }

    // The tick loop of a level: runs until the level is won or no input is left.
    method PlayLevel(inputs: Inputs, saved0: Picture) returns (won: bool, ticks: nat, saved: Picture)
      requires Playing()
      modifies `dir, `lastDir, `moveCnt, `playX, `playY, `mapX, `mapY
      modifies maze.cells, maze`nFruits, disp, disp.build, disp.video
      ensures Playing() && SameWalls(old(maze.Now()), maze.Now()) && maze.nFruits <= old(maze.nFruits)
      ensures Fenced(maze.d, old(maze.Now()))
      ensures PlayEnd(won, maze.Now(), Mot(), ticks) == Play(maze.d, old(maze.Now()), old(Mot()), inputs)
      ensures !won ==> Mot() == Run(maze.d, old(maze.Now()), old(Mot()), inputs)
      ensures !won && ticks > 0 ==> ScreenShows(Mot())
      ensures won ==> maze.nFruits == 0 && playX == maze.exitX * BLOCK_X_DIM && playY == maze.exitY * BLOCK_Y_DIM
    {
      hide FindBlock, Idx, ImageAt, WellConnected, FruitCount, OneExit, Step, InsideMap, WindowInv, OnTrack, Fenced;
      hide Visited, WinsAt, MazeAfter;
      won, ticks, saved := false, 0, saved0;
      ghost var m0, s, rest := maze.Now(), Mot(), inputs;
      ConnectedIsFenced(maze.d, m0);
      PlayIsRun(maze.d, m0, s, inputs);
      while ticks < |inputs| && !won
        invariant ticks <= |inputs| && rest == inputs[ticks..]
        invariant Playing() && SameWalls(m0, maze.Now()) && maze.nFruits <= old(maze.nFruits)
        invariant Fenced(maze.d, maze.Now()) && MotionInv(maze.d, maze.Now(), Mot())
        invariant won ==> Play(maze.d, m0, s, inputs) == PlayEnd(true, maze.Now(), Mot(), ticks)
        invariant !won ==>
          var e := Play(maze.d, maze.Now(), Mot(), rest);
          Play(maze.d, m0, s, inputs) == e.(ticks := ticks + e.ticks)
        invariant !won && ticks > 0 ==> ScreenShows(Mot())
        invariant won ==> maze.nFruits == 0 && playX == maze.exitX * BLOCK_X_DIM && playY == maze.exitY * BLOCK_Y_DIM
        decreases |inputs| - ticks
      {
        var input := inputs[ticks];
        won, saved := Tick(input.0, input.1, saved);
        ConnectedIsFenced(maze.d, maze.Now());
        ticks := ticks + 1;
        rest := rest[1..];
      }
    }

    // The level loop of rtc_thread.  For every level there are the draws of its
    // worms and the directions asked for; the game ends when a level is not won.
    // `mazes` are the mazes as they were made, and `ends` how each level ended.
    method PlayGame(god: bool, draws: seq<seq<nat>>, inputs: seq<Inputs>, saved0: Picture)
      returns (level: int, cut: bool, ghost mazes: seq<Grid>, ghost ends: seq<PlayEnd>)
      requires Booted() && |draws| == |inputs| == MAX_LEVEL
      modifies this, maze, maze.cells, disp, disp.build, disp.video
      ensures Booted() && 1 <= level <= MAX_LEVEL + 1
      ensures |mazes| == |ends| == if cut || level > MAX_LEVEL then level - 1 else level
      ensures forall i :: 0 <= i < |mazes| ==>
        MadeFor(i + 1, god, mazes[i], draws[i]) && Played(i + 1, mazes[i], inputs[i], ends[i])
      ensures forall i :: 0 <= i < |ends| ==> (ends[i].won <==> i < level - 1)
      ensures cut ==> level <= MAX_LEVEL && CutShort(level, draws[level - 1])
      ensures !cut ==> maze.Valid() && Playing() && OpenPoint(maze.d, maze.Now(), maze.exitX, maze.exitY)
      ensures !cut ==> maze.Now() == ends[|ends| - 1].m && Mot() == ends[|ends| - 1].s
      ensures !cut && level > MAX_LEVEL ==>
        maze.nFruits == 0 && playX == maze.exitX * BLOCK_X_DIM && playY == maze.exitY * BLOCK_Y_DIM
    {
      hide FindBlock, Idx, ImageAt, WellConnected, FruitCount, OneExit, Step, WindowInv, OnTrack, Fenced, Visited;
      hide MadeFor, Played, CutShort, InPlay, Play, MotionInv;
      level, cut, mazes, ends := 1, false, [], [];
      var saved, won := saved0, true;
      while level <= MAX_LEVEL && won
        invariant 1 <= level <= MAX_LEVEL + 1 && Booted() && !cut
        invariant level > MAX_LEVEL ==> won
        invariant |mazes| == |ends| == if won then level - 1 else level
        invariant forall i :: 0 <= i < |mazes| ==>
          MadeFor(i + 1, god, mazes[i], draws[i]) && Played(i + 1, mazes[i], inputs[i], ends[i])
        invariant forall i :: 0 <= i < |ends| ==> (ends[i].won <==> i < level - 1)
        invariant ends != [] ==> Playing() && maze.Now() == ends[|ends| - 1].m && Mot() == ends[|ends| - 1].s
        invariant ends != [] && won ==>
          maze.nFruits == 0 && playX == maze.exitX * BLOCK_X_DIM && playY == maze.exitY * BLOCK_Y_DIM
        decreases MAX_LEVEL + 1 - level, won
      {
        ghost var made;
        cut, saved, made := StartLevel(level, god, draws[level - 1], saved);
        if cut { return; }
        var ticks;
        won, ticks, saved := PlayLevel(inputs[level - 1], saved);
        ghost var e := PlayEnd(won, maze.Now(), Mot(), ticks);
        WasPlayed(level, made, inputs[level - 1], e);
        mazes, ends := mazes + [made], ends + [e];
        if won { level := level + 1; }
      }
      ExitOpen(maze.d, maze.Now(), maze.exitX, maze.exitY);
    }
  }
}
