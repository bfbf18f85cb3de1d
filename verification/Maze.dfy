// The maze of maze.c, updated in place.
module MazeModule {
  import opened MazeCell
  import opened Lattice
  import opened MazeGraph
  import opened MazeShape
  import opened MazeJoin
  import opened MazeDig
  import opened MazeWorms
  import opened MazeReady

  class Maze {
    const cells: array<Cell>
    var d: Dims              // maze_x_dim, maze_y_dim
    var nFruits: int
    var exitX: int
    var exitY: int

    // Static memory starts zeroed.
    constructor ()
      ensures cells.Length == MAZE_SIZE && fresh(cells)
    {
      cells := new Cell[MAZE_SIZE](_ => NONE);
      d, nFruits, exitX, exitY := Dims(0, 0), 0, 0, 0;
    }

    ghost predicate Valid()
      reads this
    {
      cells.Length == MAZE_SIZE && d.Legal()
    }

    ghost function Now(): Grid
      requires Valid()
      reads this, cells
    {
      cells[..]
    }

    // ----- mark_maze_area -----

    // One of the four tests in the loop: look at the node two steps of `delta`
    // away, and mark and enqueue it when it can be entered and is not marked.
    method VisitNeighbour(q: array<int>, qEnd: int, cur: int, delta: int, ghost m0: Grid, ghost start: int,
          ghost s: set<int>)
      returns (qEnd': int, ghost s': set<int>)
      requires Valid() && Shape(d, m0)
      requires q.Length == MAZE_MAX_X_DIM * MAZE_MAX_Y_DIM && 0 <= qEnd <= q.Length
      requires Searching(d, m0, start, Now(), q[..qEnd], s)
      requires IsLat(d, cur) && cur in s && Hop(d, cur, cur + 2 * delta)
      modifies cells, q
      ensures qEnd <= qEnd' <= q.Length && (forall i :: 0 <= i < qEnd ==> q[i] == old(q[i])) && s <= s'
      ensures Searching(d, m0, start, Now(), q[..qEnd'], s')
      ensures Edge(d, m0, cur, cur + 2 * delta) ==> cur + 2 * delta in s' || cur + 2 * delta in Marked(d, m0)
    {
      hide IsLat, Searching, Idx;
      qEnd', s' := qEnd, s;
      ghost var m, nxt := Now(), cur + 2 * delta;
      NeighbourFacts(d, m0, start, m, q[..qEnd], s, cur, delta);
      if !cells[cur + delta].wall {
        if !cells[cur + 2 * delta].reach {
          SearchStep(d, m0, start, m, q[..qEnd], s, cur, nxt);
          cells[cur + 2 * delta] := cells[cur + 2 * delta].(reach := true);
          q[qEnd] := cur + 2 * delta;
          qEnd' := qEnd + 1;
          s' := s + {nxt};
          assert Now() == m[nxt := m[nxt].(reach := true)];
          assert q[..qEnd'] == old(q[..qEnd]) + [nxt];
        }
      }
    }

    // The loop body: explore the four directions from `cur`.
    method ExploreFrom(q: array<int>, qEnd: int, cur: int, ghost m0: Grid, ghost start: int, ghost s: set<int>)
      returns (qEnd': int, ghost s': set<int>)
      requires Valid() && Shape(d, m0)
      requires q.Length == MAZE_MAX_X_DIM * MAZE_MAX_Y_DIM && 0 <= qEnd <= q.Length
      requires Searching(d, m0, start, Now(), q[..qEnd], s)
      requires IsLat(d, cur) && cur in s
      modifies cells, q
      ensures qEnd <= qEnd' <= q.Length && (forall i :: 0 <= i < qEnd ==> q[i] == old(q[i])) && s <= s'
      ensures Searching(d, m0, start, Now(), q[..qEnd'], s')
      ensures Explored(d, m0, cur, s')
    {
      hide IsLat, Searching, Marked;
      qEnd', s' := VisitNeighbour(q, qEnd, cur, -2 * d.x, m0, start, s);
      qEnd', s' := VisitNeighbour(q, qEnd', cur, 1, m0, start, s');
      qEnd', s' := VisitNeighbour(q, qEnd', cur, 2 * d.x, m0, start, s');
      qEnd', s' := VisitNeighbour(q, qEnd', cur, -1, m0, start, s');
    }

    // Marks what can be reached from (x,y) and returns how many nodes that is.
    method MarkArea(x: int, y: int) returns (marked: int)
      requires Valid() && OddPoint(d, x, y) && Shape(d, Now())
      requires InMaze(d, x, y) && !cells[Idx(d, x, y)].reach
      modifies cells
      ensures Now() == MarkAll(old(Now()), old(Area(d, Now(), Idx(d, x, y))))
      ensures marked == |old(Area(d, Now(), Idx(d, x, y)))|
    {
      hide IsLat, Searching, Area, Marked, Idx, OddPoint, Edge;
      ghost var m0, start := Now(), Idx(d, x, y);
      var q := new int[MAZE_MAX_X_DIM * MAZE_MAX_Y_DIM];
      q[0] := Idx(d, x, y);
      cells[q[0]] := cells[q[0]].(reach := true);
      var qStart, qEnd := 0, 1;
      ghost var s := {start};
      SearchStart(d, m0, x, y);
      assert q[..1] == [start];
      assert Now() == m0[start := m0[start].(reach := true)];
      while qStart != qEnd
        invariant 0 <= qStart <= qEnd <= q.Length
        invariant Searching(d, m0, start, Now(), q[..qEnd], s)
        invariant start in s
        invariant forall i :: 0 <= i < qStart ==> Explored(d, m0, q[i], s)
        decreases q.Length - qStart
      {
        var cur := q[qStart];
        assert cur in s && IsLat(d, cur) by { InSearch(d, m0, start, Now(), q[..qEnd], s, qStart); }
        qStart := qStart + 1;
        qEnd, s := ExploreFrom(q, qEnd, cur, m0, start, s);
      }
      assert forall i :: 0 <= i < |q[..qEnd]| ==> q[..qEnd][i] == q[i];
      SearchDone(d, m0, start, Now(), q[..qEnd], s);
      return qEnd;
    }

    // ----- make_maze, worm phase -----

    // The cumulative weights of the four directions.
    method CumulativeWt(x: int, y: int, pref: Direction) returns (wt: seq<int>)
      requires Valid() && OddPoint(d, x, y)
      ensures |wt| == 4 && forall i :: 0 <= i < 4 ==> wt[i] == WeightBefore(d, Now(), x, y, pref, i + 1)
    {
      hide IsLat, LatSet, Idx, OddPoint, Weight, WeightBefore, TurnWeight;
      CumulativeWeights(d, Now(), x, y, pref);
      var k, total := Idx(d, x, y), 0;
      if y > 1 { total := total + TurnWeight(pref, cells[k - 4 * d.x] == WALL); }
      wt := [total];
      if x < d.x * 2 - 1 { total := total + TurnWeight((pref + 3) % 4, cells[k + 2] == WALL); }
      wt := wt + [total];
      if y < d.y * 2 - 1 { total := total + TurnWeight((pref + 2) % 4, cells[k + 4 * d.x] == WALL); }
      wt := wt + [total];
      if x > 1 { total := total + TurnWeight((pref + 1) % 4, cells[k - 2] == WALL); }
      wt := wt + [total];
    }

    // The worm's next direction: the first whose cumulative weight is above the
    // draw.  No direction that leaves the grid can be picked, and `dir` is picked by
    // exactly as many draws as its weight.
    method ChooseDirection(x: int, y: int, pref: Direction, random: nat) returns (dir: Direction)
      requires Valid() && OddPoint(d, x, y)
      ensures WeightBefore(d, Now(), x, y, pref, 4) > 0
      ensures var pick := random % WeightBefore(d, Now(), x, y, pref, 4);
        WeightBefore(d, Now(), x, y, pref, dir) <= pick < WeightBefore(d, Now(), x, y, pref, dir + 1)
      ensures InGrid(d, x, y, dir) && dir == Chosen(d, Now(), x, y, pref, random)
    {
      ghost var m := Now();
      var wt := CumulativeWt(x, y, pref);
      WeightsGrow(d, m, x, y, pref, 0, 0);
      SomeWeight(d, m, x, y, pref);
      hide *;
      var total := wt[3];
      var pick := random % total;
      dir := 0;
      while pick >= wt[dir]
        invariant WeightBefore(d, m, x, y, pref, dir) <= pick
        decreases 4 - dir
      {
        dir := dir + 1;
      }
      ChosenIs(d, m, x, y, pref, random, dir);
      ChosenInGrid(d, m, x, y, pref, random);
    }

    // One move of a worm standing at (x,y).
    method MoveWorm(x: int, y: int, dir: Direction, remaining: int) returns (x': int, y': int, remaining': int)
      requires Valid() && OddPoint(d, x, y) && InGrid(d, x, y, dir)
      requires Digging(d, Now(), remaining) && OpenNode(d, Now(), Idx(d, x, y))
      modifies cells
      ensures OddPoint(d, x', y') && x' == StepX(x, dir) && y' == StepY(y, dir)
      ensures Digging(d, Now(), remaining') && OpenNode(d, Now(), Idx(d, x', y')) && remaining' <= remaining
      ensures Now() == Bite(d, old(Now()), x, y, dir)
    {
      hide IsLat, LatSet, Idx, OddPoint, Digging, OpenNode, Bite;
      BiteKeeps(d, Now(), x, y, dir, remaining);
      IdxBeside(d, x, y);
      ghost var m := Now();
      ghost var c := Idx(d, x, y) + Delta(d, dir);
      x', y', remaining' := x, y, remaining;
      if dir == 0 {
        cells[Idx(d, x, y - 1)] := NONE;
        y' := y - 2;
      } else if dir == 1 {
        cells[Idx(d, x + 1, y)] := NONE;
        x' := x + 2;
      } else if dir == 2 {
        cells[Idx(d, x, y + 1)] := NONE;
        y' := y + 2;
      } else {
        cells[Idx(d, x - 1, y)] := NONE;
        x' := x - 2;
      }
      assert Now() == m[c := NONE];
      // The worm "eats" the wall at the new space.
      if cells[Idx(d, x', y')] == WALL {
        remaining' := remaining' - 1;
      }
      cells[Idx(d, x', y')] := NONE;
      assert Now() == m[c := NONE][Idx(d, x', y') := NONE];
    }

    // One worm, dropped at the walled node (x0,y0), until it turns back on itself
    // or the draws are used up.
    method RunWorm(x0: int, y0: int, remaining: int, draws: seq<nat>, n: nat)
      returns (x: int, y: int, remaining': int, n': nat, turned: bool, ghost first: Direction)
      requires Valid() && OddPoint(d, x0, y0) && Digging(d, Now(), remaining) && n <= |draws|
      requires InMaze(d, x0, y0) && cells[Idx(d, x0, y0)].wall
      modifies cells
      ensures OddPoint(d, x, y) && Digging(d, Now(), remaining') && remaining' < remaining && n' <= |draws|
      ensures var e := Worm(d, old(Now())[Idx(d, x0, y0) := NONE], x0, y0, first, draws, n);
        Now() == e.m && x == e.x && y == e.y && n' == e.n && turned == e.turned
    {
      hide IsLat, LatSet, Idx, OddPoint, Digging, OpenNode, StepX, StepY, Bite, Chosen;
      x, y, n', turned := x0, y0, n, false;
      ghost var m := Now();
      OddInMaze(d, x, y);
      DigNode(d, m, remaining, Idx(d, x, y));
      OnlyWall(d, m, remaining, Idx(d, x, y));
      // Empty the starting point.
      cells[Idx(d, x, y)] := NONE;
      assert Now() == m[Idx(d, x, y) := NONE];
      remaining' := remaining - 1;
      NodeOpen(d, Now(), Idx(d, x, y));
      var pref: Direction :| true;
      first := pref;
      ghost var end := Worm(d, Now(), x, y, pref, draws, n');
      while !turned && n' < |draws|
        invariant n' <= |draws| && OddPoint(d, x, y) && remaining' < remaining
        invariant end == if turned then WormEnd(Now(), x, y, pref, n', true) else Worm(d, Now(), x, y, pref, draws, n')
        invariant Digging(d, Now(), remaining') && OpenNode(d, Now(), Idx(d, x, y))
        decreases |draws| - n'
      {
        var dir := ChooseDirection(x, y, pref, draws[n']);
        n' := n' + 1;
        if (dir - pref + 4) % 4 == 2 {
          turned := true;
        } else {
          pref := dir;
          x, y, remaining' := MoveWorm(x, y, dir, remaining');
        }
      }
    }

    // The worm phase.  Starting points and first directions are arbitrary, and
    // reported as `starts`; `draws` is the sequence of random numbers the worms use
    // for their turns.  The phase is cut short exactly when they run out before the
    // last worm has turned back.
    method DigWorms(draws: seq<nat>)
        returns (finished: bool, x: int, y: int, remaining: int, ghost starts: seq<WormStart>)
      requires Valid() && forall k :: 0 <= k < MAZE_SIZE ==> cells[k] == WALL
      modifies cells
      ensures OddPoint(d, x, y) && Digging(d, Now(), remaining) && MayRun(d, starts, draws)
      ensures var e := Worms(d, starts, draws);
        Now() == e.m && x == e.x && y == e.y && finished == e.turned && (!finished ==> e.n == |draws|)
      ensures finished ==> remaining == 0
    {
      hide IsLat, LatSet, Idx, OddPoint, Digging, Worm;
      var n := 0;
      starts := [];
      remaining := d.x * d.y;
      DigStart(d, Now());
      ghost var wx, wy := WalledPoint(d, Now(), remaining);
      x, y := 1, 1;
      finished := true;
      assert Now() == Worms(d, [], draws).m;
      while finished && remaining > 0
        invariant OddPoint(d, x, y) && Digging(d, Now(), remaining) && remaining >= 0 && MayRun(d, starts, draws)
        invariant WormEnd(Now(), x, y, Worms(d, starts, draws).pref, n, finished) == Worms(d, starts, draws)
        decreases remaining
      {
        // Pick an (odd,odd) lattice point still marked as a wall.
        wx, wy := WalledPoint(d, Now(), remaining);
        x, y :| OddPoint(d, x, y) && InMaze(d, x, y) && cells[Idx(d, x, y)].wall;
        ghost var x0, y0, first, m := x, y, 0, Now();
        x, y, remaining, n, finished, first := RunWorm(x, y, remaining, draws, n);
        MoreWorms(d, starts, draws, WormStart(x0, y0, first));
        starts := starts + [WormStart(x0, y0, first)];
        RemainingCounts(d, Now(), remaining);
      }
    }

    // ----- make_maze, connection phase -----

    // Knock down the wall between the unmarked node (x,y) and the first marked
    // node found above it, to its left, to its right or below it.
    method KnockWall(x: int, y: int) returns (done: bool, ghost nb: int)
      requires Valid() && OddPoint(d, x, y) && InMaze(d, x, y) && !cells[Idx(d, x, y)].reach
      modifies cells
      ensures done ==> Frontier(d, old(Now()), Idx(d, x, y), nb) && 0 <= (Idx(d, x, y) + nb) / 2 < MAZE_SIZE
      ensures done ==> Now() == old(Now())[(Idx(d, x, y) + nb) / 2 := NONE]
      ensures !done ==> Now() == old(Now()) && forall b :: !Frontier(d, Now(), Idx(d, x, y), b)
    {
      var cur := Idx(d, x, y);
      nb := cur;
      done := true;
      FrontierBeside(d, Now(), x, y);
      hide *;
      if y > 1 && cells[cur - 4 * d.x].reach {
        nb := cur - 4 * d.x;
        OpenCell(cur - 2 * d.x);
      } else if x > 1 && cells[cur - 2].reach {
        nb := cur - 2;
        OpenCell(cur - 1);
      } else if x < 2 * d.x - 1 && cells[cur + 2].reach {
        nb := cur + 2;
        OpenCell(cur + 1);
      } else if y < 2 * d.y - 1 && cells[cur + 4 * d.x].reach {
        nb := cur + 4 * d.x;
        OpenCell(cur + 2 * d.x);
      } else {
        done := false;
      }
    }

    method OpenCell(k: int)
      requires Valid() && 0 <= k < MAZE_SIZE
      modifies cells
      ensures Now() == old(Now())[k := NONE]
    {
      cells[k] := NONE;
    }

    // One attempt to join the unmarked node (x,y) to the marked part of the maze.
    method TryJoin(x: int, y: int, remaining: int) returns (remaining': int, ghost nb: int)
      requires Valid() && OddPoint(d, x, y) && InMaze(d, x, y) && !cells[Idx(d, x, y)].reach
      requires Joining(d, Now(), remaining)
      modifies cells
      ensures Joining(d, Now(), remaining') && 0 <= remaining' <= remaining
      ensures if exists nb :: Frontier(d, old(Now()), Idx(d, x, y), nb)
        then remaining' < remaining else remaining' == remaining && Now() == old(Now())
      ensures remaining' < remaining ==>
        Frontier(d, old(Now()), Idx(d, x, y), nb) && 0 <= (Idx(d, x, y) + nb) / 2 < MAZE_SIZE
      ensures remaining' < remaining ==>
        forall j :: 0 <= j < MAZE_SIZE ==> Now()[j].wall == (j != (Idx(d, x, y) + nb) / 2 && old(Now())[j].wall)
    {
      hide IsLat, LatSet, Idx, OddPoint, Area, Shape, AllOpen, Plain, Marked, Frontier, Component, Joining, MarkAll;
      ghost var m := Now();
      remaining' := remaining;
      RemainingIsCount(d, m, remaining);
      var done;
      done, nb := KnockWall(x, y);
      if done {
        JoinStep(d, m, remaining, Idx(d, x, y), nb);
        RemainingIsCount(d, MarkAll(Now(), Area(d, Now(), Idx(d, x, y))), remaining - |Area(d, Now(), Idx(d, x, y))|);
        OpenCellKeeps(d, m, remaining, Idx(d, x, y), nb);
        KnockKeepsReach(d, m, Idx(d, x, y), nb);
        MarkedWalls(m, (Idx(d, x, y) + nb) / 2, Now(), Area(d, Now(), Idx(d, x, y)));
        var more := MarkArea(x, y);
        remaining' := remaining - more;
      }
    }

    // From a dug maze to one in which every node is joined to (1,1).  The random
    // choice of an unmarked node is left arbitrary; (x0,y0) is where the last
    // worm stopped, which is where the scan starts.
    method ConnectAll(x0: int, y0: int)
      requires Valid() && OddPoint(d, x0, y0)
      requires Shape(d, Now()) && AllOpen(d, Now()) && Plain(d, Now()) && Marked(d, Now()) == {}
      modifies cells
      ensures Joining(d, Now(), 0)
      ensures forall k :: k in LatSet(d) ==> Now()[k].reach && Connected(d, Now(), Idx(d, 1, 1), k)
      ensures Repaired(d, old(Now()), Now())
    {
      hide IsLat, Idx, Area, Shape, AllOpen, Plain, Marked, Frontier, Component, OddPoint, Joining;
      var x, y, trials := x0, y0, 0;
      StartUnmarked(d, Now());
      JoinStart(d, Now());
      var marked := MarkArea(1, 1);
      var remaining := d.x * d.y - marked;
      ghost var f, fnb := NextFrontier(d, Now(), remaining);
      var going := true;
      while going
        invariant Valid() && OddPoint(d, x, y) && trials >= 0 && remaining >= 0
        invariant Joining(d, Now(), remaining) && Repaired(d, old(Now()), Now())
        invariant remaining > 0 ==> Frontier(d, Now(), f, fnb)
        invariant IsLat(d, f)
        invariant !going ==> remaining == 0
        decreases going, remaining, TrialsLeft(remaining, trials), Ahead(f, Idx(d, x, y))
      {
        var scan := remaining < 20;
        if !scan {
          trials := trials + 1;
          scan := trials > 100;
        }
        if scan {
          ScanApproaches(d, x, y, f);
          ghost var xs, ys := ScanX(d, x), ScanY(d, x, y);
          x := x + 2;
          if x > d.x * 2 {
            x := x - d.x * 2;
            y := y + 2;
            if y > 2 * d.y {
              y := y - 2 * d.y;
            }
          }
          assert x == xs && y == ys;
        } else {
          ghost var ux, uy := UnmarkedPoint(d, Now(), remaining);
          x, y :| OddPoint(d, x, y) && InMaze(d, x, y) && !cells[Idx(d, x, y)].reach;
        }
        OddInMaze(d, x, y);
        FrontierUnmarked(d, Now(), f, fnb);
        if !cells[Idx(d, x, y)].reach {
          ghost var r0, m, nb := remaining, Now(), 0;
          remaining, nb := TryJoin(x, y, remaining);
          if remaining < r0 {
            RepairStep(d, old(Now()), m, r0, Idx(d, x, y), nb, Now());
            f, fnb := NextFrontier(d, Now(), remaining);
          }
        }
        going := remaining > 0;
      }
      AllJoined(d, Now());
    }

    // ----- the rest of make_maze -----

    method FillWithWalls()
      requires Valid()
      modifies cells
      ensures forall k :: 0 <= k < MAZE_SIZE ==> cells[k] == WALL
    {
      for k := 0 to MAZE_SIZE
        invariant forall i :: 0 <= i < k ==> cells[i] == WALL
      {
        cells[k] := WALL;
      }
    }

    // Remove the MAZE_REACH markers from the nodes.
    method ClearMarks()
      requires Valid() && forall k :: 0 <= k < MAZE_SIZE && cells[k].reach ==> k in LatSet(d)
      modifies cells
      ensures Now() == Unmark(old(Now()))
    {
      hide IsLat, Idx, LatSet;
      var x := 1;
      while x < 2 * d.x
        invariant 1 <= x <= 2 * d.x + 1 && x % 2 == 1
        invariant forall k :: 0 <= k < MAZE_SIZE ==> cells[k].(reach := false) == old(cells[k]).(reach := false)
        invariant forall k :: 0 <= k < MAZE_SIZE && cells[k].reach ==> k in LatSet(d)
        invariant forall a, b :: OddPoint(d, a, b) && a < x ==> InMaze(d, a, b) && !cells[Idx(d, a, b)].reach
      {
        ClearColumn(x);
        x := x + 2;
      }
      forall k | 0 <= k < MAZE_SIZE
        ensures !cells[k].reach
      {
        InLatSet(d, k);
        if k in LatSet(d) {
          var a, b := LatPoint(d, k);
          OddBelow(d, a, b, x);
        }
      }
    }

    // The inner loop.
    method ClearColumn(x: int)
      requires Valid() && 1 <= x < d.W() && x % 2 == 1
      modifies cells
      ensures forall k :: 0 <= k < MAZE_SIZE ==> cells[k] == old(cells[k]) || cells[k] == old(cells[k]).(reach := false)
      ensures forall b :: OddPoint(d, x, b) ==> InMaze(d, x, b) && !cells[Idx(d, x, b)].reach
    {
      hide IsLat, Idx, LatSet;
      var y := 1;
      while y < 2 * d.y
        invariant 1 <= y <= 2 * d.y + 1 && y % 2 == 1
        invariant forall k :: 0 <= k < MAZE_SIZE ==>
          cells[k] == old(cells[k]) || cells[k] == old(cells[k]).(reach := false)
        invariant forall b :: OddPoint(d, x, b) && b < y ==> InMaze(d, x, b) && !cells[Idx(d, x, b)].reach
      {
        OddInMaze(d, x, y);
        cells[Idx(d, x, y)] := cells[Idx(d, x, y)].(reach := false);
        y := y + 2;
      }
    }

    // "Remove all walls!"
    method RemoveAllWalls()
      requires Valid()
      modifies cells
      ensures Now() == OpenInterior(d, old(Now()))
    {
      hide IsLat, Idx, LatSet, Interior;
      var x := 1;
      while x < 2 * d.x
        invariant 1 <= x <= 2 * d.x
        invariant forall k :: 0 <= k < MAZE_SIZE ==> cells[k] == old(cells[k]) || (Interior(d, k) && cells[k] == NONE)
        invariant forall a, b :: Inside(d, a, b) && a < x ==> InMaze(d, a, b) && cells[Idx(d, a, b)] == NONE
      {
        var y := 1;
        while y < 2 * d.y
          invariant 1 <= y <= 2 * d.y
          invariant forall k :: 0 <= k < MAZE_SIZE ==> cells[k] == old(cells[k]) || (Interior(d, k) && cells[k] == NONE)
          invariant forall a, b :: Inside(d, a, b) && a < x ==> InMaze(d, a, b) && cells[Idx(d, a, b)] == NONE
          invariant forall b :: Inside(d, x, b) && b < y ==> InMaze(d, x, b) && cells[Idx(d, x, b)] == NONE
        {
          InsideInMaze(d, x, y);
          InteriorAt(d, x, y);
          cells[Idx(d, x, y)] := NONE;
          y := y + 1;
        }
        x := x + 1;
      }
      forall k | 0 <= k < MAZE_SIZE && Interior(d, k)
        ensures cells[k] == NONE
      {
        var a, b := InteriorPoint(d, k);
        assert Inside(d, a, b) && a < x;
      }
    }

    // add_a_fruit_internal: a random fruit at a random unfruited node.
    method AddFruit() returns (x: int, y: int)
      requires Valid() && FruitCount(d, Now(), nFruits) && nFruits < d.x * d.y
      modifies cells, this`nFruits
      ensures nFruits == old(nFruits) + 1 && FruitCount(d, Now(), nFruits)
      ensures OddPoint(d, x, y) && InMaze(d, x, y) && old(cells[Idx(d, x, y)].fruit) == 0
      ensures cells[Idx(d, x, y)].fruit != 0
      ensures Now() == old(Now())[Idx(d, x, y) := old(cells[Idx(d, x, y)]).(fruit := cells[Idx(d, x, y)].fruit)]
    {
      hide IsLat, Idx, LatSet, Fruited;
      ghost var m := Now();
      ghost var ux, uy := UnfruitedPoint(d, m, nFruits);
      x, y :| OddPoint(d, x, y) && InMaze(d, x, y) && cells[Idx(d, x, y)].fruit == 0;
      OddInMaze(d, x, y);
      var f: Fruit :| 1 <= f <= NUM_FRUIT_TYPES as Fruit;
      AddFruitCounts(d, m, nFruits, Idx(d, x, y), f);
      cells[Idx(d, x, y)] := cells[Idx(d, x, y)].(fruit := f);
      assert Now() == m[Idx(d, x, y) := m[Idx(d, x, y)].(fruit := f)];
      nFruits := nFruits + 1;
    }

    method PlaceFruits(startFruits: int)
      requires Valid() && Bare(Now()) && startFruits <= d.x * d.y
      modifies cells, this`nFruits
      ensures nFruits == (if startFruits > 0 then startFruits else 0) && FruitCount(d, Now(), nFruits)
      ensures forall k :: 0 <= k < MAZE_SIZE ==> cells[k].(fruit := 0) == old(cells[k])
    {
      hide IsLat, Idx, LatSet, Fruited;
      NodeBound(d);
      BareHasNoFruit(d, Now());
      nFruits := 0;
      var i := 0;
      while i < startFruits
        invariant 0 <= i && nFruits == i && (i > 0 ==> i <= startFruits)
        invariant FruitCount(d, Now(), nFruits)
        invariant forall k :: 0 <= k < MAZE_SIZE ==> cells[k].(fruit := 0) == old(cells[k])
      {
        var x, y := AddFruit();
        i := i + 1;
      }
    }

    // The exit goes to a random unfruited node.
    method PlaceExit()
      requires Valid() && FruitCount(d, Now(), nFruits) && nFruits < d.x * d.y
      requires forall k :: 0 <= k < MAZE_SIZE ==> !cells[k].exit
      modifies cells, this`exitX, this`exitY
      ensures OneExit(d, Now(), exitX, exitY) && FruitCount(d, Now(), nFruits)
      ensures InMaze(d, exitX, exitY) && cells[Idx(d, exitX, exitY)].fruit == 0
      ensures forall k :: 0 <= k < MAZE_SIZE ==> cells[k].(exit := false) == old(cells[k])
    {
      hide IsLat, Idx, LatSet;
      ghost var m := Now();
      ghost var ux, uy := UnfruitedPoint(d, m, nFruits);
      var x, y :| OddPoint(d, x, y) && InMaze(d, x, y) && cells[Idx(d, x, y)].fruit == 0;
      OddInMaze(d, x, y);
      cells[Idx(d, x, y)] := cells[Idx(d, x, y)].(exit := true);
      exitX, exitY := x, y;
      assert Fruited(Now()) == Fruited(m);
    }

    // Both digging phases, and the clearing of the marks they leave.
    method DigAndJoin(god: bool, draws: seq<nat>) returns (finished: bool, ghost starts: seq<WormStart>)
      requires Valid()
      modifies cells
      ensures MayRun(d, starts, draws) && finished == Worms(d, starts, draws).turned
      ensures finished ==> WellConnected(d, Now()) && Bare(Now())
      ensures finished && !god ==> Shape(d, Now()) && Repaired(d, Worms(d, starts, draws).m, Now())
      ensures finished && god ==> forall k :: 0 <= k < MAZE_SIZE && Interior(d, k) ==> !cells[k].wall
    {
      hide IsLat, Idx, LatSet, Shape, AllOpen, WellConnected, Interior, Worms, MayRun, Repaired;
      FillWithWalls();
      var x, y, remaining;
      finished, x, y, remaining, starts := DigWorms(draws);
      if !finished { return; }
      DigDone(d, Now());
      ConnectAll(x, y);
      JoinedIsConnected(d, Now());
      ghost var m1 := Now();
      ClearMarks();
      ConnectedOfWalls(d, m1, Now());
      ShapeOfWalls(d, m1, Now());
      RepairedOfWalls(d, Worms(d, starts, draws).m, m1, Now());
      if god {
        OpenInteriorKeeps(d, Now());
        RemoveAllWalls();
      }
    }

    // What the game relies on.
    ghost predicate Ready()
      requires Valid()
      reads this, cells
    {
      WellConnected(d, Now()) && FruitCount(d, Now(), nFruits) && OneExit(d, Now(), exitX, exitY)
    }

    // make_maze.  `god` is the GOD_MODE switch; `draws` are the worms' random
    // numbers, and `starts` where the worms were dropped.  `cut` reports that the
    // draws ran out before the last worm turned back.
    method MakeMaze(xDim: int, yDim: int, startFruits: int, god: bool, draws: seq<nat>)
      returns (r: int, cut: bool, ghost starts: seq<WormStart>)
      requires cells.Length == MAZE_SIZE && (Dims(xDim, yDim).Legal() ==> startFruits < xDim * yDim)
      modifies this, cells
      ensures r == -1 <==> !Dims(xDim, yDim).Legal()
      ensures r == -1 ==> unchanged(this) && unchanged(cells)
      ensures r != -1 ==> r == 0 && Valid() && d == Dims(xDim, yDim)
      ensures r == 0 ==> MayRun(d, starts, draws) && cut == !Worms(d, starts, draws).turned
      ensures r == 0 && !cut ==> Ready() && NoMarks(Now())
      ensures r == 0 && !cut ==> nFruits == if startFruits > 0 then startFruits else 0
      ensures r == 0 && !cut ==> InMaze(d, exitX, exitY) && cells[Idx(d, exitX, exitY)].fruit == 0
      ensures r == 0 && !cut && !god ==> Shape(d, Now()) && Repaired(d, Worms(d, starts, draws).m, Now())
      ensures r == 0 && !cut && god ==> forall k :: 0 <= k < MAZE_SIZE && Interior(d, k) ==> !cells[k].wall
    {
      hide IsLat, Idx, LatSet, Shape, WellConnected, Interior, Worms, MayRun, Repaired;
      if xDim < MAZE_MIN_X_DIM || xDim > MAZE_MAX_X_DIM || yDim < MAZE_MIN_Y_DIM || yDim > MAZE_MAX_Y_DIM {
        return -1, false, [];
      }
      d := Dims(xDim, yDim);
      var finished;
      finished, starts := DigAndJoin(god, draws);
      if !finished {
        return 0, true, starts;
      }
      ghost var m := Now();
      NodeBound(d);
      PlaceFruits(startFruits);
      PlaceExit();
      ConnectedOfWalls(d, m, Now());
      if !god {
        ShapeOfWalls(d, m, Now());
        RepairedOfWalls(d, Worms(d, starts, draws).m, m, Now());
      }
      return 0, false, starts;
    }
  }
}
