// The worm phase of make_maze: how a worm chooses its direction, and what
// every bite keeps.
module MazeDig {
  import opened MazeCell
  import opened Lattice
  import opened MazeGraph
  import opened MazeShape
  import opened MazeJoin

  // Directions clockwise from up, as in blocks.h.
  type Direction = k: int | 0 <= k < 4

  // turn_wt: by number of quarter turns clockwise, then whether a wall is there.
  function TurnWeight(turn: Direction, wall: bool): int {
    if turn == 0 then (if wall then 84 else 1)
    else if turn == 2 then 3
    else if wall then 9 else 1
  }

  // The distance in memory of one step.
  function Delta(d: Dims, dir: Direction): int {
    if dir == 0 then -d.W() else if dir == 1 then 1 else if dir == 2 then d.W() else -1
  }

  // The bounds tests before each direction is weighed.
  predicate InGrid(d: Dims, x: int, y: int, dir: Direction) {
    if dir == 0 then y > 1
    else if dir == 1 then x < d.x * 2 - 1
    else if dir == 2 then y < d.y * 2 - 1
    else x > 1
  }

  // The weight of a direction: none when it leaves the grid.
  ghost function Weight(d: Dims, m: Grid, x: int, y: int, pref: Direction, dir: Direction): int
    requires d.Legal() && OddPoint(d, x, y)
  {
    if InGrid(d, x, y, dir) then
      StepInMaze(d, x, y, dir);
      TurnWeight((pref - dir + 4) % 4, m[Idx(d, x, y) + 2 * Delta(d, dir)] == WALL)
    else 0
  }

  // The total weight of the directions before `dir`.
  ghost function WeightBefore(d: Dims, m: Grid, x: int, y: int, pref: Direction, dir: int): int
    requires d.Legal() && OddPoint(d, x, y) && 0 <= dir <= 4
  {
    if dir == 0 then 0
    else WeightBefore(d, m, x, y, pref, dir - 1) + Weight(d, m, x, y, pref, dir - 1)
  }

  lemma StepInMaze(d: Dims, x: int, y: int, dir: Direction)
    requires d.Legal() && OddPoint(d, x, y)
    ensures var k := Idx(d, x, y);
      && 0 <= k < MAZE_SIZE && k in LatSet(d)
      && 0 <= k + Delta(d, dir) < MAZE_SIZE && 0 <= k + 2 * Delta(d, dir) < MAZE_SIZE
      && (InGrid(d, x, y, dir) <==> k + 2 * Delta(d, dir) in LatSet(d))
  {
    BesideNode(d, x, y);
  }

  // Where a step in direction dir leads.
  function StepX(x: int, dir: Direction): int { if dir == 1 then x + 2 else if dir == 3 then x - 2 else x }

  function StepY(y: int, dir: Direction): int { if dir == 0 then y - 2 else if dir == 2 then y + 2 else y }

  lemma StepPoint(d: Dims, x: int, y: int, dir: Direction)
    requires d.Legal() && OddPoint(d, x, y) && InGrid(d, x, y, dir)
    ensures OddPoint(d, StepX(x, dir), StepY(y, dir))
    ensures Idx(d, StepX(x, dir), StepY(y, dir)) == Idx(d, x, y) + 2 * Delta(d, dir)
  {
    IdxStep(d, x, y);
    hide RowStart;
    assert Idx(d, x + 2, y) == Idx(d, x, y) + 2 && Idx(d, x - 2, y) == Idx(d, x, y) - 2;
    hide Idx;
    OddStep(d, x, y, dir);
    hide OddPoint;
  }

  lemma OddStep(d: Dims, x: int, y: int, dir: Direction)
    requires OddPoint(d, x, y) && InGrid(d, x, y, dir)
    ensures OddPoint(d, StepX(x, dir), StepY(y, dir))
  {}

  // Some direction always stays inside, so the random draw is never taken
  // modulo zero.
  lemma SomeWeight(d: Dims, m: Grid, x: int, y: int, pref: Direction)
    requires d.Legal() && OddPoint(d, x, y)
    ensures WeightBefore(d, m, x, y, pref, 4) > 0
  {
    assert Weight(d, m, x, y, pref, 1) > 0 || Weight(d, m, x, y, pref, 3) > 0;
    forall dir: Direction ensures Weight(d, m, x, y, pref, dir) >= 0 {}
    assert WeightBefore(d, m, x, y, pref, 2) == WeightBefore(d, m, x, y, pref, 1) + Weight(d, m, x, y, pref, 1);
    assert WeightBefore(d, m, x, y, pref, 3) == WeightBefore(d, m, x, y, pref, 2) + Weight(d, m, x, y, pref, 2);
    assert WeightBefore(d, m, x, y, pref, 4) == WeightBefore(d, m, x, y, pref, 3) + Weight(d, m, x, y, pref, 3);
  }

  // Every cell is either an untouched wall or empty.
  ghost predicate Dug(m: Grid) {
    forall k :: 0 <= k < MAZE_SIZE ==> m[k] == WALL || m[k] == NONE
  }

  // The nodes no worm has reached.
  ghost function Walled(d: Dims, m: Grid): set<int>
    requires d.Legal()
  {
    set k | k in LatSet(d) && m[k].wall
  }

  ghost predicate Digging(d: Dims, m: Grid, remaining: int)
    requires d.Legal()
  {
    Shape(d, m) && Dug(m) && remaining == |Walled(d, m)|
  }

  // Emptying a node is always allowed, and counts when it was a wall.
  lemma DigNode(d: Dims, m: Grid, remaining: int, k: int)
    requires d.Legal() && Digging(d, m, remaining) && k in LatSet(d)
    ensures Digging(d, m[k := NONE], if m[k] == WALL then remaining - 1 else remaining)
    ensures m[k] != WALL ==> m[k := NONE] == m
  {
    var m' := m[k := NONE];
    InLatSet(d, k);
    OpeningKeepsShape(d, m, m', k);
    WalledWithout(d, m, k);
    hide IsLat, Shape, LatSet, Walled;
  }

  lemma WalledWithout(d: Dims, m: Grid, k: int)
    requires d.Legal() && 0 <= k < MAZE_SIZE && k in LatSet(d)
    ensures Walled(d, m[k := NONE]) == Walled(d, m) - {k} && (k in Walled(d, m) <==> m[k].wall)
  {
    hide IsLat;
  }

  // A worm's step from the open node a to the node b two cells away: it empties
  // the cell between them and then b.
  lemma DigStep(d: Dims, m: Grid, remaining: int, a: int, b: int)
    requires d.Legal() && Digging(d, m, remaining) && a in LatSet(d) && b in LatSet(d) && Hop(d, a, b) && !m[a].wall
    ensures 0 <= (a + b) / 2 < MAZE_SIZE && m[b] == m[(a + b) / 2 := NONE][b]
    ensures Digging(d, m[(a + b) / 2 := NONE][b := NONE], if m[b] == WALL then remaining - 1 else remaining)
  {
    InLatSet(d, a);
    InLatSet(d, b);
    HopCell(d, a, b);
    var c := (a + b) / 2;
    var m1 := m[b := NONE];
    DigNode(d, m, remaining, b);
    hide IsLat, Shape, LatSet, Hop, Connector;
    HopConnects(d, m1[c := NONE], a, b);
    OpeningKeepsShape(d, m1, m1[c := NONE], c);
    assert m1[c := NONE] == m[c := NONE][b := NONE];
    assert Walled(d, m1[c := NONE]) == Walled(d, m1);
  }

  lemma WalledPoint(d: Dims, m: Grid, remaining: int) returns (x: int, y: int)
    requires d.Legal() && Digging(d, m, remaining) && remaining > 0
    ensures OddPoint(d, x, y) && InMaze(d, x, y) && m[Idx(d, x, y)].wall
  {
    assert Walled(d, m) != {};
    var k :| k in Walled(d, m);
    InLatSet(d, k);
    x, y := LatPoint(d, k);
  }

  lemma DigStart(d: Dims, m: Grid)
    requires d.Legal() && forall k :: 0 <= k < MAZE_SIZE ==> m[k] == WALL
    ensures Digging(d, m, d.x * d.y) && d.x * d.y > 0
  {
    assert Walled(d, m) == LatSet(d);
    CountNodes(d);
    NodeBound(d);
  }

  // With no wall left on a node the maze is ready for the connection phase.
  lemma DigDone(d: Dims, m: Grid)
    requires d.Legal() && Digging(d, m, 0)
    ensures AllOpen(d, m) && Plain(d, m) && Marked(d, m) == {}
  {
    hide IsLat;
    assert Walled(d, m) == {};
    forall k | k in LatSet(d)
      ensures !m[k].wall
    {
      assert k !in Walled(d, m);
    }
  }

  // The four weights and their running totals, as the code computes them.
  lemma CumulativeWeights(d: Dims, m: Grid, x: int, y: int, pref: Direction)
    requires d.Legal() && OddPoint(d, x, y)
    ensures var k := Idx(d, x, y);
      && 0 <= k - 4 * d.x && k + 4 * d.x < MAZE_SIZE
      && Weight(d, m, x, y, pref, 0)
          == (if y > 1 then TurnWeight(pref, m[k - 4 * d.x] == WALL) else 0)
      && Weight(d, m, x, y, pref, 1)
          == (if x < d.x * 2 - 1 then TurnWeight((pref + 3) % 4, m[k + 2] == WALL) else 0)
      && Weight(d, m, x, y, pref, 2)
          == (if y < d.y * 2 - 1 then TurnWeight((pref + 2) % 4, m[k + 4 * d.x] == WALL) else 0)
      && Weight(d, m, x, y, pref, 3)
          == (if x > 1 then TurnWeight((pref + 1) % 4, m[k - 2] == WALL) else 0)
    ensures WeightBefore(d, m, x, y, pref, 0) == 0
    ensures WeightBefore(d, m, x, y, pref, 1) == Weight(d, m, x, y, pref, 0)
    ensures WeightBefore(d, m, x, y, pref, 2) == WeightBefore(d, m, x, y, pref, 1) + Weight(d, m, x, y, pref, 1)
    ensures WeightBefore(d, m, x, y, pref, 3) == WeightBefore(d, m, x, y, pref, 2) + Weight(d, m, x, y, pref, 2)
    ensures WeightBefore(d, m, x, y, pref, 4) == WeightBefore(d, m, x, y, pref, 3) + Weight(d, m, x, y, pref, 3)
  {
    hide IsLat, LatSet, Idx;
    BesideNode(d, x, y);
    assert pref - 0 + 4 == pref + 4 && (pref + 4) % 4 == pref;
  }

  lemma HopDelta(d: Dims, a: int, dir: Direction)
    requires d.Legal()
    ensures Hop(d, a, a + 2 * Delta(d, dir)) && (a + (a + 2 * Delta(d, dir))) / 2 == a + Delta(d, dir)
  {}

  lemma IdxBeside(d: Dims, x: int, y: int)
    requires d.Legal()
    ensures Idx(d, x, y - 1) == Idx(d, x, y) + Delta(d, 0) && Idx(d, x + 1, y) == Idx(d, x, y) + Delta(d, 1)
    ensures Idx(d, x, y + 1) == Idx(d, x, y) + Delta(d, 2) && Idx(d, x - 1, y) == Idx(d, x, y) + Delta(d, 3)
  {
    IdxStep(d, x, y);
  }

  lemma OnlyWall(d: Dims, m: Grid, remaining: int, k: int)
    requires d.Legal() && Digging(d, m, remaining) && 0 <= k < MAZE_SIZE
    ensures m[k].wall <==> m[k] == WALL
  {}

  lemma NodeOpen(d: Dims, m: Grid, k: int)
    requires d.Legal() && IsLat(d, k) && 0 <= k < MAZE_SIZE && m[k] == NONE
    ensures OpenNode(d, m, k)
  {}

  lemma RemainingCounts(d: Dims, m: Grid, remaining: int)
    requires d.Legal() && Digging(d, m, remaining)
    ensures remaining >= 0
  {}

  // ----- one worm, as a function of its draws -----

  // The direction that a draw selects.
  ghost function Pick(d: Dims, m: Grid, x: int, y: int, pref: Direction, pick: int, from: Direction): Direction
    requires d.Legal() && OddPoint(d, x, y)
    decreases 4 - from
  {
    if from == 3 || pick < WeightBefore(d, m, x, y, pref, from + 1) then from
    else Pick(d, m, x, y, pref, pick, from + 1)
  }

  ghost function Chosen(d: Dims, m: Grid, x: int, y: int, pref: Direction, draw: nat): Direction
    requires d.Legal() && OddPoint(d, x, y)
  {
    SomeWeight(d, m, x, y, pref);
    Pick(d, m, x, y, pref, draw % WeightBefore(d, m, x, y, pref, 4), 0)
  }

  // No direction that leaves the grid is ever selected.
  lemma ChosenInGrid(d: Dims, m: Grid, x: int, y: int, pref: Direction, draw: nat)
    requires d.Legal() && OddPoint(d, x, y)
    ensures InGrid(d, x, y, Chosen(d, m, x, y, pref, draw))
  {
    hide IsLat, Idx, TurnWeight;
    SomeWeight(d, m, x, y, pref);
    CumulativeWeights(d, m, x, y, pref);
    PickIs(d, m, x, y, pref, draw % WeightBefore(d, m, x, y, pref, 4), 0);
  }

  // The selected direction is the one whose share of the weights holds the draw.
  lemma {:induction false} PickIs(d: Dims, m: Grid, x: int, y: int, pref: Direction, pick: int, from: Direction)
    requires d.Legal() && OddPoint(d, x, y)
      && WeightBefore(d, m, x, y, pref, from) <= pick < WeightBefore(d, m, x, y, pref, 4)
    ensures var p := Pick(d, m, x, y, pref, pick, from);
      from <= p && WeightBefore(d, m, x, y, pref, p) <= pick < WeightBefore(d, m, x, y, pref, p + 1)
    decreases 4 - from
  {
    hide WeightBefore;
    if from != 3 && pick >= WeightBefore(d, m, x, y, pref, from + 1) {
      PickIs(d, m, x, y, pref, pick, from + 1);
    }
  }

  // The shares do not overlap.
  lemma PickUnique(d: Dims, m: Grid, x: int, y: int, pref: Direction, pick: int, dir: Direction, p: Direction)
    requires d.Legal() && OddPoint(d, x, y)
    requires WeightBefore(d, m, x, y, pref, dir) <= pick < WeightBefore(d, m, x, y, pref, dir + 1)
    requires WeightBefore(d, m, x, y, pref, p) <= pick < WeightBefore(d, m, x, y, pref, p + 1)
    ensures dir == p
  {}

  lemma ChosenIs(d: Dims, m: Grid, x: int, y: int, pref: Direction, draw: nat, dir: Direction)
    requires d.Legal() && OddPoint(d, x, y) && WeightBefore(d, m, x, y, pref, 4) > 0
    requires var pick := draw % WeightBefore(d, m, x, y, pref, 4);
      WeightBefore(d, m, x, y, pref, dir) <= pick < WeightBefore(d, m, x, y, pref, dir + 1)
    ensures dir == Chosen(d, m, x, y, pref, draw)
  {
    var pick := draw % WeightBefore(d, m, x, y, pref, 4);
    assert WeightBefore(d, m, x, y, pref, 0) == 0;
    hide WeightBefore;
    PickIs(d, m, x, y, pref, pick, 0);
    PickUnique(d, m, x, y, pref, pick, dir, Pick(d, m, x, y, pref, pick, 0));
  }

  // The worm's bite in direction dir.
  ghost function Bite(d: Dims, m: Grid, x: int, y: int, dir: Direction): Grid
    requires d.Legal() && OddPoint(d, x, y)
  {
    StepInMaze(d, x, y, dir);
    m[Idx(d, x, y) + Delta(d, dir) := NONE][Idx(d, x, y) + 2 * Delta(d, dir) := NONE]
  }

  // Where a worm stops and in which direction it was going, the maze it leaves, how
  // many draws have been used, and whether it turned back or ran out of them.
  datatype WormEnd = WormEnd(m: Grid, x: int, y: int, pref: Direction, n: nat, turned: bool)

  // Where a worm at (x,y) that has used n draws gets to, and what it digs.
  ghost function Worm(d: Dims, m: Grid, x: int, y: int, pref: Direction, draws: seq<nat>, n: nat): (e: WormEnd)
    requires d.Legal() && OddPoint(d, x, y) && n <= |draws|
    ensures OddPoint(d, e.x, e.y) && n <= e.n <= |draws| && (!e.turned ==> e.n == |draws|)
    decreases |draws| - n
  {
    if n == |draws| then WormEnd(m, x, y, pref, n, false)
    else
      var dir := Chosen(d, m, x, y, pref, draws[n]);
      ChosenInGrid(d, m, x, y, pref, draws[n]);
      StepPoint(d, x, y, dir);
      if (dir - pref + 4) % 4 == 2 then WormEnd(m, x, y, pref, n + 1, true)
      else Worm(d, Bite(d, m, x, y, dir), StepX(x, dir), StepY(y, dir), dir, draws, n + 1)
  }

  // What one worm digs hangs together: it can walk back to where it started.
  lemma {:induction false} WormIsJoined(d: Dims, m: Grid, x: int, y: int, pref: Direction, draws: seq<nat>, n: nat)
    requires d.Legal() && OddPoint(d, x, y) && n <= |draws|
    ensures var e := Worm(d, m, x, y, pref, draws, n);
      && OddPoint(d, e.x, e.y) && Connected(d, e.m, Idx(d, x, y), Idx(d, e.x, e.y))
      && forall k :: 0 <= k < MAZE_SIZE && !m[k].wall ==> !e.m[k].wall
    decreases |draws| - n
  {
    var k := Idx(d, x, y);
    hide IsLat, Idx, Chosen, Reach, OddPoint;
    ReachSelf(d, m, {}, k);
    if n < |draws| {
      var dir := Chosen(d, m, x, y, pref, draws[n]);
      ChosenInGrid(d, m, x, y, pref, draws[n]);
      StepPoint(d, x, y, dir);
      if (dir - pref + 4) % 4 != 2 {
        var m', x', y' := Bite(d, m, x, y, dir), StepX(x, dir), StepY(y, dir);
        var k', e := Idx(d, x', y'), Worm(d, m', x', y', dir, draws, n + 1);
        BiteEdge(d, m, x, y, dir);
        WormIsJoined(d, m', x', y', dir, draws, n + 1);
        ReachSelf(d, m', {}, k);
        ReachStep(d, m', {}, k, k, k');
        ReachMono(d, m', e.m, {}, {}, k, k');
        ReachTrans(d, e.m, {}, k, k', Idx(d, e.x, e.y));
      }
    }
  }

  lemma BiteEdge(d: Dims, m: Grid, x: int, y: int, dir: Direction)
    requires d.Legal() && OddPoint(d, x, y) && InGrid(d, x, y, dir)
    ensures var k := Idx(d, x, y); Edge(d, Bite(d, m, x, y, dir), k, k + 2 * Delta(d, dir))
    ensures forall k :: 0 <= k < MAZE_SIZE && !m[k].wall ==> !Bite(d, m, x, y, dir)[k].wall
  {
    hide IsLat, Idx;
    StepInMaze(d, x, y, dir);
    HopDelta(d, Idx(d, x, y), dir);
    InLatSet(d, Idx(d, x, y));
    InLatSet(d, Idx(d, x, y) + 2 * Delta(d, dir));
  }
}
