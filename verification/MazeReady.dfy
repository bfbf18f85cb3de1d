// A finished maze: what make_maze hands to the game.
module MazeReady {
  import opened MazeCell
  import opened Lattice
  import opened MazeGraph
  import opened MazeShape
  import opened MazeJoin

  // The interior: everything inside the boundary.
  predicate Inside(d: Dims, x: int, y: int) {
    1 <= x < d.W() && 1 <= y < 2 * d.y
  }

  ghost predicate Interior(d: Dims, k: int) {
    exists x, y :: Inside(d, x, y) && k == Idx(d, x, y)
  }

  // The locations that hold a fruit.
  ghost function Fruited(m: Grid): set<int> {
    set k | 0 <= k < MAZE_SIZE && m[k].fruit != 0
  }

  // The nodes are open and joined to (1,1); the boundary is closed.
  ghost predicate WellConnected(d: Dims, m: Grid)
    requires d.Legal()
  {
    && Fenced(d, m) && AllOpen(d, m)
    && forall k :: k in LatSet(d) ==> Connected(d, m, Idx(d, 1, 1), k)
  }

  // Fruit lies on nodes and is counted by n.
  ghost predicate FruitCount(d: Dims, m: Grid, n: int)
    requires d.Legal()
  {
    n == |Fruited(m)| && Fruited(m) <= LatSet(d)
  }

  // The exit is at one node, (ex,ey), and nowhere else.
  ghost predicate OneExit(d: Dims, m: Grid, ex: int, ey: int)
    requires d.Legal()
  {
    OddPoint(d, ex, ey) && forall k :: 0 <= k < MAZE_SIZE ==> (m[k].exit <==> k == Idx(d, ex, ey))
  }

  ghost predicate NoMarks(m: Grid) {
    forall k :: 0 <= k < MAZE_SIZE ==> !m[k].reach
  }

  ghost predicate Bare(m: Grid) {
    forall k :: 0 <= k < MAZE_SIZE ==> m[k].fruit == 0 && !m[k].exit && !m[k].reach
  }

  function Unmark(m: Grid): Grid {
    seq(MAZE_SIZE, k requires 0 <= k < MAZE_SIZE => m[k].(reach := false))
  }

  ghost function OpenInterior(d: Dims, m: Grid): Grid {
    seq(MAZE_SIZE, k requires 0 <= k < MAZE_SIZE => if Interior(d, k) then NONE else m[k])
  }

  lemma InsideInMaze(d: Dims, x: int, y: int)
    requires d.Legal() && Inside(d, x, y)
    ensures InMaze(d, x, y)
  {
    IdxBounds(d, x, y);
  }

  lemma InteriorAt(d: Dims, x: int, y: int)
    requires d.Legal() && 0 <= x < d.W() && -1 <= y
    ensures Interior(d, Idx(d, x, y)) <==> Inside(d, x, y)
  {
    if Interior(d, Idx(d, x, y)) {
      var x', y' :| Inside(d, x', y') && Idx(d, x, y) == Idx(d, x', y');
      IdxUnique(d, x, y, x', y');
    }
  }

  lemma InteriorPoint(d: Dims, k: int) returns (x: int, y: int)
    requires Interior(d, k)
    ensures Inside(d, x, y) && k == Idx(d, x, y)
  {
    x, y :| Inside(d, x, y) && k == Idx(d, x, y);
  }

  lemma OddBelow(d: Dims, x: int, y: int, bound: int)
    requires OddPoint(d, x, y) && bound >= d.W()
    ensures x < bound
  {}

  // The connection phase leaves a connected maze; connectivity and the closed
  // boundary depend on the walls alone.
  lemma JoinedIsConnected(d: Dims, m: Grid)
    requires d.Legal() && Joining(d, m, 0)
    ensures WellConnected(d, m)
  {
    AllJoined(d, m);
    ShapeFenced(d, m);
  }

  lemma ConnectedOfWalls(d: Dims, m: Grid, m': Grid)
    requires d.Legal() && WellConnected(d, m)
    requires forall k :: 0 <= k < MAZE_SIZE ==> m[k].wall == m'[k].wall
    ensures WellConnected(d, m')
  {}

  // Removing all interior walls keeps every connection and the boundary.
  lemma OpenInteriorKeeps(d: Dims, m: Grid)
    requires d.Legal() && WellConnected(d, m)
    ensures WellConnected(d, OpenInterior(d, m))
  {
    var m' := OpenInterior(d, m);
    hide IsLat, Reach, Idx, Interior;
    forall k | k in LatSet(d)
      ensures Connected(d, m', Idx(d, 1, 1), k)
    {
      ReachMono(d, m, m', {}, {}, Idx(d, 1, 1), k);
    }
    forall x, y | 0 <= x < d.W() && -1 <= y <= 2 * d.y + 1 && (x == 0 || y <= 0 || y >= 2 * d.y)
      ensures InMaze(d, x, y) && m'[Idx(d, x, y)].wall
    {
      InteriorAt(d, x, y);
    }
  }

  lemma Outside(a: set<int>, b: set<int>) returns (k: int)
    requires a <= b && |a| < |b|
    ensures k in b && k !in a
  {
    if forall l :: l in b ==> l in a {
      SubsetSize(b, a);
    }
    k :| k in b && k !in a;
  }

  lemma UnfruitedPoint(d: Dims, m: Grid, n: int) returns (x: int, y: int)
    requires d.Legal() && FruitCount(d, m, n) && n < d.x * d.y
    ensures OddPoint(d, x, y) && InMaze(d, x, y) && m[Idx(d, x, y)].fruit == 0
  {
    CountNodes(d);
    hide IsLat, Idx;
    var k := Outside(Fruited(m), LatSet(d));
    InLatSet(d, k);
    x, y := LatPoint(d, k);
  }

  lemma AddFruitCounts(d: Dims, m: Grid, n: int, k: int, f: Fruit)
    requires d.Legal() && FruitCount(d, m, n) && k in LatSet(d) && m[k].fruit == 0 && f != 0
    ensures FruitCount(d, m[k := m[k].(fruit := f)], n + 1)
  {
    assert Fruited(m[k := m[k].(fruit := f)]) == Fruited(m) + {k};
  }

  lemma EatFruitCounts(d: Dims, m: Grid, n: int, k: int)
    requires d.Legal() && FruitCount(d, m, n) && 0 <= k < MAZE_SIZE && m[k].fruit != 0
    ensures FruitCount(d, m[k := m[k].(fruit := 0)], n - 1) && n > 0
  {
    assert k in Fruited(m);
    assert Fruited(m) == Fruited(m[k := m[k].(fruit := 0)]) + {k};
  }

  lemma BareHasNoFruit(d: Dims, m: Grid)
    requires d.Legal() && Bare(m)
    ensures FruitCount(d, m, 0)
  {
    assert Fruited(m) == {};
  }

  // Play changes neither walls nor the exit.
  ghost predicate SameWalls(m: Grid, m': Grid) {
    forall k :: 0 <= k < MAZE_SIZE ==> m'[k].wall == m[k].wall && m'[k].exit == m[k].exit
  }

  // Between m and m' cells have been uncovered and nothing else changed.
  ghost predicate Uncovers(m: Grid, m': Grid) {
    forall k :: 0 <= k < MAZE_SIZE ==> m'[k] == m[k] || m'[k] == m[k].(reach := true)
  }

  lemma UnveilKeeps(d: Dims, m: Grid, m': Grid, n: int, ex: int, ey: int)
    requires d.Legal() && WellConnected(d, m) && FruitCount(d, m, n) && OneExit(d, m, ex, ey)
    requires Uncovers(m, m')
    ensures SameWalls(m, m') && WellConnected(d, m') && FruitCount(d, m', n) && OneExit(d, m', ex, ey)
  {
    hide IsLat, Idx, WellConnected;
    assert SameWalls(m, m');
    ConnectedOfWalls(d, m, m');
    assert Fruited(m') == Fruited(m);
  }

  lemma EatKeeps(d: Dims, m: Grid, m': Grid, ex: int, ey: int)
    requires d.Legal() && WellConnected(d, m) && OneExit(d, m, ex, ey)
    requires forall k :: 0 <= k < MAZE_SIZE ==> m'[k] == m[k] || m'[k] == m[k].(fruit := 0)
    ensures SameWalls(m, m') && WellConnected(d, m') && OneExit(d, m', ex, ey)
  {}

  lemma ConnectedIsFenced(d: Dims, m: Grid)
    requires d.Legal() && WellConnected(d, m)
    ensures Fenced(d, m)
  {}

  lemma StartOpen(d: Dims, m: Grid)
    requires d.Legal() && WellConnected(d, m)
    ensures Inside(d, 1, 1) && InMaze(d, 1, 1) && !m[Idx(d, 1, 1)].wall
  {
    OddInMaze(d, 1, 1);
  }
}
