// Why the connection phase of make_maze works: what joining one more region
// keeps, and why there is always a region left to join.
module MazeJoin {
  import opened Arith
  import opened MazeCell
  import opened Lattice
  import opened MazeGraph
  import opened MazeShape

  ghost predicate AllOpen(d: Dims, m: Grid)
    requires d.Legal()
  {
    forall k :: k in LatSet(d) ==> !m[k].wall
  }

  // The nodes joined to (1,1) by open cells.
  ghost function Component(d: Dims, m: Grid): set<int>
    requires d.Legal()
  {
    set k | k in LatSet(d) && Connected(d, m, Idx(d, 1, 1), k)
  }

  // Marks are only on nodes, and no fruit or exit has been placed yet.
  ghost predicate Plain(d: Dims, m: Grid)
    requires d.Legal()
  {
    forall k :: 0 <= k < MAZE_SIZE ==> m[k].fruit == 0 && !m[k].exit && (m[k].reach ==> k in LatSet(d))
  }

  // What holds between two rounds of the connection phase: the marked nodes
  // are exactly those joined to (1,1), and `remaining` counts the others.
  ghost predicate Joining(d: Dims, m: Grid, remaining: int)
    requires d.Legal()
  {
    && Shape(d, m) && AllOpen(d, m) && Plain(d, m)
    && Marked(d, m) == Component(d, m)
    && remaining == |LatSet(d) - Marked(d, m)|
  }

  // An unmarked node next to a marked one.
  ghost predicate Frontier(d: Dims, m: Grid, k: int, nb: int)
    requires d.Legal()
  {
    k in LatSet(d) && nb in LatSet(d) && Hop(d, k, nb) && !m[k].reach && m[nb].reach
  }

  lemma ReachAvoids(d: Dims, m: Grid, avoid: set<int>, a: int, b: int)
    requires d.Legal() && Reach(d, m, avoid, a, b) && a !in avoid
    ensures b !in avoid
  {
    var p :| Walk(d, m, avoid, p) && p[0] == a && p[|p| - 1] == b;
  }

  // The cell between two neighbouring nodes is not a node.
  lemma HopCell(d: Dims, a: int, b: int)
    requires d.Legal() && IsLat(d, a) && IsLat(d, b) && Hop(d, a, b)
    ensures 0 <= (a + b) / 2 < MAZE_SIZE && (a + b) / 2 !in LatSet(d)
  {
    hide IsLat, Idx;
    var x, y := LatPoint(d, a);
    NoNodeAround(d, a);
    HopEnds(d, a, b);
    InLatSet(d, (a + b) / 2);
  }

  // It lies between no other pair.
  lemma HopCellUnique(d: Dims, a: int, b: int, a': int, b': int)
    requires d.Legal() && IsLat(d, a) && IsLat(d, b) && Hop(d, a, b)
    requires IsLat(d, a') && IsLat(d, b') && Hop(d, a', b') && (a' + b') / 2 == (a + b) / 2
    ensures (a' == a && b' == b) || (a' == b && b' == a)
  {
    hide IsLat, Hop;
    NoNodeAround(d, a);
    HopEnds(d, a, b);
    HopEnds(d, a', b');
  }

  lemma OpenCellKeeps(d: Dims, m: Grid, remaining: int, k: int, nb: int)
    requires d.Legal() && Joining(d, m, remaining) && Frontier(d, m, k, nb)
    ensures 0 <= (k + nb) / 2 < MAZE_SIZE
    ensures var m' := m[(k + nb) / 2 := NONE];
      Shape(d, m') && AllOpen(d, m') && Plain(d, m') && Marked(d, m') == Marked(d, m)
  {
    InLatSet(d, k);
    InLatSet(d, nb);
    HopCell(d, k, nb);
    var c := (k + nb) / 2;
    var m' := m[c := NONE];
    assert !m[k].wall && !m[nb].wall;
    OpenCellFrame(d, m, c);
    hide IsLat, Hop, LatSet, Shape, AllOpen, Plain, Marked, Connector;
    HopConnects(d, m', k, nb);
    OpeningKeepsShape(d, m, m', c);
  }

  // A cell between nodes carries no mark and is no node.
  lemma OpenCellFrame(d: Dims, m: Grid, c: int)
    requires d.Legal() && AllOpen(d, m) && Plain(d, m) && 0 <= c < MAZE_SIZE && c !in LatSet(d)
    ensures var m' := m[c := NONE];
      AllOpen(d, m') && Plain(d, m') && Marked(d, m') == Marked(d, m)
  {
    hide IsLat;
  }

  // After the wall between k and nb is gone, what was joined to (1,1) and what
  // can be reached from k is closed under edges.
  lemma JoinClosed(d: Dims, m: Grid, remaining: int, k: int, nb: int)
    requires d.Legal() && Joining(d, m, remaining) && Frontier(d, m, k, nb)
    requires 0 <= (k + nb) / 2 < MAZE_SIZE
    ensures var m' := m[(k + nb) / 2 := NONE];
      Closed(d, m', {}, Marked(d, m) + Area(d, m', k))
  {
    var c := (k + nb) / 2;
    var m' := m[c := NONE];
    OpenCellKeeps(d, m, remaining, k, nb);
    var all := Marked(d, m) + Area(d, m', k);
    InLatSet(d, k);
    InLatSet(d, nb);
    HopCell(d, k, nb);
    ReachSelf(d, m', Marked(d, m'), k);
    hide IsLat, Shape, AllOpen, Plain, Hop;
    forall a, b | a in all && Edge(d, m', a, b)
      ensures b in all
    {
      InLatSet(d, b);
      if a in Marked(d, m) {
        if (a + b) / 2 == c {
          HopCellUnique(d, k, nb, a, b);
        } else {
          assert Edge(d, m, a, b);
          ReachStep(d, m, {}, Idx(d, 1, 1), a, b);
        }
      } else if b !in Marked(d, m) {
        ReachStep(d, m', Marked(d, m'), k, a, b);
      }
    }
  }

  // The component of (1,1) is then the old one and the area behind the wall.
  lemma JoinComponent(d: Dims, m: Grid, remaining: int, k: int, nb: int)
    requires d.Legal() && Joining(d, m, remaining) && Frontier(d, m, k, nb)
    requires 0 <= (k + nb) / 2 < MAZE_SIZE
    ensures var m' := m[(k + nb) / 2 := NONE];
      Component(d, m') == Marked(d, m) + Area(d, m', k)
  {
    var m' := m[(k + nb) / 2 := NONE];
    var start := Idx(d, 1, 1);
    var all := Marked(d, m) + Area(d, m', k);
    JoinClosed(d, m, remaining, k, nb);
    JoinReaches(d, m, remaining, k, nb);
    StartMarked(d, m);
    hide IsLat, Shape, AllOpen, Plain, Hop, Closed, Reach, LatSet, Idx;
    forall a | a in Component(d, m')
      ensures a in all
    {
      ReachInClosed(d, m', {}, all, start, a);
    }
  }

  // All of it is joined to (1,1), through the opening.
  lemma JoinReaches(d: Dims, m: Grid, remaining: int, k: int, nb: int)
    requires d.Legal() && Joining(d, m, remaining) && Frontier(d, m, k, nb)
    requires 0 <= (k + nb) / 2 < MAZE_SIZE
    ensures var m' := m[(k + nb) / 2 := NONE];
      Marked(d, m) <= Component(d, m') && Area(d, m', k) <= Component(d, m')
  {
    var m' := m[(k + nb) / 2 := NONE];
    var start := Idx(d, 1, 1);
    OpenedEdge(d, m, k, nb);
    hide IsLat, Shape, AllOpen, Plain, Edge, Reach, Idx, LatSet;
    forall a | a in Marked(d, m)
      ensures Connected(d, m', start, a)
    {
      assert a in Component(d, m);
      StaysReached(d, m, (k + nb) / 2, {}, start, a);
    }
    assert nb in Marked(d, m);
    ReachStep(d, m', {}, start, nb, k);
    hide Frontier;
    forall a | a in Area(d, m', k)
      ensures Connected(d, m', start, a)
    {
      ReachMono(d, m', m', Marked(d, m'), {}, k, a);
      ReachTrans(d, m', {}, start, k, a);
    }
  }

  lemma OpenedEdge(d: Dims, m: Grid, k: int, nb: int)
    requires d.Legal() && Frontier(d, m, k, nb) && 0 <= (k + nb) / 2 < MAZE_SIZE
    ensures Edge(d, m[(k + nb) / 2 := NONE], nb, k)
  {
    InLatSet(d, k);
    InLatSet(d, nb);
    HopSym(d, k, nb);
    hide IsLat, Hop, LatSet;
  }

  // Opening a cell closes no way.
  lemma StaysReached(d: Dims, m: Grid, c: int, avoid: set<int>, a: int, b: int)
    requires d.Legal() && 0 <= c < MAZE_SIZE && Reach(d, m, avoid, a, b)
    ensures Reach(d, m[c := NONE], avoid, a, b)
  {
    hide Reach;
    ReachMono(d, m, m[c := NONE], avoid, avoid, a, b);
  }

  lemma HopSym(d: Dims, a: int, b: int)
    requires d.Legal() && Hop(d, a, b)
    ensures Hop(d, b, a)
  {}

  lemma StartMarked(d: Dims, m: Grid)
    requires d.Legal()
    ensures Idx(d, 1, 1) in Component(d, m)
  {
    IsLatAt(d, 1, 1);
    InLatSet(d, Idx(d, 1, 1));
    ReachSelf(d, m, {}, Idx(d, 1, 1));
  }

  // Marking does not change which nodes are joined.
  lemma ComponentOfWalls(d: Dims, m: Grid, m': Grid)
    requires d.Legal() && forall k :: 0 <= k < MAZE_SIZE ==> m[k].wall == m'[k].wall
    ensures Component(d, m) == Component(d, m')
  {}

  // The marked set stays the component of (1,1), and the count stays exact,
  // when the wall next to k is removed and the region behind it is marked.
  lemma JoinStep(d: Dims, m: Grid, remaining: int, k: int, nb: int)
    requires d.Legal() && Joining(d, m, remaining) && Frontier(d, m, k, nb)
    requires 0 <= (k + nb) / 2 < MAZE_SIZE
    ensures var m' := m[(k + nb) / 2 := NONE]; var area := Area(d, m', k);
      Joining(d, MarkAll(m', area), remaining - |area|) && |area| > 0
  {
    var m' := m[(k + nb) / 2 := NONE];
    var area := Area(d, m', k);
    var m'' := MarkAll(m', area);
    OpenCellKeeps(d, m, remaining, k, nb);
    JoinComponent(d, m, remaining, k, nb);
    AreaFresh(d, m', k);
    hide IsLat, Shape, Component, Area, AllOpen, Frontier, Hop, Plain, Marked, MarkAll;
    MarkedAfter(d, m', area);
    MarkKeeps(d, m', area);
    RestShrinks(LatSet(d), Marked(d, m), area);
  }

  lemma RemainingIsCount(d: Dims, m: Grid, remaining: int)
    requires d.Legal() && Joining(d, m, remaining)
    ensures remaining >= 0
  {}

  lemma MarkKeeps(d: Dims, m: Grid, s: set<int>)
    requires d.Legal() && Shape(d, m) && AllOpen(d, m) && Plain(d, m) && s <= LatSet(d)
    ensures var m' := MarkAll(m, s);
      Shape(d, m') && AllOpen(d, m') && Plain(d, m') && Component(d, m') == Component(d, m)
  {
    ShapeOfWalls(d, m, MarkAll(m, s));
    ComponentOfWalls(d, m, MarkAll(m, s));
    hide IsLat, Shape, Component;
  }

  lemma AreaFresh(d: Dims, m: Grid, k: int)
    requires d.Legal() && k in LatSet(d) && !m[k].reach
    ensures k in Area(d, m, k) && Area(d, m, k) !! Marked(d, m) && Area(d, m, k) <= LatSet(d)
  {
    hide IsLat;
    ReachSelf(d, m, Marked(d, m), k);
    forall a | a in Area(d, m, k)
      ensures a !in Marked(d, m)
    {
      ReachAvoids(d, m, Marked(d, m), k, a);
    }
  }

  lemma MarkedAfter(d: Dims, m: Grid, s: set<int>)
    requires d.Legal() && s <= LatSet(d)
    ensures Marked(d, MarkAll(m, s)) == Marked(d, m) + s
  {}

  lemma RestShrinks(all: set<int>, marked: set<int>, area: set<int>)
    requires area <= all && area !! marked
    ensures |all - (marked + area)| == |all - marked| - |area|
  {
    assert all - marked == (all - (marked + area)) + area;
  }

  // The first marking, from (1,1) in an unmarked maze.
  lemma JoinStart(d: Dims, m: Grid)
    requires d.Legal() && Shape(d, m) && AllOpen(d, m) && Plain(d, m) && Marked(d, m) == {}
    ensures var area := Area(d, m, Idx(d, 1, 1));
      Joining(d, MarkAll(m, area), d.x * d.y - |area|)
  {
    var area := Area(d, m, Idx(d, 1, 1));
    var m' := MarkAll(m, area);
    assert area == Component(d, m);
    MarkedAfter(d, m, area);
    hide IsLat, Shape, Component, Area;
    MarkKeeps(d, m, area);
    CountNodes(d);
    RestShrinks(LatSet(d), {}, area);
  }

  // While some node is unmarked, some unmarked node is next to a marked one:
  // walk from it to the left, then up, towards (1,1).
  lemma {:induction false} FindFrontier(d: Dims, m: Grid, x: int, y: int) returns (k: int, nb: int)
    requires d.Legal() && OddPoint(d, x, y) && InMaze(d, x, y) && !m[Idx(d, x, y)].reach
    requires Idx(d, 1, 1) in Marked(d, m)
    ensures Frontier(d, m, k, nb)
    decreases y, x
  {
    hide IsLat, Idx;
    assert x > 1 || y > 1;
    var x', y' := if x > 1 then x - 2 else x, if x > 1 then y else y - 2;
    k, nb := Idx(d, x, y), Idx(d, x', y');
    NodeBeside(d, x, y, x', y');
    if !m[nb].reach {
      k, nb := FindFrontier(d, m, x', y');
    }
  }

  lemma NodeBeside(d: Dims, x: int, y: int, x': int, y': int)
    requires d.Legal() && OddPoint(d, x, y) && OddPoint(d, x', y')
    requires (x' == x - 2 && y' == y) || (x' == x && y' == y - 2)
    ensures Idx(d, x, y) in LatSet(d) && Idx(d, x', y') in LatSet(d) && Hop(d, Idx(d, x, y), Idx(d, x', y'))
    ensures InMaze(d, x', y')
  {
    IdxStep(d, x, y);
    IsLatAt(d, x, y);
    IsLatAt(d, x', y');
    hide IsLat;
    InLatSet(d, Idx(d, x, y));
    InLatSet(d, Idx(d, x', y'));
  }

  lemma FrontierExists(d: Dims, m: Grid, remaining: int) returns (k: int, nb: int)
    requires d.Legal() && Joining(d, m, remaining) && remaining > 0
    ensures Frontier(d, m, k, nb) && IsLat(d, k)
  {
    assert LatSet(d) - Marked(d, m) != {};
    var l :| l in LatSet(d) - Marked(d, m);
    var x, y := LatPoint(d, l);
    StartMarked(d, m);
    k, nb := FindFrontier(d, m, x, y);
    InLatSet(d, k);
  }

  lemma AllJoined(d: Dims, m: Grid)
    requires d.Legal() && Joining(d, m, 0)
    ensures forall k :: k in LatSet(d) ==> m[k].reach && Connected(d, m, Idx(d, 1, 1), k)
  {}

  // ----- the row-major scan -----

  // How far ahead of k node f is in the wrapping scan.
  function Ahead(f: int, k: int): int {
    if f > k then f - k else f - k + MAZE_SIZE
  }

  // Where the scan goes from (x,y).
  function ScanX(d: Dims, x: int): int {
    if x + 2 > d.x * 2 then x + 2 - d.x * 2 else x + 2
  }

  function ScanY(d: Dims, x: int, y: int): int {
    if x + 2 > d.x * 2 then (if y + 2 > 2 * d.y then y + 2 - 2 * d.y else y + 2) else y
  }

  lemma IdxOrder(d: Dims, x: int, y: int, x': int, y': int)
    requires d.Legal() && 0 <= x < d.W() && 0 <= x' < d.W() && 0 <= y && 0 <= y'
    ensures Idx(d, x, y) < Idx(d, x', y') <==> y < y' || (y == y' && x < x')
  {
    if y < y' { RowOrder(d, y, y'); }
    if y' < y { RowOrder(d, y', y); }
  }

  // The scan visits the nodes in memory order and wraps at the end, so every
  // step either arrives at f or comes closer to it.
  lemma ScanApproaches(d: Dims, x: int, y: int, f: int)
    requires d.Legal() && OddPoint(d, x, y) && IsLat(d, f)
    ensures OddPoint(d, ScanX(d, x), ScanY(d, x, y))
    ensures var k, k' := Idx(d, x, y), Idx(d, ScanX(d, x), ScanY(d, x, y));
      k' == f || 0 <= Ahead(f, k') < Ahead(f, k)
  {
    var fx, fy := LatPoint(d, f);
    var x', y' := ScanX(d, x), ScanY(d, x, y);
    ScanOrder(d, x, y, fx, fy);
    IdxBounds(d, x, y);
    IdxBounds(d, x', y');
    IdxBounds(d, fx, fy);
    IdxOrder(d, x, y, fx, fy);
    IdxOrder(d, x', y', fx, fy);
    IdxOrder(d, x, y, x', y');
    hide IsLat, Idx, ScanX, ScanY, OddPoint;
  }

  // No node lies between a point and the next one of the scan; at the end the scan
  // starts again before all nodes.
  lemma ScanOrder(d: Dims, x: int, y: int, fx: int, fy: int)
    requires d.Legal() && OddPoint(d, x, y) && OddPoint(d, fx, fy)
    ensures var x', y' := ScanX(d, x), ScanY(d, x, y);
      && OddPoint(d, x', y')
      && (Before(x, y, fx, fy) ==> Before(x, y, x', y') && !Before(fx, fy, x', y'))
      && (!Before(x, y, fx, fy) && Before(x', y', x, y) ==> !Before(fx, fy, x', y'))
  {
    ScanOdd(d, x, y);
  }

  lemma ScanOdd(d: Dims, x: int, y: int)
    requires d.Legal() && OddPoint(d, x, y)
    ensures OddPoint(d, ScanX(d, x), ScanY(d, x, y))
  {}

  lemma NextFrontier(d: Dims, m: Grid, remaining: int) returns (f: int, fnb: int)
    requires d.Legal() && Joining(d, m, remaining)
    ensures IsLat(d, f) && (remaining > 0 ==> Frontier(d, m, f, fnb)) && remaining >= 0
  {
    if remaining > 0 {
      f, fnb := FrontierExists(d, m, remaining);
    } else {
      f, fnb := Idx(d, 1, 1), 0;
      IsLatAt(d, 1, 1);
    }
  }

  lemma FrontierUnmarked(d: Dims, m: Grid, f: int, fnb: int)
    requires d.Legal()
    ensures Frontier(d, m, f, fnb) ==> 0 <= f < MAZE_SIZE && !m[f].reach
  {}

  lemma KnockKeepsReach(d: Dims, m: Grid, k: int, nb: int)
    requires d.Legal() && Frontier(d, m, k, nb) && 0 <= (k + nb) / 2 < MAZE_SIZE && 0 <= k < MAZE_SIZE
    ensures !m[(k + nb) / 2 := NONE][k].reach
  {}

  // Random trials left before the scan takes over.
  function TrialsLeft(remaining: int, trials: int): int {
    if remaining < 20 || trials > 100 then 0 else 101 - trials
  }

  lemma OddInMaze(d: Dims, x: int, y: int)
    requires d.Legal() && OddPoint(d, x, y)
    ensures InMaze(d, x, y) && Idx(d, x, y) in LatSet(d) && IsLat(d, Idx(d, x, y))
  {
    IdxBounds(d, x, y);
    IsLatAt(d, x, y);
    InLatSet(d, Idx(d, x, y));
  }

  lemma StartUnmarked(d: Dims, m: Grid)
    requires d.Legal() && Marked(d, m) == {}
    ensures OddPoint(d, 1, 1) && InMaze(d, 1, 1) && !m[Idx(d, 1, 1)].reach
  {
    OddInMaze(d, 1, 1);
    assert Idx(d, 1, 1) !in Marked(d, m);
  }

  lemma UnmarkedPoint(d: Dims, m: Grid, remaining: int) returns (x: int, y: int)
    requires d.Legal() && Joining(d, m, remaining) && remaining > 0
    ensures OddPoint(d, x, y) && InMaze(d, x, y) && !m[Idx(d, x, y)].reach
  {
    var k, nb := FrontierExists(d, m, remaining);
    InLatSet(d, k);
    x, y := LatPoint(d, k);
  }

  // The nodes two cells from (x,y), and which of them the bounds tests admit.
  lemma BesideNode(d: Dims, x: int, y: int)
    requires d.Legal() && OddPoint(d, x, y)
    ensures var k := Idx(d, x, y);
      && k in LatSet(d)
      && 0 <= k - 4 * d.x && k + 4 * d.x < MAZE_SIZE
      && (k - 4 * d.x in LatSet(d) <==> y > 1)
      && (k - 2 in LatSet(d) <==> x > 1)
      && (k + 2 in LatSet(d) <==> x < 2 * d.x - 1)
      && (k + 4 * d.x in LatSet(d) <==> y < 2 * d.y - 1)
  {
    var k := Idx(d, x, y);
    Neighbours(d, x, y);
    var x', y' := LatPoint(d, k);
    hide IsLat;
    InLatSet(d, k);
    InLatSet(d, k - 4 * d.x);
    InLatSet(d, k - 2);
    InLatSet(d, k + 2);
    InLatSet(d, k + 4 * d.x);
  }

  // The four tests of the connection phase find the marked neighbours of an unmarked
  // node.
  lemma FrontierBeside(d: Dims, m: Grid, x: int, y: int)
    requires d.Legal() && OddPoint(d, x, y) && 0 <= Idx(d, x, y) < MAZE_SIZE && !m[Idx(d, x, y)].reach
    ensures var k := Idx(d, x, y);
      && 0 <= k - 4 * d.x && k + 4 * d.x < MAZE_SIZE
      && (Frontier(d, m, k, k - 4 * d.x) <==> y > 1 && m[k - 4 * d.x].reach)
      && (Frontier(d, m, k, k - 2) <==> x > 1 && m[k - 2].reach)
      && (Frontier(d, m, k, k + 2) <==> x < 2 * d.x - 1 && m[k + 2].reach)
      && (Frontier(d, m, k, k + 4 * d.x) <==> y < 2 * d.y - 1 && m[k + 4 * d.x].reach)
      && forall b :: Frontier(d, m, k, b) ==> b == k - 4 * d.x || b == k - 2 || b == k + 2 || b == k + 4 * d.x
  {
    BesideNode(d, x, y);
    hide IsLat, Idx, OddPoint, Dims.Legal;
  }

  // ----- no wall is removed in vain -----

  // Cell k is between two nodes that were not joined in m0.
  ghost predicate Divides(d: Dims, m0: Grid, k: int)
    requires d.Legal()
  {
    exists a, b :: a in LatSet(d) && b in LatSet(d) && Hop(d, a, b) && (a + b) / 2 == k && !Connected(d, m0, a, b)
  }

  // From m0 to m walls have been removed only between nodes that were not joined.
  ghost predicate Repaired(d: Dims, m0: Grid, m: Grid)
    requires d.Legal()
  {
    forall k :: 0 <= k < MAZE_SIZE ==>
      (!m0[k].wall ==> !m[k].wall) && (m0[k].wall && !m[k].wall ==> Divides(d, m0, k))
  }

  lemma RepairStep(d: Dims, m0: Grid, m: Grid, remaining: int, k: int, nb: int, m': Grid)
    requires d.Legal() && Joining(d, m, remaining) && Frontier(d, m, k, nb) && Repaired(d, m0, m)
    requires 0 <= (k + nb) / 2 < MAZE_SIZE
    requires forall j :: 0 <= j < MAZE_SIZE ==> m'[j].wall == (j != (k + nb) / 2 && m[j].wall)
    ensures Repaired(d, m0, m')
  {
    hide IsLat, Reach, Shape, AllOpen, Plain, Divides;
    if Connected(d, m0, k, nb) {
      ReachSym(d, m0, k, nb);
      ReachMono(d, m0, m, {}, {}, nb, k);
      JoinedToMarked(d, m, remaining, nb, k);
      assert false;
    }
    DividesAt(d, m0, k, nb);
  }

  lemma RepairedOfWalls(d: Dims, m0: Grid, m: Grid, m': Grid)
    requires d.Legal() && Repaired(d, m0, m) && forall k :: 0 <= k < MAZE_SIZE ==> m[k].wall == m'[k].wall
    ensures Repaired(d, m0, m')
  {
    hide Divides;
  }

  lemma JoinedToMarked(d: Dims, m: Grid, remaining: int, a: int, b: int)
    requires d.Legal() && Joining(d, m, remaining) && a in Marked(d, m) && b in LatSet(d) && Connected(d, m, a, b)
    ensures b in Marked(d, m)
  {
    hide IsLat, Reach, Shape, AllOpen, Plain;
    assert a in Component(d, m);
    ReachTrans(d, m, {}, Idx(d, 1, 1), a, b);
    assert b in Component(d, m);
  }

  lemma DividesAt(d: Dims, m0: Grid, k: int, nb: int)
    requires d.Legal() && k in LatSet(d) && nb in LatSet(d) && Hop(d, k, nb) && !Connected(d, m0, k, nb)
    ensures Divides(d, m0, (k + nb) / 2)
  {
    hide IsLat, Reach;
  }

  // Corridors can be walked both ways.
  lemma ReachSym(d: Dims, m: Grid, a: int, b: int)
    requires d.Legal() && Reach(d, m, {}, a, b)
    ensures Reach(d, m, {}, b, a)
  {
    var p :| Walk(d, m, {}, p) && p[0] == a && p[|p| - 1] == b;
    var q := seq(|p|, i requires 0 <= i < |p| => p[|p| - 1 - i]);
    hide IsLat;
    forall i | 0 < i < |q|
      ensures Edge(d, m, q[i - 1], q[i])
    {
      assert q[i] == p[|p| - 1 - i] && q[i - 1] == p[|p| - i];
      var j := |p| - i;
      assert Edge(d, m, p[j - 1], p[j]);
    }
    assert Walk(d, m, {}, q);
  }
}
