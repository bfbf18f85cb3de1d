// What the digging phases of maze.c keep true of the walls, and the sets that
// the marking phase computes.
module MazeShape {
  import opened MazeCell
  import opened Lattice
  import opened MazeGraph

  ghost predicate OpenNode(d: Dims, m: Grid, k: int)
    requires d.Legal()
  {
    IsLat(d, k) && 0 <= k < MAZE_SIZE && !m[k].wall
  }

  // The cell between two open nodes of a row, or of a column.
  ghost predicate Connector(d: Dims, m: Grid, k: int)
    requires d.Legal()
  {
    || (OpenNode(d, m, k - 1) && OpenNode(d, m, k + 1))
    || (OpenNode(d, m, k - d.W()) && OpenNode(d, m, k + d.W()))
  }

  // Only nodes and cells between two open nodes are open.  In particular the
  // boundary and the (even,even) points are walls.
  ghost predicate Shape(d: Dims, m: Grid)
    requires d.Legal()
  {
    forall k :: 0 <= k < MAZE_SIZE && !m[k].wall ==> IsLat(d, k) || Connector(d, m, k)
  }

  // Every cell outside 1 <= x < W, 1 <= y < 2 * y_dim is a wall.
  ghost predicate Fenced(d: Dims, m: Grid)
    requires d.Legal()
  {
    forall x, y :: 0 <= x < d.W() && -1 <= y <= 2 * d.y + 1 && (x == 0 || y <= 0 || y >= 2 * d.y) ==>
      InMaze(d, x, y) && m[Idx(d, x, y)].wall
  }

  predicate InMaze(d: Dims, x: int, y: int) {
    0 <= Idx(d, x, y) < MAZE_SIZE
  }

  lemma OddRowOnly(d: Dims, a: int)
    requires d.Legal() && IsLat(d, a)
    ensures !IsLat(d, a + d.W()) && !IsLat(d, a - d.W())
  {
    hide IsLat, OddPoint;
    var x, y := LatPoint(d, a);
    IdxStep(d, x, y);
    IsLatAt(d, x, y - 1);
    IsLatAt(d, x, y + 1);
    hide Idx, RowStart;
    NextRowEven(d, x, y);
  }

  lemma NextRowEven(d: Dims, x: int, y: int)
    requires OddPoint(d, x, y)
    ensures !OddPoint(d, x, y - 1) && !OddPoint(d, x, y + 1)
  {}

  // The eight cells around a node are not nodes.
  lemma NoNodeAround(d: Dims, a: int)
    requires d.Legal() && IsLat(d, a)
    ensures !IsLat(d, a - 1) && !IsLat(d, a + 1) && !IsLat(d, a - d.W()) && !IsLat(d, a + d.W())
    ensures !IsLat(d, a - 1 - d.W()) && !IsLat(d, a + 1 - d.W()) && !IsLat(d, a - 1 + d.W()) && !IsLat(d, a + 1 + d.W())
  {
    OddRowOnly(d, a);
    var h := a / 2;
    EvenIsNoNode(d, h);
    assert a == 2 * h + 1;
    EvenIsNoNode(d, h + 1);
    EvenIsNoNode(d, h - d.x);
    EvenIsNoNode(d, h + 1 - d.x);
    EvenIsNoNode(d, h + d.x);
    EvenIsNoNode(d, h + 1 + d.x);
    hide IsLat;
  }

  // The connector beside a node is horizontal, the one above or below vertical.
  lemma ConnectorBeside(d: Dims, m: Grid, a: int, c: int)
    requires d.Legal() && IsLat(d, a) && Connector(d, m, c)
    ensures c == a - 1 || c == a + 1 ==> OpenNode(d, m, 2 * c - a)
    ensures c == a - d.W() || c == a + d.W() ==> OpenNode(d, m, 2 * c - a)
  {
    NoNodeAround(d, a);
    hide IsLat;
  }

  lemma HopEnds(d: Dims, a: int, b: int)
    requires d.Legal() && Hop(d, a, b)
    ensures var c := (a + b) / 2;
      || (a == c - 1 && b == c + 1) || (a == c + 1 && b == c - 1)
      || (a == c - d.W() && b == c + d.W()) || (a == c + d.W() && b == c - d.W())
  {}

  lemma HopConnects(d: Dims, m: Grid, a: int, b: int)
    requires d.Legal() && OpenNode(d, m, a) && OpenNode(d, m, b) && Hop(d, a, b)
    ensures Connector(d, m, (a + b) / 2)
  {
    HopEnds(d, a, b);
    hide OpenNode, Hop;
  }

  // An open cell next to a node leads to another open node: the marking phase
  // needs no bounds test.
  lemma OpenSide(d: Dims, m: Grid, a: int, b: int)
    requires d.Legal() && Shape(d, m) && IsLat(d, a) && Hop(d, a, b)
    requires 0 <= (a + b) / 2 < MAZE_SIZE && !m[(a + b) / 2].wall
    ensures OpenNode(d, m, b)
  {
    var c := (a + b) / 2;
    HopEnds(d, a, b);
    NoNodeAround(d, a);
    hide IsLat, OpenNode, Hop, Connector;
    assert !IsLat(d, c);
    ConnectorBeside(d, m, a, c);
  }

  // Opening a node, or a cell between two open nodes, keeps the shape.
  lemma OpeningKeepsShape(d: Dims, m: Grid, m': Grid, k: int)
    requires d.Legal() && Shape(d, m) && 0 <= k < MAZE_SIZE && m' == m[k := NONE]
    requires IsLat(d, k) || Connector(d, m', k)
    ensures Shape(d, m')
  {}

  // The (even,even) points and the whole boundary of a shaped maze are walls.
  lemma ShapeFenced(d: Dims, m: Grid)
    requires d.Legal() && Shape(d, m)
    ensures Fenced(d, m)
    ensures forall x, y :: 0 <= x < d.W() && -1 <= y <= 2 * d.y + 1 && x % 2 == 0 && y % 2 == 0 ==>
      InMaze(d, x, y) && m[Idx(d, x, y)].wall
  {
    forall x, y | 0 <= x < d.W() && -1 <= y <= 2 * d.y + 1
      ensures InMaze(d, x, y)
      ensures x == 0 || y <= 0 || y >= 2 * d.y || (x % 2 == 0 && y % 2 == 0) ==> m[Idx(d, x, y)].wall
    {
      IdxBounds(d, x, y);
      IsLatAt(d, x, y);
      if !m[Idx(d, x, y)].wall && !IsLat(d, Idx(d, x, y)) {
        ConnectorPoint(d, m, x, y);
      }
    }
  }

  lemma BetweenColumns(d: Dims, x: int, y: int)
    requires d.Legal() && 0 <= x < d.W() && -1 <= y && IsLat(d, Idx(d, x, y) - 1) && IsLat(d, Idx(d, x, y) + 1)
    ensures 1 <= x < d.W() && 1 <= y < 2 * d.y && x % 2 == 0 && y % 2 == 1
  {
    hide IsLat, RowStart;
    if x < d.W() - 1 {
      IsLatAt(d, x + 1, y);
      assert Idx(d, x + 1, y) == Idx(d, x, y) + 1;
      if x == 0 {
        LatLeft(d, 1, y);
      }
    } else {
      IdxWrap(d, 0, y);
      IsLatAt(d, 0, y + 1);
    }
    hide Idx;
  }

  lemma BetweenRows(d: Dims, x: int, y: int)
    requires d.Legal() && 0 <= x < d.W() && -1 <= y
    requires IsLat(d, Idx(d, x, y) - d.W()) && IsLat(d, Idx(d, x, y) + d.W())
    ensures 1 <= x < d.W() && 1 <= y < 2 * d.y && x % 2 == 1 && y % 2 == 0
  {
    hide IsLat, OddPoint;
    IdxStep(d, x, y);
    IsLatAt(d, x, y - 1);
    IsLatAt(d, x, y + 1);
    hide Idx, RowStart;
    EvenBetween(d, x, y);
  }

  lemma EvenBetween(d: Dims, x: int, y: int)
    requires OddPoint(d, x, y - 1) && OddPoint(d, x, y + 1)
    ensures 1 <= x < d.W() && 1 <= y < 2 * d.y && x % 2 == 1 && y % 2 == 0
  {}

  lemma ConnectorPoint(d: Dims, m: Grid, x: int, y: int)
    requires d.Legal() && 0 <= x < d.W() && -1 <= y && Connector(d, m, Idx(d, x, y))
    ensures 1 <= x < d.W() && 1 <= y < 2 * d.y && x % 2 != y % 2
  {
    hide IsLat, Idx;
    if IsLat(d, Idx(d, x, y) - 1) && IsLat(d, Idx(d, x, y) + 1) {
      BetweenColumns(d, x, y);
    } else {
      BetweenRows(d, x, y);
    }
  }

  // ----- marking -----

  ghost function Marked(d: Dims, m: Grid): set<int>
    requires d.Legal()
  {
    set k | k in LatSet(d) && m[k].reach
  }

  // The nodes that can be reached from `start` without crossing a wall or
  // entering a marked node.
  ghost function Area(d: Dims, m: Grid, start: int): set<int>
    requires d.Legal()
  {
    set k | k in LatSet(d) && Reach(d, m, Marked(d, m), start, k)
  }

  ghost function MarkAll(m: Grid, s: set<int>): Grid {
    seq(MAZE_SIZE, k requires 0 <= k < MAZE_SIZE => if k in s then m[k].(reach := true) else m[k])
  }

  // The shape depends on the walls alone.
  lemma ShapeOfWalls(d: Dims, m: Grid, m': Grid)
    requires d.Legal() && Shape(d, m)
    requires forall k :: 0 <= k < MAZE_SIZE ==> m[k].wall == m'[k].wall
    ensures Shape(d, m')
  {}

  lemma MarkOne(m0: Grid, s: set<int>, k: int)
    requires 0 <= k < MAZE_SIZE
    ensures MarkAll(m0, s)[k := MarkAll(m0, s)[k].(reach := true)] == MarkAll(m0, s + {k})
  {}

  // Marking moves no wall.
  lemma MarkedWalls(m: Grid, c: int, m': Grid, s: set<int>)
    requires 0 <= c < MAZE_SIZE && m' == m[c := NONE]
    ensures forall j :: 0 <= j < MAZE_SIZE ==> MarkAll(m', s)[j].wall == (j != c && m[j].wall)
  {}

  // What the breadth-first search knows when the queue holds q and the nodes
  // of s have been marked in a maze that was m0 before.
  ghost predicate Searching(d: Dims, m0: Grid, start: int, m: Grid, q: seq<int>, s: set<int>)
    requires d.Legal()
  {
    && m == MarkAll(m0, s)
    && s <= Area(d, m0, start) && s !! Marked(d, m0)
    && |q| == |s| && (forall i :: 0 <= i < |q| ==> q[i] in s) && (forall k :: k in s ==> k in q)
  }

  lemma SearchStep(d: Dims, m0: Grid, start: int, m: Grid, q: seq<int>, s: set<int>, cur: int, nxt: int)
    requires d.Legal() && Searching(d, m0, start, m, q, s)
    requires cur in s && Edge(d, m0, cur, nxt) && 0 <= nxt < MAZE_SIZE && !m[nxt].reach
    ensures Searching(d, m0, start, m[nxt := m[nxt].(reach := true)], q + [nxt], s + {nxt})
    ensures |q| + 1 <= d.x * d.y <= MAZE_MAX_X_DIM * MAZE_MAX_Y_DIM
  {
    InLatSet(d, nxt);
    assert nxt !in s && nxt !in Marked(d, m0);
    ReachStep(d, m0, Marked(d, m0), start, cur, nxt);
    MarkOne(m0, s, nxt);
    hide *;
    hide IsLat;
    RoomInQueue(d, s + {nxt});
  }

  // A set of nodes fits in the queue.
  lemma RoomInQueue(d: Dims, s: set<int>)
    requires d.Legal() && s <= LatSet(d)
    ensures |s| <= d.x * d.y <= MAZE_MAX_X_DIM * MAZE_MAX_Y_DIM
  {
    SubsetSize(s, LatSet(d));
    CountNodes(d);
    NodeBound(d);
  }

  lemma NodeBound(d: Dims)
    requires d.Legal()
    ensures 1 <= d.x * d.y <= MAZE_MAX_X_DIM * MAZE_MAX_Y_DIM
  {
    ProductGrows(1, d.x, d.y);
    ProductGrows(d.x, MAZE_MAX_X_DIM, d.y);
  }

  lemma {:induction false} ProductGrows(a: int, b: int, n: int)
    requires 0 <= a <= b && 0 <= n
    ensures a * n <= b * n
  {
    if n > 0 {
      ProductGrows(a, b, n - 1);
      assert a * n == a * (n - 1) + a && b * n == b * (n - 1) + b;
    }
  }

  lemma SubsetSize<T>(a: set<T>, b: set<T>)
    requires a <= b
    ensures |a| <= |b|
  {
    assert b == a + (b - a);
  }

  // The neighbours of a have been found.
  ghost predicate Explored(d: Dims, m0: Grid, a: int, s: set<int>)
    requires d.Legal()
  {
    forall b :: Edge(d, m0, a, b) ==> b in s || b in Marked(d, m0)
  }

  // When the queue has run empty the marked set is closed, hence the area.
  lemma SearchDone(d: Dims, m0: Grid, start: int, m: Grid, q: seq<int>, s: set<int>)
    requires d.Legal() && Searching(d, m0, start, m, q, s) && start in s
    requires forall i :: 0 <= i < |q| ==> Explored(d, m0, q[i], s)
    ensures s == Area(d, m0, start) && m == MarkAll(m0, s) && |q| == |s|
  {
    assert Closed(d, m0, Marked(d, m0), s);
    forall k | k in Area(d, m0, start)
      ensures k in s
    {
      ReachInClosed(d, m0, Marked(d, m0), s, start, k);
    }
  }

  lemma SearchStart(d: Dims, m0: Grid, x: int, y: int)
    requires d.Legal() && OddPoint(d, x, y) && InMaze(d, x, y) && !m0[Idx(d, x, y)].reach
    ensures var start := Idx(d, x, y);
      Searching(d, m0, start, m0[start := m0[start].(reach := true)], [start], {start})
  {
    var start := Idx(d, x, y);
    InLatSet(d, start);
    ReachSelf(d, m0, Marked(d, m0), start);
    MarkOne(m0, {}, start);
    assert MarkAll(m0, {}) == m0;
    assert {} + {start} == {start};
  }

  lemma InSearch(d: Dims, m0: Grid, start: int, m: Grid, q: seq<int>, s: set<int>, i: int)
    requires d.Legal() && Searching(d, m0, start, m, q, s) && 0 <= i < |q|
    ensures q[i] in s && IsLat(d, q[i])
  {
    InLatSet(d, q[i]);
  }

  lemma HopBounds(d: Dims, cur: int, delta: int)
    requires d.Legal() && IsLat(d, cur) && Hop(d, cur, cur + 2 * delta)
    ensures 0 <= cur + delta < MAZE_SIZE && 0 <= cur + 2 * delta < MAZE_SIZE
    ensures (cur + (cur + 2 * delta)) / 2 == cur + delta
  {
    hide IsLat, Idx;
    var x, y := LatPoint(d, cur);
  }

  lemma NeighbourFacts(d: Dims, m0: Grid, start: int, m: Grid, q: seq<int>, s: set<int>, cur: int, delta: int)
    requires d.Legal() && Shape(d, m0) && Searching(d, m0, start, m, q, s)
    requires IsLat(d, cur) && Hop(d, cur, cur + 2 * delta)
    ensures 0 <= cur + delta < MAZE_SIZE && 0 <= cur + 2 * delta < MAZE_SIZE
    ensures m[cur + delta].wall == m0[cur + delta].wall
    ensures Edge(d, m0, cur, cur + 2 * delta) <==> !m0[cur + delta].wall
    ensures Edge(d, m0, cur, cur + 2 * delta) ==>
      (m[cur + 2 * delta].reach <==> cur + 2 * delta in s || cur + 2 * delta in Marked(d, m0))
  {
    hide IsLat, Shape, Area, Hop;
    HopBounds(d, cur, delta);
    InLatSet(d, cur + 2 * delta);
    if !m0[cur + delta].wall {
      OpenSide(d, m0, cur, cur + 2 * delta);
    }
  }
}
