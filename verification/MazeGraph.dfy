// Reachability between the nodes of the maze, and how many nodes there are.
module MazeGraph {
  import opened MazeCell
  import opened Lattice

  // The whole maze array.
  type Grid = m: seq<Cell> | |m| == MAZE_SIZE witness seq(MAZE_SIZE, _ => WALL)

  // b is the node two cells above, right of, below or left of a.
  predicate Hop(d: Dims, a: int, b: int) {
    b == a - 2 * d.W() || b == a + 2 || b == a + 2 * d.W() || b == a - 2
  }

  // a and b are neighbouring nodes with an open cell between them.
  ghost predicate Edge(d: Dims, m: Grid, a: int, b: int)
    requires d.Legal()
  {
    IsLat(d, a) && IsLat(d, b) && Hop(d, a, b)
    && 0 <= (a + b) / 2 < MAZE_SIZE && !m[(a + b) / 2].wall
  }

  // A walk along edges that enters no node of `avoid` after its start.
  ghost predicate Walk(d: Dims, m: Grid, avoid: set<int>, p: seq<int>)
    requires d.Legal()
  {
    |p| > 0 && forall i :: 0 < i < |p| ==> Edge(d, m, p[i - 1], p[i]) && p[i] !in avoid
  }

  ghost predicate Reach(d: Dims, m: Grid, avoid: set<int>, a: int, b: int)
    requires d.Legal()
  {
    exists p :: Walk(d, m, avoid, p) && p[0] == a && p[|p| - 1] == b
  }

  ghost predicate Connected(d: Dims, m: Grid, a: int, b: int)
    requires d.Legal()
  {
    Reach(d, m, {}, a, b)
  }

  // Every node can be reached from every marked node without crossing a wall.
  ghost predicate Closed(d: Dims, m: Grid, avoid: set<int>, s: set<int>)
    requires d.Legal()
  {
    forall a, b :: a in s && Edge(d, m, a, b) ==> b in s || b in avoid
  }

  lemma ReachSelf(d: Dims, m: Grid, avoid: set<int>, a: int)
    requires d.Legal()
    ensures Reach(d, m, avoid, a, a)
  {
    assert Walk(d, m, avoid, [a]);
  }

  lemma ReachStep(d: Dims, m: Grid, avoid: set<int>, a: int, b: int, c: int)
    requires d.Legal() && Reach(d, m, avoid, a, b) && Edge(d, m, b, c) && c !in avoid
    ensures Reach(d, m, avoid, a, c)
  {
    var p :| Walk(d, m, avoid, p) && p[0] == a && p[|p| - 1] == b;
    assert Walk(d, m, avoid, p + [c]);
  }

  lemma ReachTrans(d: Dims, m: Grid, avoid: set<int>, a: int, b: int, c: int)
    requires d.Legal() && Reach(d, m, avoid, a, b) && Reach(d, m, avoid, b, c)
    ensures Reach(d, m, avoid, a, c)
  {
    var p :| Walk(d, m, avoid, p) && p[0] == a && p[|p| - 1] == b;
    var q :| Walk(d, m, avoid, q) && q[0] == b && q[|q| - 1] == c;
    assert Walk(d, m, avoid, p + q[1..]);
  }

  // Opening more cells, or avoiding fewer nodes, keeps what was reachable.
  lemma ReachMono(d: Dims, m: Grid, m': Grid, avoid: set<int>, avoid': set<int>, a: int, b: int)
    requires d.Legal() && Reach(d, m, avoid, a, b) && avoid' <= avoid
    requires forall k :: 0 <= k < MAZE_SIZE && !m[k].wall ==> !m'[k].wall
    ensures Reach(d, m', avoid', a, b)
  {
    var p :| Walk(d, m, avoid, p) && p[0] == a && p[|p| - 1] == b;
    assert Walk(d, m', avoid', p);
  }

  // A set closed under edges that contains the start contains all it reaches.
  lemma {:induction false} ClosedHolds(d: Dims, m: Grid, avoid: set<int>, s: set<int>, p: seq<int>)
    requires d.Legal() && Closed(d, m, avoid, s) && Walk(d, m, avoid, p) && p[0] in s
    ensures p[|p| - 1] in s
  {
    if |p| > 1 {
      var q := p[..|p| - 1];
      assert forall i :: 0 <= i < |q| ==> q[i] == p[i];
      ClosedHolds(d, m, avoid, s, q);
      assert Edge(d, m, p[|p| - 2], p[|p| - 1]);
    }
  }

  lemma ReachInClosed(d: Dims, m: Grid, avoid: set<int>, s: set<int>, a: int, b: int)
    requires d.Legal() && Closed(d, m, avoid, s) && a in s && Reach(d, m, avoid, a, b)
    ensures b in s
  {
    var p :| Walk(d, m, avoid, p) && p[0] == a && p[|p| - 1] == b;
    ClosedHolds(d, m, avoid, s, p);
  }

  // ----- the set of nodes -----

  ghost function LatSet(d: Dims): set<int>
    requires d.Legal()
  {
    set k | 0 <= k < MAZE_SIZE && IsLat(d, k)
  }

  lemma InLatSet(d: Dims, k: int)
    requires d.Legal()
    ensures k in LatSet(d) <==> IsLat(d, k)
  {
    if IsLat(d, k) { var x, y := LatPoint(d, k); }
  }

  // The nodes that come before index k in memory.
  ghost function LatBefore(d: Dims, k: int): set<int>
    requires d.Legal()
  {
    set l | l in LatSet(d) && l < k
  }

  // Only the odd rows inside the boundary hold nodes, and those not in column 0.
  lemma RowGap(d: Dims, y: int, l: int)
    requires d.Legal() && -1 <= y && !(1 <= y < 2 * d.y && y % 2 == 1) && Idx(d, 0, y) <= l < Idx(d, 0, y) + d.W()
    ensures !IsLat(d, l)
  {
    var x := l - Idx(d, 0, y);
    assert l == Idx(d, x, y);
    IsLatAt(d, x, y);
  }

  lemma CountInRow(d: Dims, k: int)
    requires d.Legal() && IsLat(d, k)
    ensures |LatBefore(d, k + 2)| == |LatBefore(d, k)| + 1
  {
    InLatSet(d, k);
    var h := k / 2;
    EvenIsNoNode(d, h);
    assert k == 2 * h + 1;
    EvenIsNoNode(d, h + 1);
    InLatSet(d, k + 1);
    hide IsLat;
    assert LatBefore(d, k + 2) == LatBefore(d, k) + {k};
  }

  lemma CountToNextRow(d: Dims, y: int)
    requires d.Legal() && 0 <= y < 2 * d.y && y % 2 == 0
    ensures LatBefore(d, Idx(d, 1, y)) == LatBefore(d, Idx(d, 1, y + 1))
  {
    var e := Idx(d, 0, y);
    IdxStep(d, 0, y);
    forall l | e <= l <= e + d.W()
      ensures !IsLat(d, l)
    {
      if l < e + d.W() { RowGap(d, y, l); } else { IsLatAt(d, 0, y + 1); }
    }
    assert Idx(d, 1, y) == e + 1 && Idx(d, 1, y + 1) == e + d.W() + 1;
  }

  lemma NoneBefore(d: Dims)
    requires d.Legal()
    ensures LatBefore(d, Idx(d, 1, 0)) == {}
  {
    assert Idx(d, 0, -1) == 0 && Idx(d, 0, 0) == d.W();
    forall l | 0 <= l < Idx(d, 1, 0)
      ensures !IsLat(d, l)
    {
      RowGap(d, if l < d.W() then -1 else 0, l);
    }
  }

  // The nodes of a number of rows, counted up row by row.
  function NodesIn(d: Dims, rows: nat): int { if rows == 0 then 0 else NodesIn(d, rows - 1) + d.x }

  lemma {:induction false} NodesInRows(d: Dims, rows: nat)
    ensures NodesIn(d, rows) == d.x * rows
  {
    if rows > 0 { NodesInRows(d, rows - 1); }
  }

  lemma {:induction false} CountBefore(d: Dims, i: int, j: int)
    requires d.Legal() && 0 <= i <= d.x && 0 <= j < d.y
    ensures |LatBefore(d, Idx(d, 2 * i + 1, 2 * j + 1))| == NodesIn(d, j) + i
    decreases j, i
  {
    hide IsLat, RowStart, LatBefore;
    if i > 0 {
      CountBefore(d, i - 1, j);
      IsLatAt(d, 2 * i - 1, 2 * j + 1);
      CountInRow(d, Idx(d, 2 * i - 1, 2 * j + 1));
      assert Idx(d, 2 * i + 1, 2 * j + 1) == Idx(d, 2 * i - 1, 2 * j + 1) + 2;
      hide Idx, OddPoint, Dims.Legal;
    } else {
      CountToNextRow(d, 2 * j);
      if j > 0 {
        CountBefore(d, d.x, j - 1);
        IdxWrap(d, 1, 2 * j - 1);
        assert 2 * d.x + 1 == 1 + d.W() && 2 * (j - 1) + 1 == 2 * j - 1;
        hide Idx, Dims.Legal;
      } else {
        NoneBefore(d);
      }
    }
  }

  lemma CountNodes(d: Dims)
    requires d.Legal()
    ensures |LatSet(d)| == d.x * d.y
  {
    CountBefore(d, d.x, d.y - 1);
    NodesInRows(d, d.y);
    IdxWrap(d, 1, 2 * d.y - 1);
    AllBefore(d);
    hide Idx, LatBefore, LatSet;
  }

  // All nodes come before the row behind the last one.
  lemma AllBefore(d: Dims)
    requires d.Legal()
    ensures LatBefore(d, Idx(d, 1, 2 * d.y)) == LatSet(d)
  {
    var k := Idx(d, 1, 2 * d.y);
    hide RowStart, IsLat;
    forall l | l in LatSet(d)
      ensures l < k
    {
      InLatSet(d, l);
      var x, y := LatPoint(d, l);
      RowOrder(d, y, 2 * d.y);
    }
  }
}
