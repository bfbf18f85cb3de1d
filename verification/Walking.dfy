// Where the player can be made to go: from every state of play to every node of a
// connected maze.
module Walking {
  import opened Lattice
  import opened MazeGraph
  import opened MazeShape
  import opened MazeJoin
  import opened MazeReady
  import opened MazeDig
  import opened Pixels
  import opened Motion

  type Inputs = seq<(Heading, bool)>

  // What the player can do: every key and button asks for one of the four
  // directions; none asks for DIR_STOP, and then the stray value is never read.
  predicate Keys(a: Inputs) { forall i :: 0 <= i < |a| ==> a[i].0 != DIR_STOP }

  lemma KeysAppend(a: Inputs, b: Inputs)
    requires Keys(a) && Keys(b)
    ensures Keys(a + b)
  {}

  // One direction held for n ticks.
  function Hold(dir: Heading, n: nat): Inputs { seq(n, _ => (dir, false)) }

  // The square the player is at, or the one it has last left.
  function SquareX(s: Motion): int { s.playX / BLOCK_X_DIM }

  function SquareY(s: Motion): int { s.playY / BLOCK_Y_DIM }

  // Standing still on the square (x,y).
  ghost predicate Stands(d: Dims, m: Grid, s: Motion, x: int, y: int)
    requires d.Legal()
  {
    MotionInv(d, m, s) && s.moveCnt == 0 && SquareX(s) == x && SquareY(s) == y
  }

  lemma StandsOpen(d: Dims, m: Grid, s: Motion, x: int, y: int)
    requires d.Legal() && Stands(d, m, s, x, y)
    ensures OpenPoint(d, m, x, y) && Inside(d, x, y)
    ensures s.playX == x * BLOCK_X_DIM && s.playY == y * BLOCK_Y_DIM
  {
    AtSquare(d, m, s);
    hide OnTrack, WindowInv;
  }

  // ----- runs, end to end -----

  lemma {:induction false} RunAppend(d: Dims, m: Grid, s: Motion, a: Inputs, b: Inputs)
    requires d.Legal() && Fenced(d, m) && MotionInv(d, m, s)
    ensures MotionInv(d, m, Run(d, m, s, a)) && Run(d, m, s, a + b) == Run(d, m, Run(d, m, s, a), b)
    decreases |a|
  {
    hide Step, MotionInv, Fenced;
    if a == [] {
      assert a + b == b;
    } else {
      InvInside(d, m, s);
      StepKeeps(d, m, s, a[0].0, a[0].1);
      assert (a + b)[1..] == a[1..] + b;
      RunAppend(d, m, Step(d, m, s, a[0].0, a[0].1), a[1..], b);
    }
  }

  // Between squares the player keeps going as long as the key is held.
  lemma {:induction false} Coast(d: Dims, m: Grid, s: Motion)
    requires d.Legal() && Fenced(d, m) && MotionInv(d, m, s)
    ensures var s' := Run(d, m, s, Hold(s.dir, s.moveCnt));
      && MotionInv(d, m, s') && s'.moveCnt == 0 && s'.dir == s.dir
      && s'.playX == s.playX + AlongX(s.dir, s.moveCnt) && s'.playY == s.playY + AlongY(s.dir, s.moveCnt)
    decreases s.moveCnt
  {
    if s.moveCnt > 0 {
      CoastStep(d, m, s);
      StepKeeps(d, m, s, s.dir, false);
      var s1 := Step(d, m, s, s.dir, false);
      assert Hold(s.dir, s.moveCnt)[1..] == Hold(s.dir, s.moveCnt - 1);
      hide MotionInv, Fenced, Step;
      Coast(d, m, s1);
    }
  }

  lemma CoastStep(d: Dims, m: Grid, s: Motion)
    requires d.Legal() && MotionInv(d, m, s) && s.moveCnt > 0
    ensures var s1 := Step(d, m, s, s.dir, false);
      && s1.dir == s.dir && s1.moveCnt == s.moveCnt - 1
      && s1.playX == s.playX + AlongX(s.dir, 1) && s1.playY == s.playY + AlongY(s.dir, 1)
  {
    hide OpenPoint, WindowInv;
  }

  // From a square to the open one beside it: twelve ticks.
  lemma OneSquare(d: Dims, m: Grid, s: Motion, x: int, y: int, dir: Direction)
    requires d.Legal() && Fenced(d, m) && Stands(d, m, s, x, y) && Inside(d, x, y) && OpenDir(d, m, x, y, dir)
    ensures Stands(d, m, Run(d, m, s, Hold(dir, BLOCK_X_DIM)), x + AlongX(dir, 1), y + AlongY(dir, 1))
  {
    StandsOpen(d, m, s, x, y);
    SetOff(d, m, s, x, y, dir);
    StepKeeps(d, m, s, dir, false);
    var s1 := Step(d, m, s, dir, false);
    assert Hold(dir, BLOCK_X_DIM)[1..] == Hold(dir, BLOCK_X_DIM - 1);
    hide Step, Fenced, MotionInv;
    Coast(d, m, s1);
  }

  lemma SetOff(d: Dims, m: Grid, s: Motion, x: int, y: int, dir: Direction)
    requires d.Legal() && Stands(d, m, s, x, y) && Inside(d, x, y) && OpenDir(d, m, x, y, dir)
    ensures var s1 := Step(d, m, s, dir, false);
      && s1.dir == dir && s1.moveCnt == BLOCK_X_DIM - 1
      && s1.playX == s.playX + AlongX(dir, 1) && s1.playY == s.playY + AlongY(dir, 1)
  {
    hide OpenDir, OpenPoint, WindowInv, OnTrack;
  }

  // ----- from node to node -----

  // Standing on the node with index k.
  ghost predicate OnNode(d: Dims, m: Grid, s: Motion, k: int)
    requires d.Legal()
  {
    exists x, y :: OddPoint(d, x, y) && Idx(d, x, y) == k && Stands(d, m, s, x, y)
  }

  // The direction of a hop.
  function HopDir(d: Dims, a: int, b: int): Direction {
    if b == a - 2 * d.W() then 0 else if b == a + 2 then 1 else if b == a + 2 * d.W() then 2 else 3
  }

  lemma HopGeometry(d: Dims, m: Grid, x: int, y: int, b: int)
    requires d.Legal() && OddPoint(d, x, y) && AllOpen(d, m) && Edge(d, m, Idx(d, x, y), b)
    ensures var dir := HopDir(d, Idx(d, x, y), b);
      var x1, y1 := x + AlongX(dir, 1), y + AlongY(dir, 1);
      && Inside(d, x, y) && OpenDir(d, m, x, y, dir)
      && Inside(d, x1, y1) && OpenDir(d, m, x1, y1, dir)
      && OddPoint(d, x1 + AlongX(dir, 1), y1 + AlongY(dir, 1)) && Idx(d, x1 + AlongX(dir, 1), y1 + AlongY(dir, 1)) == b
  {
    HopPoints(d, x, y, b);
    InLatSet(d, b);
    hide IsLat, Idx, AlongX, AlongY, HopDir, OddPoint, Inside;
  }

  // The squares on the way.
  lemma HopPoints(d: Dims, x: int, y: int, b: int)
    requires d.Legal() && OddPoint(d, x, y) && Hop(d, Idx(d, x, y), b) && IsLat(d, b)
    ensures var dir := HopDir(d, Idx(d, x, y), b);
      var x1, y1 := x + AlongX(dir, 1), y + AlongY(dir, 1);
      && Inside(d, x, y) && Inside(d, x1, y1) && Idx(d, x1, y1) == (Idx(d, x, y) + b) / 2
      && OddPoint(d, x1 + AlongX(dir, 1), y1 + AlongY(dir, 1)) && Idx(d, x1 + AlongX(dir, 1), y1 + AlongY(dir, 1)) == b
  {
    HopSquare(d, x, y, b);
    IdxBeside(d, x, y);
    var dir := HopDir(d, Idx(d, x, y), b);
    HopDelta(d, Idx(d, x, y), dir);
    hide IsLat, Idx, HopDir;
    assert StepX(x, dir) == x + AlongX(dir, 1) + AlongX(dir, 1) && StepY(y, dir) == y + AlongY(dir, 1) + AlongY(dir, 1);
  }

  // The node a hop leads to, as a point.
  lemma HopSquare(d: Dims, x: int, y: int, b: int)
    requires d.Legal() && OddPoint(d, x, y) && Hop(d, Idx(d, x, y), b) && IsLat(d, b)
    ensures var dir := HopDir(d, Idx(d, x, y), b);
      && InGrid(d, x, y, dir) && b == Idx(d, x, y) + 2 * Delta(d, dir)
      && OddPoint(d, StepX(x, dir), StepY(y, dir)) && Idx(d, StepX(x, dir), StepY(y, dir)) == b
  {
    var dir := HopDir(d, Idx(d, x, y), b);
    Neighbours(d, x, y);
    hide IsLat, Idx;
    assert b == Idx(d, x, y) + 2 * Delta(d, dir);
    assert InGrid(d, x, y, dir);
    StepPoint(d, x, y, dir);
  }

  // Along an edge: two squares.
  lemma AlongEdge(d: Dims, m: Grid, s: Motion, a: int, b: int) returns (inputs: Inputs)
    requires d.Legal() && Fenced(d, m) && AllOpen(d, m) && OnNode(d, m, s, a) && Edge(d, m, a, b)
    ensures Keys(inputs) && inputs != [] && MotionInv(d, m, s) && OnNode(d, m, Run(d, m, s, inputs), b)
  {
    hide Edge, AllOpen, Fenced, OpenDir, MotionInv, OddPoint, Idx, HopDir, Inside, AlongX, AlongY, Run;
    var x, y :| OddPoint(d, x, y) && Idx(d, x, y) == a && Stands(d, m, s, x, y);
    var dir := HopDir(d, a, b);
    HopGeometry(d, m, x, y, b);
    var x1, y1 := x + AlongX(dir, 1), y + AlongY(dir, 1);
    var one := Hold(dir, BLOCK_X_DIM);
    OneSquare(d, m, s, x, y, dir);
    OneSquare(d, m, Run(d, m, s, one), x1, y1, dir);
    RunAppend(d, m, s, one, one);
    inputs := one + one;
  }

  lemma {:induction false} AlongWalk(d: Dims, m: Grid, s: Motion, p: seq<int>) returns (inputs: Inputs)
    requires d.Legal() && Fenced(d, m) && AllOpen(d, m) && Walk(d, m, {}, p) && OnNode(d, m, s, p[0])
    ensures Keys(inputs) && (|p| > 1 ==> inputs != [])
    ensures MotionInv(d, m, s) && OnNode(d, m, Run(d, m, s, inputs), p[|p| - 1])
    decreases |p|
  {
    hide Edge, AllOpen, Fenced, MotionInv, OddPoint, Idx;
    if |p| == 1 {
      inputs := [];
    } else {
      assert Edge(d, m, p[0], p[1]);
      var first := AlongEdge(d, m, s, p[0], p[1]);
      var q := p[1..];
      assert Walk(d, m, {}, q) by {
        forall i | 0 < i < |q| ensures Edge(d, m, q[i - 1], q[i]) { assert Edge(d, m, p[i], p[i + 1]); }
      }
      var rest := AlongWalk(d, m, Run(d, m, s, first), q);
      RunAppend(d, m, s, first, rest);
      inputs := first + rest;
    }
  }

  // From any node to any other.
  lemma NodeToNode(d: Dims, m: Grid, s: Motion, a: int, b: int) returns (inputs: Inputs)
    requires d.Legal() && WellConnected(d, m) && OnNode(d, m, s, a) && a in LatSet(d) && b in LatSet(d)
    ensures Keys(inputs) && (a != b ==> inputs != [])
    ensures Fenced(d, m) && MotionInv(d, m, s) && OnNode(d, m, Run(d, m, s, inputs), b)
  {
    var start := Idx(d, 1, 1);
    hide Reach, IsLat, Idx, AllOpen, Fenced, OnNode;
    ReachSym(d, m, start, a);
    ReachTrans(d, m, {}, a, start, b);
    var p := WalkOf(d, m, a, b);
    inputs := AlongWalk(d, m, s, p);
  }

  lemma WalkOf(d: Dims, m: Grid, a: int, b: int) returns (p: seq<int>)
    requires d.Legal() && Reach(d, m, {}, a, b)
    ensures Walk(d, m, {}, p) && p[0] == a && p[|p| - 1] == b && (a != b ==> |p| > 1)
  {
    p :| Walk(d, m, {}, p) && p[0] == a && p[|p| - 1] == b;
  }

  // ----- from anywhere to a node -----

  // An open square that is not a node has an open one to its left (in an even
  // column) or above it (in an even row).
  ghost predicate Settled(d: Dims, m: Grid)
    requires d.Legal()
  {
    forall x, y :: OpenPoint(d, m, x, y) && !OddPoint(d, x, y) ==> OpenPoint(d, m, ToNodeX(x), ToNodeY(x, y))
  }

  function ToNodeX(x: int): int { if x % 2 == 0 then x - 1 else x }

  function ToNodeY(x: int, y: int): int { if x % 2 == 0 then y else y - 1 }

  // So it is in a maze as it was dug and joined ...
  lemma ShapeSettles(d: Dims, m: Grid)
    requires d.Legal() && Shape(d, m)
    ensures Settled(d, m)
  {
    hide IsLat, Idx, OpenNode;
    forall x, y | OpenPoint(d, m, x, y) && !OddPoint(d, x, y)
      ensures OpenPoint(d, m, ToNodeX(x), ToNodeY(x, y))
    {
      IsLatAt(d, x, y);
      ConnectorPoint(d, m, x, y);
      ConnectorOpens(d, m, x, y);
    }
  }

  lemma ConnectorOpens(d: Dims, m: Grid, x: int, y: int)
    requires d.Legal() && Inside(d, x, y) && x % 2 != y % 2 && Connector(d, m, Idx(d, x, y))
    ensures OpenPoint(d, m, ToNodeX(x), ToNodeY(x, y))
  {
    IsLatAt(d, x - 1, y);
    IdxStep(d, x, y);
    IsLatAt(d, x, y - 1);
    assert Idx(d, x - 1, y) == Idx(d, x, y) - 1;
    hide IsLat, Idx;
  }

  // ... and in one whose interior has been opened.
  lemma OpenSettles(d: Dims, m: Grid)
    requires d.Legal() && forall k :: 0 <= k < MAZE_SIZE && Interior(d, k) ==> !m[k].wall
    ensures Settled(d, m)
  {
    forall x, y | OpenPoint(d, m, x, y) && !OddPoint(d, x, y)
      ensures OpenPoint(d, m, ToNodeX(x), ToNodeY(x, y))
    {
      InsideInMaze(d, ToNodeX(x), ToNodeY(x, y));
      InteriorAt(d, ToNodeX(x), ToNodeY(x, y));
    }
  }

  lemma SquareToNode(d: Dims, m: Grid, s: Motion, x: int, y: int) returns (inputs: Inputs, k: int)
    requires d.Legal() && Fenced(d, m) && Settled(d, m) && Stands(d, m, s, x, y)
    ensures Keys(inputs) && k in LatSet(d) && MotionInv(d, m, s) && OnNode(d, m, Run(d, m, s, inputs), k)
    decreases x + y
  {
    StandsOpen(d, m, s, x, y);
    hide Fenced, Idx, MotionInv;
    if OddPoint(d, x, y) {
      OddInMaze(d, x, y);
      inputs, k := [], Idx(d, x, y);
    } else {
      var dir: Direction := if x % 2 == 0 then 3 else 0;
      assert OpenDir(d, m, x, y, dir);
      var one := Hold(dir, BLOCK_X_DIM);
      OneSquare(d, m, s, x, y, dir);
      var rest;
      rest, k := SquareToNode(d, m, Run(d, m, s, one), ToNodeX(x), ToNodeY(x, y));
      RunAppend(d, m, s, one, rest);
      inputs := one + rest;
    }
  }

  // From every state of play the player can be brought to every node.
  lemma AnywhereToNode(d: Dims, m: Grid, s: Motion, b: int) returns (inputs: Inputs)
    requires d.Legal() && WellConnected(d, m) && Settled(d, m) && MotionInv(d, m, s) && b in LatSet(d)
    ensures Keys(inputs) && Fenced(d, m) && OnNode(d, m, Run(d, m, s, inputs), b)
  {
    ConnectedIsFenced(d, m);
    Coast(d, m, s);
    assert s.moveCnt > 0 ==> s.dir != DIR_STOP;
    var stop := Hold(s.dir, s.moveCnt);
    var s1 := Run(d, m, s, stop);
    hide WellConnected, MotionInv, Settled, OnNode, Fenced;
    var toNode, a := SquareToNode(d, m, s1, SquareX(s1), SquareY(s1));
    RunAppend(d, m, s, stop, toNode);
    var s2 := Run(d, m, s, stop + toNode);
    var onward := NodeToNode(d, m, s2, a, b);
    RunAppend(d, m, s, stop + toNode, onward);
    inputs := stop + toNode + onward;
  }
}
