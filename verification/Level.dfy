// A level as a function of the keys pressed: the maze, the player and when the
// level is won.  From every state of play it can be won.
module Level {
  import opened Lattice
  import opened MazeGraph
  import opened MazeShape
  import opened MazeJoin
  import opened MazeWorms
  import opened MazeReady
  import opened Motion
  import opened Drawing
  import opened Walking

  // How a level stands after a number of ticks.
  datatype PlayEnd = PlayEnd(won: bool, m: Grid, s: Motion, ticks: nat)

  // The maze after the first half of a tick: at a square its fruit is eaten and the
  // squares around it are uncovered.
  ghost function MazeAfter(d: Dims, m: Grid, s: Motion, next: Heading): Grid {
    if TurnBack(s, next).moveCnt == 0 then Visited(d, m, SquareX(s), SquareY(s)) else m
  }

  // The level is won at the square with the exit when no fruit is left.
  ghost predicate WinsAt(d: Dims, m: Grid, s: Motion, next: Heading) {
    && TurnBack(s, next).moveCnt == 0 && Fruited(m) == {}
    && InMaze(d, SquareX(s), SquareY(s)) && m[Idx(d, SquareX(s), SquareY(s))].exit
  }

  // The count kept by the game says when no fruit is left.
  lemma NoFruitLeft(d: Dims, m: Grid, n: int)
    requires d.Legal() && FruitCount(d, m, n)
    ensures n == 0 <==> Fruited(m) == {}
  {}

  ghost function Play(d: Dims, m: Grid, s: Motion, inputs: Inputs): (e: PlayEnd)
    requires d.Legal() && Fenced(d, m) && MotionInv(d, m, s)
    ensures SameWalls(m, e.m) && MotionInv(d, m, e.s) && MotionInv(d, e.m, e.s) && Fenced(d, e.m)
    ensures e.ticks <= |inputs| && (!e.won ==> e.ticks == |inputs|)
    decreases |inputs|
  {
    if inputs == [] then PlayEnd(false, m, s, 0)
    else
      var input := inputs[0];
      var m1 := MazeAfter(d, m, s, input.0);
      VisitKeeps(d, m, s, input.0, input.1);
      if WinsAt(d, m1, s, input.0) then PlayEnd(true, m1, TurnBack(s, input.0), 1)
      else
        var e := Play(d, m1, Step(d, m1, s, input.0, input.1), inputs[1..]);
        BackOnWalls(d, m, m1, e.m, e.s);
        e.(ticks := e.ticks + 1)
  }

  lemma VisitedChanges(d: Dims, m: Grid, x: int, y: int)
    ensures var m1 := Visited(d, m, x, y);
      && SameWalls(m, m1) && Fruited(m1) == (if InMaze(d, x, y) then Fruited(m) - {Idx(d, x, y)} else Fruited(m))
  {
    hide Idx, AroundCells;
  }

  lemma VisitKeeps(d: Dims, m: Grid, s: Motion, next: Heading, stray: bool)
    requires d.Legal() && Fenced(d, m) && MotionInv(d, m, s)
    ensures var m1 := MazeAfter(d, m, s, next);
      && SameWalls(m, m1) && Fenced(d, m1) && MotionInv(d, m1, s) && InsideMap(d, s) && Fruited(m1) <= Fruited(m)
      && MotionInv(d, m1, TurnBack(s, next)) && MotionInv(d, m, TurnBack(s, next))
      && MotionInv(d, m1, Step(d, m1, s, next, stray)) && Step(d, m1, s, next, stray) == Step(d, m, s, next, stray)
  {
    var m1 := MazeAfter(d, m, s, next);
    VisitedChanges(d, m, SquareX(s), SquareY(s));
    hide Visited, Fruited;
    assert SameWalls(m, m1);
    FencedOfWalls(d, m, m1);
    MotionOfWalls(d, m, m1, s);
    InvInside(d, m, s);
    TurnKeeps(d, m, s, next);
    TurnKeeps(d, m1, s, next);
    StepKeeps(d, m1, s, next, stray);
    StepOfWalls(d, m, m1, s, next, stray);
    hide *;
  }

  lemma FencedOfWalls(d: Dims, m: Grid, m': Grid)
    requires d.Legal() && Fenced(d, m) && SameWalls(m, m')
    ensures Fenced(d, m')
  {
    hide Idx;
  }

  lemma BackOnWalls(d: Dims, m: Grid, m1: Grid, m2: Grid, s: Motion)
    requires d.Legal() && SameWalls(m, m1) && SameWalls(m1, m2) && MotionInv(d, m1, s)
    ensures SameWalls(m, m2) && MotionInv(d, m, s)
  {
    assert SameWalls(m1, m);
    MotionOfWalls(d, m1, m, s);
  }

  // Until the level is won the motion is that of the run; fruit is only eaten, and
  // a player who starts at a square eats the fruit there.
  lemma {:induction false} PlayIsRun(d: Dims, m: Grid, s: Motion, inputs: Inputs)
    requires d.Legal() && Fenced(d, m) && MotionInv(d, m, s)
    ensures var e := Play(d, m, s, inputs);
      && (!e.won ==> e.s == Run(d, m, s, inputs)) && Fruited(e.m) <= Fruited(m)
      && (inputs != [] && s.moveCnt == 0 && InMaze(d, SquareX(s), SquareY(s)) ==>
           Idx(d, SquareX(s), SquareY(s)) !in Fruited(e.m))
    decreases |inputs|
  {
    hide Step, MotionInv, Fenced, SameWalls, Visited, Idx, Fruited;
    if inputs != [] {
      var input := inputs[0];
      var m1 := MazeAfter(d, m, s, input.0);
      VisitKeeps(d, m, s, input.0, input.1);
      VisitedChanges(d, m, SquareX(s), SquareY(s));
      if !WinsAt(d, m1, s, input.0) {
        var s1 := Step(d, m1, s, input.0, input.1);
        PlayIsRun(d, m1, s1, inputs[1..]);
        StepKeeps(d, m, s, input.0, input.1);
        RunOfWalls(d, m, m1, s1, inputs[1..]);
      }
    }
  }

  // A level won is won, whatever keys are pressed afterwards; otherwise it goes on
  // from where it stands.
  lemma {:induction false} PlayAppend(d: Dims, m: Grid, s: Motion, a: Inputs, b: Inputs)
    requires d.Legal() && Fenced(d, m) && MotionInv(d, m, s)
    ensures var e, both := Play(d, m, s, a), Play(d, m, s, a + b);
      if e.won then both == e else
        var f := Play(d, e.m, e.s, b);
        both == f.(ticks := e.ticks + f.ticks)
    decreases |a|
  {
    hide Step, MotionInv, Fenced, SameWalls, Visited, Idx, Fruited, WinsAt;
    if a == [] {
      assert a + b == b;
    } else {
      var m1 := MazeAfter(d, m, s, a[0].0);
      VisitKeeps(d, m, s, a[0].0, a[0].1);
      assert (a + b)[1..] == a[1..] + b;
      if !WinsAt(d, m1, s, a[0].0) {
        PlayAppend(d, m1, Step(d, m1, s, a[0].0, a[0].1), a[1..], b);
      }
    }
  }

  // ----- winning -----

  // A maze in play: connected, its fruit on nodes, and one exit.
  ghost predicate InPlay(d: Dims, m: Grid, ex: int, ey: int)
    requires d.Legal()
  {
    WellConnected(d, m) && Settled(d, m) && Fruited(m) <= LatSet(d) && OneExit(d, m, ex, ey)
  }

  lemma PlayKeeps(d: Dims, m: Grid, s: Motion, inputs: Inputs, ex: int, ey: int)
    requires d.Legal() && InPlay(d, m, ex, ey) && Fenced(d, m) && MotionInv(d, m, s)
    ensures InPlay(d, Play(d, m, s, inputs).m, ex, ey)
  {
    var m' := Play(d, m, s, inputs).m;
    PlayIsRun(d, m, s, inputs);
    hide Play;
    ConnectedOfWalls(d, m, m');
    hide WellConnected;
    SettledOfWalls(d, m, m');
    hide Settled;
  }

  lemma SettledOfWalls(d: Dims, m: Grid, m': Grid)
    requires d.Legal() && Settled(d, m) && SameWalls(m, m')
    ensures Settled(d, m')
  {
    hide Idx, OddPoint;
  }

  // One tick at the exit, with no fruit left elsewhere.
  lemma WinHere(d: Dims, m: Grid, s: Motion, ex: int, ey: int)
    requires d.Legal() && InPlay(d, m, ex, ey) && Fenced(d, m) && OnNode(d, m, s, Idx(d, ex, ey)) && MotionInv(d, m, s)
    requires Fruited(m) <= {Idx(d, ex, ey)}
    ensures Play(d, m, s, [(0, false)]).won
  {
    var x, y :| OddPoint(d, x, y) && Idx(d, x, y) == Idx(d, ex, ey) && Stands(d, m, s, x, y);
    NodeUnique(d, ex, ey, x, y);
    OddInMaze(d, x, y);
    VisitedChanges(d, m, x, y);
    hide Idx, Visited, WellConnected, Settled, Fruited, MotionInv, Fenced;
    assert WinsAt(d, MazeAfter(d, m, s, 0), s, 0);
  }

  // Standing on node k: walk to a node that has fruit, eating what is at k, until
  // none is left elsewhere, and then to the exit.
  lemma {:induction false} WinFromNode(d: Dims, m: Grid, s: Motion, k: int, ex: int, ey: int) returns (inputs: Inputs)
    requires d.Legal() && InPlay(d, m, ex, ey) && OnNode(d, m, s, k) && k in LatSet(d)
    ensures Keys(inputs) && Fenced(d, m) && MotionInv(d, m, s) && Play(d, m, s, inputs).won
    decreases |Fruited(m) - {k}|, k != Idx(d, ex, ey)
  {
    ConnectedIsFenced(d, m);
    if Fruited(m) - {k} == {} && k == Idx(d, ex, ey) {
      WinHere(d, m, s, ex, ey);
      inputs := [(0, false)];
    } else {
      var l := NextNode(d, m, k, ex, ey);
      inputs := NodeToNode(d, m, s, k, l);
      WalkedTo(d, m, s, k, l, inputs, ex, ey);
      hide *;
      var e := Play(d, m, s, inputs);
      if !e.won {
        var rest := WinFromNode(d, e.m, e.s, l, ex, ey);
        PlayAppend(d, m, s, inputs, rest);
        KeysAppend(inputs, rest);
        inputs := inputs + rest;
      }
    }
  }

  // Where to go next: towards fruit, and when none is left to the exit.  Once there,
  // less is left to do.
  lemma NextNode(d: Dims, m: Grid, k: int, ex: int, ey: int) returns (l: int)
    requires d.Legal() && InPlay(d, m, ex, ey) && !(Fruited(m) - {k} == {} && k == Idx(d, ex, ey))
    ensures l in LatSet(d) && l != k
    ensures forall f :: f <= Fruited(m) - {k} ==> |f - {l}| <= |Fruited(m) - {k}|
    ensures if Fruited(m) - {k} == {} then l == Idx(d, ex, ey) != k else l in Fruited(m)
    ensures forall f :: f <= Fruited(m) - {k} && Fruited(m) - {k} != {} ==> |f - {l}| < |Fruited(m) - {k}|
  {
    hide WellConnected, Settled, LatSet, Idx;
    var rest := Fruited(m) - {k};
    OddInMaze(d, ex, ey);
    if f :| f in rest {
      l := f;
    } else {
      assert rest == {};
      l := Idx(d, ex, ey);
    }
    forall f | f <= rest ensures |f - {l}| <= |rest - {l}| { SubsetSize(f - {l}, rest - {l}); }
  }

  // What a walk from node k to node l does to the level.
  lemma WalkedTo(d: Dims, m: Grid, s: Motion, k: int, l: int, inputs: Inputs, ex: int, ey: int)
    requires d.Legal() && InPlay(d, m, ex, ey) && OnNode(d, m, s, k) && Fenced(d, m) && MotionInv(d, m, s)
    requires inputs != [] && OnNode(d, m, Run(d, m, s, inputs), l)
    ensures var e := Play(d, m, s, inputs);
      && InPlay(d, e.m, ex, ey) && Fruited(e.m) <= Fruited(m) - {k} && (!e.won ==> OnNode(d, e.m, e.s, l))
  {
    var e := Play(d, m, s, inputs);
    PlayIsRun(d, m, s, inputs);
    PlayKeeps(d, m, s, inputs, ex, ey);
    var x, y :| OddPoint(d, x, y) && Idx(d, x, y) == k && Stands(d, m, s, x, y);
    OddInMaze(d, x, y);
    if !e.won {
      OnNodeOfWalls(d, m, e.m, e.s, l);
    }
    hide Play, InPlay, OnNode, Fruited, Idx, Fenced;
  }

  lemma OnNodeOfWalls(d: Dims, m: Grid, m': Grid, s: Motion, k: int)
    requires d.Legal() && OnNode(d, m, s, k) && SameWalls(m, m')
    ensures OnNode(d, m', s, k)
  {
    MotionOfWalls(d, m, m', s);
    hide MotionInv, Idx;
    var x, y :| OddPoint(d, x, y) && Idx(d, x, y) == k && Stands(d, m, s, x, y);
    assert Stands(d, m', s, x, y);
  }

  // From every state of play of a level there are keys with which it is won.
  lemma LevelCanBeWon(d: Dims, m: Grid, s: Motion, ex: int, ey: int) returns (inputs: Inputs)
    requires d.Legal() && InPlay(d, m, ex, ey) && MotionInv(d, m, s)
    ensures Keys(inputs) && Fenced(d, m) && Play(d, m, s, inputs).won
  {
    ConnectedIsFenced(d, m);
    OddInMaze(d, 1, 1);
    var k := Idx(d, 1, 1);
    inputs := AnywhereToNode(d, m, s, k);
    var e := Play(d, m, s, inputs);
    PlayIsRun(d, m, s, inputs);
    PlayKeeps(d, m, s, inputs, ex, ey);
    hide IsLat, Idx, WellConnected, Settled, Fruited, OneExit, MotionInv, Fenced, OddPoint, InPlay, OnNode, Play;
    if !e.won {
      OnNodeOfWalls(d, m, e.m, e.s, k);
      var rest := WinFromNode(d, e.m, e.s, k, ex, ey);
      PlayAppend(d, m, s, inputs, rest);
      KeysAppend(inputs, rest);
      inputs := inputs + rest;
    }
  }

  // However a level has been played so far, unless it has been won it can still be.
  lemma NeverStuck(d: Dims, m: Grid, s: Motion, played: Inputs, ex: int, ey: int) returns (more: Inputs)
    requires d.Legal() && InPlay(d, m, ex, ey) && MotionInv(d, m, s)
    ensures Keys(more) && Fenced(d, m) && Play(d, m, s, played + more).won
  {
    ConnectedIsFenced(d, m);
    PlayKeeps(d, m, s, played, ex, ey);
    hide *;
    var e := Play(d, m, s, played);
    more := LevelCanBeWon(d, e.m, e.s, ex, ey);
    PlayAppend(d, m, s, played, more);
  }

  // ----- the levels of a game -----

  // What make_maze promises of a maze with n fruits: it is what the repair makes of
  // the maze that the worms dug, or has its whole interior open.
  ghost predicate Made(d: Dims, god: bool, m: Grid, n: int, ex: int, ey: int, starts: seq<WormStart>, draws: seq<nat>)
    requires d.Legal()
  {
    && WellConnected(d, m) && FruitCount(d, m, n) && OneExit(d, m, ex, ey) && NoMarks(m)
    && InMaze(d, ex, ey) && m[Idx(d, ex, ey)].fruit == 0
    && MayRun(d, starts, draws) && Worms(d, starts, draws).turned
    && (if god then forall k :: 0 <= k < MAZE_SIZE && Interior(d, k) ==> !m[k].wall
        else Shape(d, m) && Repaired(d, Worms(d, starts, draws).m, m))
  }

  // The player stands at (1,1) of a maze as it was made.
  lemma NewLevel(d: Dims, god: bool, m: Grid, n: int, ex: int, ey: int, starts: seq<WormStart>, draws: seq<nat>)
    requires d.Legal() && Made(d, god, m, n, ex, ey, starts, draws)
    ensures var m1 := Visited(d, m, 1, 1); InPlay(d, m1, ex, ey) && Fenced(d, m1) && MotionInv(d, m1, START)
  {
    var m1 := Visited(d, m, 1, 1);
    VisitedChanges(d, m, 1, 1);
    hide Visited, Worms, MayRun, Repaired;
    if god { OpenSettles(d, m); } else { ShapeSettles(d, m); }
    hide Shape, Idx, IsLat;
    SettledOfWalls(d, m, m1);
    hide Settled;
    ConnectedOfWalls(d, m, m1);
    StartOpen(d, m1);
    hide WellConnected;
    ConnectedIsFenced(d, m1);
    MotionStart(d, m1);
  }

  // Level `level` was played in the maze m with the given keys; e is how it stood
  // afterwards.
  ghost predicate Played(level: int, m: Grid, inputs: Inputs, e: PlayEnd)
    requires level >= 1
  {
    LevelLegal(level);
    var d := LevelDims(level);
    var m1 := Visited(d, m, 1, 1);
    Fenced(d, m1) && MotionInv(d, m1, START) && e == Play(d, m1, START, inputs)
  }

  lemma WasPlayed(level: int, m: Grid, inputs: Inputs, e: PlayEnd)
    requires level >= 1 && LevelDims(level).Legal()
    requires var d := LevelDims(level); var m1 := Visited(d, m, 1, 1);
      Fenced(d, m1) && MotionInv(d, m1, START) && e == Play(d, m1, START, inputs)
    ensures Played(level, m, inputs, e)
  {}

  ghost predicate MadeFor(level: int, god: bool, m: Grid, draws: seq<nat>)
    requires level >= 1
  {
    LevelLegal(level);
    exists ex, ey, starts :: Made(LevelDims(level), god, m, LevelFruits(level), ex, ey, starts, draws)
  }

  // The draws are used up before the last worm has turned back.
  ghost predicate CutShort(level: int, draws: seq<nat>)
    requires level >= 1
  {
    LevelLegal(level);
    exists starts :: MayRun(LevelDims(level), starts, draws) && !Worms(LevelDims(level), starts, draws).turned
  }
}
