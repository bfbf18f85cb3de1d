// The worm phase of make_maze as a function of its random choices, and why it can
// always come to its end.
module MazeWorms {
  import opened MazeCell
  import opened Lattice
  import opened MazeGraph
  import opened MazeShape
  import opened MazeJoin
  import opened MazeDig

  // Where a worm is dropped, and its first direction.
  datatype WormStart = WormStart(x: int, y: int, first: Direction)

  function AllWalls(): Grid { seq(MAZE_SIZE, _ => WALL) }

  // The worms one after the other, all drawing from the same sequence.  A worm that
  // runs out of draws ends the phase.
  ghost function Worms(d: Dims, starts: seq<WormStart>, draws: seq<nat>): (r: WormEnd)
    requires d.Legal()
    ensures OddPoint(d, r.x, r.y) && r.n <= |draws| && (!r.turned ==> r.n == |draws|)
    decreases |starts|
  {
    if starts == [] then WormEnd(AllWalls(), 1, 1, 0, 0, true)
    else
      var e := Worms(d, starts[..|starts| - 1], draws);
      var s := starts[|starts| - 1];
      if e.turned && CanStart(d, e.m, s) then Worm(d, e.m[Idx(d, s.x, s.y) := NONE], s.x, s.y, s.first, draws, e.n)
      else e
  }

  // A worm is dropped at a node that is still a wall.
  ghost predicate CanStart(d: Dims, m: Grid, s: WormStart) {
    OddPoint(d, s.x, s.y) && InMaze(d, s.x, s.y) && m[Idx(d, s.x, s.y)].wall
  }

  // Every worm is dropped where it may be, and only after the one before has turned.
  ghost predicate MayRun(d: Dims, starts: seq<WormStart>, draws: seq<nat>)
    requires d.Legal()
    decreases |starts|
  {
    starts != [] ==>
      var before := starts[..|starts| - 1];
      MayRun(d, before, draws) && Worms(d, before, draws).turned
        && CanStart(d, Worms(d, before, draws).m, starts[|starts| - 1])
  }

  lemma MoreWorms(d: Dims, starts: seq<WormStart>, draws: seq<nat>, s: WormStart)
    requires d.Legal() && MayRun(d, starts, draws) && Worms(d, starts, draws).turned
    requires CanStart(d, Worms(d, starts, draws).m, s)
    ensures MayRun(d, starts + [s], draws)
    ensures var e := Worms(d, starts, draws);
      Worms(d, starts + [s], draws) == Worm(d, e.m[Idx(d, s.x, s.y) := NONE], s.x, s.y, s.first, draws, e.n)
  {
    assert (starts + [s])[..|starts|] == starts;
  }

  // ----- what the worms keep -----

  // A bite keeps the digging invariant, and counts when it opens a node.
  lemma BiteKeeps(d: Dims, m: Grid, x: int, y: int, dir: Direction, remaining: int)
    requires d.Legal() && OddPoint(d, x, y) && InGrid(d, x, y, dir)
    requires Digging(d, m, remaining) && OpenNode(d, m, Idx(d, x, y))
    ensures var m', x', y' := Bite(d, m, x, y, dir), StepX(x, dir), StepY(y, dir);
      var c, b := Idx(d, x, y) + Delta(d, dir), Idx(d, x', y');
      && OddPoint(d, x', y') && OpenNode(d, m', b)
      && 0 <= c < MAZE_SIZE && 0 <= b < MAZE_SIZE && m' == m[c := NONE][b := NONE] && m[c := NONE][b] == m[b]
      && Digging(d, m', if m[b] == WALL then remaining - 1 else remaining)
  {
    hide IsLat, Idx, LatSet, Shape, Walled, OddPoint, StepX, StepY, Delta, Digging, Hop, OpenNode;
    var k := Idx(d, x, y);
    StepPoint(d, x, y, dir);
    StepInMaze(d, x, y, dir);
    HopDelta(d, k, dir);
    OpenIsOpen(d, m, k);
    DigStep(d, m, remaining, k, k + 2 * Delta(d, dir));
    OddInMaze(d, StepX(x, dir), StepY(y, dir));
    NodeOpen(d, Bite(d, m, x, y, dir), k + 2 * Delta(d, dir));
  }

  lemma OpenIsOpen(d: Dims, m: Grid, k: int)
    requires d.Legal() && OpenNode(d, m, k)
    ensures 0 <= k < MAZE_SIZE && !m[k].wall
  {}

  // A worm keeps the digging invariant and walls up no node.
  lemma {:induction false} WormKeeps(d: Dims, m: Grid, x: int, y: int, pref: Direction, draws: seq<nat>, n: nat)
    requires d.Legal() && OddPoint(d, x, y) && n <= |draws|
    requires Digging(d, m, |Walled(d, m)|) && OpenNode(d, m, Idx(d, x, y))
    ensures var e := Worm(d, m, x, y, pref, draws, n);
      && Digging(d, e.m, |Walled(d, e.m)|) && |Walled(d, e.m)| <= |Walled(d, m)| && OpenNode(d, e.m, Idx(d, e.x, e.y))
    decreases |draws| - n
  {
    hide IsLat, Idx, LatSet, Digging, Walled, OddPoint, StepX, StepY, Bite, Chosen, OpenNode;
    if n < |draws| {
      var dir := Chosen(d, m, x, y, pref, draws[n]);
      ChosenInGrid(d, m, x, y, pref, draws[n]);
      BiteKeeps(d, m, x, y, dir, |Walled(d, m)|);
      Recount(d, m, Bite(d, m, x, y, dir));
      if (dir - pref + 4) % 4 != 2 {
        WormKeeps(d, Bite(d, m, x, y, dir), StepX(x, dir), StepY(y, dir), dir, draws, n + 1);
      }
    }
  }

  // Dropping a worm opens its node.
  lemma DropKeeps(d: Dims, m: Grid, s: WormStart)
    requires d.Legal() && Digging(d, m, |Walled(d, m)|) && CanStart(d, m, s)
    ensures var m' := m[Idx(d, s.x, s.y) := NONE];
      && Digging(d, m', |Walled(d, m')|) && |Walled(d, m')| < |Walled(d, m)| && OpenNode(d, m', Idx(d, s.x, s.y))
  {
    var k := Idx(d, s.x, s.y);
    OddInMaze(d, s.x, s.y);
    OnlyWall(d, m, |Walled(d, m)|, k);
    DigNode(d, m, |Walled(d, m)|, k);
    NodeOpen(d, m[k := NONE], k);
  }

  lemma {:induction false} WormsKeep(d: Dims, starts: seq<WormStart>, draws: seq<nat>)
    requires d.Legal()
    ensures var e := Worms(d, starts, draws);
      Digging(d, e.m, |Walled(d, e.m)|) && (!e.turned ==> OpenNode(d, e.m, Idx(d, e.x, e.y)))
    decreases |starts|
  {
    hide IsLat, Idx, LatSet, Digging, Walled, OddPoint, OpenNode;
    if starts == [] {
      DigStart(d, AllWalls());
      WalledCount(d, AllWalls(), d.x * d.y);
    } else {
      var before, s := starts[..|starts| - 1], starts[|starts| - 1];
      WormsKeep(d, before, draws);
      var e := Worms(d, before, draws);
      if e.turned && CanStart(d, e.m, s) {
        DropKeeps(d, e.m, s);
        WormKeeps(d, e.m[Idx(d, s.x, s.y) := NONE], s.x, s.y, s.first, draws, e.n);
      }
    }
  }

  lemma Recount(d: Dims, m: Grid, m': Grid)
    requires d.Legal() && exists n :: n <= |Walled(d, m)| && Digging(d, m', n)
    ensures Digging(d, m', |Walled(d, m')|) && |Walled(d, m')| <= |Walled(d, m)|
  {
    hide Shape, Walled, Dug;
  }

  lemma WalledCount(d: Dims, m: Grid, remaining: int)
    requires d.Legal() && Digging(d, m, remaining)
    ensures remaining == |Walled(d, m)|
  {}

  // ----- the phase can always end -----

  // The numbers random() can return.
  const RANDOM_MAX := 0x7FFF_FFFF

  predicate Random(draws: seq<nat>) { forall i :: 0 <= i < |draws| ==> draws[i] <= RANDOM_MAX }

  lemma RandomAppend(a: seq<nat>, b: seq<nat>)
    requires Random(a) && Random(b)
    ensures Random(a + b)
  {}

  // Every direction inside the grid is picked by some draw, below the total weight.
  lemma DrawFor(d: Dims, m: Grid, x: int, y: int, pref: Direction, dir: Direction) returns (draw: nat)
    requires d.Legal() && OddPoint(d, x, y) && InGrid(d, x, y, dir)
    ensures Chosen(d, m, x, y, pref, draw) == dir
    ensures draw < WeightBefore(d, m, x, y, pref, 4) && Random([draw])
  {
    WeightsGrow(d, m, x, y, pref, 0, dir);
    WeightsGrow(d, m, x, y, pref, dir, dir + 1);
    WeightsGrow(d, m, x, y, pref, dir + 1, 4);
    WeightsSmall(d, m, x, y, pref, 4);
    hide WeightBefore, Chosen, OddPoint, InGrid, Dims.Legal;
    draw := WeightBefore(d, m, x, y, pref, dir);
    Below(draw, WeightBefore(d, m, x, y, pref, 4));
    ChosenIs(d, m, x, y, pref, draw, dir);
  }

  lemma Below(a: nat, b: nat)
    requires a < b
    ensures a % b == a
  {}

  lemma {:induction false} WeightsGrow(d: Dims, m: Grid, x: int, y: int, pref: Direction, a: int, b: int)
    requires d.Legal() && OddPoint(d, x, y) && 0 <= a <= b <= 4
    ensures WeightBefore(d, m, x, y, pref, 0) == 0
      && WeightBefore(d, m, x, y, pref, a) <= WeightBefore(d, m, x, y, pref, b)
    ensures b == a + 1 && InGrid(d, x, y, a) ==> WeightBefore(d, m, x, y, pref, a) < WeightBefore(d, m, x, y, pref, b)
    decreases b
  {
    hide IsLat, Idx, LatSet, OddPoint;
    if a < b {
      WeightsGrow(d, m, x, y, pref, a, b - 1);
      assert Weight(d, m, x, y, pref, b - 1) >= 0;
      assert InGrid(d, x, y, b - 1) ==> Weight(d, m, x, y, pref, b - 1) > 0;
    }
  }

  lemma {:induction false} WeightsSmall(d: Dims, m: Grid, x: int, y: int, pref: Direction, a: int)
    requires d.Legal() && OddPoint(d, x, y) && 0 <= a <= 4
    ensures WeightBefore(d, m, x, y, pref, a) <= 84 * a
  {
    hide IsLat, Idx, LatSet, OddPoint;
    if a > 0 {
      WeightsSmall(d, m, x, y, pref, a - 1);
      assert Weight(d, m, x, y, pref, a - 1) <= 84;
    }
  }

  // The draws after the ones a worm has used up are where it goes on.
  lemma {:induction false} WormGoesOn(d: Dims, m: Grid, x: int, y: int, pref: Direction, draws: seq<nat>, n: nat,
        more: seq<nat>)
    requires d.Legal() && OddPoint(d, x, y) && n <= |draws|
    ensures var e := Worm(d, m, x, y, pref, draws, n);
      Worm(d, m, x, y, pref, draws + more, n) ==
        if e.turned then e else Worm(d, e.m, e.x, e.y, e.pref, draws + more, |draws|)
    decreases |draws| - n
  {
    hide IsLat, Idx, LatSet, OddPoint, StepX, StepY, Bite, Chosen;
    if n < |draws| {
      var dir := Chosen(d, m, x, y, pref, draws[n]);
      ChosenInGrid(d, m, x, y, pref, draws[n]);
      StepPoint(d, x, y, dir);
      assert (draws + more)[n] == draws[n];
      if (dir - pref + 4) % 4 != 2 {
        WormGoesOn(d, Bite(d, m, x, y, dir), StepX(x, dir), StepY(y, dir), dir, draws, n + 1, more);
      }
    } else {
      assert n == |draws|;
    }
  }

  lemma {:induction false} WormsGoOn(d: Dims, starts: seq<WormStart>, draws: seq<nat>, more: seq<nat>)
    requires d.Legal() && MayRun(d, starts, draws)
    ensures var e := Worms(d, starts, draws);
      Worms(d, starts, draws + more) == if e.turned then e else Worm(d, e.m, e.x, e.y, e.pref, draws + more, |draws|)
    ensures MayRun(d, starts, draws + more)
    decreases |starts|
  {
    hide IsLat, Idx, LatSet, OddPoint;
    if starts != [] {
      var before, s := starts[..|starts| - 1], starts[|starts| - 1];
      WormsGoOn(d, before, draws, more);
      var e := Worms(d, before, draws);
      WormGoesOn(d, e.m[Idx(d, s.x, s.y) := NONE], s.x, s.y, s.first, draws, e.n, more);
    }
  }

  // Wherever a worm is and wherever it is heading, two more draws can make it turn:
  // if the way back is outside the grid, a move to the side puts it inside.
  lemma TurnSoon(d: Dims, m: Grid, x: int, y: int, pref: Direction, draws: seq<nat>) returns (more: seq<nat>)
    requires d.Legal() && OddPoint(d, x, y)
    ensures 1 <= |more| <= 2 && Random(more) && Worm(d, m, x, y, pref, draws + more, |draws|).turned
  {
    hide IsLat, Idx, LatSet, Chosen, Bite;
    var back: Direction := (pref + 2) % 4;
    if InGrid(d, x, y, back) {
      more := TurnNow(d, m, x, y, pref, draws);
    } else {
      var dir: Direction := if InGrid(d, x, y, 1) then 1 else 3;
      assert InGrid(d, x, y, dir);
      var draw := DrawFor(d, m, x, y, pref, dir);
      StepPoint(d, x, y, dir);
      assert InGrid(d, StepX(x, dir), StepY(y, dir), (dir + 2) % 4);
      var last := TurnNow(d, Bite(d, m, x, y, dir), StepX(x, dir), StepY(y, dir), dir, draws + [draw]);
      RandomAppend([draw], last);
      more := [draw] + last;
      assert draws + more == draws + [draw] + last;
      assert (draws + more)[|draws|] == draw;
    }
  }

  lemma TurnNow(d: Dims, m: Grid, x: int, y: int, pref: Direction, draws: seq<nat>) returns (more: seq<nat>)
    requires d.Legal() && OddPoint(d, x, y) && InGrid(d, x, y, (pref + 2) % 4)
    ensures |more| == 1 && Random(more) && Worm(d, m, x, y, pref, draws + more, |draws|).turned
  {
    hide IsLat, Idx, LatSet, Chosen, OddPoint;
    var draw := DrawFor(d, m, x, y, pref, (pref + 2) % 4);
    more := [draw];
    assert (draws + more)[|draws|] == draw;
  }

  // However the worms have gone so far, and wherever the draws have run out, there
  // are more draws and more worms with which the phase ends: every node is open.
  lemma {:induction false} PhaseCanEnd(d: Dims, starts: seq<WormStart>, draws: seq<nat>)
    returns (starts': seq<WormStart>, draws': seq<nat>)
    requires d.Legal() && MayRun(d, starts, draws)
    ensures starts <= starts' && draws <= draws' && (Random(draws) ==> Random(draws')) && MayRun(d, starts', draws')
    ensures Worms(d, starts', draws').turned && Walled(d, Worms(d, starts', draws').m) == {}
    decreases |Walled(d, Worms(d, starts, draws).m)|, !Worms(d, starts, draws).turned
  {
    hide IsLat, Idx, LatSet, OddPoint, Walled, Digging, Worm, Worms, MayRun, Random;
    var e := Worms(d, starts, draws);
    WormsKeep(d, starts, draws);
    if !e.turned {
      var more := TurnSoon(d, e.m, e.x, e.y, e.pref, draws);
      WormsGoOn(d, starts, draws, more);
      if Random(draws) { RandomAppend(draws, more); }
      WormKeeps(d, e.m, e.x, e.y, e.pref, draws + more, |draws|);
      starts', draws' := PhaseCanEnd(d, starts, draws + more);
    } else if |Walled(d, e.m)| > 0 {
      var x, y := WalledPoint(d, e.m, |Walled(d, e.m)|);
      var s := WormStart(x, y, 0);
      MoreWorms(d, starts, draws, s);
      DropKeeps(d, e.m, s);
      WormKeeps(d, e.m[Idx(d, x, y) := NONE], x, y, 0, draws, e.n);
      starts', draws' := PhaseCanEnd(d, starts + [s], draws);
    } else {
      starts', draws' := starts, draws;
    }
  }

  // So the worm phase of some run ends, in a maze of every size.
  lemma SomePhaseEnds(d: Dims) returns (starts: seq<WormStart>, draws: seq<nat>)
    requires d.Legal()
    ensures Random(draws) && MayRun(d, starts, draws)
    ensures Worms(d, starts, draws).turned && Walled(d, Worms(d, starts, draws).m) == {}
  {
    starts, draws := PhaseCanEnd(d, [], []);
  }
}
