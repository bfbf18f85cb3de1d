// How often a worm goes straight on, to the side or back.
module WormLaws {
  import opened MazeCell
  import opened Lattice
  import opened MazeGraph
  import opened MazeShape
  import opened MazeJoin
  import opened MazeDig
  import opened MazeWorms

  // How many of the first n draws send the worm in direction dir.
  ghost function CountDraws(d: Dims, m: Grid, x: int, y: int, pref: Direction, dir: Direction, n: nat): nat
    requires d.Legal() && OddPoint(d, x, y)
  {
    if n == 0 then 0
    else CountDraws(d, m, x, y, pref, dir, n - 1) + if Chosen(d, m, x, y, pref, n - 1) == dir then 1 else 0
  }

  // (nx,ny) is two cells away from (x,y) in direction dir.
  predicate TwoAway(x: int, y: int, dir: Direction, nx: int, ny: int) {
    && (dir == 0 ==> nx == x && ny == y - 2) && (dir == 1 ==> nx == x + 2 && ny == y)
    && (dir == 2 ==> nx == x && ny == y + 2) && (dir == 3 ==> nx == x - 2 && ny == y)
  }

  // The draws count modulo their total, and of a round of them 84 go straight on
  // into a wall, 9 to either side into a wall, 1 straight on or to the side where it
  // is empty already, 3 back whatever is there, and none outside the grid.
  lemma DrawShares(d: Dims, m: Grid, x: int, y: int, pref: Direction) returns (total: nat)
    requires d.Legal() && OddPoint(d, x, y)
    ensures total > 0 && forall draw: nat :: Chosen(d, m, x, y, pref, draw) == Chosen(d, m, x, y, pref, draw % total)
    ensures forall dir: Direction, nx, ny :: TwoAway(x, y, dir, nx, ny) ==>
      var count := CountDraws(d, m, x, y, pref, dir, total);
      && (!OddPoint(d, nx, ny) ==> count == 0)
      && (OddPoint(d, nx, ny) ==>
        && InMaze(d, nx, ny) && 0 <= Idx(d, nx, ny) < MAZE_SIZE
        && (dir == pref ==> count == if m[Idx(d, nx, ny)] == WALL then 84 else 1)
        && (dir == (pref + 2) % 4 ==> count == 3)
        && (dir == (pref + 1) % 4 || dir == (pref + 3) % 4 ==> count == if m[Idx(d, nx, ny)] == WALL then 9 else 1))
  {
    hide Chosen, CountDraws, InMaze, OddPoint, Idx, Weight, WeightBefore;
    SomeWeight(d, m, x, y, pref);
    total := WeightBefore(d, m, x, y, pref, 4);
    forall draw: nat
      ensures Chosen(d, m, x, y, pref, draw) == Chosen(d, m, x, y, pref, draw % total)
    {
      RoundOfDraws(d, m, x, y, pref, draw);
    }
    forall dir: Direction, nx, ny | TwoAway(x, y, dir, nx, ny)
      ensures CountDraws(d, m, x, y, pref, dir, total) == Weight(d, m, x, y, pref, dir)
      ensures !OddPoint(d, nx, ny) ==> Weight(d, m, x, y, pref, dir) == 0
      ensures OddPoint(d, nx, ny) ==>
        InMaze(d, nx, ny) && 0 <= Idx(d, nx, ny) < MAZE_SIZE
        && Weight(d, m, x, y, pref, dir) == TurnWeight((pref - dir + 4) % 4, m[Idx(d, nx, ny)] == WALL)
    {
      WholeShare(d, m, x, y, pref, dir);
      WeightOfNode(d, m, x, y, pref, dir, nx, ny);
    }
  }

  lemma RoundOfDraws(d: Dims, m: Grid, x: int, y: int, pref: Direction, draw: nat)
    requires d.Legal() && OddPoint(d, x, y)
    ensures var total := WeightBefore(d, m, x, y, pref, 4);
      total > 0 && Chosen(d, m, x, y, pref, draw) == Chosen(d, m, x, y, pref, draw % total)
  {
    SomeWeight(d, m, x, y, pref);
    hide WeightBefore, OddPoint, Pick;
    Below(draw % WeightBefore(d, m, x, y, pref, 4), WeightBefore(d, m, x, y, pref, 4));
  }

  lemma WeightOfNode(d: Dims, m: Grid, x: int, y: int, pref: Direction, dir: Direction, nx: int, ny: int)
    requires d.Legal() && OddPoint(d, x, y) && TwoAway(x, y, dir, nx, ny)
    ensures !OddPoint(d, nx, ny) ==> Weight(d, m, x, y, pref, dir) == 0
    ensures OddPoint(d, nx, ny) ==>
      InMaze(d, nx, ny) && 0 <= Idx(d, nx, ny) < MAZE_SIZE
        && Weight(d, m, x, y, pref, dir) == TurnWeight((pref - dir + 4) % 4, m[Idx(d, nx, ny)] == WALL)
  {
    InGridIff(d, x, y, dir, nx, ny);
    hide TurnWeight, OddPoint, InGrid, Idx, InMaze;
    if OddPoint(d, nx, ny) {
      OddInMaze(d, nx, ny);
      StepPoint(d, x, y, dir);
    }
  }

  lemma InGridIff(d: Dims, x: int, y: int, dir: Direction, nx: int, ny: int)
    requires OddPoint(d, x, y) && TwoAway(x, y, dir, nx, ny)
    ensures InGrid(d, x, y, dir) <==> OddPoint(d, nx, ny)
    ensures nx == StepX(x, dir) && ny == StepY(y, dir)
  {}

  // The draws that select a direction are those of its share.
  lemma WholeShare(d: Dims, m: Grid, x: int, y: int, pref: Direction, dir: Direction)
    requires d.Legal() && OddPoint(d, x, y)
    ensures var total := WeightBefore(d, m, x, y, pref, 4);
      total > 0 && CountDraws(d, m, x, y, pref, dir, total) == Weight(d, m, x, y, pref, dir)
  {
    SomeWeight(d, m, x, y, pref);
    WeightsGrow(d, m, x, y, pref, 0, dir);
    WeightsGrow(d, m, x, y, pref, dir, dir + 1);
    WeightsGrow(d, m, x, y, pref, dir + 1, 4);
    hide OddPoint, Weight, CountDraws;
    ShareOf(d, m, x, y, pref, dir, WeightBefore(d, m, x, y, pref, 4));
  }

  lemma {:induction false} ShareOf(d: Dims, m: Grid, x: int, y: int, pref: Direction, dir: Direction, n: nat)
    requires d.Legal() && OddPoint(d, x, y) && n <= WeightBefore(d, m, x, y, pref, 4)
    requires 0 <= WeightBefore(d, m, x, y, pref, dir) <= WeightBefore(d, m, x, y, pref, dir + 1)
    ensures var lo, hi := WeightBefore(d, m, x, y, pref, dir), WeightBefore(d, m, x, y, pref, dir + 1);
      CountDraws(d, m, x, y, pref, dir, n) == if n < lo then 0 else if n < hi then n - lo else hi - lo
  {
    hide OddPoint, WeightBefore, Chosen;
    if n > 0 {
      ShareOf(d, m, x, y, pref, dir, n - 1);
      ChosenIff(d, m, x, y, pref, dir, n - 1);
    }
  }

  lemma ChosenIff(d: Dims, m: Grid, x: int, y: int, pref: Direction, dir: Direction, draw: nat)
    requires d.Legal() && OddPoint(d, x, y) && draw < WeightBefore(d, m, x, y, pref, 4)
    ensures Chosen(d, m, x, y, pref, draw) == dir
      <==> WeightBefore(d, m, x, y, pref, dir) <= draw < WeightBefore(d, m, x, y, pref, dir + 1)
  {
    assert WeightBefore(d, m, x, y, pref, 0) == 0;
    Below(draw, WeightBefore(d, m, x, y, pref, 4));
    hide OddPoint, WeightBefore, Pick;
    PickIs(d, m, x, y, pref, draw, 0);
    if WeightBefore(d, m, x, y, pref, dir) <= draw < WeightBefore(d, m, x, y, pref, dir + 1) {
      PickUnique(d, m, x, y, pref, draw, dir, Chosen(d, m, x, y, pref, draw));
    }
  }
}
