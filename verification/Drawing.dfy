// How the image of the map changes when one cell of the maze does.
module Drawing {
  import opened Lattice
  import opened MazeGraph
  import opened MazeShape
  import opened MazeReady
  import opened MazeJoin
  import opened Pixels
  import opened MazeImage
  import opened Motion

  // The squares uncovered from a square, by distance.
  predicate Around(dx: int, dy: int) {
    (-1 <= dx <= 1 && -1 <= dy <= 1) || (dx == 0 && (dy == 2 || dy == -2)) || (dy == 0 && (dx == 2 || dx == -2))
  }

  predicate OverPoint(x: int, y: int, px: int, py: int) {
    InBlock(x * BLOCK_X_DIM, y * BLOCK_Y_DIM, px, py)
  }

  function PointPixel(blocks: Pictures, d: Dims, m: Grid, n: int, x: int, y: int, px: int, py: int): bv8
    requires d.Legal() && OnMap(d, x, y) && OverPoint(x, y, px, py)
  {
    blocks[FindBlock(d, m, n, x, y)][BlockIndex(x * BLOCK_X_DIM, y * BLOCK_Y_DIM, px, py)]
  }

  lemma PointImage(blocks: Pictures, d: Dims, m: Grid, n: int, x: int, y: int, px: int, py: int)
    requires d.Legal() && OnMap(d, x, y) && MapPixel(d, px, py)
    ensures OverPoint(x, y, px, py) <==> x == px / BLOCK_X_DIM && y == py / BLOCK_Y_DIM
    ensures OverPoint(x, y, px, py) ==> PointPixel(blocks, d, m, n, x, y, px, py) == ImageAt(blocks, d, m, n, px, py)
  {
    hide FindBlock;
  }

  // Redrawing the unveiled point is enough, because its alias is out of sight.
  lemma UnveilImage(blocks: Pictures, d: Dims, m: Grid, n: int, x: int, y: int, mapX: int, px: int, py: int)
    requires d.Legal() && OnMap(d, x, y) && MapPixel(d, px, py) && InMaze(d, x, y)
    requires AliasHidden(d, mapX, x) && mapX <= px < mapX + SCROLL_X_DIM
    ensures var m' := m[Idx(d, x, y) := m[Idx(d, x, y)].(reach := true)];
      ImageAt(blocks, d, m', n, px, py) ==
        if OverPoint(x, y, px, py) then PointPixel(blocks, d, m', n, x, y, px, py) else ImageAt(blocks, d, m, n, px, py)
  {
    var k := Idx(d, x, y);
    var m' := m[k := m[k].(reach := true)];
    PointImage(blocks, d, m', n, x, y, px, py);
    var a, b := px / BLOCK_X_DIM, py / BLOCK_Y_DIM;
    hide FindBlock, Idx;
    if a != x || b != y {
      if Idx(d, a, b) == k { MapAlias(d, x, y, a, b); }
      UnveilChanges(d, m, n, k, a, b);
    }
  }

  lemma ExitOnMap(d: Dims, m: Grid, ex: int, ey: int)
    requires d.Legal() && OneExit(d, m, ex, ey)
    ensures OnMap(d, ex, ey)
  {}

  // A node has no alias.
  lemma NodeUnique(d: Dims, x: int, y: int, a: int, b: int)
    requires d.Legal() && OddPoint(d, x, y) && OnMap(d, a, b) && Idx(d, a, b) == Idx(d, x, y)
    ensures a == x && b == y
  {
    MapAlias(d, x, y, a, b);
  }

  // Redrawing the point where a fruit was eaten, and the exit when it was the
  // last, is enough.
  lemma EatImage(blocks: Pictures, d: Dims, m: Grid, n: int, x: int, y: int, ex: int, ey: int, px: int, py: int)
    requires d.Legal() && 0 <= x < d.W() && 0 <= y < 2 * d.y && InMaze(d, x, y) && MapPixel(d, px, py)
    requires FruitCount(d, m, n) && OneExit(d, m, ex, ey) && m[Idx(d, x, y)].fruit != 0
    ensures var m' := m[Idx(d, x, y) := m[Idx(d, x, y)].(fruit := 0)];
      ImageAt(blocks, d, m', n - 1, px, py) ==
        if OverPoint(x, y, px, py) then PointPixel(blocks, d, m', n - 1, x, y, px, py)
        else if n - 1 == 0 && OverPoint(ex, ey, px, py) then PointPixel(blocks, d, m', n - 1, ex, ey, px, py)
        else ImageAt(blocks, d, m, n, px, py)
  {
    var k := Idx(d, x, y);
    var m' := m[k := m[k].(fruit := 0)];
    EatFruitCounts(d, m, n, k);
    assert OddPoint(d, x, y) by {
      assert k in Fruited(m);
      InLatSet(d, k);
      IsLatAt(d, x, y);
    }
    PointImage(blocks, d, m', n - 1, x, y, px, py);
    PointImage(blocks, d, m', n - 1, ex, ey, px, py);
    var a, b := px / BLOCK_X_DIM, py / BLOCK_Y_DIM;
    hide FindBlock, Idx, FruitCount;
    if (a != x || b != y) && !(n - 1 == 0 && a == ex && b == ey) {
      if Idx(d, a, b) == k { NodeUnique(d, x, y, a, b); }
      if Idx(d, a, b) == Idx(d, ex, ey) { NodeUnique(d, ex, ey, a, b); }
      FruitChanges(d, m, n, n - 1, k, 0, ex, ey, a, b);
    }
  }

  // The maze with the player over it: the picture of the last direction of motion,
  // where its mask says so.
  function SceneAt(blocks: Pictures, d: Dims, m: Grid, n: int, s: Motion, px: int, py: int): bv8
    requires d.Legal() && MapPixel(d, px, py)
  {
    if InBlock(s.playX, s.playY, px, py)
      && blocks[BLOCK_PLAYER_MASK_UP + s.lastDir][BlockIndex(s.playX, s.playY, px, py)] == 1
    then blocks[BLOCK_PLAYER_UP + s.lastDir][BlockIndex(s.playX, s.playY, px, py)]
    else ImageAt(blocks, d, m, n, px, py)
  }

  lemma ExitOpen(d: Dims, m: Grid, ex: int, ey: int)
    requires d.Legal() && WellConnected(d, m) && OneExit(d, m, ex, ey)
    ensures OpenPoint(d, m, ex, ey)
  {
    OddInMaze(d, ex, ey);
  }

  // A player at a square with the exit bit stands at the exit.
  lemma AtExit(d: Dims, m: Grid, ex: int, ey: int, s: Motion)
    requires d.Legal() && OneExit(d, m, ex, ey) && MotionInv(d, m, s) && s.moveCnt == 0
    requires var x, y := s.playX / BLOCK_X_DIM, s.playY / BLOCK_Y_DIM; InMaze(d, x, y) ==> m[Idx(d, x, y)].exit
    ensures s.playX == ex * BLOCK_X_DIM && s.playY == ey * BLOCK_Y_DIM
  {
    var x, y := s.playX / BLOCK_X_DIM, s.playY / BLOCK_Y_DIM;
    AtSquare(d, m, s);
    hide Idx, WindowInv;
    NodeUnique(d, ex, ey, x, y);
  }

  // ----- what is uncovered -----

  // The cells of the points of the map around (x,y).
  ghost function AroundCells(d: Dims, x: int, y: int): set<int> {
    set a, b | x - 2 <= a <= x + 2 && y - 2 <= b <= y + 2 && Around(a - x, b - y) && OnMap(d, a, b) :: Idx(d, a, b)
  }

  // The cell of a point, when it is on the map.
  ghost function CellOf(d: Dims, x: int, y: int): set<int> { if OnMap(d, x, y) then {Idx(d, x, y)} else {} }

  // Those of the three by three points around (x,y) that the loops have passed
  // before they come to (x + i, y + j).
  ghost function Passed(d: Dims, x: int, y: int, i: int, j: int): set<int> {
    set a, b |
      && x - 1 <= a <= x + 1 && y - 1 <= b <= y + 1 && (a - x < i || (a - x == i && b - y < j))
      && OnMap(d, a, b) :: Idx(d, a, b)
  }

  lemma PassedStart(d: Dims, x: int, y: int)
    ensures Passed(d, x, y, -1, -1) == {}
  {}

  lemma PassedStep(d: Dims, x: int, y: int, i: int, j: int)
    requires -1 <= i <= 1 && -1 <= j <= 1
    ensures Passed(d, x, y, i, j + 1) == Passed(d, x, y, i, j) + CellOf(d, x + i, y + j)
  {}

  lemma PassedRow(d: Dims, x: int, y: int, i: int)
    ensures Passed(d, x, y, i, 2) == Passed(d, x, y, i + 1, -1)
  {}

  lemma PassedAll(d: Dims, x: int, y: int)
    ensures AroundCells(d, x, y) ==
      Passed(d, x, y, 2, -1) + CellOf(d, x, y - 2) + CellOf(d, x + 2, y) + CellOf(d, x, y + 2) + CellOf(d, x - 2, y)
  {}

  lemma MarkMore(m: Grid, s: set<int>, t: set<int>)
    ensures MarkAll(MarkAll(m, s), t) == MarkAll(m, s + t)
  {}

  lemma MarkSingle(m: Grid, k: int)
    requires 0 <= k < MAZE_SIZE
    ensures MarkAll(m, {k}) == m[k := m[k].(reach := true)] && (m[k].reach ==> MarkAll(m, {k}) == m)
    ensures MarkAll(m, {}) == m
  {
    assert MarkAll(m, {}) == m;
    assert MarkAll(m, {k}) == m[k := m[k].(reach := true)];
  }

  lemma MarkUncovers(m: Grid, s: set<int>)
    ensures Uncovers(m, MarkAll(m, s)) && MarkAll(m, {}) == m
  {
    assert MarkAll(m, {}) == m;
  }

  // A square that has been passed by is uncovered, and its fruit eaten.
  ghost function Visited(d: Dims, m: Grid, x: int, y: int): Grid {
    MarkAll(Eaten(d, m, x, y), AroundCells(d, x, y))
  }

  ghost function Eaten(d: Dims, m: Grid, x: int, y: int): Grid {
    if InMaze(d, x, y) then m[Idx(d, x, y) := m[Idx(d, x, y)].(fruit := 0)] else m
  }

  // ----- the boundary that is drawn only once -----

  predicate PointVisible(d: Dims, mapX: int, mapY: int, a: int, b: int) {
    && OnMap(d, a, b)
    && a * BLOCK_X_DIM + BLOCK_X_DIM > mapX && a * BLOCK_X_DIM < mapX + SCROLL_X_DIM
    && b * BLOCK_Y_DIM + BLOCK_Y_DIM > mapY && b * BLOCK_Y_DIM < mapY + SCROLL_Y_DIM
  }

  // The point on the other side that shares its cell with (x,y) is in view.
  predicate AliasVisible(d: Dims, mapX: int, mapY: int, x: int, y: int) {
    (x == 0 && PointVisible(d, mapX, mapY, d.W(), y - 1)) || (x == d.W() && PointVisible(d, mapX, mapY, 0, y + 1))
  }

  // No view shows both boundaries, for any maze that can be made.
  lemma BoundariesApart(d: Dims, mapX: int, mapY: int, b: int, b': int)
    requires d.Legal()
    ensures !(PointVisible(d, mapX, mapY, 0, b) && PointVisible(d, mapX, mapY, d.W(), b'))
  {}

  // unveil_space draws one of the two places that show a boundary cell.  The rest
  // of the view stays right, whatever the pictures are, exactly when the other
  // place is out of view.
  lemma UnveilStaysRightIff(d: Dims, m: Grid, n: int, x: int, y: int, mapX: int, mapY: int)
    requires d.Legal() && OnMap(d, x, y) && InMaze(d, x, y) && WindowRange(d, mapX, mapY)
    requires !m[Idx(d, x, y)].reach && !m[Idx(d, x, y)].exit
    ensures
      (forall blocks, px, py :: InWindow(mapX, mapY, px, py) && !OverPoint(x, y, px, py) ==>
        SameImage(blocks, d, m, n, x, y, px, py))
      <==> !AliasVisible(d, mapX, mapY, x, y)
  {
    if AliasVisible(d, mapX, mapY, x, y) {
      UnveilGoesWrong(d, m, n, x, y, mapX, mapY);
    } else {
      hide FindBlock, Idx;
      forall blocks, px, py | InWindow(mapX, mapY, px, py) && !OverPoint(x, y, px, py)
        ensures SameImage(blocks, d, m, n, x, y, px, py)
      {
        WindowOnMap(d, mapX, mapY, px, py);
        var a, b := px / BLOCK_X_DIM, py / BLOCK_Y_DIM;
        if Idx(d, a, b) == Idx(d, x, y) { MapAlias(d, x, y, a, b); }
        UnveilChanges(d, m, n, Idx(d, x, y), a, b);
      }
    }
  }

  // Unveiling (x,y) does not change the colour of the pixel.
  ghost predicate SameImage(blocks: Pictures, d: Dims, m: Grid, n: int, x: int, y: int, px: int, py: int)
    requires d.Legal() && InMaze(d, x, y)
  {
    var m' := m[Idx(d, x, y) := m[Idx(d, x, y)].(reach := true)];
    MapPixel(d, px, py) && ImageAt(blocks, d, m', n, px, py) == ImageAt(blocks, d, m, n, px, py)
  }

  const WHITE: Picture := seq(BLOCK_X_DIM * BLOCK_Y_DIM, _ => 1)

  lemma UnveilGoesWrong(d: Dims, m: Grid, n: int, x: int, y: int, mapX: int, mapY: int)
    requires d.Legal() && OnMap(d, x, y) && InMaze(d, x, y) && WindowRange(d, mapX, mapY)
    requires !m[Idx(d, x, y)].reach && !m[Idx(d, x, y)].exit && AliasVisible(d, mapX, mapY, x, y)
    ensures exists blocks, px, py ::
      InWindow(mapX, mapY, px, py) && !OverPoint(x, y, px, py) && !SameImage(blocks, d, m, n, x, y, px, py)
  {
    var a, b := if x == 0 then d.W() else 0, if x == 0 then y - 1 else y + 1;
    IdxWrap(d, 0, if x == 0 then b else y);
    var k := Idx(d, x, y);
    assert Idx(d, a, b) == k;
    var px := if a * BLOCK_X_DIM < mapX then mapX else a * BLOCK_X_DIM;
    var py := if b * BLOCK_Y_DIM < mapY then mapY else b * BLOCK_Y_DIM;
    assert px / BLOCK_X_DIM == a && py / BLOCK_Y_DIM == b;
    hide Idx;
    OnMapBounds(d, a, b);
    var before := FindBlock(d, m, n, a, b);
    var blocks: Pictures := seq(NUM_BLOCKS, i => if i == before then WHITE else BLANK);
    var after := FindBlock(d, m[k := m[k].(reach := true)], n, a, b);
    assert after != before;
    hide FindBlock;
    assert blocks[before] == WHITE && blocks[after] == BLANK;
    assert InWindow(mapX, mapY, px, py) && !OverPoint(x, y, px, py) && !SameImage(blocks, d, m, n, x, y, px, py);
  }

  // For instance, in a maze of the smallest size, column 0 with the window moved so
  // far to the right that the right boundary is in view.
  lemma AliasInView()
    ensures var d := Dims(MAZE_MIN_X_DIM, MAZE_MIN_Y_DIM);
      d.Legal() && WindowRange(d, MaxMapX(d), SHOW_MIN) && AliasVisible(d, MaxMapX(d), SHOW_MIN, 0, 5)
  {}
}
