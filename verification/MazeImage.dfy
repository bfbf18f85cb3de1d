// What the maze looks like: the picture of every lattice point and the colour of
// every pixel (find_block and the line fillers of maze.c).
module MazeImage {
  import opened MazeCell
  import opened Lattice
  import opened MazeGraph
  import opened MazeShape
  import opened MazeReady
  import opened Pixels

  // Block pictures, in the order of blocks.h.
  const BLOCK_EMPTY := 16
  const BLOCK_SHADOW := 17
  const BLOCK_PLAYER_UP := 18
  const BLOCK_PLAYER_MASK_UP := 22
  const BLOCK_FRUIT_1 := 26
  const BLOCK_FRUIT_SHADOW := 33
  const BLOCK_EXIT := 34
  const NUM_BLOCKS := 35

  const BLANK: Picture := seq(BLOCK_X_DIM * BLOCK_Y_DIM, _ => 0)

  type Pictures = b: seq<Picture> | |b| == NUM_BLOCKS witness seq(NUM_BLOCKS, _ => BLANK)

  // The lattice points that have a picture, the right and bottom boundaries
  // included.
  predicate OnMap(d: Dims, x: int, y: int) {
    0 <= x <= d.W() && 0 <= y <= 2 * d.y
  }

  // A pixel of the map.
  predicate MapPixel(d: Dims, px: int, py: int) {
    0 <= px && 0 <= py && OnMap(d, px / BLOCK_X_DIM, py / BLOCK_Y_DIM)
  }

  lemma OnMapBounds(d: Dims, x: int, y: int)
    requires d.Legal() && OnMap(d, x, y)
    ensures InMaze(d, x, y) && InMaze(d, x, y - 1) && InMaze(d, x, y + 1) && InMaze(d, x + 1, y) && InMaze(d, x - 1, y)
  {
    IdxBounds(d, x, y);
    IdxBounds(d, x, y - 1);
    IdxBounds(d, x, y + 1);
    IdxBounds(d, x + 1, y);
    IdxBounds(d, x - 1, y);
  }

  function Bit(b: bool, v: int): int { if b then v else 0 }

  // find_block
  function FindBlock(d: Dims, m: Grid, nFruits: int, x: int, y: int): (b: int)
    requires d.Legal() && OnMap(d, x, y)
    ensures 0 <= b < NUM_BLOCKS
  {
    OnMapBounds(d, x, y);
    var cell := m[Idx(d, x, y)];
    if nFruits == 0 && cell.exit then BLOCK_EXIT
    else if !cell.reach then (if cell.fruit != 0 then BLOCK_FRUIT_SHADOW else BLOCK_SHADOW)
    else if cell.fruit != 0 then BLOCK_FRUIT_1 + cell.fruit as int - 1
    else if !cell.wall then BLOCK_EMPTY
    else
      Bit(m[Idx(d, x, y - 1)].wall, 1) + Bit(m[Idx(d, x + 1, y)].wall, 2)
      + Bit(m[Idx(d, x, y + 1)].wall, 4) + Bit(m[Idx(d, x - 1, y)].wall, 8)
  }

  // The names of the wall pictures in blocks.h: the sides on which they connect.
  const WALLS: seq<string> :=
    ["", "U", "R", "UR", "D", "UD", "RD", "URD", "L", "UL", "RL", "URL", "DL", "UDL", "RDL", "URDL"]

  // What can be read off a picture: the exit, mist over fruit or not, a fruit and
  // its number, an empty space, or a wall that connects to the walls beside it.
  lemma PictureTells(d: Dims, m: Grid, nFruits: int, x: int, y: int)
    requires d.Legal() && OnMap(d, x, y) && InMaze(d, x, y)
    ensures var b, cell := FindBlock(d, m, nFruits, x, y), m[Idx(d, x, y)];
      && (b == BLOCK_EXIT <==> nFruits == 0 && cell.exit)
      && (b in {BLOCK_SHADOW, BLOCK_FRUIT_SHADOW} <==> b != BLOCK_EXIT && !cell.reach)
      && (b == BLOCK_FRUIT_SHADOW || BLOCK_FRUIT_1 <= b < BLOCK_FRUIT_SHADOW <==> b != BLOCK_EXIT && cell.fruit != 0)
      && (BLOCK_FRUIT_1 <= b < BLOCK_FRUIT_SHADOW ==> cell.fruit as int == b - BLOCK_FRUIT_1 + 1)
      && (b == BLOCK_EMPTY || b < |WALLS| <==> b != BLOCK_EXIT && cell.reach && cell.fruit == 0)
      && (b == BLOCK_EMPTY ==> !cell.wall) && (b < |WALLS| ==> cell.wall)
    ensures var b := FindBlock(d, m, nFruits, x, y);
      b < |WALLS| ==>
        && InMaze(d, x, y - 1) && InMaze(d, x + 1, y) && InMaze(d, x, y + 1) && InMaze(d, x - 1, y)
        && ('U' in WALLS[b] <==> m[Idx(d, x, y - 1)].wall) && ('R' in WALLS[b] <==> m[Idx(d, x + 1, y)].wall)
        && ('D' in WALLS[b] <==> m[Idx(d, x, y + 1)].wall) && ('L' in WALLS[b] <==> m[Idx(d, x - 1, y)].wall)
  {
    OnMapBounds(d, x, y);
    hide Idx;
  }

  // The two places of a boundary cell show the same picture.
  lemma AliasSamePicture(d: Dims, m: Grid, nFruits: int, y: int)
    requires d.Legal() && 0 <= y < 2 * d.y
    ensures FindBlock(d, m, nFruits, d.W(), y) == FindBlock(d, m, nFruits, 0, y + 1)
  {
    OnMapBounds(d, d.W(), y);
    OnMapBounds(d, 0, y + 1);
    IdxWrap(d, 0, y - 1);
    IdxWrap(d, 0, y);
    IdxWrap(d, 0, y + 1);
    hide RowStart;
  }

  // The colour of a pixel of the map.
  function ImageAt(blocks: Pictures, d: Dims, m: Grid, nFruits: int, px: int, py: int): bv8
    requires d.Legal() && MapPixel(d, px, py)
  {
    var block := blocks[FindBlock(d, m, nFruits, px / BLOCK_X_DIM, py / BLOCK_Y_DIM)];
    block[(py % BLOCK_Y_DIM) * BLOCK_X_DIM + px % BLOCK_X_DIM]
  }

  // Column 0 of one row is column W of the row above; otherwise every lattice
  // point of the map has its own cell.
  lemma MapAlias(d: Dims, x: int, y: int, a: int, b: int)
    requires d.Legal() && OnMap(d, x, y) && OnMap(d, a, b) && Idx(d, x, y) == Idx(d, a, b)
    ensures (a == x && b == y) || (a == 0 && x == d.W() && b == y + 1) || (a == d.W() && x == 0 && b == y - 1)
  {
    if x == d.W() { IdxWrap(d, 0, y); }
    if a == d.W() { IdxWrap(d, 0, b); }
    var x', y' := if x == d.W() then 0 else x, if x == d.W() then y + 1 else y;
    var a', b' := if a == d.W() then 0 else a, if a == d.W() then b + 1 else b;
    IdxUnique(d, x', y', a', b');
  }

  // Unveiling a cell changes the picture of that cell alone.
  lemma UnveilChanges(d: Dims, m: Grid, nFruits: int, k: int, a: int, b: int)
    requires d.Legal() && OnMap(d, a, b) && 0 <= k < MAZE_SIZE && Idx(d, a, b) != k
    ensures FindBlock(d, m[k := m[k].(reach := true)], nFruits, a, b) == FindBlock(d, m, nFruits, a, b)
  {
    OnMapBounds(d, a, b);
  }

  // Changing the fruit at a cell, and the number of fruits, changes the picture
  // of that cell, and of the exit when the number leaves or reaches zero.
  lemma FruitChanges(d: Dims, m: Grid, n: int, n': int, k: int, f: Fruit, ex: int, ey: int, a: int, b: int)
    requires d.Legal() && OnMap(d, a, b) && 0 <= k < MAZE_SIZE && OneExit(d, m, ex, ey) && Idx(d, a, b) != k
    requires (n == 0 <==> n' == 0) || Idx(d, a, b) != Idx(d, ex, ey)
    ensures FindBlock(d, m[k := m[k].(fruit := f)], n', a, b) == FindBlock(d, m, n, a, b)
  {
    OnMapBounds(d, a, b);
  }

  // Pixel (i,j) of the picture of a point.
  lemma PixelOf(blocks: Pictures, d: Dims, m: Grid, nFruits: int, a: int, b: int, i: int, j: int)
    requires d.Legal() && OnMap(d, a, b) && 0 <= i < BLOCK_X_DIM && 0 <= j < BLOCK_Y_DIM
    ensures var px, py := a * BLOCK_X_DIM + i, b * BLOCK_Y_DIM + j;
      && MapPixel(d, px, py)
      && ImageAt(blocks, d, m, nFruits, px, py) == blocks[FindBlock(d, m, nFruits, a, b)][j * BLOCK_X_DIM + i]
  {
    var px, py := a * BLOCK_X_DIM + i, b * BLOCK_Y_DIM + j;
    assert px / BLOCK_X_DIM == a && px % BLOCK_X_DIM == i && py / BLOCK_Y_DIM == b && py % BLOCK_Y_DIM == j;
    hide FindBlock;
  }

  // A pixel as a point and a place in its picture.
  lemma PointOf(d: Dims, px: int, py: int)
    requires MapPixel(d, px, py)
    ensures var a, b := px / BLOCK_X_DIM, py / BLOCK_Y_DIM;
      && OnMap(d, a, b) && 0 <= px - a * BLOCK_X_DIM < BLOCK_X_DIM && 0 <= py - b * BLOCK_Y_DIM < BLOCK_Y_DIM
  {}

  // Between two pixels of a row or a column of the map all are pixels of the map.
  lemma LineOnMap(d: Dims, x: int, y: int, w: int, h: int)
    requires MapPixel(d, x, y) && MapPixel(d, x + w, y + h) && 0 <= w && 0 <= h
    ensures forall px, py :: x <= px <= x + w && y <= py <= y + h ==> MapPixel(d, px, py)
  {}

  // fill_horiz_buffer
  method FillHorizBuffer(
      blocks: Pictures, d: Dims, cells: array<Cell>, nFruits: int, x: int, y: int, buf: array<bv8>)
    requires d.Legal() && cells.Length == MAZE_SIZE && buf.Length == SCROLL_X_DIM
    requires MapPixel(d, x, y) && MapPixel(d, x + SCROLL_X_DIM - 1, y)
    modifies buf
    ensures forall px :: x <= px < x + SCROLL_X_DIM ==> MapPixel(d, px, y)
    ensures forall px :: x <= px < x + SCROLL_X_DIM ==> buf[px - x] == ImageAt(blocks, d, cells[..], nFruits, px, y)
  {
    hide FindBlock, Idx, MapPixel, ImageAt, OnMap;
    LineOnMap(d, x, y, SCROLL_X_DIM - 1, 0);
    var mapX, mapY := x / BLOCK_X_DIM, y / BLOCK_Y_DIM;
    var subX, subY := x - mapX * BLOCK_X_DIM, y - mapY * BLOCK_Y_DIM;
    PointOf(d, x, y);
    var idx := 0;
    while idx < SCROLL_X_DIM
      invariant 0 <= idx <= SCROLL_X_DIM && 0 <= subX
      invariant idx < SCROLL_X_DIM ==> subX < BLOCK_X_DIM && mapX * BLOCK_X_DIM + subX == x + idx
      invariant forall px :: x <= px < x + idx ==> buf[px - x] == ImageAt(blocks, d, cells[..], nFruits, px, y)
    {
      PointOf(d, x + idx, y);
      assert (x + idx) / BLOCK_X_DIM == mapX;
      var block := blocks[FindBlock(d, cells[..], nFruits, mapX, mapY)];
      var p := subY * BLOCK_X_DIM + subX;
      ghost var lattice := mapX;
      mapX := mapX + 1;
      while idx < SCROLL_X_DIM && subX < BLOCK_X_DIM
        invariant 0 <= idx <= SCROLL_X_DIM && 0 <= subX <= BLOCK_X_DIM
        invariant lattice * BLOCK_X_DIM + subX == x + idx && p == subY * BLOCK_X_DIM + subX
        invariant forall px :: x <= px < x + idx ==> buf[px - x] == ImageAt(blocks, d, cells[..], nFruits, px, y)
        decreases BLOCK_X_DIM - subX
      {
        PixelOf(blocks, d, cells[..], nFruits, lattice, mapY, subX, subY);
        buf[idx] := block[p];
        p := p + 1;
        idx := idx + 1;
        subX := subX + 1;
      }
      subX := 0;
    }
  }

  // fill_vert_buffer
  method FillVertBuffer(
      blocks: Pictures, d: Dims, cells: array<Cell>, nFruits: int, x: int, y: int, buf: array<bv8>)
    requires d.Legal() && cells.Length == MAZE_SIZE && buf.Length == SCROLL_Y_DIM
    requires MapPixel(d, x, y) && MapPixel(d, x, y + SCROLL_Y_DIM - 1)
    modifies buf
    ensures forall py :: y <= py < y + SCROLL_Y_DIM ==> MapPixel(d, x, py)
    ensures forall py :: y <= py < y + SCROLL_Y_DIM ==> buf[py - y] == ImageAt(blocks, d, cells[..], nFruits, x, py)
  {
    hide FindBlock, Idx, MapPixel, ImageAt, OnMap;
    LineOnMap(d, x, y, 0, SCROLL_Y_DIM - 1);
    var mapX, mapY := x / BLOCK_X_DIM, y / BLOCK_Y_DIM;
    var subX, subY := x - mapX * BLOCK_X_DIM, y - mapY * BLOCK_Y_DIM;
    PointOf(d, x, y);
    var idx := 0;
    while idx < SCROLL_Y_DIM
      invariant 0 <= idx <= SCROLL_Y_DIM && 0 <= subY
      invariant idx < SCROLL_Y_DIM ==> subY < BLOCK_Y_DIM && mapY * BLOCK_Y_DIM + subY == y + idx
      invariant forall py :: y <= py < y + idx ==> buf[py - y] == ImageAt(blocks, d, cells[..], nFruits, x, py)
    {
      PointOf(d, x, y + idx);
      assert (y + idx) / BLOCK_Y_DIM == mapY;
      var block := blocks[FindBlock(d, cells[..], nFruits, mapX, mapY)];
      var p := subY * BLOCK_X_DIM + subX;
      ghost var lattice := mapY;
      mapY := mapY + 1;
      while idx < SCROLL_Y_DIM && subY < BLOCK_Y_DIM
        invariant 0 <= idx <= SCROLL_Y_DIM && 0 <= subY <= BLOCK_Y_DIM
        invariant lattice * BLOCK_Y_DIM + subY == y + idx && p == subY * BLOCK_X_DIM + subX
        invariant forall py :: y <= py < y + idx ==> buf[py - y] == ImageAt(blocks, d, cells[..], nFruits, x, py)
        decreases BLOCK_Y_DIM - subY
      {
        PixelOf(blocks, d, cells[..], nFruits, mapX, lattice, subX, subY);
        buf[idx] := block[p];
        idx := idx + 1;
        subY := subY + 1;
        p := p + BLOCK_X_DIM;
      }
      subY := 0;
    }
  }
}
