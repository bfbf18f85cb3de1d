// The maze as a graph on array indices (maze.c).  The maze is a one-dimensional
// byte array in which row b starts at (b + 1) * 2 * x_dim; its (odd,odd) points
// are the nodes, and two of them that are two columns or two rows apart are
// joined when the cell between them is not a wall.
module Lattice {

  const MAZE_MIN_X_DIM := (320 + (12 - 1) + 2 * 6) / (2 * 12)
  const MAZE_MAX_X_DIM := 50
  const MAZE_MIN_Y_DIM := (182 + (12 - 1) + 2 * 6) / (2 * 12)
  const MAZE_MAX_Y_DIM := 30
  const MAZE_SIZE := 2 * MAZE_MAX_X_DIM * (2 * MAZE_MAX_Y_DIM + 3) + 1

  datatype Dims = Dims(x: int, y: int) {
    predicate Legal() {
      MAZE_MIN_X_DIM <= x <= MAZE_MAX_X_DIM && MAZE_MIN_Y_DIM <= y <= MAZE_MAX_Y_DIM
    }

    // The distance in memory between vertical neighbours.
    function W(): int { 2 * x }
  }

  // Where row b of the maze starts: (b + 1) * 2 * x_dim, counted up row by row.
  function RowStart(d: Dims, b: int): int
    decreases if b < -1 then -1 - b else b + 1
  {
    if b == -1 then 0
    else if b >= 0 then RowStart(d, b - 1) + d.W()
    else RowStart(d, b + 1) - d.W()
  }

  // MAZE_INDEX
  function Idx(d: Dims, a: int, b: int): int {
    a + RowStart(d, b)
  }

  predicate OddPoint(d: Dims, x: int, y: int) {
    1 <= x < d.W() && 1 <= y < 2 * d.y && x % 2 == 1 && y % 2 == 1
  }

  // k is the index of a node.
  ghost predicate IsLat(d: Dims, k: int) {
    exists x, y :: OddPoint(d, x, y) && k == Idx(d, x, y)
  }

  // ----- index arithmetic -----

  // The index is the one the macro of maze.c computes.
  lemma {:induction false} IdxIsMacro(d: Dims, a: int, b: int)
    ensures Idx(d, a, b) == a + (b + 1) * d.x * 2
    decreases if b < -1 then -1 - b else b + 1
  {
    if b >= 0 {
      IdxIsMacro(d, a, b - 1);
    } else if b < -1 {
      IdxIsMacro(d, a, b + 1);
    }
  }

  lemma {:induction false} RowOrder(d: Dims, b: int, b': int)
    requires d.Legal() && -2 <= b < b'
    ensures RowStart(d, b) + d.W() <= RowStart(d, b')
    ensures RowStart(d, b') <= RowStart(d, b) + 100 * (b' - b)
    decreases b' - b
  {
    if b + 1 < b' { RowOrder(d, b, b' - 1); }
  }

  lemma IdxBounds(d: Dims, x: int, y: int)
    requires d.Legal() && -1 <= x <= d.W() + 1 && -1 <= y <= 2 * d.y + 1 && (y == -1 ==> x >= 0)
    requires y == 2 * d.y + 1 ==> x <= d.W()
    ensures 0 <= Idx(d, x, y) < MAZE_SIZE
  {
    assert RowStart(d, -1) == 0;
    if y > -1 { RowOrder(d, -1, y); }
    hide RowStart;
    assert RowStart(d, y) <= 100 * (y + 1) && (y > -1 ==> 2 <= d.W() <= RowStart(d, y));
    assert y <= 61 && x <= d.W() + 1 <= 101 && (y == 61 ==> x <= 100);
    hide Dims.Legal;
  }

  lemma IdxStep(d: Dims, x: int, y: int)
    ensures Idx(d, x, y - 1) == Idx(d, x, y) - d.W() && Idx(d, x, y + 1) == Idx(d, x, y) + d.W()
    ensures Idx(d, x, y - 2) == Idx(d, x, y) - 2 * d.W() && Idx(d, x, y + 2) == Idx(d, x, y) + 2 * d.W()
  {
    assert RowStart(d, y - 1) == RowStart(d, y - 2) + d.W();
    assert RowStart(d, y) == RowStart(d, y - 1) + d.W();
    assert RowStart(d, y + 1) == RowStart(d, y) + d.W();
    assert RowStart(d, y + 2) == RowStart(d, y + 1) + d.W();
  }

  // Column W of a row is column 0 of the next: the left and right boundaries
  // of the maze are the same bytes, one row apart.
  lemma IdxWrap(d: Dims, x: int, y: int)
    ensures Idx(d, x + d.W(), y) == Idx(d, x, y + 1)
  {
    IdxStep(d, x, y);
  }

  lemma IdxUnique(d: Dims, x: int, y: int, x': int, y': int)
    requires d.Legal() && 0 <= x < d.W() && 0 <= x' < d.W() && -2 <= y && -2 <= y'
    requires Idx(d, x, y) == Idx(d, x', y')
    ensures x == x' && y == y'
  {
    if y < y' { RowOrder(d, y, y'); }
    if y' < y { RowOrder(d, y', y); }
  }

  lemma IsLatAt(d: Dims, x: int, y: int)
    requires d.Legal() && 0 <= x < d.W() && -2 <= y
    ensures IsLat(d, Idx(d, x, y)) <==> OddPoint(d, x, y)
  {
    if IsLat(d, Idx(d, x, y)) {
      var x', y' :| OddPoint(d, x', y') && Idx(d, x, y) == Idx(d, x', y');
      IdxUnique(d, x, y, x', y');
    }
  }

  // The width is even, so the parity of an index is that of its column.
  lemma {:induction false} IdxParity(d: Dims, x: int, y: int)
    requires y >= -1
    ensures Idx(d, x, y) % 2 == x % 2
  {
    if y > -1 { IdxParity(d, x, y - 1); }
  }

  lemma EvenIsNoNode(d: Dims, h: int)
    ensures !IsLat(d, 2 * h)
  {
    forall x, y | OddPoint(d, x, y) ensures 2 * h != Idx(d, x, y) { IdxParity(d, x, y); }
  }

  lemma LatRight(d: Dims, x: int, y: int)
    requires d.Legal() && OddPoint(d, x, y)
    ensures IsLat(d, Idx(d, x, y) + 2) <==> x < d.W() - 1
  {
    var k := if x < d.W() - 1 then Idx(d, x + 2, y) else Idx(d, 1, y + 1);
    assert k == Idx(d, x, y) + 2 by {
      if x == d.W() - 1 { IdxWrap(d, 1, y); }
    }
    if x < d.W() - 1 { IsLatAt(d, x + 2, y); } else { IsLatAt(d, 1, y + 1); }
  }

  lemma LatLeft(d: Dims, x: int, y: int)
    requires d.Legal() && OddPoint(d, x, y)
    ensures IsLat(d, Idx(d, x, y) - 2) <==> x > 1
  {
    var k := if x > 1 then Idx(d, x - 2, y) else Idx(d, d.W() - 1, y - 1);
    assert k == Idx(d, x, y) - 2 by {
      if x == 1 { IdxWrap(d, -1, y - 1); }
    }
    if x > 1 { IsLatAt(d, x - 2, y); } else { IsLatAt(d, d.W() - 1, y - 1); }
  }

  // The bounds tests of the maze code (x > 1, y > 1, ...) ask exactly whether
  // the node two cells away exists.
  lemma Neighbours(d: Dims, x: int, y: int)
    requires d.Legal() && OddPoint(d, x, y)
    ensures IsLat(d, Idx(d, x, y))
    ensures IsLat(d, Idx(d, x, y) - 2 * d.W()) <==> y > 1
    ensures IsLat(d, Idx(d, x, y) + 2) <==> x < d.W() - 1
    ensures IsLat(d, Idx(d, x, y) + 2 * d.W()) <==> y < 2 * d.y - 1
    ensures IsLat(d, Idx(d, x, y) - 2) <==> x > 1
  {
    LatRight(d, x, y);
    LatLeft(d, x, y);
    IdxStep(d, x, y);
    IsLatAt(d, x, y);
    IsLatAt(d, x, y - 2);
    IsLatAt(d, x, y + 2);
  }

  // Every node is the index of exactly one (odd,odd) point.
  lemma LatPoint(d: Dims, k: int) returns (x: int, y: int)
    requires d.Legal() && IsLat(d, k)
    ensures OddPoint(d, x, y) && Idx(d, x, y) == k
    ensures 0 <= k - 2 * d.W() && k + 2 * d.W() < MAZE_SIZE
  {
    x, y :| OddPoint(d, x, y) && k == Idx(d, x, y);
    IdxBounds(d, x, y - 2);
    IdxBounds(d, x, y + 2);
    IdxStep(d, x, y);
  }
}
