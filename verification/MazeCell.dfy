// The byte kept for every location of the maze (maze.h, maze_bit_t): a bit
// vector of independent properties, modelled as a record.  The lemmas at the
// end tie each bit operation of maze.c to the record operation used in its
// place by the other modules.
module MazeCell {

  const NUM_FRUIT_TYPES := 7

  // The fruit field has three bits; 0 means "no fruit".
  newtype Fruit = f: int | 0 <= f <= 7

  datatype Cell = Cell(wall: bool, fruit: Fruit, exit: bool, reach: bool)

  const WALL := Cell(true, 0, false, false)
  const NONE := Cell(false, 0, false, false)

  const MAZE_WALL: bv8 := 1
  const MAZE_FRUIT_1: bv8 := 2
  const MAZE_FRUIT: bv8 := 14
  const MAZE_EXIT: bv8 := 16
  const MAZE_REACH: bv8 := 128

  function FruitBits(f: Fruit): bv8 {
    match f as int
    case 0 => 0
    case 1 => 2
    case 2 => 4
    case 3 => 6
    case 4 => 8
    case 5 => 10
    case 6 => 12
    case _ => 14
  }

  // The byte that represents a cell.
  function Encode(c: Cell): bv8 {
    (if c.wall then MAZE_WALL else 0) | FruitBits(c.fruit)
    | (if c.exit then MAZE_EXIT else 0) | (if c.reach then MAZE_REACH else 0)
  }

  // Distinct cells are distinct bytes, so comparing whole bytes (as the worm
  // phase does with MAZE_WALL) is comparing records.
  lemma EncodeInjective(a: Cell, b: Cell)
    ensures Encode(a) == Encode(b) <==> a == b
  {
    TestBits(a);
    TestBits(b);
  }

  // Every mask test of maze.c reads the corresponding field.
  lemma TestBits(c: Cell)
    ensures Encode(c) & MAZE_WALL != 0 <==> c.wall
    ensures Encode(c) & MAZE_EXIT != 0 <==> c.exit
    ensures Encode(c) & MAZE_REACH != 0 <==> c.reach
    ensures Encode(c) & MAZE_FRUIT == FruitBits(c.fruit)
    ensures (Encode(c) & MAZE_FRUIT) / MAZE_FRUIT_1 == c.fruit as int as bv8
  {
    FruitCases(c.fruit);
  }

  // Every masked update of maze.c writes the corresponding field only.
  lemma UpdateBits(c: Cell, f: Fruit)
    ensures Encode(c) | MAZE_REACH == Encode(c.(reach := true))
    ensures Encode(c) & !MAZE_REACH == Encode(c.(reach := false))
    ensures Encode(c) & !MAZE_FRUIT == Encode(c.(fruit := 0))
    ensures Encode(c) | MAZE_EXIT == Encode(c.(exit := true))
    ensures c.fruit == 0 ==> Encode(c) | ((f as int as bv8) * MAZE_FRUIT_1) == Encode(c.(fruit := f))
  {
    FruitCases(c.fruit);
    FruitCases(f);
  }

  lemma FruitCases(f: Fruit)
    ensures f == 0 || f == 1 || f == 2 || f == 3 || f == 4 || f == 5 || f == 6 || f == 7
    ensures f as int as bv8 == FruitBits(f) / 2
  {
    match f as int
    case 0 => case 1 => case 2 => case 3 => case 4 => case 5 => case 6 => case _ => assert f == 7;
  }
}
