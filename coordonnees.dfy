/** Board positions and the four orthogonal directions of the flood-it board. */
module Coordonnees {

  /** A board position: row `i`, column `j`, both counted from 0 at the top-left corner. */
  datatype Coord = Coord(i: int, j: int)

  /** The four directions examined around a cell, declared in the priority order
      the neighbour test uses: above, right, below, left. */
  datatype Dir = Up | Right | Down | Left

  /** The integer code the neighbour test returns for a direction. */
  function Code(d: Dir): (k: int)
    ensures 1 <= k <= 4
  {
    match d
    case Up => 1
    case Right => 2
    case Down => 3
    case Left => 4
  }

  /** The direction a non-zero neighbour code stands for. */
  function DirOf(k: int): (d: Dir)
    requires 1 <= k <= 4
    ensures Code(d) == k
  {
    if k == 1 then Up else if k == 2 then Right else if k == 3 then Down else Left
  }

  /** The position one step from `x` in direction `d` (it may lie off the board). */
  function Neighbour(x: Coord, d: Dir): Coord
  {
    match d
    case Up => Coord(x.i - 1, x.j)
    case Right => Coord(x.i, x.j + 1)
    case Down => Coord(x.i + 1, x.j)
    case Left => Coord(x.i, x.j - 1)
  }

  /** 4-adjacency: `b` is one step from `a` in one of the four directions. */
  predicate Adjacent(a: Coord, b: Coord)
  {
    Neighbour(a, Up) == b || Neighbour(a, Right) == b || Neighbour(a, Down) == b || Neighbour(a, Left) == b
  }

  /** Adjacency is exactly "one unit apart in one coordinate, equal in the other". */
  lemma AdjacentIffUnitStep(a: Coord, b: Coord)
    ensures Adjacent(a, b) <==>
      (a.i == b.i && (a.j - b.j == 1 || b.j - a.j == 1)) ||
      (a.j == b.j && (a.i - b.i == 1 || b.i - a.i == 1))
  {
  }
}
