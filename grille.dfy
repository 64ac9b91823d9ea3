/** The board (`grille`) of the flood-it game: a size x size array of cells, each with a
    membership flag for the flooded region and a colour, and the operations on it. */
module Grille {
  import opened Coordonnees

  /** One square of the board (`element`): whether it belongs to the flooded region
      anchored at the origin (`appartenance`), and its colour. */
  datatype Cell = Cell(member: bool, color: char)

  /** Why a board could not be built. */
  datatype GridError = InvalidSize(size: int)

  datatype Result<T> = Ok(value: T) | Err(error: GridError)

  /** Bounds on the side of a board. */
  const MinSize: int := 8
  const MaxSize: int := 24

  /** The colour a fresh board's cells carry before anything paints them. */
  const Unpainted: char := ' '

  predicate ValidSize(size: int)
  {
    MinSize <= size <= MaxSize
  }

  /** A board built by `Initialize` or `RandomGrille`: square, with an admissible side. */
  predicate IsGrille(g: array2<Cell>)
  {
    g.Length0 == g.Length1 && ValidSize(g.Length0)
  }

  predicate InBounds(g: array2<Cell>, x: Coord)
  {
    0 <= x.i < g.Length0 && 0 <= x.j < g.Length1
  }

  function At(g: array2<Cell>, x: Coord): Cell
    reads g
    requires InBounds(g, x)
  {
    g[x.i, x.j]
  }

  /** The neighbour of `x` in direction `d` is on the board and has colour `c`. */
  predicate Matches(g: array2<Cell>, x: Coord, d: Dir, c: char)
    reads g
  {
    InBounds(g, Neighbour(x, d)) && At(g, Neighbour(x, d)).color == c
  }

  /** No cell of the board belongs to the flooded region. */
  ghost predicate NoMembers(g: array2<Cell>)
    reads g
  {
    forall i, j :: 0 <= i < g.Length0 && 0 <= j < g.Length1 ==> !g[i, j].member
  }

  /** Every cell of the board belongs to the flooded region. */
  ghost predicate AllFlooded(g: array2<Cell>)
    reads g
  {
    forall i, j :: 0 <= i < g.Length0 && 0 <= j < g.Length1 ==> g[i, j].member
  }

  /** Every cell of the flooded region has colour `c`. */
  ghost predicate MonochromeRegion(g: array2<Cell>, c: char)
    reads g
  {
    forall i, j :: 0 <= i < g.Length0 && 0 <= j < g.Length1 && g[i, j].member ==> g[i, j].color == c
  }

  /** What repainting the region with colour `c` does to one cell. */
  function Repainted(cell: Cell, c: char): Cell
  {
    if cell.member then cell.(color := c) else cell
  }

  /** `initialize`: a size x size board, refused when the side is outside [8, 24];
      no cell is in the flooded region and none is painted yet. */
  method Initialize(size: int) returns (r: Result<array2<Cell>>)
    ensures r.Err? <==> !ValidSize(size)
    ensures r.Err? ==> r.error == InvalidSize(size)
    ensures r.Ok? ==> fresh(r.value) && IsGrille(r.value) && r.value.Length0 == size
    ensures r.Ok? ==> NoMembers(r.value)
  {
    if !ValidSize(size) {
      return Err(InvalidSize(size));
    }
    var g := new Cell[size, size]((i, j) => Cell(false, Unpainted));
    return Ok(g);
  }

  /** `random_grille`: as `Initialize`, with each cell painted by the colour source;
      `draw(i, j)` stands for the colour drawn at random for cell (i, j). */
  method RandomGrille(size: int, draw: (int, int) -> char) returns (r: Result<array2<Cell>>)
    ensures r.Err? <==> !ValidSize(size)
    ensures r.Err? ==> r.error == InvalidSize(size)
    ensures r.Ok? ==> fresh(r.value) && IsGrille(r.value) && r.value.Length0 == size
    ensures r.Ok? ==> forall i, j :: 0 <= i < size && 0 <= j < size ==> r.value[i, j] == Cell(false, draw(i, j))
  {
    if !ValidSize(size) {
      return Err(InvalidSize(size));
    }
    var g := new Cell[size, size]((i, j) => Cell(false, draw(i, j)));
    return Ok(g);
  }

  /** `change_color`: paints the one cell at `x` with `c`; its membership and every other cell
      stay as they were. */
  method ChangeColor(x: Coord, c: char, g: array2<Cell>)
    requires InBounds(g, x)
    modifies g
    ensures At(g, x) == Cell(old(At(g, x)).member, c)
    ensures forall i, j :: 0 <= i < g.Length0 && 0 <= j < g.Length1 && Coord(i, j) != x ==>
      g[i, j] == old(g[i, j])
  {
    g[x.i, x.j] := g[x.i, x.j].(color := c);
  }

  /** `test_neighbour`: 0 when no on-board neighbour of `x` has colour `c`; otherwise the code
      of the first matching direction in the order above, right, below, left. */
  function TestNeighbour(g: array2<Cell>, x: Coord, c: char): (k: int)
    reads g
    requires InBounds(g, x)
    ensures 0 <= k <= 4
    ensures k == 0 <==> forall d: Dir :: !Matches(g, x, d, c)
    ensures k != 0 ==> Matches(g, x, DirOf(k), c)
    ensures k != 0 ==> forall d: Dir :: Code(d) < k ==> !Matches(g, x, d, c)
  {
    if x.i - 1 >= 0 && g[x.i - 1, x.j].color == c then assert Matches(g, x, Up, c); 1
    else if x.j + 1 < g.Length1 && g[x.i, x.j + 1].color == c then assert Matches(g, x, Right, c); 2
    else if x.i + 1 < g.Length0 && g[x.i + 1, x.j].color == c then assert Matches(g, x, Down, c); 3
    else if x.j - 1 >= 0 && g[x.i, x.j - 1].color == c then assert Matches(g, x, Left, c); 4
    else 0
  }

  /** The neighbour test never reports a direction that leaves the board: in particular
      never "above" on the first row nor "left" on the first column. */
  lemma TestNeighbourStaysOnBoard(g: array2<Cell>, x: Coord, c: char)
    requires InBounds(g, x)
    ensures TestNeighbour(g, x, c) != 0 ==> InBounds(g, Neighbour(x, DirOf(TestNeighbour(g, x, c))))
    ensures x.i == 0 ==> TestNeighbour(g, x, c) != 1
    ensures x.j == 0 ==> TestNeighbour(g, x, c) != 4
    ensures x.i == g.Length0 - 1 ==> TestNeighbour(g, x, c) != 3
    ensures x.j == g.Length1 - 1 ==> TestNeighbour(g, x, c) != 2
  {
  }

  /** On the top-left corner, with a matching cell to the right and a non-matching one below,
      the test reports "right": "above" is off the board and "right" is checked before "below". */
  lemma CornerPrefersRight(g: array2<Cell>, c: char)
    requires g.Length0 >= 2 && g.Length1 >= 2
    requires g[0, 1].color == c && g[1, 0].color != c
    ensures TestNeighbour(g, Coord(0, 0), c) == 2
  {
  }

  /** `modif_color`: every cell of the flooded region takes colour `c`; cells outside it keep
      their colour, and no membership flag changes. */
  method ModifColor(c: char, g: array2<Cell>)
    modifies g
    ensures forall i, j :: 0 <= i < g.Length0 && 0 <= j < g.Length1 ==>
      g[i, j] == Repainted(old(g[i, j]), c)
    ensures MonochromeRegion(g, c)
  {
    for i := 0 to g.Length0
      invariant forall p, q :: 0 <= p < g.Length0 && 0 <= q < g.Length1 ==>
        g[p, q] == if p < i then Repainted(old(g[p, q]), c) else old(g[p, q])
    {
      for j := 0 to g.Length1
        invariant forall p, q :: 0 <= p < g.Length0 && 0 <= q < g.Length1 ==>
          g[p, q] == if p < i || (p == i && q < j) then Repainted(old(g[p, q]), c) else old(g[p, q])
      {
        if g[i, j].member {
          g[i, j] := g[i, j].(color := c);
        }
      }
    }
  }

  /** `if_flood`: the win test, true exactly when every cell of the board is in the
      flooded region. */
  method IfFlood(g: array2<Cell>) returns (flooded: bool)
    ensures flooded <==> AllFlooded(g)
  {
    for i := 0 to g.Length0
      invariant forall p, q :: 0 <= p < i && 0 <= q < g.Length1 ==> g[p, q].member
    {
      for j := 0 to g.Length1
        invariant forall q :: 0 <= q < j ==> g[i, q].member
      {
        if !g[i, j].member {
          return false;
        }
      }
    }
    return true;
  }

  /** A board whose region covers every cell and has been repainted with `c` is all of one
      colour: the victory the win test announces. */
  lemma FloodedBoardIsOneColour(g: array2<Cell>, c: char)
    requires AllFlooded(g) && MonochromeRegion(g, c)
    ensures forall i, j :: 0 <= i < g.Length0 && 0 <= j < g.Length1 ==> g[i, j].color == c
  {
  }
}
