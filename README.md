# Flood-it board and flood engine, in Dafny

This project models the core of a "flood it" puzzle, as declared in `grille.h`. The board
(`grille`) is a square `size x size` array of cells (`element`). Each cell has a flag saying
whether it belongs to the flooded region (`appartenance`, the "tâche" grown from the origin
cell) and a colour (`color`). A move recolours the region with a chosen colour
(`modif_color`). The recursive search `Deep` then grows the region through neighbouring cells
of that colour, keeping its path on a stack (`Pile`). `if_flood` is the win test: it holds when
the region covers the whole board.

Files:

- `coordonnees.dfy` (module `Coordonnees`): positions (`coordonnees`), the four directions in
  the neighbour test's priority order (above, right, below, left) and their codes 1 to 4, and
  4-adjacency.
- `grille.dfy` (module `Grille`): the cell and board model, `initialize`, `random_grille`,
  `change_color`, `test_neighbour`, `modif_color` and `if_flood`.
- `flood.dfy` (module `Flood`): `Deep` as an explicit-stack search. Its invariant is proved one
  step at a time (`SearchStep`). The lemmas state what the search achieves: every visited cell is
  linked to the start cell, the search reaches every cell it should, and the region ends up
  closed. `Move` composes a recolouring with a search, and `WinIffOneColour` relates the win test
  to a one-colour board.

How the source maps to the model:

- The board is an `array2<Cell>` updated in place. The `size` argument of every C function
  that takes one is the array's own dimensions, so it is not passed separately.
- `appartenance` is an `int` in C and a `bool` here.
- The `Pile` is a `seq<Coord>`: push is `s + [x]` and pop is `s[..|s| - 1]`.
- `change_color` returns the board with that cell recoloured (grille.h:80). The model updates
  the array in place and returns nothing.
- `modif_color` is documented as recolouring "l'ensemble du plateau" / "l'ensemble des cases"
  (grille.h:108, grille.h:113). Following the rule of the game, the model repaints only the
  cells of the flooded region and leaves the other cells' colours as they were.
- `test_neighbour` follows its documentation, which compares colours only. On its own that
  test cannot drive `Deep`: a cell would keep finding the neighbour it came from and the search
  would never end. `Deep` therefore probes with `NextNeighbour`. That probe uses the same
  priority order but skips the cells the current pass has already visited. This is the guard
  against revisiting cells that the search relies on for termination.
  `NextNeighbourRefinesTestNeighbour` relates the two probes.
- A pass of `Deep` walks through every cell of the chosen colour it can reach from its start
  cell, whether or not the cell is already flagged, and flags the ones that are not. The guard
  only forbids a second visit within the same pass, so a pass after a recolouring goes through
  the whole region again and reaches the new cells next to any part of it.
- The recursion of `Deep` becomes a `while` loop over an explicit stack (`Search`). Each
  iteration (`SearchStep`) stands for one recursive call. It looks at the top cell, flags and
  pushes the first unvisited neighbour of the colour in priority order, or pops the top cell
  when there is none. Termination uses the number of unvisited cells, then the stack height.
- `Deep` returns the caller's stack `P` followed by the cells the pass visited, in the order
  they were pushed.
- A move of the game is `modif_color` followed by `Deep` from the anchor cell (`Move`). The
  region it maintains is anchored: the anchor is flagged, and every flagged cell is joined to
  the anchor by a walk through flagged cells. A region made of the anchor alone is anchored.
- `initialize` and `random_grille` document that `size` "must be between 8 and 24". The model
  reports a size outside that range as `Err(InvalidSize(size))` instead of leaving it
  undefined.

## Model

| member | source | states |
|---|---|---|
| `Grille.Initialize` | grille.h:35-42 | Fails with `InvalidSize` exactly when `size` is outside [8, 24]. Otherwise it returns a fresh square `size x size` board on which no cell is in the region. |
| `Grille.RandomGrille` | grille.h:54-61 | Same size check and error as `Initialize`. Otherwise it returns a fresh `size x size` board where each cell (i, j) is a non-member with the colour drawn for it. |
| `Grille.ChangeColor` | grille.h:73-82 | The cell at the given position gets colour `c` and keeps its membership. Every other cell is unchanged. |
| `Grille.TestNeighbour` | grille.h:94-104 | Returns a code in 0..4. It is 0 exactly when no on-board neighbour has the chosen colour. A code k > 0 means the neighbour in direction k is on the board and has the colour, and no direction before k does. |
| `Grille.TestNeighbourStaysOnBoard` | grille.h:94-104 | The reported direction is always on the board: never "above" on row 0, "left" on column 0, "below" on the last row or "right" on the last column. |
| `Grille.CornerPrefersRight` | grille.h:94-104 | On the top-left cell, with a matching cell to the right and a non-matching one below, the test returns 2 ("right"). |
| `Grille.ModifColor` | grille.h:106-115 | Every member cell takes the chosen colour. Non-member cells keep their colour, and no membership flag changes. Afterwards the whole region has that one colour. |
| `Grille.IfFlood` | grille.h:84-92 | Returns true if and only if every cell of the board belongs to the region. |
| `Grille.FloodedBoardIsOneColour` | grille.h:84-92 | If every cell is in the region and the region has been repainted with `c`, the whole board has colour `c`: the "entirely flooded with one colour" victory. |
| `Coordonnees.DirOf` | grille.h:102 | Decodes a neighbour code 1..4 to a direction whose code is that number (codes and directions round-trip). |
| `Coordonnees.AdjacentIffUnitStep` | grille.h:102 | Two positions are neighbours exactly when they differ by one in one coordinate and are equal in the other. |
| `Flood.NextNeighbour` | grille.h:117-128 | The probe `Deep` expands with. It returns 0 exactly when every on-board neighbour of colour `c` has already been visited by the pass. Otherwise it returns the first direction, in priority order, whose neighbour is on the board, has colour `c` and has not been visited. |
| `Flood.NextNeighbourRefinesTestNeighbour` | grille.h:94-128 | When the probe finds a direction, `TestNeighbour` finds the same one or an earlier one. When `TestNeighbour` finds none, neither does the probe. When no neighbour has been visited, the two return the same code. |
| `Flood.Deep` | grille.h:117-128 | Colours never change. Afterwards a cell is flagged exactly when it was flagged before or is listed after `P`. The result extends the stack `P`, and no cell is listed twice or equals the start cell. Each listed cell has colour `c` and is adjacent to the start cell or to a cell listed before it. Every colour-`c` walk from the start cell ends at the start cell or at a listed cell. A one-colour region stays one colour. If the region was one colour and anchored at the start cell, it ends up closed and still anchored. Once the region is closed and the start cell is flagged, running it again changes nothing. |
| `Flood.SearchStep` | grille.h:117-128 | One recursive step keeps the search invariant and the colours, and strictly decreases (unvisited cells, stack height). When the top cell has an unvisited neighbour of colour `c`, it pushes exactly the neighbour in the first such direction, in priority order. Otherwise it only pops. When the region is closed and the start cell and every visited cell are flagged, it never changes the board. |
| `Flood.PopKeepsInvariant` | grille.h:117-128 | Popping a cell whose colour-`c` neighbours have all been visited keeps the search invariant. |
| `Flood.GrownCellsAreLinked` | grille.h:117-128 | Every cell that `Deep` visits is joined to the start cell by a 4-adjacent walk of colour-`c` cells, all of them visited. |
| `Flood.WalksEndInExplored` | grille.h:117-128 | The search goes "as far as possible". When every visited cell has all its colour-`c` neighbours visited, a colour-`c` walk that starts at a visited cell ends at a visited cell. |
| `Flood.FinishedPass` | grille.h:117-128 | At the end of a pass, every colour-`c` walk from the start cell ends at a visited cell. A one-colour region with that colour stays one colour, and if it was anchored at the start cell it is closed and still anchored. |
| `Flood.SearchClosesRegion` | grille.h:117-128 | After a pass over a region anchored at the start cell and all of colour `c`, no member has a non-member neighbour of colour `c`. |
| `Flood.SearchKeepsAnchored` | grille.h:117-128 | After a pass over a region anchored at the start cell, every member, old or new, is joined to the start cell by a walk through members. |
| `Flood.AnchorAloneIsAnchored` | grille.h:17-28 | A board whose only flagged cell is the anchor has an anchored region. |
| `Flood.Move` | grille.h:106-128 | A move, `modif_color` then `Deep` from the anchor, repaints exactly the old region with `c`, and every other cell keeps its colour. The region gains exactly the returned cells. They are distinct, exclude the anchor, each has colour `c` and touches the anchor or an earlier one, and every colour-`c` walk from the anchor ends among them. The region ends up one colour, closed for that colour and still anchored, so this holds move after move. |
| `Flood.OneColourBoardIsFlooded` | grille.h:84-92 | On a non-empty region closed for colour `c`, a board all of colour `c` has every cell flooded. |
| `Flood.WinIffOneColour` | grille.h:84-92 | On a closed, one-colour, non-empty region, every cell is flooded exactly when the whole board has one colour, as the win test promises. |

Taken together, `GrownCellsAreLinked` and the walk clause of `Deep` give an exact description of
the cells a pass visits. They are the cells reachable from the start cell by colour-`c` walks.

## Left out

- `display` (grille.h:44-52): prints the board as text. This is output only.
- The random source of `random_grille` (grille.h:54-61): the `rand`/`time` calls are replaced by
  the parameter `draw`. The palette of colours it draws from is not part of this model.
- `free_space` (grille.h:63-71): releases the rows of the board. Dafny's heap is managed, so
  there is nothing to model.
- `pile.h` is not part of this model. The stack is a plain sequence of positions.
- `Grille.ModifColor`: repaints the flooded region only, not "l'ensemble du plateau" as
  grille.h:108 words it; repainting every cell would make the board one colour after any move
  and the win test meaningless.
- Whether `change_color`'s result aliases its argument is not visible in grille.h; the model
  changes the board in place.
- The raw `element **` layout and out-of-range positions: every operation that takes a position
  requires it to be on the board, as the C code leaves anything else undefined.
- `Grille.Initialize`: the colours of a fresh board are unspecified in the source. The model
  fills them with a placeholder and states only the size and the empty region.
- `Flood.Deep`: the result differs from grille.h:126, which documents it as `P` with one new
  element or `P` unchanged, the return value of one recursive call. The model runs the whole
  recursion as one loop, so it returns `P` followed by every cell the pass visited.
- `Flood.Deep`: the first move needs the anchor flagged. A fresh board from `Initialize` has no
  flagged cell, and flagging the anchor before the first move is up to the caller.
  `AnchorAloneIsAnchored` shows that such a board meets the precondition of `Move`.
- The game loop itself (reading colours, counting moves, calling the win test) is not modelled.
  It belongs to the driver, not to the board operations. `Move` states what each of its moves
  keeps.
