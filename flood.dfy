/** The flood engine (`Deep`): depth-first growth of the flooded region through cells of
    the chosen colour, with the traversal stack (`Pile`) held as a sequence of positions. */
module Flood {
  import opened Coordonnees
  import opened Grille

  // ---------------------------------------------------------------------------------------
  // The region and its closure

  /** The neighbour of `x` in direction `d` could still join the region: it is on the board,
      has colour `c`, and is not a member. */
  predicate FreshMatch(g: array2<Cell>, x: Coord, d: Dir, c: char)
    reads g
  {
    Matches(g, x, d, c) && !At(g, Neighbour(x, d)).member
  }

  /** No neighbour of `x` could still join the region with colour `c`. */
  ghost predicate NoFresh(g: array2<Cell>, x: Coord, c: char)
    reads g
  {
    forall d: Dir :: !FreshMatch(g, x, d, c)
  }

  /** The region is closed for colour `c`: no member has a non-member neighbour of colour `c`. */
  ghost predicate Closed(g: array2<Cell>, c: char)
    reads g
  {
    forall i, j :: 0 <= i < g.Length0 && 0 <= j < g.Length1 && g[i, j].member ==>
      NoFresh(g, Coord(i, j), c)
  }

  /** The cells of the flooded region. */
  ghost function Members(g: array2<Cell>): set<Coord>
    reads g
  {
    set i, j | 0 <= i < g.Length0 && 0 <= j < g.Length1 && g[i, j].member :: Coord(i, j)
  }

  /** `p` is a 4-adjacent walk from `from` to `x` that never leaves `region`. */
  ghost predicate MemberWalk(region: set<Coord>, p: seq<Coord>, from: Coord, x: Coord)
  {
    && |p| >= 1
    && p[0] == from
    && p[|p| - 1] == x
    && (forall k :: 0 <= k < |p| ==> p[k] in region)
    && (forall k :: 0 <= k < |p| - 1 ==> Adjacent(p[k], p[k + 1]))
  }

  /** The region is anchored at `from`: `from` belongs to it and every cell of it is joined to
      `from` by a walk that stays inside it. This is what makes the region a single "tâche". */
  ghost predicate Anchored(region: set<Coord>, from: Coord)
  {
    && from in region
    && forall x :: x in region ==> exists p :: MemberWalk(region, p, from, x)
  }

  /** A region made of the anchor alone is anchored. */
  lemma AnchorAloneIsAnchored(g: array2<Cell>, from: Coord)
    requires InBounds(g, from)
    requires forall i, j :: 0 <= i < g.Length0 && 0 <= j < g.Length1 ==>
      (g[i, j].member <==> Coord(i, j) == from)
    ensures Anchored(Members(g), from)
  {
    assert Members(g) == {from};
    assert MemberWalk({from}, [from], from, from);
  }

  // ---------------------------------------------------------------------------------------
  // Walks and growth orders

  /** A 4-adjacent walk whose cells after the first are on the board with colour `c`. */
  ghost predicate ColourPath(g: array2<Cell>, p: seq<Coord>, c: char)
    reads g
  {
    && |p| >= 1
    && (forall k :: 1 <= k < |p| ==> InBounds(g, p[k]) && At(g, p[k]).color == c)
    && (forall k :: 0 <= k < |p| - 1 ==> Adjacent(p[k], p[k + 1]))
  }

  /** `trail` lists cells of colour `c` in an order where each one is adjacent to `from`
      or to a cell listed before it: the order a search growing out of `from` visits them. */
  ghost predicate Grown(g: array2<Cell>, from: Coord, c: char, trail: seq<Coord>)
    reads g
  {
    forall k :: 0 <= k < |trail| ==>
      && InBounds(g, trail[k])
      && At(g, trail[k]).color == c
      && (Adjacent(from, trail[k]) || exists m :: 0 <= m < k && Adjacent(trail[m], trail[k]))
  }

  ghost predicate Distinct(s: seq<Coord>)
  {
    forall a, b :: 0 <= a < b < |s| ==> s[a] != s[b]
  }

  // ---------------------------------------------------------------------------------------
  // The probe of one search step

  /** The neighbour of `x` in direction `d` is on the board, has colour `c`, and has not been
      visited by the current pass (`seen`). */
  predicate NewMatch(g: array2<Cell>, x: Coord, d: Dir, c: char, seen: set<Coord>)
    reads g
  {
    Matches(g, x, d, c) && Neighbour(x, d) !in seen
  }

  /** Every neighbour of `x` of colour `c` has been visited by the current pass. */
  ghost predicate Saturated(g: array2<Cell>, x: Coord, c: char, seen: set<Coord>)
    reads g
  {
    forall d: Dir :: !NewMatch(g, x, d, c, seen)
  }

  /** The probe the search expands with: the neighbour test's priority order (above, right,
      below, left), restricted to neighbours the current pass has not visited yet, so that no
      cell is explored twice in one pass. */
  function NextNeighbour(g: array2<Cell>, x: Coord, c: char, seen: set<Coord>): (k: int)
    reads g
    requires InBounds(g, x)
    ensures 0 <= k <= 4
    ensures k == 0 <==> Saturated(g, x, c, seen)
    ensures k != 0 ==> NewMatch(g, x, DirOf(k), c, seen)
    ensures k != 0 ==> forall d: Dir :: Code(d) < k ==> !NewMatch(g, x, d, c, seen)
  {
    if x.i - 1 >= 0 && g[x.i - 1, x.j].color == c && Coord(x.i - 1, x.j) !in seen then
      assert NewMatch(g, x, Up, c, seen); 1
    else if x.j + 1 < g.Length1 && g[x.i, x.j + 1].color == c && Coord(x.i, x.j + 1) !in seen then
      assert NewMatch(g, x, Right, c, seen); 2
    else if x.i + 1 < g.Length0 && g[x.i + 1, x.j].color == c && Coord(x.i + 1, x.j) !in seen then
      assert NewMatch(g, x, Down, c, seen); 3
    else if x.j - 1 >= 0 && g[x.i, x.j - 1].color == c && Coord(x.i, x.j - 1) !in seen then
      assert NewMatch(g, x, Left, c, seen); 4
    else 0
  }

  /** The probe only reports what the neighbour test would also see: when it finds a
      direction, the neighbour test finds the same one or an earlier one; when the neighbour
      test finds nothing, neither does the probe; and when no neighbour has been visited the
      two agree. */
  lemma NextNeighbourRefinesTestNeighbour(g: array2<Cell>, x: Coord, c: char, seen: set<Coord>)
    requires InBounds(g, x)
    ensures NextNeighbour(g, x, c, seen) != 0 ==> 1 <= TestNeighbour(g, x, c) <= NextNeighbour(g, x, c, seen)
    ensures TestNeighbour(g, x, c) == 0 ==> NextNeighbour(g, x, c, seen) == 0
    ensures (forall d: Dir :: Neighbour(x, d) !in seen) ==> NextNeighbour(g, x, c, seen) == TestNeighbour(g, x, c)
  {
  }

  // ---------------------------------------------------------------------------------------
  // The search

  /** Every position of the board. */
  ghost function Board(g: array2<Cell>): set<Coord>
  {
    set i, j | 0 <= i < g.Length0 && 0 <= j < g.Length1 :: Coord(i, j)
  }

  /** The region is the region `m0` the search began with plus the cells visited since. */
  ghost predicate RegionIs(g: array2<Cell>, m0: set<Coord>, trail: seq<Coord>)
    reads g
  {
    forall i, j :: 0 <= i < g.Length0 && 0 <= j < g.Length1 ==>
      (g[i, j].member <==> Coord(i, j) in m0 || Coord(i, j) in trail)
  }

  /** Every visited cell that has left the stack has all its colour-`c` neighbours visited. */
  ghost predicate Exhausted(g: array2<Cell>, c: char, path: seq<Coord>, seen: set<Coord>)
    reads g
  {
    forall x :: x in seen && x !in path ==> Saturated(g, x, c, seen)
  }

  /** Every listed cell is on the board and in the region. */
  ghost predicate AllMembers(g: array2<Cell>, trail: seq<Coord>)
    reads g
  {
    forall x :: x in trail ==> InBounds(g, x) && At(g, x).member
  }

  /** The bookkeeping of the pass from `from`: `seen` is `from` and the cells visited so far,
      listed without repetition in `trail` in the order they were pushed; `path`, the stack of
      cells still being explored, holds visited cells only. */
  ghost predicate Bookkeeping(g: array2<Cell>, from: Coord, path: seq<Coord>, trail: seq<Coord>, seen: set<Coord>)
  {
    && (forall x :: x in seen <==> x == from || x in trail)
    && (forall x :: x in seen ==> InBounds(g, x))
    && (forall k :: 0 <= k < |path| ==> path[k] in seen)
    && Distinct(trail) && from !in trail
  }

  /** What holds between two steps of the pass from `from`, where `m0` is the region before
      the pass began. */
  ghost predicate SearchInvariant(g: array2<Cell>, c: char, from: Coord, path: seq<Coord>,
                                  trail: seq<Coord>, seen: set<Coord>, m0: set<Coord>)
    reads g
  {
    && Bookkeeping(g, from, path, trail, seen)
    && RegionIs(g, m0, trail)
    && Grown(g, from, c, trail)
    && Exhausted(g, c, path, seen)
  }

  /** One step of the search, standing for one call of the recursion: look at the cell on top
      of the stack; if it has an unvisited neighbour of colour `c`, take the first one in
      priority order, flag it and push it, otherwise pop. */
  method SearchStep(c: char, g: array2<Cell>, from: Coord, path: seq<Coord>, trail: seq<Coord>,
                    seen: set<Coord>, ghost m0: set<Coord>)
    returns (path': seq<Coord>, trail': seq<Coord>, seen': set<Coord>)
    requires path != []
    requires SearchInvariant(g, c, from, path, trail, seen, m0)
    modifies g
    ensures SearchInvariant(g, c, from, path', trail', seen', m0)
    ensures forall i, j :: 0 <= i < g.Length0 && 0 <= j < g.Length1 ==> g[i, j].color == old(g[i, j].color)
    ensures |Board(g) - seen'| < |Board(g) - seen| || (seen' == seen && |path'| < |path|)
    ensures old(Saturated(g, path[|path| - 1], c, seen)) ==>
      path' == path[..|path| - 1] && trail' == trail && seen' == seen && unchanged(g)
    ensures !old(Saturated(g, path[|path| - 1], c, seen)) ==>
      var n := Neighbour(path[|path| - 1], DirOf(old(NextNeighbour(g, path[|path| - 1], c, seen))));
      path' == path + [n] && trail' == trail + [n] && seen' == seen + {n}
    ensures old(Closed(g, c) && At(g, from).member && AllMembers(g, trail)) ==>
      unchanged(g) && AllMembers(g, trail')
  {
    var top := path[|path| - 1];
    var k := NextNeighbour(g, top, c, seen);
    if k == 0 {
      PopKeepsInvariant(g, c, from, path, trail, seen, m0);
      path', trail', seen' := path[..|path| - 1], trail, seen;
    } else {
      var n := Neighbour(top, DirOf(k));
      assert Adjacent(top, n);
      if Closed(g, c) && At(g, from).member && AllMembers(g, trail) {
        assert NoFresh(g, top, c);
        assert !FreshMatch(g, top, DirOf(k), c);
      }
      if !At(g, n).member {
        Mark(g, n);
      } else {
        RegionIsExtend(g, m0, trail, n);
      }
      if top != from {
        ghost var m :| 0 <= m < |trail| && trail[m] == top;
        GrownExtend(g, from, c, trail, n, m);
      } else {
        GrownExtend(g, from, c, trail, n, -1);
      }
      PushKeepsExhausted(g, c, path, seen, n);
      PushKeepsInvariant(g, c, from, path, trail, seen, m0, n);
      PushShrinksUnseen(g, seen, n);
      path', trail', seen' := path + [n], trail + [n], seen + {n};
    }
  }

  /** The pass starts with `from` alone on the stack and visited. */
  lemma StartKeepsInvariant(g: array2<Cell>, c: char, from: Coord, m0: set<Coord>)
    requires InBounds(g, from) && m0 == Members(g)
    ensures SearchInvariant(g, c, from, [from], [], {from}, m0)
  {
    forall i, j | 0 <= i < g.Length0 && 0 <= j < g.Length1
      ensures g[i, j].member <==> Coord(i, j) in m0
    {
    }
  }

  /** Pushing an unvisited cell of colour `c` keeps the search invariant. */
  lemma PushKeepsInvariant(g: array2<Cell>, c: char, from: Coord, path: seq<Coord>, trail: seq<Coord>,
                           seen: set<Coord>, m0: set<Coord>, n: Coord)
    requires Bookkeeping(g, from, path, trail, seen)
    requires InBounds(g, n) && n !in seen
    requires RegionIs(g, m0, trail + [n])
    requires Grown(g, from, c, trail + [n])
    requires Exhausted(g, c, path + [n], seen + {n})
    ensures SearchInvariant(g, c, from, path + [n], trail + [n], seen + {n}, m0)
  {
    var trail' := trail + [n];
    forall a, b | 0 <= a < b < |trail'|
      ensures trail'[a] != trail'[b]
    {
      if b == |trail| {
        assert trail'[a] == trail[a];
      }
    }
  }

  /** Popping a cell with every colour-`c` neighbour visited keeps the search invariant. */
  lemma PopKeepsInvariant(g: array2<Cell>, c: char, from: Coord, path: seq<Coord>, trail: seq<Coord>,
                          seen: set<Coord>, m0: set<Coord>)
    requires path != [] && SearchInvariant(g, c, from, path, trail, seen, m0)
    requires Saturated(g, path[|path| - 1], c, seen)
    ensures SearchInvariant(g, c, from, path[..|path| - 1], trail, seen, m0)
  {
    var rest := path[..|path| - 1];
    forall x | x in seen && x !in rest
      ensures Saturated(g, x, c, seen)
    {
      if x in path {
        assert x == path[|path| - 1];
      }
    }
  }

  /** Visiting one more cell keeps every cell that has left the stack saturated. */
  lemma PushKeepsExhausted(g: array2<Cell>, c: char, path: seq<Coord>, seen: set<Coord>, n: Coord)
    requires Exhausted(g, c, path, seen)
    ensures Exhausted(g, c, path + [n], seen + {n})
  {
    forall x | x in seen + {n} && x !in path + [n]
      ensures Saturated(g, x, c, seen + {n})
    {
      assert x in seen && x !in path;
      forall d: Dir
        ensures !NewMatch(g, x, d, c, seen + {n})
      {
        assert !NewMatch(g, x, d, c, seen);
      }
    }
  }

  /** Visiting an unvisited cell of the board leaves one cell fewer unvisited. */
  lemma PushShrinksUnseen(g: array2<Cell>, seen: set<Coord>, n: Coord)
    requires InBounds(g, n) && n !in seen
    ensures |Board(g) - (seen + {n})| < |Board(g) - seen|
  {
    assert n == Coord(n.i, n.j);
    assert n in Board(g) - seen;
    assert Board(g) - (seen + {n}) == (Board(g) - seen) - {n};
  }

  /** Listing a cell that already belongs to the region keeps the region description. */
  lemma RegionIsExtend(g: array2<Cell>, m0: set<Coord>, trail: seq<Coord>, n: Coord)
    requires RegionIs(g, m0, trail)
    requires InBounds(g, n) && At(g, n).member
    ensures RegionIs(g, m0, trail + [n])
  {
    forall i, j | 0 <= i < g.Length0 && 0 <= j < g.Length1
      ensures g[i, j].member <==> Coord(i, j) in m0 || Coord(i, j) in trail + [n]
    {
      assert Coord(i, j) in trail + [n] <==> Coord(i, j) in trail || Coord(i, j) == n;
    }
  }

  /** `Deep`: grows the flooded region from `from` as far as possible through cells of colour
      `c`, depth first, in the neighbour test's priority order. The explicit stack `path`
      stands for the recursion. A pass visits every cell of colour `c` it can reach from
      `from`, members or not, each once, and flags those that are not members yet. The result
      is the stack `P` followed by the visited cells in the order they were pushed. */
  method Deep(c: char, g: array2<Cell>, from: Coord, P: seq<Coord>) returns (Q: seq<Coord>)
    requires InBounds(g, from)
    modifies g
    ensures |Q| >= |P| && Q[..|P|] == P
    // colours never change, and the flags change exactly at the visited non-members
    ensures forall i, j :: 0 <= i < g.Length0 && 0 <= j < g.Length1 ==> g[i, j].color == old(g[i, j].color)
    ensures forall i, j :: 0 <= i < g.Length0 && 0 <= j < g.Length1 ==>
      (g[i, j].member <==> old(g[i, j].member) || Coord(i, j) in Q[|P|..])
    ensures from !in Q[|P|..] && Distinct(Q[|P|..])
    // each visited cell has colour c and touches `from` or a cell visited before it
    ensures Grown(g, from, c, Q[|P|..])
    // the pass went as far as possible: every colour-c walk from `from` ends at a visited cell
    ensures forall p :: ColourPath(g, p, c) && p[0] == from ==> p[|p| - 1] == from || p[|p| - 1] in Q[|P|..]
    // a one-colour region stays one colour, and an anchored one ends up closed and anchored
    ensures old(MonochromeRegion(g, c)) ==> MonochromeRegion(g, c)
    ensures old(MonochromeRegion(g, c)) && Anchored(old(Members(g)), from) ==>
      Closed(g, c) && Anchored(Members(g), from)
    // once the region is closed around a flagged `from`, running it again changes nothing
    ensures old(Closed(g, c)) && old(At(g, from).member) ==> unchanged(g)
  {
    ghost var m0 := Members(g);
    var trail, seen := Search(c, g, from, m0);
    Q := P + trail;
    assert Q[|P|..] == trail;
    if old(MonochromeRegion(g, c)) {
      forall x | x in m0
        ensures InBounds(g, x) && At(g, x).color == c
      {
        assert old(g[x.i, x.j].member);
      }
    }
    FinishedPass(g, c, from, trail, seen, m0);
  }

  /** The loop of `Deep`: steps until the stack is empty, and returns the visited cells in the
      order they were pushed, together with the set of visited cells. */
  method Search(c: char, g: array2<Cell>, from: Coord, ghost m0: set<Coord>) returns (trail: seq<Coord>, seen: set<Coord>)
    requires InBounds(g, from) && m0 == Members(g)
    modifies g
    ensures SearchInvariant(g, c, from, [], trail, seen, m0)
    ensures forall i, j :: 0 <= i < g.Length0 && 0 <= j < g.Length1 ==> g[i, j].color == old(g[i, j].color)
    ensures old(Closed(g, c)) && old(At(g, from).member) ==> unchanged(g)
  {
    var path := [from];
    trail := [];
    seen := {from};
    StartKeepsInvariant(g, c, from, m0);
    while path != []
      invariant SearchInvariant(g, c, from, path, trail, seen, m0)
      invariant forall i, j :: 0 <= i < g.Length0 && 0 <= j < g.Length1 ==> g[i, j].color == old(g[i, j].color)
      invariant old(Closed(g, c)) && old(At(g, from).member) ==> unchanged(g) && AllMembers(g, trail)
      decreases |Board(g) - seen|, |path|
    {
      path, trail, seen := SearchStep(c, g, from, path, trail, seen, m0);
    }
  }

  /** What a finished pass from `from` achieves, with `m0` the region before it: the walk
      closure of the visited cells, and, over a one-colour region, a one-colour region that is
      closed and anchored whenever the old one was anchored. */
  lemma FinishedPass(g: array2<Cell>, c: char, from: Coord, trail: seq<Coord>, seen: set<Coord>, m0: set<Coord>)
    requires SearchInvariant(g, c, from, [], trail, seen, m0)
    ensures forall p :: ColourPath(g, p, c) && p[0] == from ==> p[|p| - 1] == from || p[|p| - 1] in trail
    ensures (forall x :: x in m0 ==> InBounds(g, x) && At(g, x).color == c) ==>
      MonochromeRegion(g, c) && (Anchored(m0, from) ==> Closed(g, c) && Anchored(Members(g), from))
  {
    forall p | ColourPath(g, p, c) && p[0] == from
      ensures p[|p| - 1] == from || p[|p| - 1] in trail
    {
      WalksEndInExplored(g, c, seen, p);
    }
    if forall x :: x in m0 ==> InBounds(g, x) && At(g, x).color == c {
      RegionStaysMonochrome(g, c, from, trail, m0);
      if Anchored(m0, from) {
        SearchClosesRegion(g, c, from, trail, seen, m0);
        SearchKeepsAnchored(g, c, from, trail, m0);
      }
    }
  }

  /** Flags the cell `n`, not a member yet. Only its flag changes, so no colour changes and
      every fact about colours and visits carries over. */
  method Mark(g: array2<Cell>, n: Coord)
    requires InBounds(g, n) && !At(g, n).member
    modifies g
    ensures forall i, j :: 0 <= i < g.Length0 && 0 <= j < g.Length1 ==>
      g[i, j] == if Coord(i, j) == n then old(g[i, j]).(member := true) else old(g[i, j])
    ensures forall i, j :: 0 <= i < g.Length0 && 0 <= j < g.Length1 ==> g[i, j].color == old(g[i, j].color)
    ensures forall c, path, seen :: old(Exhausted(g, c, path, seen)) ==> Exhausted(g, c, path, seen)
    ensures forall from, c, trail :: old(Grown(g, from, c, trail)) ==> Grown(g, from, c, trail)
    ensures forall m0, trail :: old(RegionIs(g, m0, trail)) ==> RegionIs(g, m0, trail + [n])
  {
    g[n.i, n.j] := g[n.i, n.j].(member := true);
    forall c, path, seen | old(Exhausted(g, c, path, seen))
      ensures Exhausted(g, c, path, seen)
    {
      forall x | x in seen && x !in path
        ensures Saturated(g, x, c, seen)
      {
        forall d: Dir
          ensures !NewMatch(g, x, d, c, seen)
        {
          assert old(!NewMatch(g, x, d, c, seen));
        }
      }
    }
    forall from, c, trail | old(Grown(g, from, c, trail))
      ensures Grown(g, from, c, trail)
    {
      forall q | 0 <= q < |trail|
        ensures At(g, trail[q]).color == c
      {
      }
    }
  }

  /** A cell of colour `c` adjacent to `from` (when `m` is -1) or to the `m`-th listed cell may
      be listed next. */
  lemma GrownExtend(g: array2<Cell>, from: Coord, c: char, trail: seq<Coord>, n: Coord, m: int)
    requires Grown(g, from, c, trail)
    requires InBounds(g, n) && At(g, n).color == c
    requires -1 <= m < |trail|
    requires if m == -1 then Adjacent(from, n) else Adjacent(trail[m], n)
    ensures Grown(g, from, c, trail + [n])
  {
    var s := trail + [n];
    forall k | 0 <= k < |s|
      ensures Adjacent(from, s[k]) || exists m' :: 0 <= m' < k && Adjacent(s[m'], s[k])
    {
      if k == |trail| && m != -1 {
        assert s[m] == trail[m];
      } else if k < |trail| && !Adjacent(from, s[k]) {
        var m' :| 0 <= m' < k && Adjacent(trail[m'], trail[k]);
        assert s[m'] == trail[m'];
      }
    }
  }

  // ---------------------------------------------------------------------------------------
  // What a finished pass achieves

  /** `p` is a colour-`c` walk from `from` to `x` whose cells after the first are all in `via`. */
  ghost predicate WalkWithin(g: array2<Cell>, p: seq<Coord>, c: char, from: Coord, x: Coord, via: seq<Coord>)
    reads g
  {
    && ColourPath(g, p, c)
    && p[0] == from
    && p[|p| - 1] == x
    && forall q :: 1 <= q < |p| ==> p[q] in via
  }

  /** Soundness of the growth: every visited cell is joined to `from` by a 4-adjacent walk of
      cells of colour `c`, all of them visited. */
  lemma {:induction false} GrownCellsAreLinked(g: array2<Cell>, from: Coord, c: char, trail: seq<Coord>, k: int)
    requires Grown(g, from, c, trail)
    requires 0 <= k < |trail|
    ensures exists p :: WalkWithin(g, p, c, from, trail[k], trail)
    decreases k
  {
    if Adjacent(from, trail[k]) {
      var p := [from, trail[k]];
      assert ColourPath(g, p, c);
      assert WalkWithin(g, p, c, from, trail[k], trail);
    } else {
      var m :| 0 <= m < k && Adjacent(trail[m], trail[k]);
      GrownCellsAreLinked(g, from, c, trail, m);
      var p :| WalkWithin(g, p, c, from, trail[m], trail);
      var p' := p + [trail[k]];
      ColourPathExtend(g, p, c, trail[k]);
      forall q | 1 <= q < |p'|
        ensures p'[q] in trail
      {
        if q < |p| {
          assert p'[q] == p[q];
        }
      }
      assert WalkWithin(g, p', c, from, trail[k], trail);
    }
  }

  /** A colour-`c` walk extends by one more adjacent cell of colour `c`. */
  lemma ColourPathExtend(g: array2<Cell>, p: seq<Coord>, c: char, y: Coord)
    requires ColourPath(g, p, c)
    requires InBounds(g, y) && At(g, y).color == c && Adjacent(p[|p| - 1], y)
    ensures ColourPath(g, p + [y], c)
  {
    var p' := p + [y];
    forall k | 0 <= k < |p'| - 1
      ensures Adjacent(p'[k], p'[k + 1])
    {
      if k < |p| - 1 {
        assert p'[k] == p[k] && p'[k + 1] == p[k + 1];
      }
    }
  }

  /** Completeness of the growth: when every visited cell has all its colour-`c` neighbours
      visited, a colour-`c` walk that starts at a visited cell never leaves the visited cells. */
  lemma {:induction false} WalksEndInExplored(g: array2<Cell>, c: char, seen: set<Coord>, p: seq<Coord>)
    requires ColourPath(g, p, c) && p[0] in seen
    requires forall x :: x in seen ==> Saturated(g, x, c, seen)
    ensures p[|p| - 1] in seen
    decreases |p|
  {
    if |p| > 1 {
      var prefix := p[..|p| - 1];
      assert ColourPath(g, prefix, c);
      WalksEndInExplored(g, c, seen, prefix);
      var x, y := p[|p| - 2], p[|p| - 1];
      assert Adjacent(x, y);
      assert Saturated(g, x, c, seen);
      assert !NewMatch(g, x, Up, c, seen) && !NewMatch(g, x, Right, c, seen) &&
        !NewMatch(g, x, Down, c, seen) && !NewMatch(g, x, Left, c, seen);
    }
  }

  /** A finished pass over a one-colour region leaves it one colour: the old members keep
      colour `c` and every visited cell has colour `c`. */
  lemma RegionStaysMonochrome(g: array2<Cell>, c: char, from: Coord, trail: seq<Coord>, m0: set<Coord>)
    requires forall x :: x in m0 ==> InBounds(g, x) && At(g, x).color == c
    requires RegionIs(g, m0, trail)
    requires Grown(g, from, c, trail)
    ensures MonochromeRegion(g, c)
  {
    forall i, j | 0 <= i < g.Length0 && 0 <= j < g.Length1 && g[i, j].member
      ensures g[i, j].color == c
    {
      var x := Coord(i, j);
      if x !in m0 {
        var k :| 0 <= k < |trail| && trail[k] == x;
      }
    }
  }

  /** Closure of the region: after a finished pass from `from`, over a region anchored at
      `from` whose cells all have colour `c`, no member has a non-member neighbour of colour
      `c`. Every old member is reached along its walk inside the region, and every visited
      cell has all its colour-`c` neighbours visited, hence flagged. */
  lemma SearchClosesRegion(g: array2<Cell>, c: char, from: Coord, trail: seq<Coord>, seen: set<Coord>, m0: set<Coord>)
    requires Anchored(m0, from)
    requires forall x :: x in m0 ==> InBounds(g, x) && At(g, x).color == c
    requires RegionIs(g, m0, trail)
    requires forall x :: x in seen <==> x == from || x in trail
    requires forall x :: x in seen ==> Saturated(g, x, c, seen)
    ensures Closed(g, c)
  {
    forall i, j | 0 <= i < g.Length0 && 0 <= j < g.Length1 && g[i, j].member
      ensures NoFresh(g, Coord(i, j), c)
    {
      var x := Coord(i, j);
      if x !in trail {
        assert x in m0;
        var p :| MemberWalk(m0, p, from, x);
        assert ColourPath(g, p, c);
        WalksEndInExplored(g, c, seen, p);
      }
      assert x in seen;
      assert Saturated(g, x, c, seen);
      forall d: Dir
        ensures !FreshMatch(g, x, d, c)
      {
        var y := Neighbour(x, d);
        if Matches(g, x, d, c) {
          assert !NewMatch(g, x, d, c, seen);
          assert y in seen;
          assert y == Coord(y.i, y.j);
        }
      }
    }
  }

  /** After a finished pass from `from` over a region anchored at `from`, the region is still
      anchored at `from`: old members keep their walks, visited cells are joined to `from`
      through visited cells. */
  lemma SearchKeepsAnchored(g: array2<Cell>, c: char, from: Coord, trail: seq<Coord>, m0: set<Coord>)
    requires Anchored(m0, from)
    requires forall x :: x in m0 ==> InBounds(g, x)
    requires RegionIs(g, m0, trail)
    requires Grown(g, from, c, trail)
    ensures Anchored(Members(g), from)
  {
    var region := Members(g);
    forall y | y in m0 || y in trail
      ensures y in region
    {
      assert y == Coord(y.i, y.j);
    }
    forall x | x in region
      ensures exists p :: MemberWalk(region, p, from, x)
    {
      if x in m0 {
        var p :| MemberWalk(m0, p, from, x);
        assert MemberWalk(region, p, from, x);
      } else {
        var k :| 0 <= k < |trail| && trail[k] == x;
        GrownCellsAreLinked(g, from, c, trail, k);
        var p :| WalkWithin(g, p, c, from, x, trail);
        assert MemberWalk(region, p, from, x);
      }
    }
  }

  // ---------------------------------------------------------------------------------------
  // A move and the win test

  /** One move of the game with colour `c`: the region, anchored at `anchor`, is repainted
      (`modif_color`) and then grown from the anchor (`Deep`). Cells outside the old region keep
      their colour, and the region gains exactly the visited cells: the colour-`c` cells reachable
      from the anchor. The region ends up one colour, closed and still anchored, so the next move
      starts from the same invariant. */
  method Move(c: char, g: array2<Cell>, anchor: Coord) returns (visited: seq<Coord>)
    requires Anchored(Members(g), anchor)
    modifies g
    ensures MonochromeRegion(g, c) && Closed(g, c) && Anchored(Members(g), anchor)
    // only the old region is repainted, and exactly the visited cells join it
    ensures forall i, j :: 0 <= i < g.Length0 && 0 <= j < g.Length1 ==>
      g[i, j].color == Repainted(old(g[i, j]), c).color
    ensures forall i, j :: 0 <= i < g.Length0 && 0 <= j < g.Length1 ==>
      (g[i, j].member <==> old(g[i, j].member) || Coord(i, j) in visited)
    ensures anchor !in visited && Distinct(visited) && Grown(g, anchor, c, visited)
    ensures forall p :: ColourPath(g, p, c) && p[0] == anchor ==> p[|p| - 1] == anchor || p[|p| - 1] in visited
  {
    assert anchor in Members(g);
    ModifColor(c, g);
    assert Members(g) == old(Members(g));
    visited := Deep(c, g, anchor, []);
  }

  /** On a non-empty region closed for colour `c`, a board all of colour `c` is entirely
      flooded: the region spreads along each row and then along each column. */
  lemma OneColourBoardIsFlooded(g: array2<Cell>, c: char, x: Coord)
    requires Closed(g, c)
    requires InBounds(g, x) && At(g, x).member
    requires forall i, j :: 0 <= i < g.Length0 && 0 <= j < g.Length1 ==> g[i, j].color == c
    ensures AllFlooded(g)
  {
    forall i, j | 0 <= i < g.Length0 && 0 <= j < g.Length1
      ensures g[i, j].member
    {
      SpreadAlongColumn(g, c, x.i, x.j, i);
      SpreadAlongRow(g, c, i, x.j, j);
    }
  }

  /** In a closed region on a one-colour board, a member flags its whole row. */
  lemma {:induction false} SpreadAlongRow(g: array2<Cell>, c: char, i: int, b: int, j: int)
    requires Closed(g, c)
    requires forall p, q :: 0 <= p < g.Length0 && 0 <= q < g.Length1 ==> g[p, q].color == c
    requires 0 <= i < g.Length0 && 0 <= b < g.Length1 && 0 <= j < g.Length1 && g[i, b].member
    ensures g[i, j].member
    decreases if j < b then b - j else j - b
  {
    if j < b {
      SpreadAlongRow(g, c, i, b, j + 1);
      assert !FreshMatch(g, Coord(i, j + 1), Left, c);
    } else if j > b {
      SpreadAlongRow(g, c, i, b, j - 1);
      assert !FreshMatch(g, Coord(i, j - 1), Right, c);
    }
  }

  /** In a closed region on a one-colour board, a member flags its whole column. */
  lemma {:induction false} SpreadAlongColumn(g: array2<Cell>, c: char, a: int, j: int, i: int)
    requires Closed(g, c)
    requires forall p, q :: 0 <= p < g.Length0 && 0 <= q < g.Length1 ==> g[p, q].color == c
    requires 0 <= a < g.Length0 && 0 <= i < g.Length0 && 0 <= j < g.Length1 && g[a, j].member
    ensures g[i, j].member
    decreases if i < a then a - i else i - a
  {
    if i < a {
      SpreadAlongColumn(g, c, a, j, i + 1);
      assert !FreshMatch(g, Coord(i + 1, j), Up, c);
    } else if i > a {
      SpreadAlongColumn(g, c, a, j, i - 1);
      assert !FreshMatch(g, Coord(i - 1, j), Down, c);
    }
  }

  /** The win test's promise: on a closed, one-colour, non-empty region, every cell is flooded
      exactly when the whole board has one colour. */
  lemma WinIffOneColour(g: array2<Cell>, c: char, x: Coord)
    requires Closed(g, c) && MonochromeRegion(g, c)
    requires InBounds(g, x) && At(g, x).member
    ensures AllFlooded(g) <==>
      forall i, j :: 0 <= i < g.Length0 && 0 <= j < g.Length1 ==> g[i, j].color == c
  {
    if AllFlooded(g) {
      FloodedBoardIsOneColour(g, c);
    }
    if forall i, j :: 0 <= i < g.Length0 && 0 <= j < g.Length1 ==> g[i, j].color == c {
      OneColourBoardIsFlooded(g, c, x);
    }
  }
}
