/** The recursive-backtracker maze generator: a randomized depth-first search
    over the lattice of even cells, with an explicit stack, that carves the
    cell halfway between a lattice cell and each newly visited neighbour. */
module Carving {
  import opened Grid

  /** The cells two away from `p`, in the order the generator lists them:
      up, down, left, right. */
  function Jumps(p: Pos): seq<Pos> {
    [Jump(p, Up), Jump(p, Down), Jump(p, Left), Jump(p, Right)]
  }

  /** The position of `q` in `Jumps(p)` (3 for anything that is not among
      the first three). */
  function JumpRank(p: Pos, q: Pos): nat {
    if q == Jump(p, Up) then 0
    else if q == Jump(p, Down) then 1
    else if q == Jump(p, Left) then 2
    else 3
  }

  /** `getUnvisitedNeighbors`: the in-bounds cells two away from `cell` that
      are still walls, in up, down, left, right order. */
  method UnvisitedNeighbors(g: array2<Cell>, cell: Pos) returns (ns: seq<Pos>)
    ensures forall q :: q in ns <==> q in Jumps(cell) && InGrid(g, q) && At(g, q) == Wall
    ensures forall i, j :: 0 <= i < j < |ns| ==> JumpRank(cell, ns[i]) < JumpRank(cell, ns[j])
    ensures |ns| <= 4
  {
    ns := [];
    for k := 0 to 4
      invariant forall q :: q in ns <==> q in Jumps(cell)[..k] && InGrid(g, q) && At(g, q) == Wall
      invariant forall i, j :: 0 <= i < j < |ns| ==> JumpRank(cell, ns[i]) < JumpRank(cell, ns[j])
      invariant forall i :: 0 <= i < |ns| ==> JumpRank(cell, ns[i]) < k
      invariant |ns| <= k
    {
      var next := Jump(cell, Directions[k]);
      assert next == Jumps(cell)[k] && JumpRank(cell, next) == k;
      assert Jumps(cell)[..k + 1] == Jumps(cell)[..k] + [next];
      if 0 <= next.row < g.Length0 && 0 <= next.col < g.Length1 && g[next.row, next.col] == Wall {
        ns := ns + [next];
      }
    }
    assert Jumps(cell)[..4] == Jumps(cell);
  }

  /** `removeWall`: turns the cell halfway between two cells that are two
      apart into a path and changes nothing else. */
  method RemoveWall(g: array2<Cell>, current: Pos, next: Pos)
    requires TwoApart(current, next) && InGrid(g, current) && InGrid(g, next)
    modifies g
    ensures InGrid(g, Midpoint(current, next))
    ensures forall r, c :: 0 <= r < g.Length0 && 0 <= c < g.Length1 ==>
      g[r, c] == if Pos(r, c) == Midpoint(current, next) then Path else old(g[r, c])
  {
    var wall := Midpoint(current, next);
    g[wall.row, wall.col] := Path;
  }

  /** `q` is outside the n-by-n grid or in `paths`. */
  ghost predicate Reached(paths: set<Pos>, n: int, q: Pos) {
    0 <= q.row < n && 0 <= q.col < n ==> q in paths
  }

  /** Every in-grid cell two away from `p` is carved: the search has nothing
      left to visit from `p`. */
  ghost predicate Explored(paths: set<Pos>, n: int, p: Pos) {
    && Reached(paths, n, Jump(p, Up)) && Reached(paths, n, Jump(p, Down))
    && Reached(paths, n, Jump(p, Left)) && Reached(paths, n, Jump(p, Right))
  }

  /** Some orthogonal neighbour of (r, c) is in the grid and a path. */
  ghost predicate HasPathNeighbour(g: array2<Cell>, r: int, c: int)
    reads g
  {
    || (0 < r <= g.Length0 && 0 <= c < g.Length1 && g[r - 1, c] == Path)
    || (0 <= r < g.Length0 - 1 && 0 <= c < g.Length1 && g[r + 1, c] == Path)
    || (0 <= r < g.Length0 && 0 < c <= g.Length1 && g[r, c - 1] == Path)
    || (0 <= r < g.Length0 && 0 <= c < g.Length1 - 1 && g[r, c + 1] == Path)
  }

  /** The shape of a carved cell: never two odd coordinates; with one odd
      coordinate it lies between two carved lattice cells, both in the grid;
      on the lattice and other than (0,0), it has a carved neighbour. */
  ghost predicate PathShape(g: array2<Cell>, p: Pos)
    reads g
    requires InGrid(g, p)
  {
    var r, c := p.row, p.col;
    && !(r % 2 == 1 && c % 2 == 1)
    && (r % 2 == 1 ==> r + 1 < g.Length0 && g[r - 1, c] == Path && g[r + 1, c] == Path)
    && (c % 2 == 1 ==> c + 1 < g.Length1 && g[r, c - 1] == Path && g[r, c + 1] == Path)
    && (r % 2 == 0 && c % 2 == 0 && (r != 0 || c != 0) ==> HasPathNeighbour(g, r, c))
  }

  /** The shape of one cell while the grid is being carved: it is no exit,
      and if it is a path it has the shape of a carved cell. */
  ghost predicate CarvedAt(g: array2<Cell>, r: int, c: int)
    reads g
    requires 0 <= r < g.Length0 && 0 <= c < g.Length1
  {
    g[r, c] != Exit && (g[r, c] == Path ==> PathShape(g, Pos(r, c)))
  }

  /** The shape every grid has while it is being carved. */
  ghost predicate Carved(g: array2<Cell>)
    reads g
  {
    forall r, c :: 0 <= r < g.Length0 && 0 <= c < g.Length1 ==> CarvedAt(g, r, c)
  }

  /** The cells that are paths. */
  ghost function PathCells(g: array2<Cell>): set<Pos>
    reads g
  {
    set r, c | 0 <= r < g.Length0 && 0 <= c < g.Length1 && g[r, c] == Path :: Pos(r, c)
  }

  /** What `generateMaze` leaves behind for a size of at least 1. */
  ghost predicate Generated(g: array2<Cell>)
    reads g
  {
    && g.Length0 == g.Length1 >= 1
    && Carved(g)
    && g[0, 0] == Path
    && (forall r, c :: 0 <= r < g.Length0 && 0 <= c < g.Length0 && r % 2 == 0 && c % 2 == 0 ==> g[r, c] == Path)
    && |PathCells(g)| == 2 * |LatticeCells(g.Length0)| - 1
  }

  /** While the search runs, the grid holds walls and paths only, and its
      paths are exactly the cells of `paths`. */
  ghost predicate Tracks(g: array2<Cell>, paths: set<Pos>)
    reads g
  {
    && (forall r, c :: 0 <= r < g.Length0 && 0 <= c < g.Length1 ==>
          g[r, c] == if Pos(r, c) in paths then Path else Wall)
    && (forall p :: p in paths ==> InGrid(g, p))
  }

  /** `PathShape` stated on the set of carved cells of an n-by-n grid
      rather than on the array. The carving loop keeps this form, which no
      write to the array can disturb; `CellShape` carries it over to
      `PathShape` once the grid tracks the set. */
  ghost predicate ShapeAt(paths: set<Pos>, n: int, p: Pos) {
    var r, c := p.row, p.col;
    && 0 <= r < n && 0 <= c < n
    && !(r % 2 == 1 && c % 2 == 1)
    && (r % 2 == 1 ==> Pos(r - 1, c) in paths && Pos(r + 1, c) in paths)
    && (c % 2 == 1 ==> Pos(r, c - 1) in paths && Pos(r, c + 1) in paths)
    && (r % 2 == 0 && c % 2 == 0 && p != Pos(0, 0) ==>
          Step(p, Up) in paths || Step(p, Down) in paths || Step(p, Left) in paths || Step(p, Right) in paths)
  }

  /** Every carved cell has the shape of a carved cell. */
  ghost predicate Shaped(paths: set<Pos>, n: int) {
    forall p {:trigger ShapeAt(paths, n, p)} :: p in paths ==> ShapeAt(paths, n, p)
  }

  /** A grid that tracks a well-shaped set of carved cells is carved. */
  lemma ShapedIsCarved(g: array2<Cell>, paths: set<Pos>)
    requires g.Length0 == g.Length1
    requires Tracks(g, paths) && Shaped(paths, g.Length0)
    ensures Carved(g)
  {
    forall r, c | 0 <= r < g.Length0 && 0 <= c < g.Length1 ensures CarvedAt(g, r, c) {
      if Pos(r, c) in paths {
        CellShape(g, paths, Pos(r, c));
      }
    }
  }

  /** One carved cell of a tracked, well-shaped set has the shape of a
      carved cell in the grid. */
  lemma CellShape(g: array2<Cell>, paths: set<Pos>, p: Pos)
    requires g.Length0 == g.Length1
    requires Tracks(g, paths) && Shaped(paths, g.Length0) && p in paths
    ensures InGrid(g, p) && PathShape(g, p)
  {
    assert ShapeAt(paths, g.Length0, p);
    var r, c := p.row, p.col;
    if r % 2 == 0 && c % 2 == 0 && p != Pos(0, 0) {
      if Step(p, Up) in paths {
        assert g[r - 1, c] == Path;
      } else if Step(p, Down) in paths {
        assert g[r + 1, c] == Path;
      } else if Step(p, Left) in paths {
        assert g[r, c - 1] == Path;
      } else {
        assert g[r, c + 1] == Path;
      }
    }
  }

  /** If (0,0) is visited, every carved lattice cell is visited, and every
      visited cell is explored, then every lattice cell is visited: the
      lattice is connected by jumps. */
  lemma {:induction false} Coverage(paths: set<Pos>, visited: set<Pos>, n: int, r: int, c: int)
    requires Pos(0, 0) in visited
    requires forall p :: p in paths && OnLattice(p) ==> p in visited
    requires forall p {:trigger Explored(paths, n, p)} :: p in visited ==> Explored(paths, n, p)
    requires 0 <= r < n && 0 <= c < n && r % 2 == 0 && c % 2 == 0
    ensures Pos(r, c) in visited
    decreases r + c
  {
    if r > 0 {
      Coverage(paths, visited, n, r - 2, c);
      ReachedByJump(paths, visited, n, Pos(r - 2, c), Down);
    } else if c > 0 {
      Coverage(paths, visited, n, r, c - 2);
      ReachedByJump(paths, visited, n, Pos(r, c - 2), Right);
    }
  }

  /** A lattice cell two away from a visited cell, inside the grid, is
      visited too. */
  lemma ReachedByJump(paths: set<Pos>, visited: set<Pos>, n: int, p: Pos, d: Direction)
    requires forall p :: p in paths && OnLattice(p) ==> p in visited
    requires forall p {:trigger Explored(paths, n, p)} :: p in visited ==> Explored(paths, n, p)
    requires p in visited && OnLattice(p)
    requires 0 <= Jump(p, d).row < n && 0 <= Jump(p, d).col < n
    ensures Jump(p, d) in visited
  {
    assert Explored(paths, n, p);
    assert Reached(paths, n, Jump(p, d));
  }

  /** A cell with no unvisited neighbour is explored. */
  lemma NoNeighbourExplored(g: array2<Cell>, paths: set<Pos>, p: Pos)
    requires g.Length0 == g.Length1
    requires Tracks(g, paths)
    requires forall q :: q in Jumps(p) ==> !(InGrid(g, q) && At(g, q) == Wall)
    ensures Explored(paths, g.Length0, p)
  {
    forall d | InGrid(g, Jump(p, d)) ensures Jump(p, d) in paths {
      assert Jump(p, d) in Jumps(p);
    }
  }

  /** A jump from a lattice cell lands on the lattice, and the cell between
      has one odd coordinate, with the two ends as its neighbours along it. */
  lemma JumpGeometry(current: Pos, next: Pos)
    requires OnLattice(current) && next in Jumps(current)
    ensures TwoApart(current, next) && OnLattice(next)
    ensures var m := Midpoint(current, next);
      || (m.row % 2 == 1 && m.col % 2 == 0 && {Pos(m.row - 1, m.col), Pos(m.row + 1, m.col)} == {current, next})
      || (m.col % 2 == 1 && m.row % 2 == 0 && {Pos(m.row, m.col - 1), Pos(m.row, m.col + 1)} == {current, next})
  {
    var m := Midpoint(current, next);
    if next == Jump(current, Up) {
      assert m == Pos(current.row - 1, current.col);
    } else if next == Jump(current, Down) {
      assert m == Pos(current.row + 1, current.col);
    } else if next == Jump(current, Left) {
      assert m == Pos(current.row, current.col - 1);
    } else {
      assert m == Pos(current.row, current.col + 1);
    }
  }

  /** The cell between a carved lattice cell and an uncarved lattice cell
      two away is uncarved too: a carved cell between them would have both
      of them as carved neighbours. */
  lemma MidpointUncarved(paths: set<Pos>, n: int, current: Pos, next: Pos)
    requires Shaped(paths, n) && OnLattice(current) && next in Jumps(current) && next !in paths
    ensures TwoApart(current, next) && Midpoint(current, next) !in paths
  {
    JumpGeometry(current, next);
    var m := Midpoint(current, next);
    assert m in paths ==> ShapeAt(paths, n, m);
  }

  /** Carving from `current` towards the fresh cell `next` keeps every
      carved cell well shaped: the two new cells lie between carved cells
      and next to a carved cell, and the old cells only gain neighbours. */
  lemma CarveKeepsShape(paths: set<Pos>, n: int, current: Pos, next: Pos)
    requires Shaped(paths, n) && current in paths && OnLattice(current) && next in Jumps(current)
    requires 0 <= next.row < n && 0 <= next.col < n && 0 <= current.row < n && 0 <= current.col < n
    ensures TwoApart(current, next)
    ensures Shaped(paths + {Midpoint(current, next), next}, n)
  {
    JumpGeometry(current, next);
    var m := Midpoint(current, next);
    var paths' := paths + {m, next};
    forall p | p in paths' ensures ShapeAt(paths', n, p) {
      if p in paths {
        assert ShapeAt(paths, n, p);
      } else if p == next {
        assert Step(next, Up) == m || Step(next, Down) == m || Step(next, Left) == m || Step(next, Right) == m;
      }
    }
  }

  /** One carve of the search: the cell between `current` and `next`, then
      `next` itself, become paths. Both were walls, so exactly two cells
      join the carved set, and they keep it well shaped. */
  method CarveTowards(g: array2<Cell>, current: Pos, next: Pos, ghost paths: set<Pos>)
    requires g.Length0 == g.Length1
    requires Tracks(g, paths) && Shaped(paths, g.Length0)
    requires current in paths && OnLattice(current)
    requires next in Jumps(current) && InGrid(g, next) && At(g, next) == Wall
    modifies g
    ensures TwoApart(current, next) && OnLattice(next) && !OnLattice(Midpoint(current, next))
    ensures Midpoint(current, next) !in paths && next !in paths
    ensures Tracks(g, paths + {Midpoint(current, next), next})
    ensures Shaped(paths + {Midpoint(current, next), next}, g.Length0)
  {
    JumpGeometry(current, next);
    MidpointUncarved(paths, g.Length0, current, next);
    CarveKeepsShape(paths, g.Length0, current, next);
    RemoveWall(g, current, next);
    g[next.row, next.col] := Path;
  }

  /** The bookkeeping of the search, stated without the grid: `visited` is
      the set of carved lattice cells, all of them reached from (0,0); the
      stack and the current cell are visited; every visited cell that is
      neither on the stack nor current has been fully explored; each visit
      after the first carved two cells; and `todo` still holds every cell of
      the grid that is not carved. */
  ghost predicate SearchState(paths: set<Pos>, visited: set<Pos>, stack: seq<Pos>, current: Pos,
                              todo: set<Pos>, n: int)
  {
    && (forall p :: p in visited <==> p in paths && OnLattice(p))
    && Pos(0, 0) in visited && current in visited
    && (forall k :: 0 <= k < |stack| ==> stack[k] in visited)
    && (|stack| >= 1 ==> stack[0] == Pos(0, 0))
    && (|stack| >= 2 ==> stack[1] == Pos(0, 0))
    && (|stack| == 1 ==> current == Pos(0, 0))
    && (|stack| == 0 ==> Explored(paths, n, current))
    && (forall p {:trigger Explored(paths, n, p)} ::
          p in visited && p !in stack && p != current ==> Explored(paths, n, p))
    && |paths| == 2 * |visited| - 1
    && (forall p: Pos :: 0 <= p.row < n && 0 <= p.col < n && p !in paths ==> p in todo)
  }

  /** The state of the search right after (0,0) is carved and pushed. */
  lemma InitialState(n: int)
    requires n >= 1
    ensures SearchState({Pos(0, 0)}, {Pos(0, 0)}, [Pos(0, 0)], Pos(0, 0), AllCells(n), n)
  {
    forall p: Pos | 0 <= p.row < n && 0 <= p.col < n && p !in {Pos(0, 0)} ensures p in AllCells(n) {
      assert p == Pos(p.row, p.col);
    }
  }

  /** Advancing from `current` to a fresh lattice cell `next` through the
      fresh cell `wall` keeps the bookkeeping, and shrinks `todo`. */
  lemma {:induction false} AdvanceState(paths: set<Pos>, visited: set<Pos>, stack: seq<Pos>, current: Pos,
                                         todo: set<Pos>, n: int, wall: Pos, next: Pos)
    requires SearchState(paths, visited, stack, current, todo, n) && |stack| > 0
    requires wall !in paths && next !in paths && wall != next && OnLattice(next) && !OnLattice(wall)
    requires 0 <= wall.row < n && 0 <= wall.col < n && 0 <= next.row < n && 0 <= next.col < n
    ensures wall in todo && next in todo
    ensures SearchState(paths + {wall, next}, visited + {next}, stack + [current], next,
                        todo - {wall, next}, n)
  {
    var paths', visited', stack' := paths + {wall, next}, visited + {next}, stack + [current];
    forall p | p in visited' && p !in stack' && p != next ensures Explored(paths', n, p) {
      assert p in visited && p !in stack && p != current;
      assert Explored(paths, n, p);
    }
    assert next !in visited;
    assert |visited'| == |visited| + 1;
    forall k | 0 <= k < |stack'| ensures stack'[k] in visited' {
      if k < |stack| {
        assert stack'[k] == stack[k];
      }
    }
  }

  /** Backtracking from an explored `current` to the top of the stack keeps
      the bookkeeping. */
  lemma {:induction false} BacktrackState(paths: set<Pos>, visited: set<Pos>, stack: seq<Pos>, current: Pos,
                                           todo: set<Pos>, n: int)
    requires SearchState(paths, visited, stack, current, todo, n)
    requires |stack| > 0 && Explored(paths, n, current)
    ensures SearchState(paths, visited, stack[..|stack| - 1], stack[|stack| - 1], todo, n)
  {
    var top, rest := stack[|stack| - 1], stack[..|stack| - 1];
    assert stack == rest + [top];
    forall p | p in visited && p !in rest && p != top ensures Explored(paths, n, p) {
      if p != current {
        assert p !in stack;
      }
    }
    forall k | 0 <= k < |rest| ensures rest[k] in visited {
      assert rest[k] == stack[k];
    }
  }

  /** One round of the loop of `generateMaze`: carve towards a random
      unvisited neighbour of the current cell and push the current cell, or,
      when there is none, pop the stack. The bookkeeping is kept, and either
      fewer cells are left uncarved or the stack shrinks. The step carves
      exactly when the current cell has an uncarved cell two away in the
      grid, and then carves one such cell and the wall before it. */
  method SearchStep(g: array2<Cell>, stack: seq<Pos>, current: Pos, ghost paths: set<Pos>,
                    ghost visited: set<Pos>, ghost todo: set<Pos>)
    returns (stack': seq<Pos>, current': Pos, ghost paths': set<Pos>, ghost visited': set<Pos>,
             ghost todo': set<Pos>)
    requires g.Length0 == g.Length1
    requires Tracks(g, paths) && Shaped(paths, g.Length0)
    requires SearchState(paths, visited, stack, current, todo, g.Length0) && |stack| > 0
    modifies g
    ensures Tracks(g, paths') && Shaped(paths', g.Length0)
    ensures SearchState(paths', visited', stack', current', todo', g.Length0)
    ensures todo' < todo || (todo' == todo && |stack'| < |stack|)
    ensures || (&& current' in Jumps(current) && InGrid(g, current') && current' !in paths
                && stack' == stack + [current]
                && paths' == paths + {Midpoint(current, current'), current'}
                && visited' == visited + {current'}
                && todo' == todo - {Midpoint(current, current'), current'})
            || (&& Explored(paths, g.Length0, current)
                && stack' == stack[..|stack| - 1] && current' == stack[|stack| - 1]
                && paths' == paths && visited' == visited && todo' == todo)
  {
    assert current in visited;
    var neighbors := UnvisitedNeighbors(g, current);
    if |neighbors| > 0 {
      var i :| 0 <= i < |neighbors|;
      var next := neighbors[i];
      CarveTowards(g, current, next, paths);
      ghost var wall := Midpoint(current, next);
      AdvanceState(paths, visited, stack, current, todo, g.Length0, wall, next);
      stack', current' := stack + [current], next;
      paths', visited', todo' := paths + {wall, next}, visited + {next}, todo - {wall, next};
    } else {
      NoNeighbourExplored(g, paths, current);
      BacktrackState(paths, visited, stack, current, todo, g.Length0);
      stack', current' := stack[..|stack| - 1], stack[|stack| - 1];
      paths', visited', todo' := paths, visited, todo;
    }
  }

  /** `generateMaze` (without the player reset): starts from an all-wall grid,
      carves (0,0), and runs the stack-driven search until the stack is empty.
      Every lattice cell ends up carved, and each of the other carved cells
      joins two of them, so the path cells number 2 * lattice - 1. */
  method Generate(size: int) returns (g: array2<Cell>)
    requires size >= 1
    ensures fresh(g) && g.Length0 == size && g.Length1 == size
    ensures Generated(g)
  {
    g := new Cell[size, size]((_, _) => Wall);
    var stack: seq<Pos> := [];
    var current := Pos(0, 0);
    g[current.row, current.col] := Path;
    stack := stack + [current];
    ghost var paths: set<Pos> := {current};
    ghost var visited: set<Pos> := {current};
    ghost var todo: set<Pos> := AllCells(size);
    InitialState(size);

    while |stack| > 0
      invariant g.Length0 == size && g.Length1 == size
      invariant Tracks(g, paths) && Shaped(paths, size)
      invariant SearchState(paths, visited, stack, current, todo, size)
      decreases todo, |stack|
    {
      stack, current, paths, visited, todo := SearchStep(g, stack, current, paths, visited, todo);
    }
    SearchComplete(g, paths, visited, current, todo);
  }

  /** When the stack runs empty, every lattice cell has been visited, so the
      grid is a finished maze. */
  lemma SearchComplete(g: array2<Cell>, paths: set<Pos>, visited: set<Pos>, current: Pos, todo: set<Pos>)
    requires g.Length0 == g.Length1 >= 1
    requires Tracks(g, paths) && Shaped(paths, g.Length0)
    requires SearchState(paths, visited, [], current, todo, g.Length0)
    ensures Generated(g)
  {
    var n := g.Length0;
    ShapedIsCarved(g, paths);
    forall r, c | 0 <= r < n && 0 <= c < n && r % 2 == 0 && c % 2 == 0
      ensures g[r, c] == Path
    {
      Coverage(paths, visited, n, r, c);
    }
    assert visited == LatticeCells(n) by {
      forall p | p in LatticeCells(n) ensures p in visited {
        assert g[p.row, p.col] == Path;
      }
    }
    assert paths == PathCells(g) by {
      forall p | p in paths ensures p in PathCells(g) {
        assert g[p.row, p.col] == Path;
      }
    }
  }

  /** On an odd size of at least 3, the exit corner is carved and reached
      through the cell above it or the cell to its left. */
  lemma OddCornerOpen(g: array2<Cell>)
    requires Generated(g)
    requires g.Length0 % 2 == 1 && g.Length0 >= 3
    ensures g[g.Length0 - 2, g.Length0 - 1] == Path || g[g.Length0 - 1, g.Length0 - 2] == Path
  {
    var n := g.Length0;
    assert g[n - 1, n - 1] == Path;
    assert CarvedAt(g, n - 1, n - 1);
  }

  /** A carved grid has no exit cell. */
  lemma NoExit(g: array2<Cell>)
    requires Carved(g)
    ensures forall r, c :: 0 <= r < g.Length0 && 0 <= c < g.Length1 ==> g[r, c] != Exit
  {
    forall r, c | 0 <= r < g.Length0 && 0 <= c < g.Length1 ensures g[r, c] != Exit {
      assert CarvedAt(g, r, c);
    }
  }

  /** On an even size of at least 2, the exit corner and both of its
      in-grid neighbours are walls: no carve ever reaches them. */
  lemma EvenCornerWalled(g: array2<Cell>)
    requires Carved(g) && g.Length0 == g.Length1
    requires g.Length0 % 2 == 0 && g.Length0 >= 2
    ensures g[g.Length0 - 1, g.Length0 - 1] == Wall
    ensures g[g.Length0 - 2, g.Length0 - 1] == Wall && g[g.Length0 - 1, g.Length0 - 2] == Wall
  {
    var n := g.Length0;
    assert CarvedAt(g, n - 1, n - 1) && CarvedAt(g, n - 2, n - 1) && CarvedAt(g, n - 1, n - 2);
  }

  /** A generated grid holds `2 * ceil(n/2)^2 - 1` path cells: the lattice
      cells and one opened wall for each of the tree's edges. */
  lemma PathCount(g: array2<Cell>)
    requires Generated(g)
    ensures |PathCells(g)| == 2 * (((g.Length0 + 1) / 2) * ((g.Length0 + 1) / 2)) - 1
  {
    LatticeSize(g.Length0);
  }

  /** No cell with two odd coordinates is ever carved. */
  lemma OddOddWalled(g: array2<Cell>)
    requires Carved(g)
    ensures forall r, c :: 0 <= r < g.Length0 && 0 <= c < g.Length1 && r % 2 == 1 && c % 2 == 1 ==>
      g[r, c] == Wall
  {
    forall r, c | 0 <= r < g.Length0 && 0 <= c < g.Length1 && r % 2 == 1 && c % 2 == 1
      ensures g[r, c] == Wall
    {
      assert CarvedAt(g, r, c);
    }
  }
}
