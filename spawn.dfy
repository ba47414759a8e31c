/** The enemy's starting cell: `placeEnemy` scans the finished grid in row
    order and keeps every path cell that is neither the player's nor the
    exit's cell and lies at least half the grid's height away from both. */
module Spawn {
  import opened Grid

  /** `Math.floor(maze.length / 2)`: the least Manhattan distance the enemy
      keeps from the player and from the exit. */
  function MinDistance(g: array2<Cell>): nat {
    g.Length0 / 2
  }

  /** A cell `placeEnemy` accepts as a start for the enemy. */
  predicate Eligible(g: array2<Cell>, player: Pos, exit: Pos, p: Pos)
    reads g
  {
    && InGrid(g, p) && g[p.row, p.col] == Path
    && p != player && p != exit
    && Manhattan(p, player) >= MinDistance(g) && Manhattan(p, exit) >= MinDistance(g)
  }

  /** `a` comes before `b` when the grid is read row by row. */
  predicate RowMajorBefore(a: Pos, b: Pos) {
    a.row < b.row || (a.row == b.row && a.col < b.col)
  }

  /** The list `pathCells` that `placeEnemy` builds: exactly the eligible
      cells, each once, in row-major order. */
  method SpawnCandidates(g: array2<Cell>, player: Pos, exit: Pos) returns (cells: seq<Pos>)
    ensures forall p :: p in cells <==> Eligible(g, player, exit, p)
    ensures forall i, j :: 0 <= i < j < |cells| ==> RowMajorBefore(cells[i], cells[j])
  {
    cells := [];
    for r := 0 to g.Length0
      invariant forall p :: p in cells <==> Eligible(g, player, exit, p) && p.row < r
      invariant forall i, j :: 0 <= i < j < |cells| ==> RowMajorBefore(cells[i], cells[j])
      invariant forall i :: 0 <= i < |cells| ==> cells[i].row < r
    {
      for c := 0 to g.Length1
        invariant forall p :: p in cells <==> Eligible(g, player, exit, p) && RowMajorBefore(p, Pos(r, c))
        invariant forall i, j :: 0 <= i < j < |cells| ==> RowMajorBefore(cells[i], cells[j])
        invariant forall i :: 0 <= i < |cells| ==> RowMajorBefore(cells[i], Pos(r, c))
      {
        var here := Pos(r, c);
        if g[r, c] == Path && here != player && here != exit {
          if Manhattan(here, player) >= MinDistance(g) && Manhattan(here, exit) >= MinDistance(g) {
            cells := cells + [here];
          }
        }
      }
    }
  }

  /** On a square grid of size at least 3 whose top-right corner is a path,
      with the player in the top-left corner and the exit in the bottom-right
      one, the top-right corner is eligible: on a built grid `placeEnemy`
      never needs its fallback. */
  lemma TopRightEligible(g: array2<Cell>, exit: Pos)
    requires g.Length0 == g.Length1 && g.Length0 >= 3
    requires exit == Pos(g.Length0 - 1, g.Length0 - 1)
    requires g[0, g.Length0 - 1] == Path
    ensures Eligible(g, Pos(0, 0), exit, Pos(0, g.Length0 - 1))
  {
  }
}
