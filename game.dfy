/** The game session: the variables the page's handlers share (the grid, the
    player, the enemy, the exit, the clock, the game-over flag and the status
    line), `startGame` and its steps, the arrow-key handler, the enemy's and
    the clock's interval callbacks, and the win/loss check. */
module Session {
  import opened Grid
  import Carving
  import Spawn
  import Shuffle

  /** The text of the status line. */
  datatype Status =
    | Blank       // ""
    | Navigating  // "Navigate the maze and avoid the enemy!"
    | Escaped     // "You escaped the maze!"
    | Caught      // "The enemy caught you! Game over."

  datatype Option<T> = None | Some(value: T)

  /** The `e.key` name of an arrow key. */
  function KeyName(d: Direction): string {
    match d
    case Up => "ArrowUp"
    case Down => "ArrowDown"
    case Left => "ArrowLeft"
    case Right => "ArrowRight"
  }

  /** The arrow a key names, if it names one; the handler ignores other keys. */
  function KeyDirection(key: string): (d: Option<Direction>)
    ensures d.Some? ==> KeyName(d.value) == key
    ensures forall e :: KeyName(e) == key ==> d == Some(e)
  {
    if key == "ArrowUp" then Some(Up)
    else if key == "ArrowDown" then Some(Down)
    else if key == "ArrowLeft" then Some(Left)
    else if key == "ArrowRight" then Some(Right)
    else None
  }

  /** Every field of a `Game`, as one value. */
  datatype Fields = Fields(
    maze: array2<Cell>, player: Pos, enemy: Pos, exit: Pos, previousEnemy: Pos,
    timeElapsed: nat, gameOver: bool, status: Status, timerRunning: bool, enemyRunning: bool)

  /** `isValidMove`: a cell the player or the enemy may step onto, inside
      the grid and not a wall (so the exit may be entered). It takes the
      grid as a parameter, so that facts about a game's cells are framed by
      the grid alone and survive updates to the other fields. */
  predicate IsValidMove(g: array2<Cell>, p: Pos)
    reads g
  {
    InGrid(g, p) && g[p.row, p.col] != Wall
  }

  /** A game in progress on grid `g`: the grid is square, its only exit is
      the bottom-right corner, and the player and the enemy stand on
      passable cells. */
  ghost predicate InPlay(g: array2<Cell>, exit: Pos, player: Pos, enemy: Pos)
    reads g
  {
    var n := g.Length0;
    && n == g.Length1 && n >= 1
    && exit == Pos(n - 1, n - 1) && g[n - 1, n - 1] == Exit
    && (forall r, c :: 0 <= r < n && 0 <= c < n && g[r, c] == Exit ==> r == n - 1 && c == n - 1)
    && IsValidMove(g, player) && IsValidMove(g, enemy)
  }

  /** The grid `startGame` has built when nothing failed: square, of odd
      size, its only exit the bottom-right corner, every other lattice cell
      a path, and every cell with two odd coordinates a wall. */
  ghost predicate BuiltGrid(g: array2<Cell>, exit: Pos)
    reads g
  {
    var n := g.Length0;
    && n == g.Length1 && n >= 1 && n % 2 == 1
    && exit == Pos(n - 1, n - 1) && g[n - 1, n - 1] == Exit
    && (forall r, c :: 0 <= r < n && 0 <= c < n && g[r, c] == Exit ==> r == n - 1 && c == n - 1)
    && (forall r, c :: 0 <= r < n && 0 <= c < n && r % 2 == 0 && c % 2 == 0 && Pos(r, c) != exit ==>
          g[r, c] == Path)
    && (forall r, c :: 0 <= r < n && 0 <= c < n && r % 2 == 1 && c % 2 == 1 ==> g[r, c] == Wall)
  }

  /** The grid an even size leaves behind when the exit repair fails: square,
      with no exit cell; the corner (set by `placeExit`) and the cell above
      it (set by the repair) are paths, the cell left of the corner is a
      wall, every lattice cell is a path, and every other cell with two odd
      coordinates is a wall. Play goes on over this grid. */
  ghost predicate HalfBuiltGrid(g: array2<Cell>)
    reads g
  {
    var n := g.Length0;
    && n == g.Length1 && n >= 2 && n % 2 == 0
    && (forall r, c :: 0 <= r < n && 0 <= c < n ==> g[r, c] != Exit)
    && g[n - 1, n - 1] == Path && g[n - 2, n - 1] == Path && g[n - 1, n - 2] == Wall
    && (forall r, c :: 0 <= r < n && 0 <= c < n && r % 2 == 0 && c % 2 == 0 ==> g[r, c] == Path)
    && (forall r, c :: 0 <= r < n && 0 <= c < n && r % 2 == 1 && c % 2 == 1 && (r, c) != (n - 1, n - 1) ==>
          g[r, c] == Wall)
  }

  /** The enemy at `from`, having come from `before`, may step in direction
      `d`: the neighbour there is passable and is not `before`. */
  predicate Acceptable(g: array2<Cell>, from: Pos, before: Pos, d: Direction)
    reads g
  {
    IsValidMove(g, Step(from, d)) && Step(from, d) != before
  }

  /** The enemy has somewhere to go. */
  ghost predicate CanLeave(g: array2<Cell>, from: Pos, before: Pos)
    reads g
  {
    exists d :: Acceptable(g, from, before, d)
  }

  /** The direction search inside the enemy's interval: the four directions
      in a shuffled order, the first whose neighbour is passable and is not
      `before`. It finds one exactly when there is one. */
  method ChooseEnemyMove(g: array2<Cell>, from: Pos, before: Pos) returns (moved: bool, next: Pos)
    ensures moved <==> CanLeave(g, from, before)
    ensures moved ==> IsValidMove(g, next) && next != before && Manhattan(from, next) == 1
  {
    var directions := new Direction[] [Up, Down, Left, Right];
    assert directions[..] == Directions;
    Shuffle.ShuffleArray(directions);
    for k := 0 to 4
      invariant forall m :: 0 <= m < k ==> !Acceptable(g, from, before, directions[m])
    {
      if Acceptable(g, from, before, directions[k]) {
        return true, Step(from, directions[k]);
      }
    }
    forall d ensures !Acceptable(g, from, before, d) {
      EveryDirection(d);
      assert d in multiset(directions[..]);
    }
    return false, from;
  }

  class Game {
    var maze: array2<Cell>
    var player: Pos
    var enemy: Pos
    var exit: Pos
    /** `previousEnemyPosition`, the cell the enemy's interval remembers. */
    var previousEnemy: Pos
    var timeElapsed: nat
    var gameOver: bool
    var status: Status
    /** Whether the one-second clock interval is registered. */
    var timerRunning: bool
    /** Whether the enemy's 800 ms interval is registered. */
    var enemyRunning: bool

    /** The state when the page has loaded: an empty grid, everything at
        (0,0), no interval running. */
    constructor ()
      ensures maze.Length0 == 0 && maze.Length1 == 0
      ensures player == Pos(0, 0) && enemy == Pos(0, 0) && exit == Pos(0, 0)
      ensures timeElapsed == 0 && !gameOver && status == Blank && !timerRunning && !enemyRunning
    {
      maze := new Cell[0, 0];
      player, enemy, exit, previousEnemy := Pos(0, 0), Pos(0, 0), Pos(0, 0), Pos(0, 0);
      timeElapsed := 0;
      gameOver := false;
      status := Blank;
      timerRunning, enemyRunning := false, false;
    }

    function State(): Fields
      reads this
    {
      Fields(maze, player, enemy, exit, previousEnemy, timeElapsed, gameOver, status, timerRunning, enemyRunning)
    }

    /** `checkGameState`: reaching the exit wins, and is checked first;
        otherwise meeting the enemy loses. Either ends the game and stops
        both intervals; in every other case nothing changes. */
    method CheckGameState()
      modifies this
      ensures old(player) == old(exit) ==>
        State() == old(State()).(status := Escaped, gameOver := true, timerRunning := false, enemyRunning := false)
      ensures old(player) != old(exit) && old(player) == old(enemy) ==>
        State() == old(State()).(status := Caught, gameOver := true, timerRunning := false, enemyRunning := false)
      ensures old(player) != old(exit) && old(player) != old(enemy) ==> State() == old(State())
    {
      if player == exit {
        status := Escaped;
        timerRunning, enemyRunning := false, false;
        gameOver := true;
      } else if player == enemy {
        status := Caught;
        timerRunning, enemyRunning := false, false;
        gameOver := true;
      }
    }

    /** The `keydown` handler. Once the game is over it does nothing; an
        arrow key moves the player one cell when that cell is passable, and
        only then is the game state checked. */
    method KeyDown(key: string)
      modifies this
      ensures old(gameOver) || KeyDirection(key).None? ==> State() == old(State())
      ensures !old(gameOver) && KeyDirection(key).Some? ==>
        var target := Step(old(player), KeyDirection(key).value);
        && (!IsValidMove(maze, target) ==> State() == old(State()))
        && (IsValidMove(maze, target) && target == old(exit) ==>
              State() == old(State()).(player := target, status := Escaped, gameOver := true,
                                       timerRunning := false, enemyRunning := false))
        && (IsValidMove(maze, target) && target != old(exit) && target == old(enemy) ==>
              State() == old(State()).(player := target, status := Caught, gameOver := true,
                                       timerRunning := false, enemyRunning := false))
        && (IsValidMove(maze, target) && target != old(exit) && target != old(enemy) ==>
              State() == old(State()).(player := target))
      ensures old(InPlay(maze, exit, player, enemy)) ==> InPlay(maze, exit, player, enemy)
    {
      if gameOver {
        return;
      }
      var direction := KeyDirection(key);
      if direction.Some? {
        var target := Step(player, direction.value);
        if IsValidMove(maze, target) {
          player := target;
          CheckGameState();
        }
      }
    }

    /** One firing of the enemy's interval. After the game is over, or once
        the interval is cleared, it does nothing. Otherwise the enemy steps
        to a passable neighbour other than the cell it just left, when it
        has one, remembering where it came from; then the game state is
        checked. */
    method EnemyTick()
      modifies this
      ensures !old(enemyRunning) || old(gameOver) ==> State() == old(State())
      ensures old(enemyRunning) && !old(gameOver) ==>
        && maze == old(maze) && player == old(player) && exit == old(exit) && timeElapsed == old(timeElapsed)
        && (if CanLeave(maze, old(enemy), old(previousEnemy))
            then && previousEnemy == old(enemy) && enemy != old(previousEnemy)
                 && IsValidMove(maze, enemy) && Manhattan(old(enemy), enemy) == 1
            else enemy == old(enemy) && previousEnemy == old(previousEnemy))
        && (player == exit ==> status == Escaped && gameOver && !timerRunning && !enemyRunning)
        && (player != exit && player == enemy ==> status == Caught && gameOver && !timerRunning && !enemyRunning)
        && (player != exit && player != enemy ==>
              status == old(status) && !gameOver && timerRunning == old(timerRunning) && enemyRunning)
      ensures old(InPlay(maze, exit, player, enemy)) ==> InPlay(maze, exit, player, enemy)
    {
      if !enemyRunning || gameOver {
        return;
      }
      var moved, next := ChooseEnemyMove(maze, enemy, previousEnemy);
      if moved {
        previousEnemy := enemy;
        enemy := next;
      }
      CheckGameState();
    }

    /** One firing of the clock's interval: one more second, unless the game
        is over or the interval is cleared. */
    method Tick()
      modifies this
      ensures old(timerRunning) && !old(gameOver) ==> State() == old(State()).(timeElapsed := old(timeElapsed) + 1)
      ensures !old(timerRunning) || old(gameOver) ==> State() == old(State())
    {
      if timerRunning && !gameOver {
        timeElapsed := timeElapsed + 1;
      }
    }

    /** `resetGame`: stops both intervals, zeroes the clock, blanks the status
        line, puts the player and the enemy at (0,0) and clears the game-over
        flag. */
    method ResetGame()
      modifies this
      ensures State() == old(State()).(timerRunning := false, enemyRunning := false, timeElapsed := 0,
                                        status := Blank, player := Pos(0, 0), enemy := Pos(0, 0), gameOver := false)
    {
      timerRunning, enemyRunning := false, false;
      timeElapsed := 0;
      status := Blank;
      player := Pos(0, 0);
      enemy := Pos(0, 0);
      gameOver := false;
    }

    /** `generateMaze`: a fresh carved grid, then the player at (0,0). For a
        size below 1 the grid is empty and carving (0,0) fails, which ends
        the handler: `crashed` reports that. */
    method GenerateMaze(size: int) returns (crashed: bool)
      modifies this
      ensures crashed <==> size < 1
      ensures fresh(maze)
      ensures crashed ==> maze.Length0 == 0 && maze.Length1 == 0 && State() == old(State()).(maze := maze)
      ensures !crashed ==> maze.Length0 == size && maze.Length1 == size && Carving.Generated(maze)
      ensures !crashed ==> State() == old(State()).(maze := maze, player := Pos(0, 0))
    {
      if size < 1 {
        maze := new Cell[0, 0];
        return true;
      }
      maze := Carving.Generate(size);
      player := Pos(0, 0);
      return false;
    }

    /** `placeExit`: the exit is the bottom-right corner, which becomes a
        path. */
    method PlaceExit(size: int)
      requires maze.Length0 == size && maze.Length1 == size && size >= 1
      modifies this, maze
      ensures State() == old(State()).(exit := Pos(size - 1, size - 1))
      ensures forall r, c :: 0 <= r < size && 0 <= c < size ==>
        maze[r, c] == if r == size - 1 && c == size - 1 then Path else old(maze[r, c])
    {
      exit := Pos(size - 1, size - 1);
      maze[exit.row, exit.col] := Path;
    }

    /** The exit is connected when the cell above it or the cell to its left
        is a path. */
    predicate ExitConnected()
      reads this, maze
      requires maze.Length0 == maze.Length1 && exit == Pos(maze.Length0 - 1, maze.Length0 - 1)
    {
      var n := maze.Length0;
      n >= 2 && (maze[n - 2, n - 1] == Path || maze[n - 1, n - 2] == Path)
    }

    /** `ensureExitAccessible`. A connected exit is marked. Otherwise the
        cell above it, when it is a wall, becomes a path, and the
        `removeWall` call that follows computes the half row `row - 0.5`;
        there is no such row, so the write through it throws: the exit is
        never marked and `crashed` reports the failure. Failing that, the
        cell to its left, when it is a wall, becomes a path; the matching
        `removeWall` writes to the half column `col - 0.5` of an existing
        row, which is no grid cell and does not throw, and the exit is
        marked. With neither neighbour a wall (a grid of size 1, say), the
        exit is marked. */
    method EnsureExitAccessible() returns (crashed: bool)
      requires maze.Length0 == maze.Length1 >= 1 && exit == Pos(maze.Length0 - 1, maze.Length0 - 1)
      modifies maze
      ensures var n := maze.Length0;
        var up := !old(ExitConnected()) && n >= 2 && old(maze[n - 2, n - 1]) == Wall;
        var left := !old(ExitConnected()) && !up && n >= 2 && old(maze[n - 1, n - 2]) == Wall;
        && (crashed <==> up)
        && forall r, c :: 0 <= r < n && 0 <= c < n ==>
             maze[r, c] ==
               if up && r == n - 2 && c == n - 1 then Path
               else if left && r == n - 1 && c == n - 2 then Path
               else if !crashed && r == n - 1 && c == n - 1 then Exit
               else old(maze[r, c])
    {
      var row, col := exit.row, exit.col;
      var connected := false;
      if row - 1 >= 0 && col >= 0 && maze[row - 1, col] == Path {
        connected := true;
      } else if row >= 0 && col - 1 >= 0 && maze[row, col - 1] == Path {
        connected := true;
      }
      if !connected {
        if row > 0 && maze[row - 1, col] == Wall {
          maze[row - 1, col] := Path;
          return true;
        } else if col > 0 && maze[row, col - 1] == Wall {
          maze[row, col - 1] := Path;
        }
      }
      maze[row, col] := Exit;
      return false;
    }

    /** `placeEnemy`: a random eligible cell, or the middle cell when there
        is none. */
    method PlaceEnemy()
      modifies this
      ensures (exists p :: Spawn.Eligible(maze, player, exit, p)) ==> Spawn.Eligible(maze, player, exit, enemy)
      ensures !(exists p :: Spawn.Eligible(maze, player, exit, p)) ==>
        enemy == Pos(maze.Length0 / 2, maze.Length0 / 2)
      ensures State() == old(State()).(enemy := enemy)
    {
      var cells := Spawn.SpawnCandidates(maze, player, exit);
      if |cells| > 0 {
        var i :| 0 <= i < |cells|;
        enemy := cells[i];
        assert enemy in cells;
        assert Spawn.Eligible(maze, player, exit, enemy);
      } else {
        enemy := Pos(maze.Length0 / 2, maze.Length0 / 2);
      }
    }

    /** `startTimer`: the clock restarts at 0 and its interval is
        registered. */
    method StartTimer()
      modifies this
      ensures State() == old(State()).(timeElapsed := 0, timerRunning := true)
    {
      timeElapsed := 0;
      timerRunning := true;
    }

    /** `moveEnemy`: the enemy's interval is registered, remembering the
        enemy's current cell as the one it came from. */
    method MoveEnemy()
      modifies this
      ensures State() == old(State()).(previousEnemy := enemy, enemyRunning := true)
    {
      previousEnemy := enemy;
      enemyRunning := true;
    }

    /** Lines 26-27 of `startGame` on a generated grid: place the exit, then
        make sure it is reachable. On an odd size the corner already has a
        path neighbour (or, on size 1, no neighbour at all) and the exit is
        marked; on an even size both neighbours are walls and the repair
        fails. No cell changes but the corner and, on an even size, the
        cell above it. */
    method FinishMaze(size: int) returns (crashed: bool)
      requires maze.Length0 == size && maze.Length1 == size && size >= 1
      requires forall r, c :: 0 <= r < size && 0 <= c < size ==> maze[r, c] != Exit
      requires forall r, c :: 0 <= r < size && 0 <= c < size && r % 2 == 0 && c % 2 == 0 ==> maze[r, c] == Path
      requires size % 2 == 1 && size >= 3 ==> maze[size - 2, size - 1] == Path || maze[size - 1, size - 2] == Path
      requires forall r, c :: 0 <= r < size && 0 <= c < size && r % 2 == 1 && c % 2 == 1 ==> maze[r, c] == Wall
      requires size % 2 == 0 ==> maze[size - 2, size - 1] == Wall && maze[size - 1, size - 2] == Wall
      modifies this, maze
      ensures crashed <==> size % 2 == 0
      ensures State() == old(State()).(exit := Pos(size - 1, size - 1))
      ensures !crashed ==> BuiltGrid(maze, exit)
      ensures crashed ==> HalfBuiltGrid(maze)
      ensures forall r, c :: 0 <= r < size && 0 <= c < size ==>
        maze[r, c] ==
          if r == size - 1 && c == size - 1 then (if crashed then Path else Exit)
          else if crashed && r == size - 2 && c == size - 1 then Path
          else old(maze[r, c])
    {
      PlaceExit(size);
      crashed := EnsureExitAccessible();
    }

    /** Lines 25-27 of `startGame`: generate the grid, place the exit and
        make sure it is reachable. This succeeds exactly for odd sizes; an
        even size leaves the half-built grid of the failed repair. */
    method BuildMaze(size: int) returns (crashed: bool)
      modifies this
      ensures crashed <==> !(size >= 1 && size % 2 == 1)
      ensures fresh(maze)
      ensures State() == old(State()).(maze := maze, exit := exit, player := player)
      ensures size >= 1 ==> player == Pos(0, 0)
      ensures size < 1 ==> player == old(player) && exit == old(exit) && maze.Length0 == 0 && maze.Length1 == 0
      ensures !crashed ==> BuiltGrid(maze, exit) && maze.Length0 == size
      ensures crashed && size >= 2 ==> HalfBuiltGrid(maze) && maze.Length0 == size && exit == Pos(size - 1, size - 1)
    {
      crashed := GenerateMaze(size);
      if crashed {
        return;
      }
      if size % 2 == 0 {
        Carving.EvenCornerWalled(maze);
      } else if size >= 3 {
        Carving.OddCornerOpen(maze);
      }
      Carving.NoExit(maze);
      Carving.OddOddWalled(maze);
      crashed := FinishMaze(size);
    }

    /** Lines 28-32 of `startGame` on a built grid: place the enemy, start
        the clock and the enemy's interval, and show the navigation message.
        The game is then in play; on a grid of size at least 3 the enemy
        stands on an eligible cell, since the top-right corner always is
        one, and on a grid of size 1 the player, the enemy and the exit
        share the only cell. */
    method LaunchGame(size: int)
      requires BuiltGrid(maze, exit) && maze.Length0 == size && player == Pos(0, 0)
      modifies this
      ensures InPlay(maze, exit, player, enemy)
      ensures State() == old(State()).(enemy := enemy, previousEnemy := enemy, timeElapsed := 0,
                                        timerRunning := true, enemyRunning := true, status := Navigating)
      ensures size >= 3 ==> Spawn.Eligible(maze, player, exit, enemy)
      ensures size == 1 ==> enemy == player && player == exit
    {
      ghost var g, goal := maze, exit;
      PlaceEnemy();
      if size >= 3 {
        assert g[0, size - 1] == Path;
        Spawn.TopRightEligible(g, goal);
      }
      assert IsValidMove(g, Pos(0, 0)) && IsValidMove(g, enemy);
      StartTimer();
      MoveEnemy();
      status := Navigating;
      assert InPlay(g, goal, Pos(0, 0), enemy);
    }

    /** `startGame`. It runs to the end exactly for odd sizes: a size below
        1 fails in `generateMaze`, and an even size fails in
        `ensureExitAccessible`, leaving the grid unmarked and no interval
        running. A started game is built, in play and running, with the
        player at (0,0). */
    method StartGame(size: int) returns (started: bool)
      modifies this
      ensures started <==> size >= 1 && size % 2 == 1
      ensures fresh(maze) && player == Pos(0, 0) && !gameOver
      ensures started ==>
        && BuiltGrid(maze, exit) && InPlay(maze, exit, player, enemy) && maze.Length0 == size
        && status == Navigating && timeElapsed == 0 && timerRunning && enemyRunning
        && previousEnemy == enemy
        && (size >= 3 ==> Spawn.Eligible(maze, player, exit, enemy))
        && (size == 1 ==> enemy == player && player == exit)
      ensures !started ==>
        && status == Blank && timeElapsed == 0 && !timerRunning && !enemyRunning && enemy == Pos(0, 0)
        && (size < 1 ==> maze.Length0 == 0 && exit == old(exit))
        && (size >= 2 ==> HalfBuiltGrid(maze) && maze.Length0 == size && exit == Pos(size - 1, size - 1))
    {
      ResetGame();
      gameOver := false;
      var crashed := BuildMaze(size);
      if crashed {
        return false;
      }
      LaunchGame(size);
      return true;
    }
  }

  /** A game on a grid of size 1: the player, the enemy and the exit share
      the only cell, so an arrow key changes nothing, and the first firing
      of the enemy's interval finds the player on the exit and declares the
      win. */
  method SingleCellGame(key: string) returns (started: bool, afterKey: Status, afterTick: Status)
    ensures started && afterKey == Navigating && afterTick == Escaped
  {
    var game := new Game();
    started := game.StartGame(1);
    game.KeyDown(key);
    afterKey := game.status;
    game.EnemyTick();
    afterTick := game.status;
  }
}
