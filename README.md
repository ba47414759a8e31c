# MazeEscape in Dafny

A model of the game logic of MazeEscape, a browser maze game written in
`script.js`. The game builds a square grid of `wall`, `path` and `exit` cells
with a recursive backtracker. It puts the player in the top-left corner and
the exit in the bottom-right one, and lets a wandering enemy chase the
player. The model leaves out the page: the elements, the rendering and the
text on screen.

The model follows the script's own structure:

- `grid.dfy` (module `Grid`) holds the values the game shares:
  - cells, positions and the four arrow directions;
  - the one-step and two-step neighbours;
  - the midpoint between two cells;
  - the lattice of cells with two even coordinates, and its size.
- `carving.dfy` (module `Carving`) is `generateMaze`, `getUnvisitedNeighbors` and `removeWall`:
  - it works in place on an `array2<Cell>`;
  - the carving loop keeps an explicit stack;
  - `Math.random` becomes a nondeterministic choice among the neighbours.
  - The loop carries ghost bookkeeping: the carved cells, the visited lattice cells and the cells still walled. These prove the following.
    - The loop terminates.
    - No cell with two odd coordinates is ever carved.
    - Every lattice cell ends up a path.
    - The number of paths is `2 * ceil(n/2)^2 - 1`.
- `spawn.dfy` (module `Spawn`) is the scan of `placeEnemy`: the list of eligible enemy cells, in row-major order.
- `shuffle.dfy` (module `Shuffle`) is `shuffleArray`, an in-place Fisher-Yates shuffle over an array.
- `game.dfy` (module `Session`) holds the variables the page's handlers share, as the class `Game`. Each handler and interval body is a method:
  - `startGame` and its steps;
  - the arrow-key handler;
  - the enemy's interval;
  - the clock's interval;
  - `checkGameState`, `resetGame`.
  - A registered interval is a flag. A firing of it is an explicit call that does nothing once the flag is cleared.
  - The status line is the datatype `Status`.

## What the script does where a reader might expect otherwise

These are modelled as the code behaves:

- **Even sizes fail.** The carving only reaches cells with two even
  coordinates. On an even size, the exit corner and both of its neighbours
  stay walls. `ensureExitAccessible` then turns the neighbour above into a
  path and calls `removeWall` on two cells one apart. That computes a half
  row index, and assigning through the missing row throws.
  - The exit is never marked.
  - The grid left behind has no exit cell. Its corner and the cell above the corner are paths, every lattice cell is a path, and the other cells with two odd coordinates are walls (`HalfBuiltGrid`).
  - The rest of `startGame` does not run: no enemy, no intervals, no status text.
  - `StartGame` returns `started == false` in exactly this case and for sizes below 1.
  - The repair never "clears the wall between". On odd sizes it is unreachable. On even sizes it takes the upward branch and fails.
  - The leftward branch of the repair does not fail. `removeWall` writes to the half column `col - 0.5` of an existing row. That is a property of the row array, not a cell, so nothing throws and the exit is marked. No generated grid reaches this branch. `EnsureExitAccessible` states it for any grid.
- **Sizes below 1 fail** at the first write to `(0,0)` in `generateMaze`.
- **After such a failure** `gameOver` is false, so arrow keys still move the
  player over the half-built grid. That behaviour is kept. Reaching the
  corner still wins, since `checkGameState` compares positions, not cells.
- **A size of 1 is a win at the first enemy step.** Start, exit and the
  fallback enemy cell all coincide, no move is legal, and the first firing
  of the enemy's interval calls `checkGameState`, which checks the win
  first. `SingleCellGame` proves this.
- **A cornered enemy waits.** An enemy whose only open neighbour is the cell
  it came from does not step back: it stays where it is and keeps its memory.

## Model

| member | source | states |
|---|---|---|
| Grid.Midpoint | script.js:86-88 | for two cells two apart on one axis, the cell `removeWall` opens lies between them, one step from each, and for lattice cells it has exactly one odd coordinate |
| Grid.LatticeSize | script.js:39-55 | an n-by-n grid has `ceil(n/2)^2` cells with two even coordinates, the cells the backtracker visits |
| Carving.UnvisitedNeighbors | script.js:60-84 | the result holds exactly the cells two steps away that are in the grid and still walls, in up, down, left, right order, without repeats, at most four |
| Carving.RemoveWall | script.js:86-90 | the midpoint of two cells two apart becomes a path and no other cell changes |
| Carving.JumpGeometry | script.js:62-67 | a jump from a lattice cell lands on the lattice, two apart, and the wall between has one odd coordinate on the axis of the jump |
| Carving.MidpointUncarved | script.js:47-48 | while the carved cells keep their shape, the wall between a carved lattice cell and an uncarved neighbour two away is still uncarved |
| Carving.CarveKeepsShape | script.js:47-51 | carving the wall and the neighbour keeps every carved cell's shape: no two odd coordinates, a cell with one odd coordinate lies between two carved cells, and every lattice cell but (0,0) has a carved neighbour |
| Carving.CarveTowards | script.js:48-49 | the two cells set to path were walls, and the grid afterwards holds exactly the old carved cells plus those two, still in shape |
| Carving.InitialState | script.js:37-42 | the start of the loop, with (0,0) carved and on the stack, meets the search invariant |
| Carving.AdvanceState | script.js:46-51 | a carve step keeps the search invariant and removes two cells from the walls still left |
| Carving.BacktrackState | script.js:52-53 | popping the stack keeps the search invariant when the current cell has no unvisited neighbour |
| Carving.NoNeighbourExplored | script.js:45-46 | an empty neighbour list means every in-grid cell two steps away is already carved |
| Carving.SearchStep | script.js:44-55 | one iteration keeps the grid tracking the carved set in shape and keeps the search invariant; when the current cell has an uncarved in-grid cell two away it carves one such cell and the wall before it, pushes the current cell and moves there, and otherwise the current cell is explored and the stack is popped into it with nothing carved; either fewer cells are left uncarved or the stack shrinks |
| Carving.Coverage | script.js:44-55 | when (0,0) is visited and every visited cell is explored, as at the end of the loop, every lattice cell is visited: the lattice is connected by jumps |
| Carving.SearchComplete | script.js:44-55 | at the end of the loop the grid is generated: carved in shape, no exit, (0,0) and every lattice cell a path, and `2 * lattice - 1` paths in all |
| Carving.ShapedIsCarved | script.js:44-55 | a grid whose paths are exactly a carved set in shape has every path cell in the shape the carving produces |
| Carving.Generate | script.js:36-56 | for every size of at least 1 the loop terminates with a fresh size-by-size grid that is generated |
| Carving.PathCount | script.js:44-55 | a generated grid holds `2 * ceil(n/2)^2 - 1` paths: the lattice cells plus one opened wall per tree edge |
| Carving.OddOddWalled | script.js:62-67 | no cell with two odd coordinates is ever carved |
| Carving.NoExit | script.js:36-58 | a generated grid holds walls and paths only |
| Carving.OddCornerOpen | script.js:110-118 | on an odd size of at least 3, a neighbour of the exit corner is already a path after generation, so the exit counts as connected |
| Carving.EvenCornerWalled | script.js:120-126 | on an even size, the corner and both of its neighbours are walls after generation, so the repair branch runs |
| Spawn.SpawnCandidates | script.js:136-153 | the list holds exactly the eligible cells, each once, in row-major order: path cells other than the player's and the exit's, at least `floor(n/2)` from both |
| Spawn.TopRightEligible | script.js:141-149 | on a square grid of size at least 3 whose top-right corner is a path, with the player in the top-left corner and the exit in the bottom-right one, the top-right corner is eligible |
| Shuffle.Swap | script.js:287 | exactly the two elements are exchanged |
| Shuffle.ShuffleArray | script.js:284-290 | the array afterwards is a permutation of the array before |
| Session.KeyDirection | script.js:188-194 | the direction returned is the one the key names, and an arrow key's name always yields its direction |
| Session.ChooseEnemyMove | script.js:210-228 | a move is found exactly when some direction leads to a passable cell other than the one the enemy just left, and the cell found is such a cell, one step away |
| Session.Game.constructor | script.js:8-15 | the state on load: an empty grid, every position (0,0), the clock at 0, the game not over, no interval |
| Session.Game.CheckGameState | script.js:245-260 | player on the exit wins and is checked first; otherwise player on the enemy loses; either ends the game and stops both intervals; otherwise nothing changes |
| Session.Game.KeyDown | script.js:185-203 | after the game is over, or for a non-arrow key, nothing changes; otherwise the player takes one step exactly when that cell is passable, and only that step triggers the win or loss; a game in play stays in play |
| Session.Game.EnemyTick | script.js:207-233 | while the interval runs and the game is not over, the enemy steps to a passable neighbour other than its previous cell exactly when there is one, remembers the cell it left, and otherwise stays; then the win and loss are judged; nothing else changes and a game in play stays in play |
| Session.Game.Tick | script.js:265-269 | while the clock runs and the game is not over, one more second; otherwise nothing changes |
| Session.Game.ResetGame | script.js:272-282 | both intervals stop, the clock is 0, the status is blank, player and enemy are at (0,0), the game is not over; the grid and exit stay |
| Session.Game.GenerateMaze | script.js:36-58 | a size below 1 fails with an empty grid; otherwise a fresh generated grid of that size and the player at (0,0) |
| Session.Game.PlaceExit | script.js:92-95 | the exit is the bottom-right corner, which becomes a path; no other cell changes |
| Session.Game.EnsureExitAccessible | script.js:98-133 | a connected exit, or one with no wall beside it, has its corner marked as the exit and nothing else changes; otherwise, when the cell above is a wall it becomes a path and the call fails before marking, and failing that, the wall to the left becomes a path and the corner is marked as the exit |
| Session.Game.PlaceEnemy | script.js:135-161 | the enemy goes to an eligible cell whenever one exists, and to the centre only when none does; nothing else changes |
| Session.Game.StartTimer | script.js:262-265 | the clock restarts at 0 and its interval is registered |
| Session.Game.MoveEnemy | script.js:205-207 | the enemy's interval is registered, remembering the enemy's cell as its previous one |
| Session.Game.FinishMaze | script.js:26-27 | on a generated grid, exit placement fails exactly on even sizes and leaves the half-built grid; on odd sizes the grid is built with a single exit in the corner; only the corner changes, and on an even size the cell above it |
| Session.Game.BuildMaze | script.js:25-27 | building fails exactly when the size is below 1 or even, leaving an empty grid with the exit position unchanged, or the half-built grid; otherwise the grid is square, odd, with its only exit in the corner, every other lattice cell a path and every odd/odd cell a wall |
| Session.Game.LaunchGame | script.js:28-32 | on a built grid the game is in play, the clock and the enemy run, the enemy is eligible on sizes of at least 3 and shares the single cell on size 1 |
| Session.Game.StartGame | script.js:22-33 | a game starts exactly for odd sizes of at least 1, built and in play with the player at (0,0); an even size leaves the half-built grid, nothing running and a blank status |
| Session.SingleCellGame | script.js:228-230 | on a grid of size 1 an arrow key changes nothing and the first enemy step declares the win |

## Left out

- Rendering, element lookup, the button and the `parseInt` of the size
  selector are not modelled. `renderMaze`, being presentation only, is not
  part of this model.
- The status and timer texts are not kept. The status line is an enum
  value, and the timer text is not modelled at all.
- `setInterval`, `clearInterval` and the 800 ms and 1000 ms cadences are
  host scheduling. An interval is a flag, and each firing is a method the
  caller invokes.
- `Math.random` is a nondeterministic choice over the same range, so
  nothing is said about the distribution.
- A thrown exception is a `crashed` or `started == false` result. The model
  does not carry the exception mechanism itself.
- Session.IsValidMove has no contract of its own. It is the definition of a
  legal cell, and the contracts of `KeyDown`, `EnemyTick` and
  `ChooseEnemyMove` use it.
- Carving.Generate does not prove that the carved paths form a tree or that
  every path is reachable from (0,0). It proves the lattice coverage, the
  cell shapes and the path count.
- Session.ChooseEnemyMove does not say which acceptable direction is chosen.
  The order comes from a random shuffle, so only "one of the acceptable
  ones" is stated.
