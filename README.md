# Maze-quiz game: generator, hint search and game rules in Dafny

This project models the grid logic of a browser maze-quiz game. The player walks a
maze from a start cell to an end cell. Question cells open a quiz, and obstacle cells
teleport the player to a random empty cell. A hint trail shows the shortest way to the
nearest question or obstacle, or else to the end.

The model has four modules:

- `Grid` (`grid.dfy`) holds the shared data model.
  - A maze is an `array2<Cell>` indexed `[y, x]` over the six cell tags.
  - `Pos` stands for the `"x,y"` strings and `{ x, y }` records.
  - It also holds the row-major scan for empty cells.
- `MazeGenerator` (`maze_generator.dfy`) models `generateMaze` and `shuffleArray`. Each is an imperative method:
  - the randomised depth-first carving with an explicit stack and visited set;
  - the end placement by rejection sampling;
  - the empty-cell scan;
  - the in-place Fisher-Yates shuffle;
  - the two placement loops.
  - Every `Math.random()` call reads the next draw of a stream `rand: nat -> real` of values in [0, 1).
- `Hint` (`hint.dfy`) models the effect that recomputes the hint trail.
  - Both breadth-first searches are one method `Search`, parameterised by its goal: the nearest question or obstacle other than the player's cell, or the end cell.
  - `Search` is proved to return a shortest walk exactly when a goal is reachable.
- `Game` (`game.dfy`) models the game component as a class `GameState`:
  - whose fields are the component's state variables;
  - whose methods are the move handler, the special-cell handler, the zoom buttons, the answer handler and game start;
  - with pure functions for the zoom clamps and the answer scoring, and lemmas about them.

## Model

| member | source | states |
|---|---|---|
| Grid.RandomIndex | src/utils/mazeGenerator.ts:56 | `floor(r * n)` for a draw `r` in [0, 1) is a valid index below `n` |
| Grid.EmptyCellsExcept | src/utils/mazeGenerator.ts:84-91 | the scan lists exactly the empty cells of the grid (minus the excluded one), in row-major order and without repetition |
| Grid.CountCells | src/utils/mazeGenerator.ts:84-110 | a repetition-free list of exactly the cells holding a tag has as many entries as the grid has cells with that tag |
| MazeGenerator.OddSize | src/utils/mazeGenerator.ts:11-12 | the normalised size is odd; it is the size itself when odd and one more when even |
| MazeGenerator.UnvisitedNeighbours | src/utils/mazeGenerator.ts:37-52 | a cell two steps up, right, down or left is listed iff it is strictly inside the border and not yet visited; nothing else is listed |
| MazeGenerator.OpenPassage | src/utils/mazeGenerator.ts:58-59 | a carve opens exactly the midpoint and the chosen neighbour, changes no other cell, keeps the border wall and re-walls nothing |
| MazeGenerator.JumpStaysOnLattice | src/utils/mazeGenerator.ts:40-50 | a jump from an odd interior cell to an interior cell lands on an odd interior cell, and its midpoint is interior |
| MazeGenerator.CarvePush | src/utils/mazeGenerator.ts:60-61 | pushing a new neighbour keeps the carving bookkeeping: only odd interior cells are visited, the stack holds visited cells, and a cell off the stack has no unvisited neighbour |
| MazeGenerator.CarvePop | src/utils/mazeGenerator.ts:62-65 | popping a top with no unvisited neighbour keeps the same bookkeeping |
| MazeGenerator.ClosedSetHoldsLattice | src/utils/mazeGenerator.ts:35-66 | a set that holds (1, 1) and every interior neighbour two steps from its cells holds every odd interior cell |
| MazeGenerator.CarvePassages | src/utils/mazeGenerator.ts:19-66 | the carving loop terminates; the grid is walls and empty cells only, the border stays wall and every odd interior cell ends empty |
| MazeGenerator.ShuffleFrom | src/utils/mazeGenerator.ts:117-120 | the reference definition of the remaining shuffle rounds: round `i` swaps slot `i` with slot `floor(r * (i + 1))` and moves to the next draw; its length and multiset are proved kept by ShuffleFromPermutes |
| MazeGenerator.FisherYates | src/utils/mazeGenerator.ts:116-122 | the reference definition of the whole shuffle, from the last slot down to slot 1; the in-place loop is proved equal to it and FisherYatesPermutes proves it a permutation |
| MazeGenerator.SwapPermutes | src/utils/mazeGenerator.ts:119 | an exchange of two slots keeps the multiset of elements |
| MazeGenerator.ShuffleFromPermutes | src/utils/mazeGenerator.ts:117-120 | the Fisher-Yates rounds, each swapping slot `i` with a slot in `[0, i]`, keep the length and the multiset of elements |
| MazeGenerator.FisherYatesPermutes | src/utils/mazeGenerator.ts:116-122 | the whole shuffle is a permutation of its input |
| MazeGenerator.PermutationKeepsDistinct | src/utils/mazeGenerator.ts:93-94 | a permutation of a repetition-free list is repetition-free |
| MazeGenerator.Shuffle | src/utils/mazeGenerator.ts:116-122 | the in-place loop leaves the array equal to the Fisher-Yates shuffle of its old contents and uses one draw per round |
| MazeGenerator.PlaceEnd | src/utils/mazeGenerator.ts:71-81 | the end lies strictly inside the border, is written only onto a cell that was empty, no other cell changes, and `(W-2, H-2)` is taken when it is empty |
| MazeGenerator.PlaceQuestions | src/utils/mazeGenerator.ts:96-100 | exactly the cells of the first `count` slots become questions; every other cell is unchanged |
| MazeGenerator.PlaceObstacles | src/utils/mazeGenerator.ts:102-110 | exactly the cells of slots `from .. to` become obstacles; every other cell is unchanged |
| MazeGenerator.Placement | src/utils/mazeGenerator.ts:96-110 | the tag a cell ends with: question in the first `min(qc, n)` slots, obstacle in the slots from `qc` below `min(qc + oc, n)`, else its old tag |
| MazeGenerator.PlaceSpecials | src/utils/mazeGenerator.ts:96-110 | each cell ends as its slot dictates (question, obstacle or unchanged), and a cell that was not empty never changes |
| MazeGenerator.PlacementWindows | src/utils/mazeGenerator.ts:96-110 | the question slots, the obstacle slots and the rest partition the shuffled list, and each window gives its cells one tag |
| MazeGenerator.WindowCounts | src/utils/mazeGenerator.ts:84-110 | when the three windows are exactly the question, obstacle and empty cells, the counts of those tags are the window lengths |
| MazeGenerator.ShuffledEmptyCells | src/utils/mazeGenerator.ts:84-94 | the shuffled list holds exactly the empty cells, each once |
| MazeGenerator.CarveAndMark | src/utils/mazeGenerator.ts:14-81 | on odd sizes the carved grid gets (1, 1) as its only start and one interior end, with no special cells yet; it fails exactly on the 3 by 3 grid |
| MazeGenerator.GenerateMaze | src/utils/mazeGenerator.ts:4-113 | the grid has the normalised sizes and a wall border, and no odd interior cell is a wall; (1, 1) is the only start; there is one end; with `n` the cells left for placement there are `min(qc, n)` questions and `max(0, min(qc + oc, n) - qc)` obstacles; it fails exactly on the 3 by 3 grid |
| Hint.IsGoal | src/components/Maze.tsx:39-42 | the goal test of a dequeued cell: a question or obstacle cell inside the grid other than the player's for the first search, the end position for the second (Maze.tsx:87) |
| Hint.AdjacentIsStep | src/components/Maze.tsx:25-30 | every four-neighbour of a cell is reached by one of the four expansion directions |
| Hint.WalkPrefix | src/components/Maze.tsx:64-68 | a path without its last cell is still a walk from the player, and it ends next to the dropped cell |
| Hint.WalkExtend | src/components/Maze.tsx:64-68 | a path extended by a passable neighbour of its end is a walk that ends at that neighbour |
| Hint.ExpandPush | src/components/Maze.tsx:55-68 | pushing the cell in the current direction keeps the expansion bookkeeping |
| Hint.ExpandDone | src/components/Maze.tsx:51-70 | after all four directions every passable neighbour is visited |
| Hint.ExpandNeighbours | src/components/Maze.tsx:51-70 | only passable, adjacent, not-yet-visited cells are pushed; they are pushed in up-right-down-left order with the parent's path extended by the cell; they join the visited set; afterwards every passable neighbour is visited |
| Hint.SearchInvInit | src/components/Maze.tsx:19-23 | the initial queue and visited set satisfy the search invariant |
| Hint.PushedWalks | src/components/Maze.tsx:64-68 | every pushed path is a walk from the player ending at its cell, one step longer than its parent's |
| Hint.StepLevels | src/components/Maze.tsx:35-71 | after a step the queue's path lengths still never decrease and span at most two neighbouring levels |
| Hint.StepShortest | src/components/Maze.tsx:35-71 | after a step no queued path is longer than any walk to its cell |
| Hint.StepReached | src/components/Maze.tsx:35-71 | after a step every cell within the head's level is visited |
| Hint.StepProgress | src/components/Maze.tsx:35-71 | a step either visits a new cell of the grid or pushes nothing, so the search terminates |
| Hint.SearchInvStep | src/components/Maze.tsx:35-71 | dequeuing and expanding a non-goal head keeps the search invariant |
| Hint.SearchInvFound | src/components/Maze.tsx:38-48 | the first dequeued goal's path is a shortest walk to a goal |
| Hint.ClosedSetHoldsWalks | src/components/Maze.tsx:51-70 | a set that holds the player and every passable neighbour of its cells holds the end of every walk |
| Hint.SearchInvExhausted | src/components/Maze.tsx:35-71 | when the queue runs dry, no goal cell is reachable at all |
| Hint.Search | src/components/Maze.tsx:19-71 | the search returns a walk exactly when a goal is reachable, and that walk is a shortest one; the grid is only read |
| Hint.WalkSuffix | src/components/Maze.tsx:64-68 | the part of a walk after a return to the player is a walk to the same end |
| Hint.ShortestWalkAvoidsStart | src/components/Maze.tsx:19-23 | a shortest walk to a goal never passes through the player's cell |
| Hint.ShortestWalkToStart | src/components/Maze.tsx:84-93 | when the player stands on the goal the shortest walk is empty |
| Hint.UpdateHint | src/components/Maze.tsx:16-120 | the trail is empty when the hint is hidden or there is no maze; otherwise it is the cells of some shortest walk to a nearest special cell if one is reachable, else of some shortest walk to the end, else the previous trail; it is empty when the player stands on the end; it never holds the player's cell |
| Game.LevelSettings | src/components/Game.tsx:28-59 | every level's maze is at least 13 cells wide and high, so generation never hits the failing 3 by 3 grid, and its zoom floor (default less twenty) stays positive |
| Game.ZoomedOut | src/components/Game.tsx:108-111 | zooming out gives the larger of ten points less and the level's floor of default minus twenty; a zoom already below the floor (the initial 100 on the easy level, whose floor is 130) is raised to the floor, so the button can zoom in |
| Game.ZoomedIn | src/components/Game.tsx:113-116 | zooming in gives the smaller of five points more and the level's ceiling of default plus thirty; a zoom already above the ceiling is lowered to it, so the button can zoom out |
| Game.ZoomStaysInRange | src/components/Game.tsx:108-116 | inside the level's range both zoom steps keep the zoom in range and move it in their own direction, and the level's default lies in its range |
| Game.ZoomOutReachesFloor | src/components/Game.tsx:108-111 | enough zoom-out presses from anywhere in the range reach exactly the floor |
| Game.ZoomInReachesCeiling | src/components/Game.tsx:113-116 | enough zoom-in presses from anywhere in the range reach exactly the ceiling |
| Game.AnsweredScore | src/components/Game.tsx:519-529 | a correct answer adds fifty; a wrong one takes off twenty but never goes below zero |
| Game.ScoreBounds | src/components/Game.tsx:519-529 | over any run of answers from zero, the score is never negative and never exceeds fifty per correct answer |
| Game.AllCorrectScore | src/components/Game.tsx:519-523 | a run of correct answers scores exactly fifty each |
| Game.ScanStep | src/components/Game.tsx:156-164 | one cell of the scan keeps "the last cell with this tag so far" |
| Game.FindStartEnd | src/components/Game.tsx:153-164 | the scan finds the row-major last start cell and the last end cell, or (0, 0) when there is none |
| Game.LastOfUnique | src/components/Game.tsx:156-164 | when exactly one cell holds a tag, the scan finds that cell |
| Game.LevelMaze | src/components/Game.tsx:131-164 | the level's maze has the normalised sizes; the scan yields (1, 1) as its only start cell and the grid's only end cell |
| Game.GameState.constructor | src/components/Game.tsx:62-105 | the initial state: easy level, no maze, intro status, counters and score zero, no question, hint off, zoom 100 |
| Game.GameState.ZoomOut | src/components/Game.tsx:108-111 | the zoom becomes the clamped zoom-out of the current level; nothing else changes |
| Game.GameState.ZoomIn | src/components/Game.tsx:113-116 | the zoom becomes the clamped zoom-in of the current level; nothing else changes |
| Game.GameState.AnswerQuestion | src/components/Game.tsx:519-529 | the matching tally grows by one, the score follows the answer rule, the question closes, and the score bound is preserved |
| Game.GameState.HandleSpecialCell | src/components/Game.tsx:220-281 | a question opens and its cell becomes empty in place, with no other cell changed; an obstacle sends the player to an empty cell other than its own, or leaves them where they are when there is none; other cells change nothing |
| Game.GameState.PlayerMove | src/components/Game.tsx:380-430 | no move happens while animating or with a question open; a step is accepted iff it stays in the grid and is not a wall; an accepted step moves the player and counts exactly one move; reaching the end wins without special-cell handling; otherwise the special-cell rules apply; a rejected step changes nothing |
| Game.GameState.Reset | src/components/Game.tsx:166-180 | the game plays on the given grid from the given start with the counters, score, question and hint reset, which satisfies the score bound |
| Game.GameState.StartGame | src/components/Game.tsx:501-506 | the game is playing on a maze of the level's normalised sizes at the level's default zoom, from (1, 1), the grid's only start, towards its only end, with everything reset |

## Left out

- Rendering, animation, sounds, the timers (`setTimeout`, `setInterval`, `Date.now()`), the keyboard wiring and the modal dialogs are not modelled: they are presentation and timing.
- Game.GameState.PlayerMove: both callers of `handlePlayerMove` (the key handler and the on-screen controls) return unless the status is playing. The model leaves that check to its caller, so `PlayerMove` itself also accepts moves in the intro and after a win.
- Game.GameState.PlayerMove: the move and the handling that the source runs in a 250 ms timeout after it are one atomic step. The timer start on the first move is not modelled.
- Game.GameState.PlayerMove: on reaching the end, `handleWin` replaces the score with a time bonus plus a move bonus plus fifty per correct and minus twenty per wrong answer. That value can be negative. The completion effect then replaces it again with `calculateScore()`. Neither is modelled: the score stays as it was, using fractional seconds and float multipliers. So `ScoreBounded` describes the score during play, not the score shown after a win.
- `handleResize`, `formatTime`, the leaderboard routes and component, and the question data are not modelled: they are viewport arithmetic, I/O and static data.
- Game.GameState.HandleSpecialCell: the random choice of a question (among the short ones) is the parameter `questionIndex`.
- Game.GameState.HandleSpecialCell: it states that the teleport target is some empty cell other than the obstacle's own cell. It does not state which one the draw `r` selects from the row-major list.
- Game.GameState.PlayerMove: the teleport is stated the same way, as some empty cell other than the obstacle's.
- Game.GameState.StartGame: `initGame` also runs when the component mounts, and `resetGame`/`restartGame` exist. Neither is modelled; the constructor gives the state before any game.
- Game.LevelMaze: does not state that the returned grid is freshly allocated.
- Game.GameState.StartGame: does not state that the returned grid is freshly allocated.
- `animating` is never set to true anywhere in the game component, yet the move guard reads it. The model keeps the guard and leaves the flag unchanged.
- MazeGenerator.PlaceEnd: the source's rejection loop draws without bound and never ends on a 3 by 3 grid, where every redraw is the start cell. The model stops after `retries` redraws and returns `None`. `GenerateMaze` is proved to return `None` exactly on the 3 by 3 grid and never otherwise: on larger grids the first candidate `(W-2, H-2)` is already empty.
- MazeGenerator.GenerateMaze: requires `width` and `height` of at least 2. A negative width makes `Array(width)` throw, and a negative height makes `Array(height)` throw. A width of 0 or 1 with a valid height does not throw: the rows have length 1, the write of the start at (1, 1) grows row 1, carving finds no neighbours, and the end loop never ends. Its first candidate `(width - 2, height - 2)` is an unset cell, and every redraw has x = 1, which is the start on row 1 and an unset cell on any other row. A height of 0 or 1 leaves a single row, so the write of the start at row 1 throws a TypeError.
- MazeGenerator.GenerateMaze: `questionCount` and `obstacleCount` are natural numbers; negative counts are not modelled.
- MazeGenerator.GenerateMaze: the model does not claim that the carved maze is a perfect maze (a spanning tree of the odd cells), only that every odd interior cell is opened.
- The uniformity of `Math.random()`, and so of the shuffle and the carving, is not modelled. Draws are an arbitrary stream of values in [0, 1).
- Hint.UpdateHint: the trail is stated to be the cells of some shortest walk to a nearest goal. It is not stated which one. The source's trail is the path of the first goal dequeued under up-right-down-left expansion. That also fixes which of several equally near special cells the trail leads to. For example, on a one-row grid question, empty, question with the player in the middle, the source's trail is the right-hand question.
- Hint.Search: the up-right-down-left expansion order is part of `ExpandNeighbours`' contract. Which of several equally short walks the search returns is not stated as a lemma.
- Hint.Search: that a cell is enqueued at most once is stated per expansion: a pushed cell was unvisited and then joins the visited set. It is not a separate lemma over the whole run.
- Hint.UpdateHint: requires the player's row to exist when the hint is shown on a non-empty maze. Without it, the goal test reads `maze[y][x]` with `maze[y]` undefined and throws a TypeError. Hint.Search has the same requirement for the special-cell search.
- The hint keyboard toggle (`toggleHint`) is not modelled; `showHint` is a parameter of `UpdateHint`.
