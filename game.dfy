/**
 * The game state machine of the maze-quiz game: the player's position on
 * the maze, the move counter, the open question, the answer tallies and the
 * score, and the zoom level.  Rendering, sounds, timers and the win bonus
 * are not part of this model.
 */
module Game {
  import opened Grid
  import MazeGenerator

  datatype Status = Intro | Playing | Won

  datatype Level = Easy | Medium | Hard

  /** The settings of a difficulty level (the score multiplier is not modelled). */
  datatype Settings = Settings(width: int, height: int, questionCount: nat, obstacleCount: nat, defaultZoom: int)

  /** Every level's maze is at least 13 cells wide and high, and its zoom floor stays positive. */
  function LevelSettings(level: Level): (settings: Settings)
    ensures settings.width >= 13 && settings.height >= 13
    ensures settings.defaultZoom - 20 > 0
  {
    match level
    case Easy => Settings(13, 13, 5, 3, 150)
    case Medium => Settings(16, 16, 8, 5, 115)
    case Hard => Settings(19, 19, 12, 7, 100)
  }

  // ----- zoom -----

  /** The zoom range of a level: 20 below its default up to 30 above it. */
  predicate InZoomRange(zoom: int, defaultZoom: int)
  {
    defaultZoom - 20 <= zoom <= defaultZoom + 30
  }

  /** Zooming out: ten points down, but never below the level's floor. */
  function ZoomedOut(prev: int, defaultZoom: int): (zoom: int)
    ensures zoom >= defaultZoom - 20
    ensures prev - 10 >= defaultZoom - 20 ==> zoom == prev - 10
    ensures prev - 10 < defaultZoom - 20 ==> zoom == defaultZoom - 20
  {
    if prev - 10 >= defaultZoom - 20 then prev - 10 else defaultZoom - 20
  }

  /** Zooming in: five points up, but never above the level's ceiling. */
  function ZoomedIn(prev: int, defaultZoom: int): (zoom: int)
    ensures zoom <= defaultZoom + 30
    ensures prev + 5 <= defaultZoom + 30 ==> zoom == prev + 5
    ensures prev + 5 > defaultZoom + 30 ==> zoom == defaultZoom + 30
  {
    if prev + 5 <= defaultZoom + 30 then prev + 5 else defaultZoom + 30
  }

  /** Both zoom steps keep a level's zoom inside its range, and the default is inside it. */
  lemma ZoomStaysInRange(zoom: int, defaultZoom: int)
    requires InZoomRange(zoom, defaultZoom)
    ensures InZoomRange(ZoomedOut(zoom, defaultZoom), defaultZoom)
    ensures InZoomRange(ZoomedIn(zoom, defaultZoom), defaultZoom)
    ensures ZoomedOut(zoom, defaultZoom) <= zoom <= ZoomedIn(zoom, defaultZoom)
    ensures InZoomRange(defaultZoom, defaultZoom)
  {
  }

  /** `n` presses of zoom-out. */
  function ZoomOutTimes(zoom: int, defaultZoom: int, n: nat): int
    decreases n
  {
    if n == 0 then zoom else ZoomOutTimes(ZoomedOut(zoom, defaultZoom), defaultZoom, n - 1)
  }

  /** `n` presses of zoom-in. */
  function ZoomInTimes(zoom: int, defaultZoom: int, n: nat): int
    decreases n
  {
    if n == 0 then zoom else ZoomInTimes(ZoomedIn(zoom, defaultZoom), defaultZoom, n - 1)
  }

  /**
   * From anywhere in the range, enough zoom-out presses reach the floor and
   * stay there: every press below the floor's reach takes off exactly ten.
   */
  lemma {:induction false} ZoomOutReachesFloor(zoom: int, defaultZoom: int, n: nat)
    requires InZoomRange(zoom, defaultZoom)
    requires 10 * n >= zoom - (defaultZoom - 20)
    ensures ZoomOutTimes(zoom, defaultZoom, n) == defaultZoom - 20
    decreases n
  {
    if n > 0 {
      ZoomOutReachesFloor(ZoomedOut(zoom, defaultZoom), defaultZoom, n - 1);
    }
  }

  /** From anywhere in the range, enough zoom-in presses reach the ceiling and stay there. */
  lemma {:induction false} ZoomInReachesCeiling(zoom: int, defaultZoom: int, n: nat)
    requires InZoomRange(zoom, defaultZoom)
    requires 5 * n >= defaultZoom + 30 - zoom
    ensures ZoomInTimes(zoom, defaultZoom, n) == defaultZoom + 30
    decreases n
  {
    if n > 0 {
      ZoomInReachesCeiling(ZoomedIn(zoom, defaultZoom), defaultZoom, n - 1);
    }
  }

  // ----- answers -----

  /** The score after an answer: fifty more when correct, twenty less but never below zero when wrong. */
  function AnsweredScore(score: int, isCorrect: bool): (r: int)
    ensures isCorrect ==> r == score + 50
    ensures !isCorrect && score >= 20 ==> r == score - 20
    ensures !isCorrect && score < 20 ==> r == 0
  {
    if isCorrect then score + 50
    else if score - 20 >= 0 then score - 20 else 0
  }

  /**
   * The score a run of answers leaves, starting from 0.  It never goes
   * negative and never exceeds fifty per correct answer.
   */
  function ScoreAfter(answers: seq<bool>): int
  {
    if answers == [] then 0 else AnsweredScore(ScoreAfter(answers[..|answers| - 1]), answers[|answers| - 1])
  }

  function CountCorrect(answers: seq<bool>): nat
  {
    if answers == [] then 0
    else CountCorrect(answers[..|answers| - 1]) + (if answers[|answers| - 1] then 1 else 0)
  }

  lemma {:induction false} ScoreBounds(answers: seq<bool>)
    ensures 0 <= ScoreAfter(answers) <= 50 * CountCorrect(answers)
  {
    if answers != [] {
      ScoreBounds(answers[..|answers| - 1]);
    }
  }

  /** A run of correct answers only adds fifty per answer. */
  lemma {:induction false} AllCorrectScore(answers: seq<bool>)
    requires forall i :: 0 <= i < |answers| ==> answers[i]
    ensures ScoreAfter(answers) == 50 * |answers|
  {
    if answers != [] {
      AllCorrectScore(answers[..|answers| - 1]);
    }
  }

  // ----- the start/end scan of initGame -----

  /**
   * `p` is the row-major last cell holding `c` among the cells before
   * `bound`, or (0, 0) when there is none: every such cell is `p` or comes
   * before it, and `p` is one of them unless it is (0, 0), which comes before
   * every cell.
   */
  ghost predicate LastBefore(g: array2<Cell>, c: Cell, p: Pos, bound: Pos)
    reads g
  {
    && (p == Pos(0, 0) || (InBounds(g, p) && g[p.y, p.x] == c && Before(p, bound)))
    && forall q :: InBounds(g, q) && g[q.y, q.x] == c && Before(q, bound) ==> q == p || Before(q, p)
  }

  /** `p` is the row-major last cell of the grid holding `c`, or (0, 0) when there is none. */
  ghost predicate LastOf(g: array2<Cell>, c: Cell, p: Pos)
    reads g
  {
    && (p == Pos(0, 0) || (InBounds(g, p) && g[p.y, p.x] == c))
    && forall q :: InBounds(g, q) && g[q.y, q.x] == c ==> q == p || Before(q, p)
  }

  /**
   * The scan of `initGame`: rows top to bottom, cells left to right, the
   * last `start` cell met becomes the start and the last `end` cell the end;
   * both default to (0, 0).
   */
  method FindStartEnd(g: array2<Cell>) returns (start: Pos, end: Pos)
    ensures LastOf(g, Start, start)
    ensures LastOf(g, End, end)
  {
    start, end := Pos(0, 0), Pos(0, 0);
    for y := 0 to g.Length0
      invariant Scanned(g, start, end, Pos(0, y))
    {
      for x := 0 to g.Length1
        invariant Scanned(g, start, end, Pos(x, y))
      {
        ScanCell(g, start, end, x, y);
        if g[y, x] == Start {
          start := Pos(x, y);
        } else if g[y, x] == End {
          end := Pos(x, y);
        }
      }
      ScanRowDone(g, Start, start, y);
      ScanRowDone(g, End, end, y);
    }
    ScanDone(g, Start, start);
    ScanDone(g, End, end);
  }

  /** The scan's state once every cell before `bound` has been visited. */
  ghost predicate Scanned(g: array2<Cell>, start: Pos, end: Pos, bound: Pos)
    reads g
  {
    LastBefore(g, Start, start, bound) && LastBefore(g, End, end, bound)
  }

  /** One cell of the scan, for both tags. */
  lemma ScanCell(g: array2<Cell>, start: Pos, end: Pos, x: int, y: int)
    requires 0 <= y < g.Length0 && 0 <= x < g.Length1
    requires Scanned(g, start, end, Pos(x, y))
    ensures Scanned(g, if g[y, x] == Start then Pos(x, y) else start, if g[y, x] == End then Pos(x, y) else end, Pos(x + 1, y))
  {
    ScanStep(g, Start, start, x, y);
    ScanStep(g, End, end, x, y);
  }

  /** One cell of the scan: the last `c` before the next cell is this one if it holds `c`. */
  lemma ScanStep(g: array2<Cell>, c: Cell, p: Pos, x: int, y: int)
    requires 0 <= y < g.Length0 && 0 <= x < g.Length1
    requires LastBefore(g, c, p, Pos(x, y))
    ensures LastBefore(g, c, if g[y, x] == c then Pos(x, y) else p, Pos(x + 1, y))
  {
    if g[y, x] == c {
      assert InBounds(g, Pos(x, y));
    } else {
      forall q | InBounds(g, q) && g[q.y, q.x] == c && Before(q, Pos(x + 1, y)) ensures Before(q, Pos(x, y)) {
      }
    }
  }

  /** At the end of a row, the cells before the row's end are those before the next row. */
  lemma ScanRowDone(g: array2<Cell>, c: Cell, p: Pos, y: int)
    requires 0 <= y < g.Length0
    requires LastBefore(g, c, p, Pos(g.Length1, y))
    ensures LastBefore(g, c, p, Pos(0, y + 1))
  {
    forall q | InBounds(g, q) ensures Before(q, Pos(g.Length1, y)) <==> Before(q, Pos(0, y + 1)) {
    }
  }

  lemma ScanDone(g: array2<Cell>, c: Cell, p: Pos)
    requires LastBefore(g, c, p, Pos(0, g.Length0))
    ensures LastOf(g, c, p)
  {
    forall q | InBounds(g, q) ensures Before(q, Pos(0, g.Length0)) {
    }
  }

  /** When exactly one cell holds `c`, the scan finds that cell. */
  lemma LastOfUnique(g: array2<Cell>, c: Cell, p: Pos, e: Pos)
    requires CellsOf(g, c) == {e}
    requires LastOf(g, c, p)
    ensures p == e && InBounds(g, e) && g[e.y, e.x] == c
  {
    assert e in CellsOf(g, c);
    assert InBounds(g, e) && g[e.y, e.x] == c;
    assert p in CellsOf(g, c) by {
      assert Pos(p.x, p.y) == p;
    }
  }

  /**
   * The game component's state.  `maze` is the grid shared with the maze
   * view; a question cell is emptied in place in it.
   */
  class GameState {
    var level: Level
    var maze: array2<Cell>
    var player: Pos
    var endPos: Pos
    var status: Status
    var moveCount: nat
    var score: int
    var correctAnswers: nat
    var wrongAnswers: nat
    var currentQuestion: Option<nat>
    var showHint: bool
    var animating: bool
    var zoomLevel: int

    /** The score never goes negative and never exceeds fifty per correct answer. */
    ghost predicate ScoreBounded()
      reads this
    {
      0 <= score <= 50 * correctAnswers
    }

    /** The counters, the score, the open question and the hint of a game that has just been set up. */
    ghost predicate JustReset()
      reads this
    {
      moveCount == 0 && score == 0 && correctAnswers == 0 && wrongAnswers == 0 && currentQuestion == None && !showHint
    }

    /** The initial component state, before any game is set up. */
    constructor ()
      ensures level == Easy && maze.Length0 == 0 && player == Pos(0, 0) && endPos == Pos(0, 0)
      ensures status == Intro && moveCount == 0 && score == 0 && correctAnswers == 0 && wrongAnswers == 0
      ensures currentQuestion == None && !showHint && !animating && zoomLevel == 100
      ensures ScoreBounded()
    {
      level := Easy;
      maze := new Cell[0, 0];
      player, endPos := Pos(0, 0), Pos(0, 0);
      status := Intro;
      moveCount, score, correctAnswers, wrongAnswers := 0, 0, 0, 0;
      currentQuestion := None;
      showHint, animating := false, false;
      zoomLevel := 100;
    }

    /** `handleZoomOut`: the level's floor is its default zoom less twenty. */
    method ZoomOut()
      modifies this
      ensures zoomLevel == ZoomedOut(old(zoomLevel), LevelSettings(level).defaultZoom)
      ensures level == old(level) && maze == old(maze) && player == old(player) && endPos == old(endPos)
      ensures status == old(status) && moveCount == old(moveCount) && score == old(score)
      ensures correctAnswers == old(correctAnswers) && wrongAnswers == old(wrongAnswers)
      ensures currentQuestion == old(currentQuestion) && showHint == old(showHint) && animating == old(animating)
    {
      var minZoom := LevelSettings(level).defaultZoom - 20;
      zoomLevel := if zoomLevel - 10 >= minZoom then zoomLevel - 10 else minZoom;
    }

    /** `handleZoomIn`: the level's ceiling is its default zoom plus thirty. */
    method ZoomIn()
      modifies this
      ensures zoomLevel == ZoomedIn(old(zoomLevel), LevelSettings(level).defaultZoom)
      ensures level == old(level) && maze == old(maze) && player == old(player) && endPos == old(endPos)
      ensures status == old(status) && moveCount == old(moveCount) && score == old(score)
      ensures correctAnswers == old(correctAnswers) && wrongAnswers == old(wrongAnswers)
      ensures currentQuestion == old(currentQuestion) && showHint == old(showHint) && animating == old(animating)
    {
      var maxZoom := LevelSettings(level).defaultZoom + 30;
      zoomLevel := if zoomLevel + 5 <= maxZoom then zoomLevel + 5 else maxZoom;
    }

    /**
     * `handleAnswerQuestion`: a correct answer counts and adds fifty, a wrong
     * one counts and takes off twenty without going below zero; either way
     * the question closes.
     */
    method AnswerQuestion(isCorrect: bool)
      modifies this
      ensures score == AnsweredScore(old(score), isCorrect)
      ensures isCorrect ==> correctAnswers == old(correctAnswers) + 1 && wrongAnswers == old(wrongAnswers)
      ensures !isCorrect ==> wrongAnswers == old(wrongAnswers) + 1 && correctAnswers == old(correctAnswers)
      ensures currentQuestion == None
      ensures old(ScoreBounded()) ==> ScoreBounded()
      ensures level == old(level) && maze == old(maze) && player == old(player) && endPos == old(endPos)
      ensures status == old(status) && moveCount == old(moveCount) && showHint == old(showHint)
      ensures animating == old(animating) && zoomLevel == old(zoomLevel)
    {
      if isCorrect {
        correctAnswers := correctAnswers + 1;
        score := score + 50;
      } else {
        wrongAnswers := wrongAnswers + 1;
        score := if score - 20 >= 0 then score - 20 else 0;
      }
      currentQuestion := None;
    }

    /**
     * `handleSpecialCell` for the cell the player has just entered.  A
     * question opens question `questionIndex` (the source draws it at
     * random) and its cell becomes empty in place; an obstacle sends the
     * player to the empty cell that draw `r` selects among the empty cells
     * other than the obstacle's own, or leaves the player where they are
     * when there is none.  Other cells do nothing.
     */
    method HandleSpecialCell(cell: Cell, pos: Pos, questionIndex: nat, r: real)
      requires 0.0 <= r < 1.0
      requires InBounds(maze, pos)
      modifies this, maze
      ensures maze == old(maze)
      ensures cell == Question ==>
        && currentQuestion == Some(questionIndex) && player == old(player)
        && maze[pos.y, pos.x] == Empty
        && forall y, x :: 0 <= y < maze.Length0 && 0 <= x < maze.Length1 && Pos(x, y) != pos ==> maze[y, x] == old(maze[y, x])
      ensures cell != Question ==>
        && currentQuestion == old(currentQuestion)
        && forall y, x :: 0 <= y < maze.Length0 && 0 <= x < maze.Length1 ==> maze[y, x] == old(maze[y, x])
      ensures cell == Obstacle ==>
        if exists p :: InBounds(maze, p) && maze[p.y, p.x] == Empty && p != pos then
          InBounds(maze, player) && maze[player.y, player.x] == Empty && player != pos
        else
          player == old(player)
      ensures cell != Obstacle ==> player == old(player)
      ensures level == old(level) && endPos == old(endPos) && status == old(status) && moveCount == old(moveCount)
      ensures score == old(score) && correctAnswers == old(correctAnswers) && wrongAnswers == old(wrongAnswers)
      ensures showHint == old(showHint) && animating == old(animating) && zoomLevel == old(zoomLevel)
    {
      if cell == Question {
        currentQuestion := Some(questionIndex);
        maze[pos.y, pos.x] := Empty;
      } else if cell == Obstacle {
        var emptyPositions := EmptyCellsExcept(maze, Some(pos));
        if |emptyPositions| > 0 {
          player := emptyPositions[RandomIndex(r, |emptyPositions|)];
        } else {
          assert forall p :: !(InBounds(maze, p) && maze[p.y, p.x] == Empty && p != pos);
        }
      }
    }

    /**
     * `handlePlayerMove` together with the step that runs once the move's
     * animation ends.  Nothing happens while an animation runs or a question
     * is open.  A step into the grid onto a cell that is not a wall moves the
     * player and counts the move; reaching the end wins, any other cell is
     * handled by `HandleSpecialCell`.  A blocked step changes nothing.
     */
    method PlayerMove(dx: int, dy: int, questionIndex: nat, r: real)
      requires 0.0 <= r < 1.0
      modifies this, maze
      ensures maze == old(maze)
      ensures var target := Pos(old(player).x + dx, old(player).y + dy);
        if old(animating) || old(currentQuestion).Some? || !old(Passable(maze, target)) then
          && player == old(player) && moveCount == old(moveCount) && status == old(status)
          && currentQuestion == old(currentQuestion)
          && forall y, x :: 0 <= y < maze.Length0 && 0 <= x < maze.Length1 ==> maze[y, x] == old(maze[y, x])
        else
          && moveCount == old(moveCount) + 1
          && (target == endPos ==>
                && status == Won && player == target && currentQuestion == old(currentQuestion)
                && forall y, x :: 0 <= y < maze.Length0 && 0 <= x < maze.Length1 ==> maze[y, x] == old(maze[y, x]))
          && (target != endPos ==> status == old(status))
          && (target != endPos && old(maze[target.y, target.x]) == Question ==>
                && player == target && currentQuestion == Some(questionIndex) && maze[target.y, target.x] == Empty
                && forall y, x :: 0 <= y < maze.Length0 && 0 <= x < maze.Length1 && Pos(x, y) != target ==>
                     maze[y, x] == old(maze[y, x]))
          && (target != endPos && old(maze[target.y, target.x]) == Obstacle ==>
                && currentQuestion == old(currentQuestion)
                && (forall y, x :: 0 <= y < maze.Length0 && 0 <= x < maze.Length1 ==> maze[y, x] == old(maze[y, x]))
                && if exists p :: InBounds(maze, p) && maze[p.y, p.x] == Empty && p != target then
                     InBounds(maze, player) && maze[player.y, player.x] == Empty && player != target
                   else
                     player == target)
          && (target != endPos && !IsSpecial(old(maze[target.y, target.x])) ==>
                && player == target && currentQuestion == old(currentQuestion)
                && forall y, x :: 0 <= y < maze.Length0 && 0 <= x < maze.Length1 ==> maze[y, x] == old(maze[y, x]))
      ensures level == old(level) && endPos == old(endPos) && score == old(score)
      ensures correctAnswers == old(correctAnswers) && wrongAnswers == old(wrongAnswers)
      ensures showHint == old(showHint) && animating == old(animating) && zoomLevel == old(zoomLevel)
    {
      if animating || currentQuestion.Some? {
        return;
      }
      var target := Pos(player.x + dx, player.y + dy);
      if 0 <= target.x < maze.Length1 && 0 <= target.y < maze.Length0 && maze[target.y, target.x] != Wall {
        player := target;
        moveCount := moveCount + 1;
        if target == endPos {
          status := Won;
        } else {
          HandleSpecialCell(maze[target.y, target.x], target, questionIndex, r);
        }
      }
    }

    /**
     * The state setters of `startGame` and `initGame`: the game is playing on
     * grid `m` with the player on `start`, the end at `end`, the level's
     * zoom, and the counters, score, open question and hint reset.
     */
    method Reset(m: array2<Cell>, start: Pos, end: Pos, zoom: int)
      modifies this
      ensures maze == m && player == start && endPos == end && zoomLevel == zoom && status == Playing
      ensures JustReset() && ScoreBounded()
      ensures level == old(level) && animating == old(animating)
    {
      maze, player, endPos := m, start, end;
      status, zoomLevel, showHint := Playing, zoom, false;
      moveCount, correctAnswers, wrongAnswers, score, currentQuestion := 0, 0, 0, 0, None;
    }

    /**
     * `startGame` with `initGame`: the level's maze is generated, the scan
     * finds its start and end, and the state is reset onto it.  For every
     * level the generated maze exists (no level has a 3 by 3 grid), the
     * player starts on (1, 1), the grid's one start cell, and the end is the
     * grid's one end cell.
     */
    method StartGame(rand: nat -> real, retries: nat)
      requires IsRandomStream(rand)
      modifies this
      ensures status == Playing
      ensures var settings := LevelSettings(level);
        && maze.Length0 == MazeGenerator.OddSize(settings.height) && maze.Length1 == MazeGenerator.OddSize(settings.width)
        && zoomLevel == settings.defaultZoom
      ensures player == Pos(1, 1) && StartAndEnd(maze, player, endPos)
      ensures JustReset() && ScoreBounded()
      ensures level == old(level) && animating == old(animating)
    {
      var settings := LevelSettings(level);
      var m, startPos, end := LevelMaze(settings, rand, retries);
      Reset(m, startPos, end, settings.defaultZoom);
    }
  }

  /** `start` is the one start cell of the grid and `end` its one end cell. */
  ghost predicate StartAndEnd(m: array2<Cell>, start: Pos, end: Pos)
    reads m
  {
    && InBounds(m, start) && InBounds(m, end)
    && (forall p :: InBounds(m, p) ==> (m[p.y, p.x] == Start <==> p == start))
    && (forall p :: InBounds(m, p) ==> (m[p.y, p.x] == End <==> p == end))
  }

  /**
   * The maze part of `initGame`: the level's maze is generated and scanned
   * for its start and end.  Every level's sizes are at least 13, so the
   * generator succeeds; its start is (1, 1) and its end is its one end cell.
   */
  method LevelMaze(settings: Settings, rand: nat -> real, retries: nat) returns (m: array2<Cell>, start: Pos, end: Pos)
    requires settings.width >= 4 && settings.height >= 4
    requires IsRandomStream(rand)
    ensures m.Length0 == MazeGenerator.OddSize(settings.height) && m.Length1 == MazeGenerator.OddSize(settings.width)
    ensures start == Pos(1, 1) && StartAndEnd(m, start, end)
  {
    var generated := MazeGenerator.GenerateMaze(settings.width, settings.height, settings.questionCount,
                                                settings.obstacleCount, rand, retries);
    assert generated.Some?;
    m := generated.value;
    start, end := FindStartEnd(m);
    LastOfUnique(m, Start, start, Pos(1, 1));
    assert CellsOf(m, End) != {};
    ghost var e :| e in CellsOf(m, End);
    assert CellsOf(m, End) == {e} by {
      forall q | q in CellsOf(m, End) ensures q == e {
        assert |CellsOf(m, End) - {e}| == 0;
        assert q in CellsOf(m, End) - {e} || q == e;
      }
    }
    LastOfUnique(m, End, end, e);
    forall p | InBounds(m, p) ensures m[p.y, p.x] == Start <==> p == start {
      assert m[p.y, p.x] == Start <==> Pos(p.x, p.y) in CellsOf(m, Start);
    }
    forall p | InBounds(m, p) ensures m[p.y, p.x] == End <==> p == end {
      assert m[p.y, p.x] == End <==> Pos(p.x, p.y) in CellsOf(m, End);
    }
  }
}
