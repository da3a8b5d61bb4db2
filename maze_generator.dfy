/**
 * Maze generation: a grid of walls of odd size, carved by a randomised
 * depth-first "recursive backtracker" over the odd-coordinate cells, with
 * the start at (1, 1), the end placed by rejection sampling, and question
 * and obstacle cells stamped onto a Fisher-Yates shuffle of the empty cells.
 *
 * Every `Math.random()` call reads the next draw of a stream `rand`, whose
 * index `k` the methods thread through in program order.
 */
module MazeGenerator {
  import opened Grid

  /** The size normalisation: an even size grows by one, an odd size stays. */
  function OddSize(n: int): (r: int)
    ensures r % 2 == 1
    ensures r == n || r == n + 1
    ensures n % 2 == 1 ==> r == n
  {
    if n % 2 == 0 then n + 1 else n
  }

  /** Up, right, down, left, two cells at a time: the carving directions. */
  const Jumps: seq<(int, int)> := [(0, -2), (2, 0), (0, 2), (-2, 0)]

  function Jump(p: Pos, k: nat): Pos
    requires k < 4
  {
    Pos(p.x + Jumps[k].0, p.y + Jumps[k].1)
  }

  /** Strictly inside the border of a `w` by `h` grid. */
  predicate Inside(w: int, h: int, p: Pos)
  {
    0 < p.x < w - 1 && 0 < p.y < h - 1
  }

  predicate OnBorder(w: int, h: int, p: Pos)
  {
    p.x == 0 || p.x == w - 1 || p.y == 0 || p.y == h - 1
  }

  /** A carving target: inside the border with both coordinates odd. */
  predicate Lattice(w: int, h: int, p: Pos)
  {
    Inside(w, h, p) && p.x % 2 == 1 && p.y % 2 == 1
  }

  /** The cell halfway between two carving cells. */
  function Midpoint(a: Pos, b: Pos): Pos
  {
    Pos(a.x + (b.x - a.x) / 2, a.y + (b.y - a.y) / 2)
  }

  /**
   * The neighbour scan of one carving step: the cells two steps up, right,
   * down and left of `top` that lie inside the border and are not yet
   * visited, in that order.
   */
  method UnvisitedNeighbours(w: int, h: int, top: Pos, visited: set<Pos>) returns (ns: seq<Pos>)
    ensures forall k :: 0 <= k < 4 ==> (Jump(top, k) in ns <==> Inside(w, h, Jump(top, k)) && Jump(top, k) !in visited)
    ensures forall p :: p in ns ==> p == Jump(top, 0) || p == Jump(top, 1) || p == Jump(top, 2) || p == Jump(top, 3)
  {
    ns := [];
    for k := 0 to 4
      invariant forall d :: 0 <= d < k ==> (Jump(top, d) in ns <==> Inside(w, h, Jump(top, d)) && Jump(top, d) !in visited)
      invariant forall p :: p in ns ==> exists d :: 0 <= d < k && p == Jump(top, d)
    {
      var n := Jump(top, k);
      if n.x > 0 && n.x < w - 1 && n.y > 0 && n.y < h - 1 && n !in visited {
        ns := ns + [n];
      }
    }
  }

  /** One carve: the wall between `a` and `b`, and `b` itself, become empty; nothing else changes. */
  method OpenPassage(maze: array2<Cell>, a: Pos, b: Pos)
    requires Inside(maze.Length1, maze.Length0, Midpoint(a, b)) && Inside(maze.Length1, maze.Length0, b)
    requires WallsAndPassages(maze)
    modifies maze
    ensures WallsAndPassages(maze)
    ensures maze[Midpoint(a, b).y, Midpoint(a, b).x] == Empty && maze[b.y, b.x] == Empty
    ensures forall y, x :: 0 <= y < maze.Length0 && 0 <= x < maze.Length1 && Pos(x, y) != Midpoint(a, b) && Pos(x, y) != b ==>
      maze[y, x] == old(maze[y, x])
    ensures forall p :: InBounds(maze, p) && old(maze[p.y, p.x]) == Empty ==> maze[p.y, p.x] == Empty
  {
    maze[a.y + (b.y - a.y) / 2, a.x + (b.x - a.x) / 2] := Empty;
    maze[b.y, b.x] := Empty;
  }

  /** A jump from a carving cell to a cell inside the border lands on a carving cell, with the midpoint inside too. */
  lemma JumpStaysOnLattice(w: int, h: int, a: Pos, b: Pos)
    requires Lattice(w, h, a) && Inside(w, h, b)
    requires b == Jump(a, 0) || b == Jump(a, 1) || b == Jump(a, 2) || b == Jump(a, 3)
    ensures Lattice(w, h, b) && Inside(w, h, Midpoint(a, b)) && Midpoint(a, b) != b
  {
  }

  /** The shape of the grid during carving: walls and empty cells only, and a solid border. */
  ghost predicate WallsAndPassages(maze: array2<Cell>)
    reads maze
  {
    && (forall y, x :: 0 <= y < maze.Length0 && 0 <= x < maze.Length1 ==> maze[y, x] == Wall || maze[y, x] == Empty)
    && (forall y, x :: 0 <= y < maze.Length0 && 0 <= x < maze.Length1 && OnBorder(maze.Length1, maze.Length0, Pos(x, y)) ==>
          maze[y, x] == Wall)
  }

  /** Every carving cell next to a cell of `s` also lies in `s`. */
  ghost predicate ClosedUnderJumps(w: int, h: int, s: set<Pos>)
  {
    forall v, k :: v in s && 0 <= k < 4 && Inside(w, h, Jump(v, k)) ==> Jump(v, k) in s
  }

  /** A set that holds (1, 1) and is closed under jumps holds every carving cell. */
  lemma {:induction false} ClosedSetHoldsLattice(w: int, h: int, s: set<Pos>, p: Pos)
    requires Pos(1, 1) in s && ClosedUnderJumps(w, h, s)
    requires Lattice(w, h, p)
    ensures p in s
    decreases p.x + p.y
  {
    if p.x > 1 {
      var left := Pos(p.x - 2, p.y);
      ClosedSetHoldsLattice(w, h, s, left);
      assert Jump(left, 1) == p;
    } else if p.y > 1 {
      var up := Pos(p.x, p.y - 2);
      ClosedSetHoldsLattice(w, h, s, up);
      assert Jump(up, 2) == p;
    }
  }

  /**
   * The bookkeeping of the carving loop: (1, 1) is visited, every visited
   * cell is a carving cell, the stack holds visited cells, and a visited
   * cell that has left the stack has no unvisited neighbour.
   */
  ghost predicate StackInv(w: int, h: int, stack: seq<Pos>, visited: set<Pos>)
  {
    && Pos(1, 1) in visited
    && (forall v :: v in visited ==> Lattice(w, h, v))
    && (forall i :: 0 <= i < |stack| ==> stack[i] in visited)
    && (forall v, d :: v in visited && 0 <= d < 4 && Inside(w, h, Jump(v, d)) && Jump(v, d) !in visited ==> v in stack)
  }

  /** Pushing an unvisited neighbour of the stack top keeps the bookkeeping. */
  lemma CarvePush(w: int, h: int, stack: seq<Pos>, visited: set<Pos>, n: Pos)
    requires StackInv(w, h, stack, visited)
    requires Lattice(w, h, n) && n !in visited
    ensures StackInv(w, h, stack + [n], visited + {n})
  {
    var stack' := stack + [n];
    assert stack'[|stack|] == n;
    forall i | 0 <= i < |stack| ensures stack'[i] in visited + {n} {
      assert stack'[i] == stack[i];
    }
    forall v, d | v in visited + {n} && 0 <= d < 4 && Inside(w, h, Jump(v, d)) && Jump(v, d) !in visited + {n}
      ensures v in stack'
    {
      if v != n {
        assert v in stack;
      }
    }
  }

  /** Popping a stack top whose neighbours are all visited keeps the bookkeeping. */
  lemma CarvePop(w: int, h: int, stack: seq<Pos>, visited: set<Pos>, top: Pos)
    requires StackInv(w, h, stack, visited) && stack != [] && top == stack[|stack| - 1]
    requires forall d :: 0 <= d < 4 && Inside(w, h, Jump(top, d)) ==> Jump(top, d) in visited
    ensures StackInv(w, h, stack[..|stack| - 1], visited)
  {
    var stack' := stack[..|stack| - 1];
    forall v, d | v in visited && 0 <= d < 4 && Inside(w, h, Jump(v, d)) && Jump(v, d) !in visited
      ensures v in stack'
    {
      var i :| 0 <= i < |stack| && stack[i] == v;
      assert i < |stack| - 1;
      assert stack'[i] == v;
    }
  }

  /**
   * The carving loop.  The stack starts at (1, 1); each round either carves
   * from the stack top to a randomly chosen unvisited neighbour and pushes it,
   * or pops the top when it has none.  When the stack is empty every carving
   * cell has been visited and opened; the border is still solid wall.
   */
  method CarvePassages(maze: array2<Cell>, rand: nat -> real, k0: nat) returns (k: nat)
    requires maze.Length0 >= 3 && maze.Length1 >= 3
    requires forall y, x :: 0 <= y < maze.Length0 && 0 <= x < maze.Length1 ==> maze[y, x] == Wall
    requires IsRandomStream(rand)
    modifies maze
    ensures k >= k0
    ensures WallsAndPassages(maze)
    ensures forall y, x :: 0 <= y < maze.Length0 && 0 <= x < maze.Length1 && Lattice(maze.Length1, maze.Length0, Pos(x, y)) ==>
      maze[y, x] == Empty
  {
    var w, h := maze.Length1, maze.Length0;
    k := k0;
    maze[1, 1] := Empty;
    var stack := [Pos(1, 1)];
    var visited := {Pos(1, 1)};
    while stack != []
      invariant k >= k0
      invariant WallsAndPassages(maze)
      invariant StackInv(w, h, stack, visited)
      invariant forall v :: v in visited ==> maze[v.y, v.x] == Empty
      decreases Interior(w, h) - visited, |stack|
    {
      var top := stack[|stack| - 1];
      var ns := UnvisitedNeighbours(w, h, top, visited);
      if |ns| > 0 {
        var n := ns[RandomIndex(rand(k), |ns|)];
        k := k + 1;
        assert n in ns;
        JumpStaysOnLattice(w, h, top, n);
        OpenPassage(maze, top, n);
        assert n in Interior(w, h) - visited;
        CarvePush(w, h, stack, visited, n);
        visited := visited + {n};
        stack := stack + [n];
      } else {
        CarvePop(w, h, stack, visited, top);
        stack := stack[..|stack| - 1];
      }
    }
    forall y, x | 0 <= y < h && 0 <= x < w && Lattice(w, h, Pos(x, y)) ensures maze[y, x] == Empty {
      ClosedSetHoldsLattice(w, h, visited, Pos(x, y));
    }
  }

  ghost function Interior(w: int, h: int): set<Pos>
  {
    set y, x | 0 < y < h - 1 && 0 < x < w - 1 :: Pos(x, y)
  }

  /** The exchange of slots `i` and `j`. */
  function Swap<T>(s: seq<T>, i: nat, j: nat): (r: seq<T>)
    requires i < |s| && j < |s|
    ensures |r| == |s| && r[i] == s[j] && r[j] == s[i]
    ensures forall m :: 0 <= m < |s| && m != i && m != j ==> r[m] == s[m]
  {
    s[i := s[j]][j := s[i]]
  }

  /**
   * The Fisher-Yates rounds for slots `i` down to 1: round `i` exchanges slot
   * `i` with slot `j`, drawn uniformly from `[0, i]` by draw `k`.
   */
  function ShuffleFrom<T>(s: seq<T>, i: nat, rand: nat -> real, k: nat): seq<T>
    requires i < |s|
    requires IsRandomStream(rand)
    decreases i
  {
    if i == 0 then s
    else ShuffleFrom(Swap(s, i, RandomIndex(rand(k), i + 1)), i - 1, rand, k + 1)
  }

  /** The shuffle of `s` with draws `k`, `k + 1`, ... */
  function FisherYates<T>(s: seq<T>, rand: nat -> real, k: nat): seq<T>
    requires IsRandomStream(rand)
  {
    if |s| == 0 then s else ShuffleFrom(s, |s| - 1, rand, k)
  }

  lemma SwapPermutes<T>(s: seq<T>, i: nat, j: nat)
    requires i < |s| && j < |s|
    ensures multiset(Swap(s, i, j)) == multiset(s)
  {
    var t := s[i := s[j]];
    assert multiset(t) == multiset(s) - multiset{s[i]} + multiset{s[j]};
    assert multiset(t[j := s[i]]) == multiset(t) - multiset{t[j]} + multiset{s[i]};
  }

  /** The shuffle is a permutation: it keeps every element with its multiplicity. */
  lemma {:induction false} ShuffleFromPermutes<T>(s: seq<T>, i: nat, rand: nat -> real, k: nat)
    requires i < |s| && IsRandomStream(rand)
    ensures |ShuffleFrom(s, i, rand, k)| == |s|
    ensures multiset(ShuffleFrom(s, i, rand, k)) == multiset(s)
    decreases i
  {
    if i > 0 {
      var j := RandomIndex(rand(k), i + 1);
      SwapPermutes(s, i, j);
      ShuffleFromPermutes(Swap(s, i, j), i - 1, rand, k + 1);
    }
  }

  lemma FisherYatesPermutes<T>(s: seq<T>, rand: nat -> real, k: nat)
    requires IsRandomStream(rand)
    ensures |FisherYates(s, rand, k)| == |s|
    ensures multiset(FisherYates(s, rand, k)) == multiset(s)
  {
    if |s| > 0 {
      ShuffleFromPermutes(s, |s| - 1, rand, k);
    }
  }

  /** A permutation of a sequence without repetitions has none either. */
  lemma PermutationKeepsDistinct(s: seq<Pos>, t: seq<Pos>)
    requires Distinct(s) && multiset(t) == multiset(s)
    ensures Distinct(t)
  {
    forall i, j | 0 <= i < j < |t| ensures t[i] != t[j] {
      if t[i] == t[j] {
        var p := t[i];
        assert multiset(t)[p] >= 2 by {
          assert t == t[..i] + [p] + t[i + 1..j] + [p] + t[j + 1..];
        }
        MultiplicityAtMostOne(s, p);
        assert false;
      }
    }
  }

  lemma {:induction false} MultiplicityAtMostOne(s: seq<Pos>, p: Pos)
    requires Distinct(s)
    ensures multiset(s)[p] <= 1
  {
    if s != [] {
      assert s == [s[0]] + s[1..];
      assert Distinct(s[1..]);
      MultiplicityAtMostOne(s[1..], p);
      if s[0] == p {
        assert p !in s[1..];
      }
    }
  }

  /**
   * `shuffleArray`: the in-place Fisher-Yates shuffle.  Slot `i` runs from the
   * last index down to 1 and is exchanged with slot `RandomIndex(rand(k), i + 1)`,
   * one draw per round.
   */
  method Shuffle<T>(a: array<T>, rand: nat -> real, k0: nat) returns (k: nat)
    requires IsRandomStream(rand)
    modifies a
    ensures a[..] == FisherYates(old(a[..]), rand, k0)
    ensures k == k0 + (if a.Length == 0 then 0 else a.Length - 1)
  {
    k := k0;
    var i := a.Length - 1;
    while i > 0
      invariant -1 <= i < a.Length
      invariant i == -1 <==> a.Length == 0
      invariant k == k0 + (a.Length - 1 - i)
      invariant a.Length > 0 ==> ShuffleFrom(a[..], i, rand, k) == FisherYates(old(a[..]), rand, k0)
    {
      var j := RandomIndex(rand(k), i + 1);
      a[i], a[j] := a[j], a[i];
      k := k + 1;
      i := i - 1;
    }
  }

  function Max(a: int, b: int): int { if a >= b then a else b }
  function Min(a: int, b: int): int { if a <= b then a else b }

  /**
   * The end placement: the first candidate is `(W - 2, H - 2)`; while the
   * candidate is not empty a new one is drawn, `x = max(1, floor(r * (W - 2)))`
   * and `y = max(1, floor(r' * (H - 2)))`.  The source draws without bound; the
   * model gives up after `retries` redraws and then returns `None`, leaving
   * the grid untouched.
   */
  method PlaceEnd(maze: array2<Cell>, rand: nat -> real, k0: nat, retries: nat) returns (endPos: Option<Pos>, k: nat)
    requires maze.Length0 >= 3 && maze.Length1 >= 3
    requires IsRandomStream(rand)
    modifies maze
    ensures k >= k0
    ensures endPos.Some? ==>
      var e := endPos.value;
      && 1 <= e.x <= maze.Length1 - 2 && 1 <= e.y <= maze.Length0 - 2
      && old(maze[e.y, e.x]) == Empty && maze[e.y, e.x] == End
    ensures forall y, x :: 0 <= y < maze.Length0 && 0 <= x < maze.Length1 && endPos != Some(Pos(x, y)) ==>
      maze[y, x] == old(maze[y, x])
    ensures old(maze[maze.Length0 - 2, maze.Length1 - 2]) == Empty ==>
      endPos == Some(Pos(maze.Length1 - 2, maze.Length0 - 2))
  {
    var w, h := maze.Length1, maze.Length0;
    k := k0;
    var endX, endY := w - 2, h - 2;
    var tries := 0;
    while maze[endY, endX] != Empty && tries < retries
      invariant k >= k0
      invariant 1 <= endX <= w - 2 && 1 <= endY <= h - 2
      invariant tries == 0 ==> endX == w - 2 && endY == h - 2
      invariant tries > 0 ==> maze[h - 2, w - 2] != Empty
      decreases retries - tries
    {
      endX := Max(1, RandomIndex(rand(k), w - 2));
      endY := Max(1, RandomIndex(rand(k + 1), h - 2));
      k := k + 2;
      tries := tries + 1;
    }
    if maze[endY, endX] == Empty {
      maze[endY, endX] := End;
      endPos := Some(Pos(endX, endY));
    } else {
      endPos := None;
    }
  }

  /** The question loop: the cells in slots `0 .. count` of `cells` become questions. */
  method PlaceQuestions(maze: array2<Cell>, cells: seq<Pos>, count: nat)
    requires count <= |cells|
    requires forall p :: p in cells ==> InBounds(maze, p)
    modifies maze
    ensures forall y, x :: 0 <= y < maze.Length0 && 0 <= x < maze.Length1 ==>
      maze[y, x] == (if Pos(x, y) in cells[..count] then Question else old(maze[y, x]))
  {
    for i := 0 to count
      invariant forall y, x :: 0 <= y < maze.Length0 && 0 <= x < maze.Length1 ==>
        maze[y, x] == (if Pos(x, y) in cells[..i] then Question else old(maze[y, x]))
    {
      var p := cells[i];
      assert p in cells;
      assert cells[..i + 1] == cells[..i] + [p];
      maze[p.y, p.x] := Question;
    }
  }

  /** The obstacle loop: the cells in slots `from .. to` of `cells` become obstacles. */
  method PlaceObstacles(maze: array2<Cell>, cells: seq<Pos>, from: nat, to: nat)
    requires from <= to <= |cells|
    requires forall p :: p in cells ==> InBounds(maze, p)
    modifies maze
    ensures forall y, x :: 0 <= y < maze.Length0 && 0 <= x < maze.Length1 ==>
      maze[y, x] == (if Pos(x, y) in cells[from..to] then Obstacle else old(maze[y, x]))
  {
    var i := from;
    while i < to
      invariant from <= i <= to
      invariant forall y, x :: 0 <= y < maze.Length0 && 0 <= x < maze.Length1 ==>
        maze[y, x] == (if Pos(x, y) in cells[from..i] then Obstacle else old(maze[y, x]))
    {
      var p := cells[i];
      assert p in cells;
      assert cells[from..i + 1] == cells[from..i] + [p];
      maze[p.y, p.x] := Obstacle;
      i := i + 1;
    }
  }

  /**
   * The two placement loops: slots `0 .. min(qc, n)` of `cells` become
   * questions, then slots `qc .. min(qc + oc, n)` obstacles, where
   * `n = |cells|`.  Only cells that were empty change.
   */
  method PlaceSpecials(maze: array2<Cell>, cells: seq<Pos>, questionCount: nat, obstacleCount: nat)
    requires Distinct(cells)
    requires forall p :: p in cells ==> InBounds(maze, p) && maze[p.y, p.x] == Empty
    modifies maze
    ensures forall y, x :: 0 <= y < maze.Length0 && 0 <= x < maze.Length1 ==>
      maze[y, x] == Placement(cells, questionCount, obstacleCount, Pos(x, y), old(maze[y, x]))
    ensures forall y, x :: 0 <= y < maze.Length0 && 0 <= x < maze.Length1 && old(maze[y, x]) != Empty ==>
      maze[y, x] == old(maze[y, x])
  {
    var n := |cells|;
    PlaceQuestions(maze, cells, Min(questionCount, n));
    if questionCount < Min(questionCount + obstacleCount, n) {
      PlaceObstacles(maze, cells, questionCount, Min(questionCount + obstacleCount, n));
    }
    forall y, x | 0 <= y < maze.Length0 && 0 <= x < maze.Length1 && old(maze[y, x]) != Empty
      ensures maze[y, x] == old(maze[y, x])
    {
      assert Pos(x, y) !in cells;
    }
  }

  /**
   * What slot membership makes of a cell: questions are the first
   * `min(qc, n)` slots, obstacles the slots from `qc` below `min(qc + oc, n)`,
   * and every other cell keeps its tag `c`.
   */
  function Placement(cells: seq<Pos>, questionCount: nat, obstacleCount: nat, p: Pos, c: Cell): Cell
  {
    var n := |cells|;
    if p in cells[..Min(questionCount, n)] then Question
    else if questionCount <= n && p in cells[questionCount..Min(questionCount + obstacleCount, n)] then Obstacle
    else c
  }

  /** The end of the question slots, `min(qc, n)`. */
  function QuestionSlots(questionCount: nat, n: nat): nat
  {
    Min(questionCount, n)
  }

  /** The end of the obstacle slots: `min(qc + oc, n)`, or the question end when that is further. */
  function PlacedSlots(questionCount: nat, obstacleCount: nat, n: nat): nat
  {
    Max(QuestionSlots(questionCount, n), Min(questionCount + obstacleCount, n))
  }

  /** A sequence without repetitions splits at `i` into two parts with no position in common. */
  lemma SplitDistinct(s: seq<Pos>, i: nat)
    requires Distinct(s) && i <= |s|
    ensures Distinct(s[..i]) && Distinct(s[i..])
    ensures forall p :: p in s <==> p in s[..i] || p in s[i..]
    ensures forall p :: p in s[..i] ==> p !in s[i..]
  {
    assert s == s[..i] + s[i..];
  }

  /**
   * The placement slots of a sequence without repetitions partition it: a
   * slot in `[0, mq)` makes a question, one in `[mq, pe)` an obstacle, and
   * a cell in a later slot or in no slot keeps its tag.
   */
  lemma PlacementWindows(s: seq<Pos>, questionCount: nat, obstacleCount: nat, p: Pos, c: Cell)
    requires Distinct(s)
    ensures var mq, pe := QuestionSlots(questionCount, |s|), PlacedSlots(questionCount, obstacleCount, |s|);
      && (p in s <==> p in s[..mq] || p in s[mq..pe] || p in s[pe..])
      && (p in s[..mq] ==> Placement(s, questionCount, obstacleCount, p, c) == Question)
      && (p in s[mq..pe] ==> Placement(s, questionCount, obstacleCount, p, c) == Obstacle && p !in s[..mq])
      && (p in s[pe..] ==> Placement(s, questionCount, obstacleCount, p, c) == c && p !in s[..mq] && p !in s[mq..pe])
      && (p !in s ==> Placement(s, questionCount, obstacleCount, p, c) == c)
  {
    var mq, pe := QuestionSlots(questionCount, |s|), PlacedSlots(questionCount, obstacleCount, |s|);
    SplitDistinct(s, pe);
    SplitDistinct(s[..pe], mq);
    assert s[..pe][..mq] == s[..mq] && s[..pe][mq..] == s[mq..pe];
    if questionCount <= |s| {
      assert s[questionCount..Min(questionCount + obstacleCount, |s|)] == s[mq..pe];
    }
  }

  /**
   * A grid whose question, obstacle and empty cells are exactly the three
   * consecutive windows `[0, mq)`, `[mq, pe)` and `[pe, |s|)` of a sequence
   * without repetitions has as many of each as its window is long.
   */
  lemma WindowCounts(m: array2<Cell>, s: seq<Pos>, mq: nat, pe: nat)
    requires Distinct(s) && mq <= pe <= |s|
    requires forall p :: p in s[..mq] <==> InBounds(m, p) && m[p.y, p.x] == Question
    requires forall p :: p in s[mq..pe] <==> InBounds(m, p) && m[p.y, p.x] == Obstacle
    requires forall p :: p in s[pe..] <==> InBounds(m, p) && m[p.y, p.x] == Empty
    ensures |CellsOf(m, Question)| == mq
    ensures |CellsOf(m, Obstacle)| == pe - mq
    ensures |CellsOf(m, Empty)| == |s| - pe
  {
    assert Distinct(s[..mq]) && Distinct(s[mq..pe]) && Distinct(s[pe..]);
    CountCells(m, Question, s[..mq]);
    CountCells(m, Obstacle, s[mq..pe]);
    CountCells(m, Empty, s[pe..]);
  }

  /**
   * `generateMaze`.  Even sizes grow by one; the grid of walls is carved from
   * (1, 1), which becomes the start; the end is placed; the empty cells are
   * listed row by row, shuffled, and the first `questionCount` become
   * questions and the next `obstacleCount` obstacles.  The result is `None`
   * exactly when the end placement cannot succeed, which is the 3 by 3 grid
   * (every redraw there is the start cell).
   */
  method GenerateMaze(width: int, height: int, questionCount: nat, obstacleCount: nat, rand: nat -> real, retries: nat)
    returns (result: Option<array2<Cell>>)
    requires width >= 2 && height >= 2
    requires IsRandomStream(rand)
    ensures result.None? <==> OddSize(width) == 3 && OddSize(height) == 3
    ensures result.Some? ==> fresh(result.value)
    ensures result.Some? ==>
      var m := result.value;
      && m.Length0 == OddSize(height) && m.Length1 == OddSize(width)
      && (forall y, x :: 0 <= y < m.Length0 && 0 <= x < m.Length1 && OnBorder(m.Length1, m.Length0, Pos(x, y)) ==>
            m[y, x] == Wall)
      && (forall y, x :: 0 <= y < m.Length0 && 0 <= x < m.Length1 && Lattice(m.Length1, m.Length0, Pos(x, y)) ==>
            m[y, x] != Wall)
      && m[1, 1] == Start && CellsOf(m, Start) == {Pos(1, 1)}
      && |CellsOf(m, End)| == 1
      && var n := |CellsOf(m, Empty)| + |CellsOf(m, Question)| + |CellsOf(m, Obstacle)|;
         && |CellsOf(m, Question)| == Min(questionCount, n)
         && |CellsOf(m, Obstacle)| == Max(0, Min(questionCount + obstacleCount, n) - questionCount)
  {
    var w, h := OddSize(width), OddSize(height);
    var m, endPos, k := CarveAndMark(w, h, rand, retries);
    if endPos.None? {
      return None;
    }
    var e := endPos.value;
    var s, k' := ShuffledEmptyCells(m, rand, k);
    label beforePlacement:
    PlaceSpecials(m, s, questionCount, obstacleCount);
    result := Some(m);
    var mq, pe := QuestionSlots(questionCount, |s|), PlacedSlots(questionCount, obstacleCount, |s|);
    forall p | InBounds(m, p)
      ensures (p in s[..mq] <==> m[p.y, p.x] == Question)
      ensures (p in s[mq..pe] <==> m[p.y, p.x] == Obstacle)
      ensures (p in s[pe..] <==> m[p.y, p.x] == Empty)
      ensures m[p.y, p.x] == Start <==> p == Pos(1, 1)
      ensures m[p.y, p.x] == End <==> p == e
    {
      PlacementWindows(s, questionCount, obstacleCount, p, old@beforePlacement(m[p.y, p.x]));
      assert Pos(p.x, p.y) == p;
    }
    forall p | !InBounds(m, p) ensures p !in s {
    }
    WindowCounts(m, s, mq, pe);
    CountCells(m, Start, [Pos(1, 1)]);
    CountCells(m, End, [e]);
  }

  /**
   * The first half of `generateMaze` on normalised sizes: the grid of walls
   * is carved, (1, 1) becomes the start, and the end is placed.  The end
   * placement fails exactly on the 3 by 3 grid.
   */
  method CarveAndMark(w: int, h: int, rand: nat -> real, retries: nat) returns (m: array2<Cell>, endPos: Option<Pos>, k: nat)
    requires w >= 3 && h >= 3 && w % 2 == 1 && h % 2 == 1
    requires IsRandomStream(rand)
    ensures fresh(m) && m.Length0 == h && m.Length1 == w
    ensures endPos.None? <==> w == 3 && h == 3
    ensures endPos.Some? ==> Marked(m, endPos.value)
  {
    m := new Cell[h, w]((y, x) => Wall);
    k := CarvePassages(m, rand, 0);
    m[1, 1] := Start;
    assert Lattice(w, h, Pos(w - 2, h - 2));
    endPos, k := PlaceEnd(m, rand, k, retries);
    if endPos.Some? {
      forall p | InBounds(m, p) ensures m[p.y, p.x] == Start <==> p == Pos(1, 1) {
        assert Pos(p.x, p.y) == p;
      }
    }
  }

  /**
   * The empty cells of the grid, listed row by row and then shuffled: a
   * sequence without repetitions that holds exactly the empty cells.
   */
  method ShuffledEmptyCells(m: array2<Cell>, rand: nat -> real, k0: nat) returns (s: seq<Pos>, k: nat)
    requires IsRandomStream(rand)
    ensures Distinct(s)
    ensures forall p :: p in s <==> InBounds(m, p) && m[p.y, p.x] == Empty
  {
    var cells := EmptyCellsExcept(m, None);
    var a := new Pos[|cells|](i => if 0 <= i < |cells| then cells[i] else Pos(0, 0));
    assert a[..] == cells;
    k := Shuffle(a, rand, k0);
    s := a[..];
    FisherYatesPermutes(cells, rand, k0);
    PermutationKeepsDistinct(cells, s);
    forall p ensures p in s <==> p in cells {
      assert p in s <==> p in multiset(s);
    }
  }

  /** The carved grid once the start and the end are marked: no special cell yet. */
  ghost predicate Marked(m: array2<Cell>, e: Pos)
    reads m
  {
    && (forall p :: InBounds(m, p) ==> (m[p.y, p.x] == Start <==> p == Pos(1, 1)))
    && Inside(m.Length1, m.Length0, e)
    && (forall p :: InBounds(m, p) ==> (m[p.y, p.x] == End <==> p == e))
    && (forall p :: InBounds(m, p) ==> !IsSpecial(m[p.y, p.x]))
    && (forall y, x :: 0 <= y < m.Length0 && 0 <= x < m.Length1 && OnBorder(m.Length1, m.Length0, Pos(x, y)) ==>
          m[y, x] == Wall)
    && (forall y, x :: 0 <= y < m.Length0 && 0 <= x < m.Length1 && Lattice(m.Length1, m.Length0, Pos(x, y)) ==>
          m[y, x] != Wall)
  }
}
