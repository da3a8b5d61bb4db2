/**
 * The hint trail of the maze view: a breadth-first search from the player
 * over the four-neighbour, non-wall cells.  The first phase stops at the
 * first dequeued question or obstacle cell other than the player's own; when
 * there is none, a second search looks for the end cell.  The grid is only
 * read, so no member of this module modifies anything.
 */
module Hint {
  import opened Grid

  /** Up, right, down, left: the fixed order in which neighbours are expanded. */
  const Directions: seq<(int, int)> := [(0, -1), (1, 0), (0, 1), (-1, 0)]

  function Step(p: Pos, k: nat): Pos
    requires k < 4
  {
    Pos(p.x + Directions[k].0, p.y + Directions[k].1)
  }

  /** The index in `Directions` of the step that leads from `p` to its neighbour `n`. */
  function DirectionOf(p: Pos, n: Pos): (k: nat)
    ensures k < 4
  {
    if n == Step(p, 0) then 0
    else if n == Step(p, 1) then 1
    else if n == Step(p, 2) then 2
    else 3
  }

  lemma AdjacentIsStep(p: Pos, n: Pos)
    requires Adjacent(p, n)
    ensures n == Step(p, DirectionOf(p, n))
  {
  }

  /** Where a walk from `from` ends: its last cell, or `from` itself when it is empty. */
  function Last(from: Pos, q: seq<Pos>): Pos
  {
    if q == [] then from else q[|q| - 1]
  }

  /** Cell `i` of `q` is passable and adjacent to the cell before it (to `from` for the first cell). */
  ghost predicate StepOk(g: array2<Cell>, from: Pos, q: seq<Pos>, i: int)
    requires 0 <= i < |q|
    reads g
  {
    Passable(g, q[i]) && Adjacent(if i == 0 then from else q[i - 1], q[i])
  }

  /**
   * `q` is a walk from `from` over passable cells.  `from` itself is not part
   * of the walk, exactly as a queue entry's `path` leaves out the player's cell.
   */
  ghost predicate IsWalk(g: array2<Cell>, from: Pos, q: seq<Pos>)
    reads g
  {
    forall i :: 0 <= i < |q| ==> StepOk(g, from, q, i)
  }

  /** Dropping the last cell of a walk leaves a walk, whose end is next to the dropped cell. */
  lemma WalkPrefix(g: array2<Cell>, from: Pos, q: seq<Pos>)
    requires IsWalk(g, from, q) && q != []
    ensures IsWalk(g, from, q[..|q| - 1])
    ensures Adjacent(Last(from, q[..|q| - 1]), Last(from, q)) && Passable(g, Last(from, q))
  {
    var n := |q| - 1;
    assert StepOk(g, from, q, n);
    var p := q[..n];
    forall i | 0 <= i < |p| ensures StepOk(g, from, p, i) {
      assert StepOk(g, from, q, i);
    }
  }

  /** A walk extended by a passable neighbour of its end is a walk. */
  lemma WalkExtend(g: array2<Cell>, from: Pos, q: seq<Pos>, n: Pos)
    requires IsWalk(g, from, q) && Adjacent(Last(from, q), n) && Passable(g, n)
    ensures IsWalk(g, from, q + [n]) && Last(from, q + [n]) == n
  {
    var p := q + [n];
    forall i | 0 <= i < |p| ensures StepOk(g, from, p, i) {
      if i < |q| {
        assert StepOk(g, from, q, i);
      }
    }
  }

  /** What a search is looking for: the nearest special cell (phase 1) or a given cell (phase 2). */
  datatype Goal = NearestSpecial | Reach(target: Pos)

  /** The test a search applies to each dequeued cell. */
  predicate IsGoal(g: array2<Cell>, goal: Goal, from: Pos, c: Pos)
    reads g
  {
    match goal
    case NearestSpecial => InBounds(g, c) && IsSpecial(g[c.y, c.x]) && c != from
    case Reach(t) => c == t
  }

  ghost predicate GoalReachable(g: array2<Cell>, from: Pos, goal: Goal)
    reads g
  {
    exists q :: IsWalk(g, from, q) && IsGoal(g, goal, from, Last(from, q))
  }

  /** `q` is a walk to a goal cell and no shorter walk from `from` ends at any goal cell. */
  ghost predicate ShortestWalkTo(g: array2<Cell>, from: Pos, goal: Goal, q: seq<Pos>)
    reads g
  {
    && IsWalk(g, from, q)
    && IsGoal(g, goal, from, Last(from, q))
    && forall q' :: IsWalk(g, from, q') && |q'| < |q| ==> !IsGoal(g, goal, from, Last(from, q'))
  }

  /** A queue entry: a reached cell and the walk that reached it. */
  datatype Entry = Entry(pos: Pos, path: seq<Pos>)

  ghost function QueuePositions(queue: seq<Entry>): set<Pos>
  {
    set i | 0 <= i < |queue| :: queue[i].pos
  }

  /** Every passable neighbour of a cell of `s` lies in `t`. */
  ghost predicate NeighboursIn(g: array2<Cell>, s: set<Pos>, t: set<Pos>)
    reads g
  {
    forall c, n :: c in s && Adjacent(c, n) && Passable(g, n) ==> n in t
  }

  /**
   * What expanding entry `e` does: `pushed` lists, in the order up, right,
   * down, left, the passable neighbours of `e.pos` that were not yet visited,
   * each with `e.path` extended by it; they are added to the visited set, and
   * afterwards every passable neighbour of `e.pos` is visited.
   */
  ghost predicate Expansion(g: array2<Cell>, e: Entry, visited: set<Pos>, pushed: seq<Entry>, visited': set<Pos>)
    reads g
  {
    && visited' == visited + QueuePositions(pushed)
    && (forall i :: 0 <= i < |pushed| ==>
          && pushed[i].path == e.path + [pushed[i].pos]
          && Adjacent(e.pos, pushed[i].pos)
          && Passable(g, pushed[i].pos)
          && pushed[i].pos !in visited)
    && (forall i, j :: 0 <= i < j < |pushed| ==> DirectionOf(e.pos, pushed[i].pos) < DirectionOf(e.pos, pushed[j].pos))
    && (forall n :: Adjacent(e.pos, n) && Passable(g, n) ==> n in visited')
  }

  /** Entry `p` was pushed while expanding `e`, along one of the first `k` directions. */
  ghost predicate PushedAlong(g: array2<Cell>, e: Entry, visited: set<Pos>, p: Entry, k: nat)
    reads g
  {
    && p.path == e.path + [p.pos]
    && Adjacent(e.pos, p.pos)
    && Passable(g, p.pos)
    && p.pos !in visited
    && DirectionOf(e.pos, p.pos) < k
  }

  /** The state of the direction loop once the first `k` directions are done. */
  ghost predicate ExpandedUpTo(g: array2<Cell>, e: Entry, visited: set<Pos>, pushed: seq<Entry>, visited': set<Pos>, k: nat)
    requires k <= 4
    reads g
  {
    && visited' == visited + QueuePositions(pushed)
    && (forall i :: 0 <= i < |pushed| ==> PushedAlong(g, e, visited, pushed[i], k))
    && (forall i, j :: 0 <= i < j < |pushed| ==> DirectionOf(e.pos, pushed[i].pos) < DirectionOf(e.pos, pushed[j].pos))
    && (forall d :: 0 <= d < k && Passable(g, Step(e.pos, d)) ==> Step(e.pos, d) in visited')
  }

  /** Direction `k` leads to a passable, unvisited cell: pushing it advances the loop state. */
  lemma ExpandPush(g: array2<Cell>, e: Entry, visited: set<Pos>, pushed: seq<Entry>, visited': set<Pos>, k: nat)
    requires k < 4 && ExpandedUpTo(g, e, visited, pushed, visited', k)
    requires Passable(g, Step(e.pos, k)) && Step(e.pos, k) !in visited'
    ensures var n := Step(e.pos, k);
            ExpandedUpTo(g, e, visited, pushed + [Entry(n, e.path + [n])], visited' + {n}, k + 1)
  {
    var n := Step(e.pos, k);
    var pushed' := pushed + [Entry(n, e.path + [n])];
    assert DirectionOf(e.pos, n) == k;
    QueuePositionsAppend(pushed, [Entry(n, e.path + [n])]);
    QueuePositionsSingleton(Entry(n, e.path + [n]));
    forall i | 0 <= i < |pushed'| ensures PushedAlong(g, e, visited, pushed'[i], k + 1) {
      if i < |pushed| {
        assert pushed'[i] == pushed[i];
      }
    }
  }

  /** Direction `k` leads nowhere new: skipping it advances the loop state. */
  lemma ExpandSkip(g: array2<Cell>, e: Entry, visited: set<Pos>, pushed: seq<Entry>, visited': set<Pos>, k: nat)
    requires k < 4 && ExpandedUpTo(g, e, visited, pushed, visited', k)
    requires !(Passable(g, Step(e.pos, k)) && Step(e.pos, k) !in visited')
    ensures ExpandedUpTo(g, e, visited, pushed, visited', k + 1)
  {
  }

  /** With all four directions done, the loop state is a complete expansion. */
  lemma ExpandDone(g: array2<Cell>, e: Entry, visited: set<Pos>, pushed: seq<Entry>, visited': set<Pos>)
    requires ExpandedUpTo(g, e, visited, pushed, visited', 4)
    ensures Expansion(g, e, visited, pushed, visited')
  {
    forall n | Adjacent(e.pos, n) && Passable(g, n) ensures n in visited' {
      AdjacentIsStep(e.pos, n);
    }
  }

  /** The inner `for (const [dx, dy] of directions)` loop of both searches. */
  method ExpandNeighbours(g: array2<Cell>, e: Entry, visited: set<Pos>)
    returns (pushed: seq<Entry>, visited': set<Pos>)
    ensures Expansion(g, e, visited, pushed, visited')
  {
    pushed, visited' := [], visited;
    for k := 0 to 4
      invariant ExpandedUpTo(g, e, visited, pushed, visited', k)
    {
      var n := Step(e.pos, k);
      if 0 <= n.x < g.Length1 && 0 <= n.y < g.Length0 && g[n.y, n.x] != Wall && n !in visited' {
        ExpandPush(g, e, visited, pushed, visited', k);
        visited' := visited' + {n};
        pushed := pushed + [Entry(n, e.path + [n])];
      } else {
        ExpandSkip(g, e, visited, pushed, visited', k);
      }
    }
    ExpandDone(g, e, visited, pushed, visited');
  }


  lemma QueuePositionsAppend(a: seq<Entry>, b: seq<Entry>)
    ensures QueuePositions(a + b) == QueuePositions(a) + QueuePositions(b)
  {
    var ab := a + b;
    forall p | p in QueuePositions(a) ensures p in QueuePositions(ab) {
      var i :| 0 <= i < |a| && a[i].pos == p;
      assert ab[i] == a[i];
    }
    forall p | p in QueuePositions(b) ensures p in QueuePositions(ab) {
      var i :| 0 <= i < |b| && b[i].pos == p;
      assert ab[|a| + i] == b[i];
    }
  }

  lemma QueuePositionsSingleton(e: Entry)
    ensures QueuePositions([e]) == {e.pos}
  {
    assert [e][0] == e;
  }

  /** Each queued entry's path is a walk from `from` that ends at the entry's cell. */
  ghost predicate QueueWalks(g: array2<Cell>, from: Pos, queue: seq<Entry>)
    reads g
  {
    forall i :: 0 <= i < |queue| ==> IsWalk(g, from, queue[i].path) && Last(from, queue[i].path) == queue[i].pos
  }

  /** Path lengths along the queue never decrease and lie in `[level, level + 1]`, the head's being `level`. */
  ghost predicate QueueLevels(queue: seq<Entry>, level: nat)
  {
    && (forall i :: 0 <= i < |queue| ==> level <= |queue[i].path| <= level + 1)
    && (queue != [] ==> |queue[0].path| == level)
    && (forall i, j :: 0 <= i < j < |queue| ==> |queue[i].path| <= |queue[j].path|)
  }

  /** Every cell within `level` steps of `from` has been reached. */
  ghost predicate ReachedWithin(g: array2<Cell>, from: Pos, visited: set<Pos>, level: nat)
    reads g
  {
    forall q :: IsWalk(g, from, q) && |q| <= level ==> Last(from, q) in visited
  }

  /** A queued cell's path is no longer than any walk to that cell. */
  ghost predicate QueueShortest(g: array2<Cell>, from: Pos, queue: seq<Entry>)
    reads g
  {
    forall q, i :: IsWalk(g, from, q) && 0 <= i < |queue| && Last(from, q) == queue[i].pos ==> |queue[i].path| <= |q|
  }

  /**
   * The search state between two iterations.  `processed` holds the cells
   * already dequeued and expanded, `level` the length of the head's path.
   */
  ghost predicate SearchInv(g: array2<Cell>, from: Pos, goal: Goal, queue: seq<Entry>,
                            visited: set<Pos>, processed: set<Pos>, level: nat)
    reads g
  {
    && from in visited
    && visited == processed + QueuePositions(queue)
    && visited <= Universe(g, from)
    && QueueWalks(g, from, queue)
    && QueueLevels(queue, level)
    && (forall c :: c in processed ==> !IsGoal(g, goal, from, c))
    && NeighboursIn(g, processed, visited)
    && ReachedWithin(g, from, visited, level)
    && QueueShortest(g, from, queue)
  }

  /** The cells a search can ever reach: the grid's cells and the start. */
  ghost function Universe(g: array2<Cell>, from: Pos): set<Pos>
  {
    (set y, x | 0 <= y < g.Length0 && 0 <= x < g.Length1 :: Pos(x, y)) + {from}
  }

  lemma SearchInvInit(g: array2<Cell>, from: Pos, goal: Goal)
    ensures SearchInv(g, from, goal, [Entry(from, [])], {from}, {}, 0)
  {
    assert [Entry(from, [])][0].pos == from;
    assert QueuePositions([Entry(from, [])]) == {from};
  }

  /** The entries pushed while expanding the head are walks one step longer than the head's. */
  lemma PushedWalks(g: array2<Cell>, from: Pos, head: Entry, visited: set<Pos>, pushed: seq<Entry>, visited': set<Pos>)
    requires IsWalk(g, from, head.path) && Last(from, head.path) == head.pos
    requires Expansion(g, head, visited, pushed, visited')
    ensures QueueWalks(g, from, pushed)
    ensures forall i :: 0 <= i < |pushed| ==> |pushed[i].path| == |head.path| + 1
  {
    forall i | 0 <= i < |pushed|
      ensures IsWalk(g, from, pushed[i].path) && Last(from, pushed[i].path) == pushed[i].pos
    {
      WalkExtend(g, from, head.path, pushed[i].pos);
    }
  }

  /** The queue after a step, `queue[1..] + pushed`, keeps its levels. */
  lemma {:induction false} StepLevels(queue: seq<Entry>, level: nat, pushed: seq<Entry>)
    requires QueueLevels(queue, level) && queue != []
    requires forall i :: 0 <= i < |pushed| ==> |pushed[i].path| == level + 1
    ensures var queue' := queue[1..] + pushed;
            QueueLevels(queue', if queue' != [] then |queue'[0].path| else level)
    ensures var queue' := queue[1..] + pushed;
            queue' != [] ==> level <= |queue'[0].path| <= level + 1
  {
    var queue' := queue[1..] + pushed;
    var m := |queue| - 1;
    forall i | 0 <= i < |queue'| ensures level <= |queue'[i].path| <= level + 1 {
      if i < m {
        assert queue'[i] == queue[i + 1];
      } else {
        assert queue'[i] == pushed[i - m];
      }
    }
    forall i, j | 0 <= i < j < |queue'| ensures |queue'[i].path| <= |queue'[j].path| {
      if j < m {
        assert queue'[i] == queue[i + 1] && queue'[j] == queue[j + 1];
      } else if i < m {
        assert queue'[i] == queue[i + 1] && queue'[j] == pushed[j - m];
      } else {
        assert queue'[i] == pushed[i - m] && queue'[j] == pushed[j - m];
      }
    }
  }

  /** Newly pushed cells lie beyond `level`, so the queue after a step keeps its shortest paths. */
  lemma {:induction false} StepShortest(g: array2<Cell>, from: Pos, queue: seq<Entry>, visited: set<Pos>,
                                         level: nat, pushed: seq<Entry>, visited': set<Pos>)
    requires QueueShortest(g, from, queue) && queue != []
    requires ReachedWithin(g, from, visited, level)
    requires Expansion(g, queue[0], visited, pushed, visited')
    requires forall i :: 0 <= i < |pushed| ==> |pushed[i].path| == level + 1
    ensures QueueShortest(g, from, queue[1..] + pushed)
  {
    var queue' := queue[1..] + pushed;
    var m := |queue| - 1;
    forall q, i | IsWalk(g, from, q) && 0 <= i < |queue'| && Last(from, q) == queue'[i].pos
      ensures |queue'[i].path| <= |q|
    {
      if i < m {
        assert queue'[i] == queue[i + 1];
      } else {
        assert queue'[i] == pushed[i - m];
      }
    }
  }

  /** After a step, every cell within the new level has been reached. */
  lemma {:induction false} StepReached(g: array2<Cell>, from: Pos, visited: set<Pos>, level: nat,
                                        queue': seq<Entry>, visited': set<Pos>, processed': set<Pos>, level': nat)
    requires ReachedWithin(g, from, visited, level) && visited <= visited'
    requires level' == level || level' == level + 1
    requires QueueLevels(queue', level')
    requires visited' <= processed' + QueuePositions(queue')
    requires QueueShortest(g, from, queue')
    requires NeighboursIn(g, processed', visited')
    ensures ReachedWithin(g, from, visited', level')
  {
    forall q | IsWalk(g, from, q) && |q| <= level' ensures Last(from, q) in visited' {
      if |q| > level {
        WalkPrefix(g, from, q);
        var q' := q[..|q| - 1];
        var f := Last(from, q');
        assert f in visited';
      }
    }
  }

  /** Every visited cell is still processed or queued after a step. */
  lemma StepCovers(queue: seq<Entry>, processed: set<Pos>, visited: set<Pos>, pushed: seq<Entry>, visited': set<Pos>)
    requires queue != [] && visited == processed + QueuePositions(queue)
    requires visited' == visited + QueuePositions(pushed)
    ensures visited' == processed + {queue[0].pos} + QueuePositions(queue[1..] + pushed)
  {
    assert queue == [queue[0]] + queue[1..];
    QueuePositionsAppend([queue[0]], queue[1..]);
    QueuePositionsAppend(queue[1..], pushed);
    QueuePositionsSingleton(queue[0]);
  }

  /** The queue after a step holds walks: the old tail's and the pushed entries'. */
  lemma StepWalks(g: array2<Cell>, from: Pos, queue: seq<Entry>, pushed: seq<Entry>)
    requires QueueWalks(g, from, queue) && queue != [] && QueueWalks(g, from, pushed)
    ensures QueueWalks(g, from, queue[1..] + pushed)
  {
    var queue' := queue[1..] + pushed;
    forall i | 0 <= i < |queue'|
      ensures IsWalk(g, from, queue'[i].path) && Last(from, queue'[i].path) == queue'[i].pos
    {
      if i < |queue| - 1 {
        assert queue'[i] == queue[i + 1];
      } else {
        assert queue'[i] == pushed[i - (|queue| - 1)];
      }
    }
  }

  /** After expanding the head, it joins the processed cells without breaking their closure. */
  lemma StepNeighbours(g: array2<Cell>, head: Entry, processed: set<Pos>, visited: set<Pos>,
                       pushed: seq<Entry>, visited': set<Pos>)
    requires NeighboursIn(g, processed, visited)
    requires Expansion(g, head, visited, pushed, visited')
    ensures NeighboursIn(g, processed + {head.pos}, visited')
  {
    forall c, n | c in processed + {head.pos} && Adjacent(c, n) && Passable(g, n) ensures n in visited' {
      if c != head.pos {
        assert n in visited;
      }
    }
  }

  /** The cells pushed by a step lie inside the grid. */
  lemma StepUniverse(g: array2<Cell>, from: Pos, head: Entry, visited: set<Pos>, pushed: seq<Entry>, visited': set<Pos>)
    requires visited <= Universe(g, from)
    requires Expansion(g, head, visited, pushed, visited')
    ensures visited' <= Universe(g, from)
  {
    forall p | p in QueuePositions(pushed) ensures p in Universe(g, from) {
      var i :| 0 <= i < |pushed| && pushed[i].pos == p;
      assert Passable(g, pushed[i].pos);
    }
  }

  /** A step either enlarges the visited set inside the universe or pushes nothing. */
  lemma StepProgress(g: array2<Cell>, from: Pos, head: Entry, visited: set<Pos>, pushed: seq<Entry>, visited': set<Pos>)
    requires visited' <= Universe(g, from)
    requires Expansion(g, head, visited, pushed, visited')
    ensures pushed != [] ==> Universe(g, from) - visited' < Universe(g, from) - visited
    ensures pushed == [] ==> visited' == visited
  {
    if pushed != [] {
      assert pushed[0].pos in QueuePositions(pushed);
      assert pushed[0].pos in Universe(g, from) - visited;
    } else {
      assert QueuePositions(pushed) == {};
    }
  }

  /** Dequeuing a non-goal head and expanding it keeps the search invariant. */
  lemma SearchInvStep(g: array2<Cell>, from: Pos, goal: Goal, queue: seq<Entry>,
                      visited: set<Pos>, processed: set<Pos>, level: nat,
                      pushed: seq<Entry>, visited': set<Pos>)
    requires SearchInv(g, from, goal, queue, visited, processed, level)
    requires queue != [] && !IsGoal(g, goal, from, queue[0].pos)
    requires Expansion(g, queue[0], visited, pushed, visited')
    ensures var queue' := queue[1..] + pushed;
            SearchInv(g, from, goal, queue', visited', processed + {queue[0].pos},
                      if queue' != [] then |queue'[0].path| else level)
  {
    var head := queue[0];
    var queue' := queue[1..] + pushed;
    var processed' := processed + {head.pos};
    var level' := if queue' != [] then |queue'[0].path| else level;
    assert visited' == processed' + QueuePositions(queue') by {
      StepCovers(queue, processed, visited, pushed, visited');
    }
    assert QueueWalks(g, from, queue') by {
      PushedWalks(g, from, head, visited, pushed, visited');
      StepWalks(g, from, queue, pushed);
    }
    assert QueueLevels(queue', level') && (level' == level || level' == level + 1) by {
      PushedWalks(g, from, head, visited, pushed, visited');
      StepLevels(queue, level, pushed);
    }
    assert QueueShortest(g, from, queue') by {
      PushedWalks(g, from, head, visited, pushed, visited');
      StepShortest(g, from, queue, visited, level, pushed, visited');
    }
    assert NeighboursIn(g, processed', visited') by {
      StepNeighbours(g, head, processed, visited, pushed, visited');
    }
    assert visited' <= Universe(g, from) by {
      StepUniverse(g, from, head, visited, pushed, visited');
    }
    assert ReachedWithin(g, from, visited', level') by {
      StepReached(g, from, visited, level, queue', visited', processed', level');
    }
  }

  /** A goal at the head of the queue is reached by a shortest walk. */
  lemma {:induction false} SearchInvFound(g: array2<Cell>, from: Pos, goal: Goal, queue: seq<Entry>,
                                           visited: set<Pos>, processed: set<Pos>, level: nat)
    requires SearchInv(g, from, goal, queue, visited, processed, level)
    requires queue != [] && IsGoal(g, goal, from, queue[0].pos)
    ensures ShortestWalkTo(g, from, goal, queue[0].path)
  {
    forall q | IsWalk(g, from, q) && |q| < |queue[0].path| ensures !IsGoal(g, goal, from, Last(from, q)) {
      assert Last(from, q) in visited;
    }
  }

  /** A set that holds `from` and every passable neighbour of its cells holds the end of every walk from `from`. */
  lemma {:induction false} ClosedSetHoldsWalks(g: array2<Cell>, from: Pos, s: set<Pos>, q: seq<Pos>)
    requires from in s && NeighboursIn(g, s, s)
    requires IsWalk(g, from, q)
    ensures Last(from, q) in s
  {
    if q != [] {
      WalkPrefix(g, from, q);
      ClosedSetHoldsWalks(g, from, s, q[..|q| - 1]);
    }
  }

  /** With the queue exhausted, no goal cell can be reached at all. */
  lemma SearchInvExhausted(g: array2<Cell>, from: Pos, goal: Goal,
                           visited: set<Pos>, processed: set<Pos>, level: nat)
    requires SearchInv(g, from, goal, [], visited, processed, level)
    ensures !GoalReachable(g, from, goal)
  {
    assert QueuePositions([]) == {};
    forall q | IsWalk(g, from, q) ensures !IsGoal(g, goal, from, Last(from, q)) {
      ClosedSetHoldsWalks(g, from, processed, q);
    }
  }

  /**
   * One breadth-first search from `from` with a FIFO queue of entries and a
   * visited set that a cell joins before it is enqueued.  It returns the path
   * of the first dequeued goal cell, or `None` when the queue runs dry.
   */
  method Search(g: array2<Cell>, from: Pos, goal: Goal) returns (found: Option<seq<Pos>>)
    requires g.Length0 > 0
    requires goal.NearestSpecial? ==> 0 <= from.y < g.Length0
    ensures found.Some? ==> ShortestWalkTo(g, from, goal, found.value)
    ensures found.None? <==> !GoalReachable(g, from, goal)
  {
    var queue := [Entry(from, [])];
    var visited := {from};
    ghost var processed: set<Pos> := {};
    ghost var level: nat := 0;
    SearchInvInit(g, from, goal);
    while queue != []
      invariant SearchInv(g, from, goal, queue, visited, processed, level)
      decreases Universe(g, from) - visited, |queue|
    {
      var head := queue[0];
      if IsGoal(g, goal, from, head.pos) {
        SearchInvFound(g, from, goal, queue, visited, processed, level);
        return Some(head.path);
      }
      var pushed, visited' := ExpandNeighbours(g, head, visited);
      var queue' := queue[1..] + pushed;
      ghost var level' := if queue' != [] then |queue'[0].path| else level;
      SearchInvStep(g, from, goal, queue, visited, processed, level, pushed, visited');
      StepProgress(g, from, head, visited, pushed, visited');
      queue, visited, processed, level := queue', visited', processed + {head.pos}, level';
    }
    SearchInvExhausted(g, from, goal, visited, processed, level);
    return None;
  }

  /** The part of a walk after a visit to `from` is again a walk from `from`, ending where the whole walk ends. */
  lemma WalkSuffix(g: array2<Cell>, from: Pos, q: seq<Pos>, i: nat)
    requires IsWalk(g, from, q) && i < |q| && q[i] == from
    ensures IsWalk(g, from, q[i + 1..]) && Last(from, q[i + 1..]) == Last(from, q)
  {
    var p := q[i + 1..];
    forall j | 0 <= j < |p| ensures StepOk(g, from, p, j) {
      assert StepOk(g, from, q, i + 1 + j);
    }
  }

  /** A shortest walk to a goal never passes through its own start. */
  lemma {:induction false} ShortestWalkAvoidsStart(g: array2<Cell>, from: Pos, goal: Goal, q: seq<Pos>)
    requires ShortestWalkTo(g, from, goal, q)
    ensures from !in q
  {
    if from in q {
      var i :| 0 <= i < |q| && q[i] == from;
      WalkSuffix(g, from, q, i);
    }
  }

  /** A shortest walk to a goal that is its own start is the empty walk. */
  lemma ShortestWalkToStart(g: array2<Cell>, from: Pos, goal: Goal, q: seq<Pos>)
    requires ShortestWalkTo(g, from, goal, q) && IsGoal(g, goal, from, from)
    ensures q == []
  {
    assert IsWalk(g, from, []) && Last(from, []) == from;
  }

  /**
   * The effect that recomputes the hint trail.  With the hint hidden or no
   * maze it clears the trail.  Otherwise phase 1 searches for the nearest
   * question or obstacle cell other than the player's; failing that, phase 2
   * searches for the end cell.  When neither is reachable no setter runs, so
   * the trail on screen, `previous`, stays as it was.
   */
  method UpdateHint(showHint: bool, maze: array2<Cell>, player: Pos, endPos: Pos, previous: set<Pos>)
    returns (hint: set<Pos>)
    requires showHint && maze.Length0 > 0 ==> 0 <= player.y < maze.Length0
    ensures !showHint || maze.Length0 == 0 ==> hint == {}
    ensures showHint && maze.Length0 > 0 && GoalReachable(maze, player, NearestSpecial) ==>
      exists q :: ShortestWalkTo(maze, player, NearestSpecial, q) && hint == Elements(q)
    ensures showHint && maze.Length0 > 0 && !GoalReachable(maze, player, NearestSpecial) &&
            GoalReachable(maze, player, Reach(endPos)) ==>
      exists q :: ShortestWalkTo(maze, player, Reach(endPos), q) && hint == Elements(q)
    ensures showHint && maze.Length0 > 0 && !GoalReachable(maze, player, NearestSpecial) &&
            !GoalReachable(maze, player, Reach(endPos))
            ==> hint == previous
    ensures showHint && maze.Length0 > 0 && !GoalReachable(maze, player, NearestSpecial) && endPos == player
            ==> hint == {}
    ensures showHint && maze.Length0 > 0 &&
            (GoalReachable(maze, player, NearestSpecial) || GoalReachable(maze, player, Reach(endPos))) ==>
      player !in hint
  {
    if !(showHint && maze.Length0 > 0) {
      return {};
    }
    var special := Search(maze, player, NearestSpecial);
    if special.Some? {
      var path := special.value;
      ShortestWalkAvoidsStart(maze, player, NearestSpecial, path);
      // the source adds the special cell itself, which is already the path's last cell
      hint := Elements(path) + {Last(player, path)};
      assert path != [] && path[|path| - 1] in path;
      assert hint == Elements(path);
      return;
    }
    var toEnd := Search(maze, player, Reach(endPos));
    if endPos == player {
      assert IsWalk(maze, player, []) && Last(player, []) == endPos;
      assert toEnd.Some?;
    }
    if toEnd.Some? {
      ShortestWalkAvoidsStart(maze, player, Reach(endPos), toEnd.value);
      if endPos == player {
        ShortestWalkToStart(maze, player, Reach(endPos), toEnd.value);
      }
      hint := Elements(toEnd.value);
    } else {
      hint := previous;
    }
  }
}
