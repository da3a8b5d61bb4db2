/**
 * The data model shared by the maze generator, the hint search and the game:
 * the six cell tags, grid positions, and the predicates the other modules
 * state their contracts with.  A maze is an `array2<Cell>` indexed `[y, x]`,
 * so `Length0` is the number of rows (`maze.length`) and `Length1` the number
 * of cells in a row (`maze[0].length`).
 */
module Grid {

  /** The cell tags of a maze. */
  datatype Cell = Empty | Wall | Start | End | Question | Obstacle

  /** A grid coordinate; it stands for the source's `"x,y"` strings and `{ x, y }` records. */
  datatype Pos = Pos(x: int, y: int)

  datatype Option<T> = None | Some(value: T)

  predicate InBounds(g: array2<Cell>, p: Pos)
  {
    0 <= p.y < g.Length0 && 0 <= p.x < g.Length1
  }

  /** A cell the player and the hint search may enter: inside the grid and not a wall. */
  predicate Passable(g: array2<Cell>, p: Pos)
    reads g
  {
    InBounds(g, p) && g[p.y, p.x] != Wall
  }

  /** Question and obstacle cells are the "special" cells. */
  predicate IsSpecial(c: Cell)
  {
    c == Question || c == Obstacle
  }

  /** Four-neighbourhood: the two positions differ by one step along one axis. */
  predicate Adjacent(a: Pos, b: Pos)
  {
    (a.x == b.x && (a.y - b.y == 1 || b.y - a.y == 1)) ||
    (a.y == b.y && (a.x - b.x == 1 || b.x - a.x == 1))
  }

  /** Strict row-major order: the order in which the nested `y`/`x` scans meet positions. */
  predicate Before(a: Pos, b: Pos)
  {
    a.y < b.y || (a.y == b.y && a.x < b.x)
  }

  /** The positions of the grid that hold tag `c`. */
  ghost function CellsOf(g: array2<Cell>, c: Cell): set<Pos>
    reads g
  {
    set y, x | 0 <= y < g.Length0 && 0 <= x < g.Length1 && g[y, x] == c :: Pos(x, y)
  }

  /** The positions listed in `q`, as a set. */
  function Elements(q: seq<Pos>): set<Pos>
  {
    set p | p in q
  }

  /** `Math.floor(Math.random() * n)` for a draw `r` of `Math.random()`. */
  function RandomIndex(r: real, n: nat): (j: nat)
    requires 0.0 <= r < 1.0 && n > 0
    ensures j < n
  {
    assert r * (n as real) < n as real by {
      assert (1.0 - r) * (n as real) > 0.0;
    }
    (r * (n as real)).Floor
  }

  /** A stream of `Math.random()` results: every draw lies in [0, 1). */
  ghost predicate IsRandomStream(rand: nat -> real)
  {
    forall k: nat :: 0.0 <= rand(k) < 1.0
  }

  /** A sequence in strict row-major order has no repeated position. */
  predicate RowMajorSorted(cells: seq<Pos>)
  {
    forall i, j :: 0 <= i < j < |cells| ==> Before(cells[i], cells[j])
  }

  /**
   * The nested row/column scan that lists the `empty` cells of the grid in
   * row-major order, skipping `except` when it is given.  The generator uses it
   * to build its pool of cells for questions and obstacles, the game to build
   * the teleport destinations of an obstacle.
   */
  method EmptyCellsExcept(g: array2<Cell>, except: Option<Pos>) returns (cells: seq<Pos>)
    ensures forall p :: p in cells <==> InBounds(g, p) && g[p.y, p.x] == Empty && except != Some(p)
    ensures RowMajorSorted(cells) && Distinct(cells)
  {
    cells := [];
    for y := 0 to g.Length0
      invariant forall p :: p in cells <==>
        InBounds(g, p) && g[p.y, p.x] == Empty && except != Some(p) && p.y < y
      invariant RowMajorSorted(cells)
      invariant forall i :: 0 <= i < |cells| ==> cells[i].y < y
    {
      for x := 0 to g.Length1
        invariant forall p :: p in cells <==>
          InBounds(g, p) && g[p.y, p.x] == Empty && except != Some(p) && Before(p, Pos(x, y))
        invariant RowMajorSorted(cells)
        invariant forall i :: 0 <= i < |cells| ==> Before(cells[i], Pos(x, y))
      {
        if g[y, x] == Empty && except != Some(Pos(x, y)) {
          cells := cells + [Pos(x, y)];
        }
      }
    }
  }

  /** No position occurs twice. */
  predicate Distinct(cells: seq<Pos>)
  {
    forall i, j :: 0 <= i < j < |cells| ==> cells[i] != cells[j]
  }

  /** A sequence without repetitions is as long as the set of its positions. */
  lemma {:induction false} DistinctElementsCount(cells: seq<Pos>)
    requires Distinct(cells)
    ensures |Elements(cells)| == |cells|
  {
    if cells != [] {
      var rest := cells[1..];
      assert Distinct(rest);
      DistinctElementsCount(rest);
      assert cells[0] !in rest;
      assert Elements(cells) == {cells[0]} + Elements(rest);
    }
  }

  /**
   * When `cells` lists exactly the positions of the grid holding `c`, each
   * once, the grid holds `c` at exactly `|cells|` positions.
   */
  lemma CountCells(g: array2<Cell>, c: Cell, cells: seq<Pos>)
    requires Distinct(cells)
    requires forall p :: p in cells <==> InBounds(g, p) && g[p.y, p.x] == c
    ensures CellsOf(g, c) == Elements(cells)
    ensures |CellsOf(g, c)| == |cells|
  {
    forall p | p in Elements(cells) ensures p in CellsOf(g, c) {
      assert Pos(p.x, p.y) == p;
    }
    DistinctElementsCount(cells);
  }
}
