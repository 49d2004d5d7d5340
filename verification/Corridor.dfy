/**
  The bound 10/7 cannot be improved.  A corridor around two sides of a square
  keeps the estimate at its least, so the search never takes the diagonal
  passage that starts with one step back.  For side 4:

      x . . . . T
      . . . x x .
      . . x x x .
      . x x x x .
      . S . . . .
 */
module Corridor {
  import opened Arithmetic
  import opened WalkGrid
  import opened Search
  import opened SearchProofs
  import opened Trails

  /** Bottom row, right column, diagonal band and top row. */
  predicate Open(n: nat, x: int, y: int) {
    || (y == 0 && 0 <= x <= n + 1)
    || (x == n + 1 && 0 <= y <= n)
    || (0 <= x <= n - 2 && x + 1 <= y <= x + 3 && y <= n)
    || (y == n && n - 2 <= x <= n + 1)
  }

  function Map(n: nat): Grid {
    Grid(n + 2, n + 1, (x, y) => Open(n, x, y))
  }

  /** Along the bottom row, then up the right column. */
  function Cell(n: nat, k: nat): Point {
    if k <= n then Point(k + 1, 0) else Point(n + 1, k - n)
  }

  function Around(n: nat): Trail {
    Trail(Map(n), (k: nat) => Cell(n, k), (k: nat) => 10 * k, 2 * n, 20 * n)
  }

  lemma AroundLinks(n: nat, k: nat)
    requires n >= 4 && 1 <= k <= 2 * n
    ensures Link(Around(n), k) && 10 * k + Heuristic(Cell(n, k), Cell(n, 2 * n)) == 20 * n
  {
  }

  lemma AroundKeeps(n: nat, j: nat, p: Point)
    requires n >= 4 && j < 2 * n && Step(Map(n), Cell(n, j), p)
    ensures Kept(Around(n), j, p)
  {
    var a := Cell(n, j);
    assert p == Point(p.x, p.y);
    assert p.x == a.x - 1 || p.x == a.x || p.x == a.x + 1;
    assert p.y == a.y - 1 || p.y == a.y || p.y == a.y + 1;
    if j < n {
      assert a == Point(j + 1, 0);
      assert p.y == 1 ==> !Open(n, a.x, 1);
    } else {
      assert a == Point(n + 1, j - n);
    }
  }

  lemma AroundIsNarrow(n: nat)
    requires n >= 4
    ensures Narrow(Around(n)) && Around(n).Start() == Point(1, 0) && Around(n).Target() == Point(n + 1, n)
  {
    var tr := Around(n);
    hide Step, StepCost, Heuristic, Link, Kept, Open;
    assert Free(tr.grid, tr.cell(0)) by {
      FirstFree(n);
    }
    forall k: nat | 1 <= k <= 2 * n
      ensures Link(tr, k) && tr.cost(k) + Heuristic(tr.cell(k), tr.Target()) <= tr.bound
    {
      AroundLinks(n, k);
    }
    forall j: nat, p | j < tr.n && Step(tr.grid, tr.cell(j), p) ensures Kept(tr, j, p) {
      AroundKeeps(n, j, p);
    }
  }

  lemma FirstFree(n: nat)
    ensures Free(Map(n), Cell(n, 0))
  {
  }

  // ----- the passage -----

  lemma Extend(g: Grid, s: Point, a: Point, b: Point, path: seq<Point>)
    requires Route(g, s, a, path) && Step(g, a, b)
    ensures Route(g, s, b, path + [b]) && Cost(path + [b]) == Cost(path) + StepCost(a, b)
  {
    hide Step, StepCost;
    var longer := path + [b];
    assert longer[..|longer| - 1] == path;
    forall i | 0 <= i < |longer| - 1 ensures Step(g, longer[i], longer[i + 1]) {
      if i < |path| - 1 {
        assert Step(g, path[i], path[i + 1]);
      }
    }
  }

  /** Back to the corner, up the left column, then `k` diagonal steps. */
  lemma {:induction false} Climb(n: nat, k: nat) returns (path: seq<Point>)
    requires n >= 4 && k <= n - 2
    ensures Route(Map(n), Point(1, 0), Point(k, k + 2), path) && Cost(path) == 30 + 14 * k
  {
    var g, s := Map(n), Point(1, 0);
    if k == 0 {
      path := [s];
      Back(n);
      hide Step, StepCost;
      Extend(g, s, s, Point(0, 0), path);
      path := path + [Point(0, 0)];
      Extend(g, s, Point(0, 0), Point(0, 1), path);
      path := path + [Point(0, 1)];
      Extend(g, s, Point(0, 1), Point(0, 2), path);
      path := path + [Point(0, 2)];
    } else {
      path := Climb(n, k - 1);
      Diagonally(n, k);
      hide Step, StepCost;
      Extend(g, s, Point(k - 1, k + 1), Point(k, k + 2), path);
      path := path + [Point(k, k + 2)];
    }
  }

  lemma Back(n: nat)
    requires n >= 4
    ensures Step(Map(n), Point(1, 0), Point(0, 0)) && StepCost(Point(1, 0), Point(0, 0)) == 10
    ensures Step(Map(n), Point(0, 0), Point(0, 1)) && StepCost(Point(0, 0), Point(0, 1)) == 10
    ensures Step(Map(n), Point(0, 1), Point(0, 2)) && StepCost(Point(0, 1), Point(0, 2)) == 10
  {
  }

  lemma Diagonally(n: nat, k: nat)
    requires n >= 4 && 1 <= k <= n - 2
    ensures Step(Map(n), Point(k - 1, k + 1), Point(k, k + 2)) && StepCost(Point(k - 1, k + 1), Point(k, k + 2)) == 14
  {
  }

  lemma Finish(n: nat, x: int)
    requires n >= 4 && n - 2 <= x <= n
    ensures Step(Map(n), Point(x, n), Point(x + 1, n)) && StepCost(Point(x, n), Point(x + 1, n)) == 10
  {
  }

  /** The passage reaches the target at cost 14 n + 32. */
  lemma Passage(n: nat) returns (path: seq<Point>)
    requires n >= 4
    ensures Route(Map(n), Point(1, 0), Point(n + 1, n), path) && Cost(path) == 14 * n + 32
  {
    var g, s := Map(n), Point(1, 0);
    path := Climb(n, n - 2);
    Finish(n, n - 2);
    Finish(n, n - 1);
    Finish(n, n);
    hide Step, StepCost;
    Extend(g, s, Point(n - 2, n), Point(n - 1, n), path);
    path := path + [Point(n - 1, n)];
    Extend(g, s, Point(n - 1, n), Point(n, n), path);
    path := path + [Point(n, n)];
    Extend(g, s, Point(n, n), Point(n + 1, n), path);
    path := path + [Point(n + 1, n)];
  }

  /** On the map of side `n` every finished search costs 20 n where 14 n + 32 is possible. */
  lemma AlwaysAround(n: nat, run: seq<State>, node: Node)
    requires n >= 4 && Run(Map(n), Point(1, 0), Point(n + 1, n), run)
    requires Poppable(run[|run| - 1], node) && node.at == Point(n + 1, n)
    ensures node.g == 20 * n
    ensures exists path :: Route(Map(n), Point(1, 0), Point(n + 1, n), path) && Cost(path) == 14 * n + 32
  {
    AroundIsNarrow(n);
    hide Narrow, Open;
    FoundCost(Around(n), run, node);
    var path := Passage(n);
  }

  /** A search of the map that pops the target. */
  ghost predicate Finishes(n: nat, run: seq<State>, node: Node) {
    Run(Map(n), Point(1, 0), Point(n + 1, n), run) && Poppable(run[|run| - 1], node) && node.at == Point(n + 1, n)
  }

  /** The cost is more than num/den of some legal route's. */
  ghost predicate Exceeds(n: nat, num: nat, den: nat, cost: int) {
    exists path :: Route(Map(n), Point(1, 0), Point(n + 1, n), path) && den * cost > num * Cost(path)
  }

  /**
    No smaller ratio bounds the found cost: for every num/den below 10/7 there is a map on which every
    finished search costs more than num/den of some legal route.
   */
  lemma BoundIsTight(num: nat, den: nat) returns (n: nat)
    requires 7 * num < 10 * den
    ensures n >= 4 && forall run, node :: Finishes(n, run, node) ==> Exceeds(n, num, den, node.g)
  {
    n := 16 * num + 4;
    RatioExceeded(num, den, n);
    forall run, node | Finishes(n, run, node) ensures Exceeds(n, num, den, node.g) {
      RunExceeds(n, num, den, run, node);
    }
  }

  lemma RunExceeds(n: nat, num: nat, den: nat, run: seq<State>, node: Node)
    requires n >= 4 && den * (20 * n) > num * (14 * n + 32) && Finishes(n, run, node)
    ensures Exceeds(n, num, den, node.g)
  {
    hide Run, Poppable, Route, Cost;
    AlwaysAround(n, run, node);
    var path :| Route(Map(n), Point(1, 0), Point(n + 1, n), path) && Cost(path) == 14 * n + 32;
  }

  lemma RatioExceeded(num: nat, den: nat, n: nat)
    requires 7 * num < 10 * den && n == 16 * num + 4
    ensures den * (20 * n) > num * (14 * n + 32)
  {
    MulMonotone(n, 7 * num + 1, 10 * den);
    Distribute(num, den, n);
  }

  lemma Distribute(a: int, b: int, n: int)
    ensures (7 * a + 1) * n == 7 * (a * n) + n && (10 * b) * n == 10 * (b * n)
    ensures b * (20 * n) == 20 * (b * n) && a * (14 * n + 32) == 14 * (a * n) + 32 * a
  {
  }

  /** Such searches exist: the target can be reached, so no run ends with an empty open set. */
  lemma SearchSucceeds(n: nat, run: seq<State>)
    requires n >= 4 && Run(Map(n), Point(1, 0), Point(n + 1, n), run)
    ensures run[|run| - 1].open != multiset{}
  {
    var path := Passage(n);
    FirstFree(n);
    if run[|run| - 1].open == multiset{} {
      ExhaustedRun(Map(n), Point(1, 0), Point(n + 1, n), run);
    }
  }
}
