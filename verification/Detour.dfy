/**
  The found path need not be the cheapest.  On a 6 x 3 map with one blocked
  cell every run, however ties are broken, ends with a path of cost 64 while a
  legal route of cost 58 exists:

      S . . . . .
      . . # . . .
      . . . . . T
 */
module Detour {
  import opened WalkGrid
  import opened Search
  import opened SearchProofs
  import opened Trails
  import opened Pathfinding

  const MAP: Grid := Grid(6, 3, (x, y) => 0 <= x < 6 && 0 <= y < 3 && !(x == 2 && y == 1))
  const S := Point(0, 0)
  const T := Point(5, 2)

  /** The cells closed, in order. */
  function Cell(k: nat): Point {
    if k == 0 then S else if k == 1 then Point(1, 1) else Point(k - 1, 2)
  }

  function CellCost(k: nat): int {
    if k == 0 then 0 else 14 + 10 * (k - 1)
  }

  const TRAIL: Trail := Trail(MAP, Cell, CellCost, 6, 64)

  /** A step from a listed cell leads one further, one back, or to an estimate above 64. */
  lemma StepsFrom(j: nat, p: Point)
    requires j <= 5 && Step(MAP, Cell(j), p)
    ensures Kept(TRAIL, j, p)
  {
    assert p.x == Cell(j).x - 1 || p.x == Cell(j).x || p.x == Cell(j).x + 1;
    assert p.y == 0 || p.y == 1 || p.y == 2;
  }

  lemma NextCellLegal(k: nat)
    requires 1 <= k <= 6
    ensures Link(TRAIL, k)
    ensures CellCost(k) + Heuristic(Cell(k), T) <= 64
    ensures forall j: nat :: j < k ==> Cell(j) != Cell(k)
  {
  }

  lemma TrailIsNarrow()
    ensures Narrow(TRAIL) && TRAIL.Start() == S && TRAIL.Target() == T
  {
    hide Step, StepCost, Heuristic, Link, Kept;
    forall k: nat | 1 <= k <= 6 ensures Link(TRAIL, k) && CellCost(k) + Heuristic(Cell(k), T) <= 64 {
      NextCellLegal(k);
    }
    forall j: nat, k: nat | j < k <= 6 ensures Cell(j) != Cell(k) {
      NextCellLegal(k);
    }
    forall j: nat, p | j < 6 && Step(MAP, Cell(j), p) ensures Kept(TRAIL, j, p) {
      StepsFrom(j, p);
    }
  }

  const CHEAPER: seq<Point> := [S, Point(1, 0), Point(2, 0), Point(3, 0), Point(4, 1), T]

  lemma CheaperRoute()
    ensures Route(MAP, S, T, CHEAPER) && Cost(CHEAPER) == 58
  {
    var p1, p2, p3, p4 := [S, Point(1, 0)], [S, Point(1, 0), Point(2, 0)],
                          [S, Point(1, 0), Point(2, 0), Point(3, 0)],
                          [S, Point(1, 0), Point(2, 0), Point(3, 0), Point(4, 1)];
    assert Cost(p1) == 10 by { assert p1[..1] == [S]; }
    assert Cost(p2) == 20 by { assert p2[..2] == p1; }
    assert Cost(p3) == 30 by { assert p3[..3] == p2; }
    assert Cost(p4) == 44 by { assert p4[..4] == p3; }
    assert CHEAPER[..5] == p4;
  }

  /** Every finished search of this map answers with cost 64, and 58 was possible. */
  lemma FoundPathNotShortest(run: seq<State>, node: Node)
    requires Run(MAP, S, T, run) && Poppable(run[|run| - 1], node) && node.at == T
    ensures node.g == 64 && exists path :: Route(MAP, S, T, path) && Cost(path) == 58
  {
    TrailIsNarrow();
    FoundCost(TRAIL, run, node);
    CheaperRoute();
  }

  /** So on this map FindPath always answers with a walk of cost 64. */
  lemma DetourAnswer(run: seq<State>, points: seq<Point>)
    requires Run(MAP, S, T, run) && Answers(MAP, S, T, run[|run| - 1], points)
    ensures Cost(Chain(MAP, S, run[|run| - 1], T)) == 64
    ensures exists path :: Route(MAP, S, T, path) && Cost(path) == 58
  {
    var st := run[|run| - 1];
    var node :| Poppable(st, node) && node.at == T && node.g == Cost(Chain(MAP, S, st, T));
    FoundPathNotShortest(run, node);
  }
}
