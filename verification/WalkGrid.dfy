/**
  The walkability grid and the legal walks on it: eight neighbours, no corner
  cutting, 10 per orthogonal step and 14 per diagonal one.
 */
module WalkGrid {

  const MOVE_COST := 10
  const MOVE_DIAGONAL_COST := 14
  const MAX_WALK_PATH := 32

  datatype Point = Point(x: int, y: int)

  /** What a search asks of a map.  Nothing is assumed of `walkable` outside the bounds. */
  datatype Grid = Grid(width: nat, height: nat, walkable: (int, int) -> bool)

  predicate InBounds(g: Grid, p: Point) {
    0 <= p.x < g.width && 0 <= p.y < g.height
  }

  predicate Free(g: Grid, p: Point) {
    InBounds(g, p) && g.walkable(p.x, p.y)
  }

  predicate Adjacent(a: Point, b: Point) {
    a != b && -1 <= b.x - a.x <= 1 && -1 <= b.y - a.y <= 1
  }

  predicate Diagonal(a: Point, b: Point) {
    a.x != b.x && a.y != b.y
  }

  /** One legal step from `a`: onto a free neighbour, never squeezing past a blocked corner. */
  predicate Step(g: Grid, a: Point, b: Point) {
    && Adjacent(a, b)
    && Free(g, b)
    && (Diagonal(a, b) ==> g.walkable(b.x, a.y) && g.walkable(a.x, b.y))
  }

  function StepCost(a: Point, b: Point): int {
    if Diagonal(a, b) then MOVE_DIAGONAL_COST else MOVE_COST
  }

  ghost predicate Walk(g: Grid, path: seq<Point>) {
    path != [] && forall i :: 0 <= i < |path| - 1 ==> Step(g, path[i], path[i + 1])
  }

  ghost predicate Route(g: Grid, s: Point, t: Point, path: seq<Point>) {
    Walk(g, path) && path[0] == s && path[|path| - 1] == t
  }

  ghost predicate Reachable(g: Grid, s: Point, t: Point) {
    exists path :: Route(g, s, t, path)
  }

  ghost function Cost(path: seq<Point>): nat {
    if |path| <= 1 then 0
    else Cost(path[..|path| - 1]) + StepCost(path[|path| - 2], path[|path| - 1])
  }

  ghost predicate Distinct<T>(s: seq<T>) {
    forall i, j :: 0 <= i < j < |s| ==> s[i] != s[j]
  }

  function Abs(a: int): nat {
    if a < 0 then -a else a
  }

  function Manhattan(a: Point, b: Point): nat {
    Abs(b.x - a.x) + Abs(b.y - a.y)
  }

  /** The estimate of the search: Manhattan distance at orthogonal price. */
  function Heuristic(a: Point, b: Point): nat {
    MOVE_COST * Manhattan(a, b)
  }

  lemma {:induction false} CostSplit(path: seq<Point>, i: nat)
    requires i < |path|
    ensures Cost(path) == Cost(path[..i + 1]) + Cost(path[i..])
  {
    var n := |path|;
    if i == n - 1 {
      assert path[..i + 1] == path;
    } else {
      var init := path[..n - 1];
      CostSplit(init, i);
      assert init[..i + 1] == path[..i + 1];
      assert path[i..][..n - i - 1] == init[i..];
    }
  }

  lemma WalkParts(g: Grid, path: seq<Point>, i: nat)
    requires Walk(g, path) && i < |path|
    ensures Walk(g, path[..i + 1]) && Walk(g, path[i..])
  {
    var tail := path[i..];
    forall k | 0 <= k < |tail| - 1 ensures Step(g, tail[k], tail[k + 1]) {
      assert Step(g, path[i + k], path[i + k + 1]);
    }
  }

  // ----- reversal -----

  ghost function Reverse<T>(s: seq<T>): (r: seq<T>)
    ensures |r| == |s|
    ensures forall i :: 0 <= i < |s| ==> r[i] == s[|s| - 1 - i]
  {
    if s == [] then [] else Reverse(s[1..]) + [s[0]]
  }

  /** Walking a route backwards is legal as soon as its first cell is free. */
  lemma ReverseRoute(g: Grid, s: Point, t: Point, path: seq<Point>)
    requires Free(g, s) && Route(g, s, t, path)
    ensures Route(g, t, s, Reverse(path))
  {
    var back, n := Reverse(path), |path|;
    forall i | 0 <= i < n - 1 ensures Step(g, back[i], back[i + 1]) {
      var k := n - 2 - i;
      assert Step(g, path[k], path[k + 1]);
      assert k > 0 ==> Step(g, path[k - 1], path[k]);
    }
  }

  /** Whether two free cells are connected does not depend on the direction. */
  lemma ReachableSymmetric(g: Grid, s: Point, t: Point)
    requires Free(g, s) && Free(g, t)
    ensures Reachable(g, s, t) <==> Reachable(g, t, s)
  {
    if Reachable(g, s, t) {
      var path :| Route(g, s, t, path);
      ReverseRoute(g, s, t, path);
    }
    if Reachable(g, t, s) {
      var path :| Route(g, t, s, path);
      ReverseRoute(g, t, s, path);
    }
  }

  // ----- how far the heuristic can mislead -----

  /**
    `10 * Manhattan`, scaled by num/den, never drops by more than a legal step from a free cell costs.
   */
  ghost predicate Scaled(g: Grid, num: nat, den: nat) {
    forall a, b, t: Point {:trigger Step(g, a, b), Heuristic(a, t)} ::
      Free(g, a) && Step(g, a, b) ==>
        num * Heuristic(a, t) <= den * StepCost(a, b) + num * Heuristic(b, t)
  }

  /** Seven tenths of the heuristic is consistent on every grid. */
  lemma SevenTenths(g: Grid)
    ensures Scaled(g, 7, 10)
  {
    forall a, b, t: Point | Free(g, a) && Step(g, a, b)
      ensures 7 * Heuristic(a, t) <= 10 * StepCost(a, b) + 7 * Heuristic(b, t)
    {
      assert Manhattan(a, t) <= Manhattan(b, t) + if Diagonal(a, b) then 2 else 1;
    }
  }

  /** No free cell has a legal diagonal step. */
  ghost predicate NoDiagonalStep(g: Grid) {
    forall a, b :: Free(g, a) && Step(g, a, b) ==> !Diagonal(a, b)
  }

  predicate OpenBlock(g: Grid, x: int, y: int) {
    Free(g, Point(x, y)) && Free(g, Point(x + 1, y)) && Free(g, Point(x, y + 1)) && Free(g, Point(x + 1, y + 1))
  }

  /** That is, no four free cells form a square: corridors one cell wide, with any bends, branches and cycles. */
  lemma NoDiagonalMeansNoOpenBlock(g: Grid)
    ensures NoDiagonalStep(g) <==> forall x, y :: !OpenBlock(g, x, y)
  {
    if NoDiagonalStep(g) {
      forall x, y ensures !OpenBlock(g, x, y) {
        assert OpenBlock(g, x, y) ==> Step(g, Point(x, y), Point(x + 1, y + 1));
      }
    }
    if forall x, y :: !OpenBlock(g, x, y) {
      forall a, b | Free(g, a) && Step(g, a, b) ensures !Diagonal(a, b) {
        if Diagonal(a, b) {
          var x, y := if a.x < b.x then a.x else b.x, if a.y < b.y then a.y else b.y;
          assert a == Point(a.x, a.y) && b == Point(b.x, b.y);
          assert OpenBlock(g, x, y);
        }
      }
    }
  }

  /** Where no diagonal step is legal, the heuristic itself is consistent. */
  lemma WholeWithoutDiagonals(g: Grid)
    requires NoDiagonalStep(g)
    ensures Scaled(g, 1, 1)
  {
    forall a, b, t: Point | Free(g, a) && Step(g, a, b)
      ensures 1 * Heuristic(a, t) <= 1 * StepCost(a, b) + 1 * Heuristic(b, t)
    {
      assert !Diagonal(a, b);
      assert Manhattan(a, t) <= Manhattan(b, t) + 1;
    }
  }

  lemma ScaledAddsUp(num: nat, den: nat, ha: int, hb: int, hc: int, c1: int, c2: int)
    requires num * ha <= den * c1 + num * hb
    requires num * hb <= den * c2 + num * hc
    ensures num * ha <= den * (c1 + c2) + num * hc
  {
    assert den * (c1 + c2) == den * c1 + den * c2;
  }

  /** Along a whole walk from a free cell the scaled heuristic drops by at most the walk's cost. */
  lemma {:induction false} ScaledAlongWalk(g: Grid, path: seq<Point>, t: Point, num: nat, den: nat)
    requires Walk(g, path) && Free(g, path[0]) && Scaled(g, num, den)
    ensures num * Heuristic(path[0], t) <= den * Cost(path) + num * Heuristic(path[|path| - 1], t)
  {
    if |path| > 1 {
      var init := path[..|path| - 1];
      ScaledAlongWalk(g, init, t, num, den);
      var a, b := path[|path| - 2], path[|path| - 1];
      assert Step(g, a, b);
      assert |path| > 2 ==> Step(g, path[|path| - 3], a);
      ScaledAddsUp(num, den, Heuristic(path[0], t), Heuristic(a, t), Heuristic(b, t), Cost(init), StepCost(a, b));
    }
  }
}
