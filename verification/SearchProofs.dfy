/**
  What the search guarantees: a cost bound that survives the inadmissible
  heuristic and the missing re-opening, completeness, finality of closed
  cells, and the shape of the parent chain.
 */
module SearchProofs {
  import opened Arithmetic
  import opened WalkGrid
  import opened Search

  // ----- the frontier -----

  ghost predicate IsFrontier(st: State, path: seq<Point>, i: nat) {
    && i < |path|
    && path[i] !in st.closed
    && forall j :: 0 <= j < i ==> path[j] in st.closed
  }

  lemma FrontierExists(st: State, path: seq<Point>, last: nat) returns (i: nat)
    requires last < |path| && path[last] !in st.closed
    ensures IsFrontier(st, path, i) && i <= last
  {
    i := 0;
    while path[i] in st.closed
      invariant 0 <= i <= last
      invariant forall j :: 0 <= j < i ==> path[j] in st.closed
      decreases last - i
    {
      i := i + 1;
    }
  }

  /** The first cell of a walk that is not closed has been offered by the closed cell before it. */
  lemma FrontierReached(grid: Grid, s: Point, t: Point, st: State, path: seq<Point>, i: nat)
    requires Inv(grid, s, t, st) && Walk(grid, path) && path[0] == s && IsFrontier(st, path, i)
    ensures path[i] in st.g
    ensures i > 0 ==> path[i - 1] in st.g && st.g[path[i]] <= st.g[path[i - 1]] + StepCost(path[i - 1], path[i])
  {
    if i > 0 {
      var a, b := path[i - 1], path[i];
      assert Step(grid, a, b);
      assert Offered(st, a, b);
    }
  }

  // ----- completeness -----

  /** While the target is open and some legal route leads to it, the open set is not empty. */
  lemma RouteKeepsOpen(grid: Grid, s: Point, t: Point, st: State, path: seq<Point>)
    requires Inv(grid, s, t, st) && t !in st.closed && Route(grid, s, t, path)
    ensures st.open != multiset{}
  {
    var i := FrontierExists(st, path, |path| - 1);
    FrontierReached(grid, s, t, st, path, i);
    var p := path[i];
    assert Node(st.g[p] + Heuristic(p, t), st.g[p], p) in st.open;
  }

  /** An exhausted open set with the target still open means no legal route exists. */
  lemma ExhaustedMeansUnreachable(grid: Grid, s: Point, t: Point, st: State)
    requires Inv(grid, s, t, st) && st.open == multiset{} && t !in st.closed
    ensures !Reachable(grid, s, t)
  {
    if Reachable(grid, s, t) {
      var path :| Route(grid, s, t, path);
      RouteKeepsOpen(grid, s, t, st, path);
    }
  }

  // ----- the cost bound -----

  lemma FrontierBound(grid: Grid, s: Point, t: Point, st: State, path: seq<Point>, i: nat, num: nat, den: nat)
    requires Inv(grid, s, t, st) && Bounded(grid, s, st, num, den) && num <= den
    requires Walk(grid, path) && path[0] == s && IsFrontier(st, path, i)
    ensures path[i] in st.g && num * st.g[path[i]] <= den * Cost(path[..i + 1])
  {
    FrontierReached(grid, s, t, st, path, i);
    if i == 0 {
      assert path[0] == s;
    } else {
      var a, b, pre, init := path[i - 1], path[i], path[..i], path[..i + 1];
      assert init[..i] == pre && init[i] == b && init[i - 1] == a;
      WalkParts(grid, path, i - 1);
      assert Route(grid, s, a, pre);
      StepArithmetic(num, den, st.g[a], st.g[b], StepCost(a, b), Cost(pre));
    }
  }

  lemma StepArithmetic(num: nat, den: nat, ga: int, gb: int, c: nat, pre: int)
    requires num <= den && gb <= ga + c && num * ga <= den * pre
    ensures num * gb <= den * (pre + c)
  {
    MulMonotone(num, gb, ga + c);
    MulMonotone(c, num, den);
    assert num * (ga + c) == num * ga + num * c;
    assert den * (pre + c) == den * pre + den * c;
  }

  /** Whenever a cell is popped for closing, its cost is within den/num of every legal route to it. */
  lemma PopBound(grid: Grid, s: Point, t: Point, st: State, node: Node, path: seq<Point>, num: nat, den: nat)
    requires Inv(grid, s, t, st) && Bounded(grid, s, st, num, den)
    requires num <= den && Scaled(grid, num, den)
    requires Poppable(st, node) && node.at !in st.closed
    requires Route(grid, s, node.at, path)
    ensures num * node.g <= den * Cost(path)
  {
    var i := FrontierExists(st, path, |path| - 1);
    FrontierBound(grid, s, t, st, path, i, num, den);
    PopBelow(t, st, node, path[i]);
    CrossBound(grid, t, path, i, num, den, node.g, st.g[path[i]]);
  }

  /** The popped entry is no dearer than what any open cell would need. */
  lemma PopBelow(t: Point, st: State, node: Node, b: Point)
    requires Queue(t, st) && Poppable(st, node) && node.at !in st.closed
    requires b in st.g && b !in st.closed
    ensures node.g + Heuristic(node.at, t) <= st.g[b] + Heuristic(b, t)
  {
    assert Node(st.g[b] + Heuristic(b, t), st.g[b], b) in st.open;
  }

  lemma CrossBound(grid: Grid, t: Point, path: seq<Point>, i: nat, num: nat, den: nat, g: int, gb: int)
    requires Walk(grid, path) && i < |path| && Free(grid, path[i]) && Scaled(grid, num, den)
    requires g + Heuristic(path[|path| - 1], t) <= gb + Heuristic(path[i], t)
    requires num * gb <= den * Cost(path[..i + 1])
    ensures num * g <= den * Cost(path)
  {
    hide Heuristic, Cost;
    WalkParts(grid, path, i);
    ScaledAlongWalk(grid, path[i..], t, num, den);
    CostSplit(path, i);
    BoundArithmetic(num, den, g, Heuristic(path[|path| - 1], t), gb, Heuristic(path[i], t),
                    Cost(path[..i + 1]), Cost(path[i..]));
  }

  lemma BoundArithmetic(num: nat, den: nat, g: int, h: int, gb: int, hb: int, c1: int, c2: int)
    requires g + h <= gb + hb
    requires num * gb <= den * c1
    requires num * hb <= den * c2 + num * h
    ensures num * g <= den * (c1 + c2)
  {
    MulMonotone(num, g + h, gb + hb);
    assert num * (g + h) == num * g + num * h;
    assert num * (gb + hb) == num * gb + num * hb;
    assert den * (c1 + c2) == den * c1 + den * c2;
  }

  lemma AdvanceBounded(grid: Grid, s: Point, t: Point, st: State, node: Node, num: nat, den: nat)
    requires Inv(grid, s, t, st) && Bounded(grid, s, st, num, den)
    requires num <= den && Scaled(grid, num, den)
    requires Poppable(st, node)
    ensures Bounded(grid, s, Advance(grid, t, st, node), num, den)
  {
    AdvanceClosed(grid, s, t, st, node);
    if node.at !in st.closed {
      forall path | Route(grid, s, node.at, path) ensures num * node.g <= den * Cost(path) {
        PopBound(grid, s, t, st, node, path, num, den);
      }
      BoundedGrows(grid, s, st, Advance(grid, t, st, node), node, num, den);
    }
  }

  lemma BoundedGrows(grid: Grid, s: Point, st: State, st': State, node: Node, num: nat, den: nat)
    requires Bounded(grid, s, st, num, den) && st.closed <= st.g.Keys
    requires st'.closed == st.closed + {node.at} && KeepsClosed(st, st')
    requires node.at in st'.g && st'.g[node.at] == node.g
    requires forall path :: Route(grid, s, node.at, path) ==> num * node.g <= den * Cost(path)
    ensures Bounded(grid, s, st', num, den)
  {
  }

  // ----- closed cells are final -----

  ghost predicate KeepsClosed(st: State, st': State) {
    && st.closed <= st'.closed
    && (forall p :: p in st.closed && p in st.g ==> p in st'.g && st'.g[p] == st.g[p])
    && (forall p :: p in st.closed && p in st.parent ==> p in st'.parent && st'.parent[p] == st.parent[p])
  }

  /** A turn closes the popped cell and no other, at the cost its entry carries. */
  lemma AdvanceClosed(grid: Grid, s: Point, t: Point, st: State, node: Node)
    requires Inv(grid, s, t, st) && Poppable(st, node)
    ensures var st' := Advance(grid, t, st, node);
      && st'.closed == st.closed + {node.at}
      && KeepsClosed(st, st')
      && (node.at !in st.closed ==> node.at in st'.g && st'.g[node.at] == node.g)
  {
    if node.at !in st.closed {
      CloseInv(grid, s, t, st, node);
      RelaxFirstInv(grid, s, t, Close(st, node), node, 8);
    }
  }

  // ----- whole runs -----

  lemma NextSound(grid: Grid, s: Point, t: Point, st: State, st': State, num: nat, den: nat)
    requires Inv(grid, s, t, st) && Bounded(grid, s, st, num, den) && t !in st.closed
    requires num <= den && Scaled(grid, num, den) && Next(grid, t, st, st')
    ensures Inv(grid, s, t, st') && Bounded(grid, s, st', num, den) && t !in st'.closed
  {
    var node :| Turn(grid, t, st, node, st');
    AdvanceInv(grid, s, t, st, node);
    AdvanceBounded(grid, s, t, st, node, num, den);
    AdvanceClosed(grid, s, t, st, node);
  }

  /** Every state of every run satisfies the invariant and the cost bound, and spares the target. */
  lemma {:induction false} RunInvariant(grid: Grid, s: Point, t: Point, run: seq<State>, i: nat, num: nat, den: nat)
    requires Free(grid, s) && Run(grid, s, t, run) && i < |run|
    requires num <= den && Scaled(grid, num, den)
    ensures Inv(grid, s, t, run[i]) && Bounded(grid, s, run[i], num, den) && t !in run[i].closed
  {
    if i == 0 {
      BeginInv(grid, s, t, num, den);
    } else {
      RunInvariant(grid, s, t, run, i - 1, num, den);
      assert NextAt(grid, t, run, i - 1);
      NextSound(grid, s, t, run[i - 1], run[i], num, den);
    }
  }

  /** Once closed, a cell keeps its cost and parent for the rest of the run. */
  lemma {:induction false} ClosedIsFinal(grid: Grid, s: Point, t: Point, run: seq<State>, i: nat, j: nat)
    requires Free(grid, s) && Run(grid, s, t, run) && i <= j < |run|
    ensures KeepsClosed(run[i], run[j])
    decreases j
  {
    if i < j {
      ClosedIsFinal(grid, s, t, run, i, j - 1);
      TurnKeepsClosed(grid, s, t, run, j - 1);
      KeepsClosedTrans(run[i], run[j - 1], run[j]);
    }
  }

  lemma KeepsClosedTrans(a: State, b: State, c: State)
    requires KeepsClosed(a, b) && KeepsClosed(b, c)
    ensures KeepsClosed(a, c)
  {
  }

  lemma TurnKeepsClosed(grid: Grid, s: Point, t: Point, run: seq<State>, j: nat)
    requires Free(grid, s) && Run(grid, s, t, run) && j + 1 < |run|
    ensures KeepsClosed(run[j], run[j + 1])
  {
    SevenTenths(grid);
    RunInvariant(grid, s, t, run, j, 7, 10);
    assert NextAt(grid, t, run, j);
    NextKeepsClosed(grid, s, t, run[j], run[j + 1]);
  }

  lemma NextKeepsClosed(grid: Grid, s: Point, t: Point, st: State, st': State)
    requires Inv(grid, s, t, st) && Next(grid, t, st, st')
    ensures KeepsClosed(st, st')
  {
    var node :| Turn(grid, t, st, node, st');
    AdvanceClosed(grid, s, t, st, node);
  }

  // ----- the parent chain -----

  /** The cells from the start to `p` along parents.  It ends because costs fall along parents. */
  ghost function Chain(grid: Grid, s: Point, st: State, p: Point): (chain: seq<Point>)
    requires Tree(grid, s, st) && p in st.g
    ensures chain != [] && chain[|chain| - 1] == p
    decreases st.g[p]
  {
    if p == s then [s]
    else
      assert st.parent[p] in st.g;
      Chain(grid, s, st, st.parent[p]) + [p]
  }

  /** The chain is a legal route, its cost is the recorded one, and costs rise strictly along it. */
  lemma {:induction false} ChainIsRoute(grid: Grid, s: Point, st: State, p: Point)
    requires Tree(grid, s, st) && p in st.g
    ensures var chain := Chain(grid, s, st, p);
      && Route(grid, s, p, chain)
      && Cost(chain) == st.g[p]
      && (forall q :: q in chain ==> q in st.g && st.g[q] <= st.g[p])
      && Distinct(chain)
    decreases st.g[p]
  {
    if p != s {
      var up := st.parent[p];
      ChainIsRoute(grid, s, st, up);
      var pre := Chain(grid, s, st, up);
      var chain := Chain(grid, s, st, p);
      assert chain == pre + [p] && chain[..|chain| - 1] == pre;
    }
  }

  // ----- how a search ends -----

  /** Popping the target ends the search with a legal route, within 10/7 of every other one. */
  lemma FoundRoute(grid: Grid, s: Point, t: Point, run: seq<State>, node: Node)
    requires Free(grid, s) && Run(grid, s, t, run)
    requires Poppable(run[|run| - 1], node) && node.at == t
    ensures var st := run[|run| - 1];
      && Inv(grid, s, t, st) && t !in st.closed && t in st.g
      && var chain := Chain(grid, s, st, t);
      && Route(grid, s, t, chain) && Distinct(chain) && Cost(chain) == node.g
      && (forall path :: Route(grid, s, t, path) ==> 7 * Cost(chain) <= 10 * Cost(path))
      && (NoDiagonalStep(grid) ==> forall path :: Route(grid, s, t, path) ==> Cost(chain) <= Cost(path))
  {
    var st := run[|run| - 1];
    SevenTenths(grid);
    RunInvariant(grid, s, t, run, |run| - 1, 7, 10);
    PopIsCurrent(t, st, node);
    ChainIsRoute(grid, s, st, t);
    forall path | Route(grid, s, t, path) ensures 7 * node.g <= 10 * Cost(path) {
      PopBound(grid, s, t, st, node, path, 7, 10);
    }
    if NoDiagonalStep(grid) {
      ShortestWithoutDiagonals(grid, s, t, run, node);
    }
  }

  /** Where no diagonal step is legal, the found cost is the least of all. */
  lemma ShortestWithoutDiagonals(grid: Grid, s: Point, t: Point, run: seq<State>, node: Node)
    requires Free(grid, s) && Run(grid, s, t, run) && NoDiagonalStep(grid)
    requires Poppable(run[|run| - 1], node) && node.at == t
    ensures forall path :: Route(grid, s, t, path) ==> node.g <= Cost(path)
  {
    WholeWithoutDiagonals(grid);
    RunInvariant(grid, s, t, run, |run| - 1, 1, 1);
    forall path | Route(grid, s, t, path) ensures node.g <= Cost(path) {
      PopBound(grid, s, t, run[|run| - 1], node, path, 1, 1);
    }
  }

  /** A run that exhausts the open set proves that the target cannot be reached. */
  lemma ExhaustedRun(grid: Grid, s: Point, t: Point, run: seq<State>)
    requires Free(grid, s) && Run(grid, s, t, run) && run[|run| - 1].open == multiset{}
    ensures !Reachable(grid, s, t)
  {
    SevenTenths(grid);
    RunInvariant(grid, s, t, run, |run| - 1, 7, 10);
    ExhaustedMeansUnreachable(grid, s, t, run[|run| - 1]);
  }

  // ----- counting closed cells -----

  ghost function Cells(w: nat, h: nat): set<Point> {
    set x, y | 0 <= x < w && 0 <= y < h :: Point(x, y)
  }

  lemma {:induction false} RowSize(w: nat, y: int, row: set<Point>)
    requires row == set x {:trigger Point(x, y)} | 0 <= x < w :: Point(x, y)
    ensures |row| == w
  {
    if w > 0 {
      var rest := set x {:trigger Point(x, y)} | 0 <= x < w - 1 :: Point(x, y);
      RowSize(w - 1, y, rest);
      assert row == rest + {Point(w - 1, y)};
    }
  }

  lemma {:induction false} CellsSize(w: nat, h: nat)
    ensures |Cells(w, h)| == w * h
  {
    if h > 0 {
      CellsSize(w, h - 1);
      var y := h - 1;
      var row := set x {:trigger Point(x, y)} | 0 <= x < w :: Point(x, y);
      RowSize(w, y, row);
      CellsGrow(w, h, row);
      AddRow(w, h);
    }
  }

  lemma CellsGrow(w: nat, h: nat, row: set<Point>)
    requires h > 0 && var y := h - 1; row == set x {:trigger Point(x, y)} | 0 <= x < w :: Point(x, y)
    ensures |Cells(w, h)| == |Cells(w, h - 1)| + |row|
  {
    forall p | p in Cells(w, h) ensures p in Cells(w, h - 1) + row {
      assert p == Point(p.x, p.y);
    }
    assert Cells(w, h) == Cells(w, h - 1) + row;
    assert Cells(w, h - 1) !! row;
  }

  lemma AddRow(w: nat, h: nat)
    requires h > 0
    ensures w * (h - 1) + w == w * h
  {
  }

  /** While an open cell remains, at least one cell of the grid is not closed. */
  lemma ClosedRoom(grid: Grid, s: Point, st: State)
    requires Tree(grid, s, st)
    ensures st.closed <= Cells(grid.width, grid.height)
    ensures |st.closed| <= grid.width * grid.height
  {
    CellsSize(grid.width, grid.height);
    assert st.closed <= Cells(grid.width, grid.height);
    SubsetSize(st.closed, Cells(grid.width, grid.height));
  }
}
