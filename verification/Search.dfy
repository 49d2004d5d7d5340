/**
  The search as a state machine on values: which cells have a cost and a
  parent, which are closed, and the open set with its stale duplicates.  Any
  entry of least f may be popped next, so every tie-break is covered.
 */
module Search {
  import opened WalkGrid

  /** An open-set entry. */
  datatype Node = Node(f: int, g: int, at: Point)

  datatype State = State(
    g: map<Point, int>,
    parent: map<Point, Point>,
    closed: set<Point>,
    open: multiset<Node>)

  const DIRECTIONS: seq<(int, int)> :=
    [(0, 1), (0, -1), (1, 0), (-1, 0), (1, 1), (-1, 1), (1, -1), (-1, -1)]

  function Neighbour(p: Point, k: nat): Point
    requires k < 8
  {
    Point(p.x + DIRECTIONS[k].0, p.y + DIRECTIONS[k].1)
  }

  // ----- transitions -----

  ghost function Begin(s: Point, t: Point): State {
    State(map[s := 0], map[], {}, multiset{Node(Heuristic(s, t), 0, s)})
  }

  /** Offer cell `n` the route through `cur`. */
  ghost function Relax(grid: Grid, t: Point, st: State, cur: Node, n: Point): State {
    var newG := cur.g + StepCost(cur.at, n);
    if !Step(grid, cur.at, n) || n in st.closed || (n in st.g && newG >= st.g[n]) then st
    else
      State(
        st.g[n := newG],
        st.parent[n := cur.at],
        st.closed,
        st.open + multiset{Node(newG + Heuristic(n, t), newG, n)})
  }

  /** Relax the first `k` neighbours of `cur`, in table order. */
  ghost function RelaxFirst(grid: Grid, t: Point, st: State, cur: Node, k: nat): State
    requires k <= 8
    decreases k, st
  {
    if k == 0 then st
    else Relax(grid, t, RelaxFirst(grid, t, st, cur, k - 1), cur, Neighbour(cur.at, k - 1))
  }

  ghost function Drop(st: State, node: Node): State {
    st.(open := st.open - multiset{node})
  }

  ghost function Close(st: State, node: Node): State {
    st.(open := st.open - multiset{node}, closed := st.closed + {node.at})
  }

  ghost predicate Poppable(st: State, node: Node) {
    node in st.open && forall m :: m in st.open ==> node.f <= m.f
  }

  /** One turn of the loop that does not end the search. */
  ghost function Advance(grid: Grid, t: Point, st: State, node: Node): State {
    if node.at in st.closed then Drop(st, node)
    else RelaxFirst(grid, t, Close(st, node), node, 8)
  }

  ghost predicate Turn(grid: Grid, t: Point, st: State, node: Node, st': State) {
    && Poppable(st, node)
    && (node.at in st.closed || node.at != t)
    && st' == Advance(grid, t, st, node)
  }

  ghost predicate Next(grid: Grid, t: Point, st: State, st': State) {
    exists node :: Turn(grid, t, st, node, st')
  }

  ghost predicate NextAt(grid: Grid, t: Point, run: seq<State>, i: nat)
    requires i + 1 < |run|
  {
    Next(grid, t, run[i], run[i + 1])
  }

  ghost predicate Run(grid: Grid, s: Point, t: Point, run: seq<State>) {
    && run != []
    && run[0] == Begin(s, t)
    && forall i: nat {:trigger NextAt(grid, t, run, i)} :: i < |run| - 1 ==> NextAt(grid, t, run, i)
  }

  // ----- what every reachable state satisfies -----

  /** Costs and parents form a tree of legal steps hanging from the start, inner cells closed. */
  ghost predicate Tree(grid: Grid, s: Point, st: State) {
    && s in st.g && st.g[s] == 0
    && Free(grid, s)
    && st.closed <= st.g.Keys
    && st.parent.Keys == st.g.Keys - {s}
    && (forall p :: p in st.g ==> Free(grid, p) && 0 <= st.g[p] <= MOVE_DIAGONAL_COST * |st.closed|)
    && (forall p {:trigger st.parent[p]} :: p in st.parent ==>
          && st.parent[p] in st.closed
          && Step(grid, st.parent[p], p)
          && st.g[p] == st.g[st.parent[p]] + StepCost(st.parent[p], p))
  }

  /** Entries carry f = g + h and never undercut the recorded cost. */
  ghost predicate Honest(t: Point, st: State) {
    forall n :: n in st.open ==> n.at in st.g && n.f == n.g + Heuristic(n.at, t) && st.g[n.at] <= n.g
  }

  /** Each reached cell that is not closed has an entry at its recorded cost. */
  ghost predicate Current(t: Point, st: State) {
    forall p :: p in st.g && p !in st.closed ==> Node(st.g[p] + Heuristic(p, t), st.g[p], p) in st.open
  }

  ghost predicate Queue(t: Point, st: State) {
    Honest(t, st) && Current(t, st)
  }

  ghost predicate Offered(st: State, a: Point, b: Point)
    requires a in st.g
  {
    b in st.closed || (b in st.g && st.g[b] <= st.g[a] + StepCost(a, b))
  }

  /** Every legal step out of a closed cell other than `busy` has been offered. */
  ghost predicate Expanded(grid: Grid, st: State, busy: set<Point>) {
    forall a, b :: a in st.closed && a in st.g && a !in busy && Step(grid, a, b) ==> Offered(st, a, b)
  }

  ghost predicate Inv(grid: Grid, s: Point, t: Point, st: State) {
    Tree(grid, s, st) && Queue(t, st) && Expanded(grid, st, {})
  }

  /** No legal route to a closed cell beats its recorded cost by more than den/num. */
  ghost predicate Bounded(grid: Grid, s: Point, st: State, num: nat, den: nat) {
    forall a, path :: a in st.closed && a in st.g && Route(grid, s, a, path) ==> num * st.g[a] <= den * Cost(path)
  }

  // ----- single transitions keep the invariant -----

  lemma BeginInv(grid: Grid, s: Point, t: Point, num: nat, den: nat)
    requires Free(grid, s)
    ensures Inv(grid, s, t, Begin(s, t)) && Bounded(grid, s, Begin(s, t), num, den)
  {
  }

  /** At a pop of a cell that is not closed the entry carries the recorded cost. */
  lemma PopIsCurrent(t: Point, st: State, node: Node)
    requires Queue(t, st) && Poppable(st, node) && node.at !in st.closed
    ensures node.at in st.g && node.g == st.g[node.at] && node.f == node.g + Heuristic(node.at, t)
  {
    var p := node.at;
    assert Node(st.g[p] + Heuristic(p, t), st.g[p], p) in st.open;
  }

  /** Taking an entry of an already closed cell, or of one closed with it, leaves the queue sound. */
  lemma QueueAfterPop(t: Point, st: State, node: Node, st': State)
    requires Queue(t, st) && node in st.open
    requires st'.open == st.open - multiset{node} && st'.g == st.g
    requires st'.closed == st.closed + {node.at}
    ensures Queue(t, st')
  {
    assert forall n :: n in st'.open ==> n in st.open;
    forall p | p in st'.g && p !in st'.closed
      ensures Node(st'.g[p] + Heuristic(p, t), st'.g[p], p) in st'.open
    {
      assert Node(st.g[p] + Heuristic(p, t), st.g[p], p) in st.open;
    }
  }

  /** Steps offered stay offered while costs only fall and closed cells keep theirs. */
  lemma ExpandedKept(grid: Grid, st: State, st': State, busy: set<Point>)
    requires Expanded(grid, st, busy)
    requires st.closed <= st'.closed <= st.closed + busy
    requires forall p :: p in st.g ==> p in st'.g && st'.g[p] <= st.g[p]
    requires forall p :: p in st.closed ==> p in st.g && st'.g[p] == st.g[p]
    ensures Expanded(grid, st', busy)
  {
    forall a, b | a in st'.closed && a in st'.g && a !in busy && Step(grid, a, b)
      ensures Offered(st', a, b)
    {
      assert Offered(st, a, b);
    }
  }

  lemma DropInv(grid: Grid, s: Point, t: Point, st: State, node: Node)
    requires Inv(grid, s, t, st) && node in st.open && node.at in st.closed
    ensures Inv(grid, s, t, Drop(st, node))
  {
    var st' := Drop(st, node);
    assert st'.closed == st.closed + {node.at};
    QueueAfterPop(t, st, node, st');
    ExpandedKept(grid, st, st', {});
  }

  lemma CloseInv(grid: Grid, s: Point, t: Point, st: State, node: Node)
    requires Inv(grid, s, t, st) && Poppable(st, node) && node.at !in st.closed
    ensures Expanding(grid, s, t, Close(st, node), node)
  {
    PopIsCurrent(t, st, node);
    var st' := Close(st, node);
    QueueAfterPop(t, st, node, st');
    assert Expanded(grid, st, {node.at});
    ExpandedKept(grid, st, st', {node.at});
    assert |st'.closed| == |st.closed| + 1;
  }

  /** `cur` was just closed: the entry cost is its recorded cost, and there is room for one more step. */
  ghost predicate Expanding(grid: Grid, s: Point, t: Point, st: State, cur: Node) {
    && Tree(grid, s, st) && Queue(t, st) && Expanded(grid, st, {cur.at})
    && cur.at in st.closed && st.g[cur.at] == cur.g
    && cur.g + MOVE_DIAGONAL_COST <= MOVE_DIAGONAL_COST * |st.closed|
  }

  /** A relaxation leaves closed cells alone, only lowers costs and only grows the open set. */
  ghost predicate Extends(st: State, st': State) {
    && st'.closed == st.closed
    && st.open <= st'.open
    && (forall p :: p in st.g ==> p in st'.g && st'.g[p] <= st.g[p])
    && (forall p :: p in st.closed && p in st.g ==> st'.g[p] == st.g[p])
    && (forall p :: p in st.closed && p in st.parent ==> p in st'.parent && st'.parent[p] == st.parent[p])
    && (forall p :: p in st.closed && p in st'.parent ==> p in st.parent)
  }

  lemma RelaxInv(grid: Grid, s: Point, t: Point, st: State, cur: Node, n: Point)
    requires Expanding(grid, s, t, st, cur)
    ensures Expanding(grid, s, t, Relax(grid, t, st, cur, n), cur)
    ensures Extends(st, Relax(grid, t, st, cur, n))
    ensures Step(grid, cur.at, n) ==> Offered(Relax(grid, t, st, cur, n), cur.at, n)
  {
    hide Queue, Expanded, Step, Offered, Relax;
    var st' := Relax(grid, t, st, cur, n);
    RelaxExtends(grid, t, st, cur, n);
    if st' != st {
      RelaxTree(grid, s, t, st, cur, n);
      RelaxQueue(grid, t, st, cur, n);
      RelaxExpanded(grid, t, st, cur, n);
    }
  }

  lemma RelaxExpanded(grid: Grid, t: Point, st: State, cur: Node, n: Point)
    requires Expanded(grid, st, {cur.at}) && st.closed <= st.g.Keys
    ensures Expanded(grid, Relax(grid, t, st, cur, n), {cur.at})
  {
    ExpandedKept(grid, st, Relax(grid, t, st, cur, n), {cur.at});
  }

  lemma RelaxExtends(grid: Grid, t: Point, st: State, cur: Node, n: Point)
    requires cur.at in st.closed && cur.at in st.g && st.g[cur.at] == cur.g
    ensures Extends(st, Relax(grid, t, st, cur, n))
    ensures Step(grid, cur.at, n) ==> Offered(Relax(grid, t, st, cur, n), cur.at, n)
  {
  }

  lemma RelaxTree(grid: Grid, s: Point, t: Point, st: State, cur: Node, n: Point)
    requires Expanding(grid, s, t, st, cur) && Relax(grid, t, st, cur, n) != st
    ensures Tree(grid, s, Relax(grid, t, st, cur, n))
  {
    var st' := Relax(grid, t, st, cur, n);
    assert n != s;
    assert st'.g.Keys == st.g.Keys + {n};
    assert st'.parent.Keys == st.parent.Keys + {n};
    forall p | p in st'.parent
      ensures && st'.parent[p] in st'.closed
              && Step(grid, st'.parent[p], p)
              && st'.g[p] == st'.g[st'.parent[p]] + StepCost(st'.parent[p], p)
    {
      if p != n {
        assert p in st.parent;
      }
    }
  }

  lemma RelaxQueue(grid: Grid, t: Point, st: State, cur: Node, n: Point)
    requires Queue(t, st)
    ensures Queue(t, Relax(grid, t, st, cur, n))
  {
    var st' := Relax(grid, t, st, cur, n);
    if st' != st {
      var newG := cur.g + StepCost(cur.at, n);
      QueuePush(t, st, st', n, Node(newG + Heuristic(n, t), newG, n));
    }
  }

  lemma QueuePush(t: Point, st: State, st': State, n: Point, offer: Node)
    requires Queue(t, st) && n !in st.closed && st'.closed == st.closed
    requires offer == Node(offer.g + Heuristic(n, t), offer.g, n)
    requires n in st.g ==> offer.g < st.g[n]
    requires st'.g == st.g[n := offer.g] && st'.open == st.open + multiset{offer}
    ensures Queue(t, st')
  {
    hide Heuristic;
    assert Honest(t, st') by {
      hide Current;
      assert forall m :: m in st'.open ==> m in st.open || m == offer;
    }
    assert Current(t, st') by {
      hide Honest;
    }
  }

  lemma ExtendsTrans(a: State, b: State, c: State)
    requires Extends(a, b) && Extends(b, c) && a.closed <= a.g.Keys
    ensures Extends(a, c)
  {
  }

  /** A step once offered stays offered through further relaxations. */
  lemma OfferedKept(a: State, b: State, p: Point, q: Point)
    requires Extends(a, b) && p in a.g && p in a.closed && Offered(a, p, q)
    ensures p in b.g && Offered(b, p, q)
  {
  }

  /** The legal steps from `p` to its first `k` neighbours have been offered. */
  ghost predicate OfferedFirst(grid: Grid, st: State, p: Point, k: nat)
    requires k <= 8
  {
    p in st.g && forall j: nat :: j < k && Step(grid, p, Neighbour(p, j)) ==> Offered(st, p, Neighbour(p, j))
  }

  lemma OfferedFirstKept(grid: Grid, a: State, b: State, p: Point, k: nat)
    requires k < 8 && OfferedFirst(grid, a, p, k) && Extends(a, b) && p in a.closed
    requires Step(grid, p, Neighbour(p, k)) ==> p in b.g && Offered(b, p, Neighbour(p, k))
    ensures OfferedFirst(grid, b, p, k + 1)
  {
    forall j: nat | j < k + 1 && Step(grid, p, Neighbour(p, j)) ensures Offered(b, p, Neighbour(p, j)) {
      if j < k {
        OfferedKept(a, b, p, Neighbour(p, j));
      }
    }
  }

  lemma {:induction false} RelaxFirstInv(grid: Grid, s: Point, t: Point, st: State, cur: Node, k: nat)
    requires Expanding(grid, s, t, st, cur) && k <= 8
    ensures Expanding(grid, s, t, RelaxFirst(grid, t, st, cur, k), cur)
    ensures Extends(st, RelaxFirst(grid, t, st, cur, k))
    ensures OfferedFirst(grid, RelaxFirst(grid, t, st, cur, k), cur.at, k)
  {
    if k > 0 {
      var mid := RelaxFirst(grid, t, st, cur, k - 1);
      var st' := RelaxFirst(grid, t, st, cur, k);
      RelaxFirstInv(grid, s, t, st, cur, k - 1);
      RelaxInv(grid, s, t, mid, cur, Neighbour(cur.at, k - 1));
      ExtendsTrans(st, mid, st');
      OfferedFirstKept(grid, mid, st', cur.at, k - 1);
    }
  }

  /** The direction table lists every neighbour. */
  lemma NeighbourTable(a: Point, b: Point)
    requires Adjacent(a, b)
    ensures exists k: nat :: k < 8 && Neighbour(a, k) == b
  {
    var k: nat :=
      if b.x == a.x then (if b.y == a.y + 1 then 0 else 1)
      else if b.y == a.y then (if b.x == a.x + 1 then 2 else 3)
      else if b.y == a.y + 1 then (if b.x == a.x + 1 then 4 else 5)
      else if b.x == a.x + 1 then 6 else 7;
    assert Neighbour(a, k) == b;
  }

  lemma ExpandInv(grid: Grid, s: Point, t: Point, st: State, node: Node)
    requires Inv(grid, s, t, st) && Poppable(st, node) && node.at !in st.closed
    ensures Inv(grid, s, t, RelaxFirst(grid, t, Close(st, node), node, 8))
  {
    CloseInv(grid, s, t, st, node);
    RelaxFirstInv(grid, s, t, Close(st, node), node, 8);
    AllOffered(grid, RelaxFirst(grid, t, Close(st, node), node, 8), node.at);
  }

  lemma AllOffered(grid: Grid, st: State, busy: Point)
    requires Expanded(grid, st, {busy}) && OfferedFirst(grid, st, busy, 8)
    ensures Expanded(grid, st, {})
  {
    forall b | Step(grid, busy, b) ensures Offered(st, busy, b) {
      NeighbourTable(busy, b);
    }
  }

  lemma AdvanceInv(grid: Grid, s: Point, t: Point, st: State, node: Node)
    requires Inv(grid, s, t, st) && Poppable(st, node)
    ensures Inv(grid, s, t, Advance(grid, t, st, node))
  {
    if node.at in st.closed {
      DropInv(grid, s, t, st, node);
    } else {
      ExpandInv(grid, s, t, st, node);
    }
  }
}
