/**
  The pathfinder over its scratch arrays.  `st` is the search state the arrays
  stand for, and `run` the states since the last reset.
 */
module Pathfinding {
  import opened WalkGrid
  import opened Search
  import opened SearchProofs
  import opened Line
  import opened Arithmetic

  /** Go's int32: every assignment to it is proved not to overflow. */
  type int32 = x: int | -0x8000_0000 <= x < 0x8000_0000

  const INF_COST: int32 := 0x4000_0000

  datatype PathResult =
    | Path(points: seq<Point>)
    | StartOutOfBounds
    | TargetOutOfBounds
    | StartNotWalkable
    | TargetNotWalkable
    | NoPath

  /** The position of a cell in the scratch arrays. */
  function Idx(w: nat, p: Point): int {
    p.y * w + p.x
  }

  lemma IdxRange(g: Grid, p: Point)
    requires InBounds(g, p)
    ensures 0 <= Idx(g.width, p) < g.width * g.height
    ensures Idx(g.width, p) / g.width == p.y && Idx(g.width, p) % g.width == p.x
  {
    RowMajor(g.width, g.height, p.x, p.y);
  }

  lemma IdxFacts(g: Grid)
    ensures forall p {:trigger Idx(g.width, p)} :: InBounds(g, p) ==> 0 <= Idx(g.width, p) < g.width * g.height
    ensures forall p, q {:trigger Idx(g.width, p), Idx(g.width, q)} ::
              InBounds(g, p) && InBounds(g, q) && Idx(g.width, p) == Idx(g.width, q) ==> p == q
  {
    forall p | InBounds(g, p) ensures 0 <= Idx(g.width, p) < g.width * g.height {
      IdxRange(g, p);
    }
    forall p, q | InBounds(g, p) && InBounds(g, q) && Idx(g.width, p) == Idx(g.width, q) ensures p == q {
      IdxRange(g, p);
      IdxRange(g, q);
    }
  }

  class Pathfinder {
    const grid: Grid
    const gCost: array<int32>
    const parent: array<int32>
    const closed: array<bool>
    var pq: multiset<Node>

    ghost var st: State
    ghost var run: seq<State>

    /** The buffers match the map, and the map is small enough for costs to stay under INF_COST. */
    ghost predicate Valid() {
      && gCost.Length == parent.Length == closed.Length == grid.width * grid.height
      && gCost != parent
      && MOVE_DIAGONAL_COST * (grid.width * grid.height) < INF_COST
    }

    ghost predicate MirrorsAt(p: Point)
      requires Valid() && InBounds(grid, p)
      requires 0 <= Idx(grid.width, p) < grid.width * grid.height
      reads this`st, gCost, parent, closed
    {
      var i := Idx(grid.width, p);
      && gCost[i] == (if p in st.g then st.g[p] else INF_COST)
      && parent[i] == (if p in st.parent then Idx(grid.width, st.parent[p]) else -1)
      && closed[i] == (p in st.closed)
    }

    /** Every cell of the grid is mirrored, whatever the queue holds. */
    ghost predicate MirrorsCells()
      requires Valid()
      reads this`st, gCost, parent, closed
    {
      forall p {:trigger Idx(grid.width, p)} :: InBounds(grid, p) ==>
        0 <= Idx(grid.width, p) < grid.width * grid.height && MirrorsAt(p)
    }

    /** The arrays and the queue hold exactly the search state. */
    ghost predicate Mirrors()
      requires Valid()
      reads this`st, this`pq, gCost, parent, closed
    {
      pq == st.open && MirrorsCells()
    }

    constructor (grid: Grid)
      requires MOVE_DIAGONAL_COST * (grid.width * grid.height) < INF_COST
      ensures Valid() && this.grid == grid
      ensures fresh(gCost) && fresh(parent) && fresh(closed)
    {
      this.grid := grid;
      var n := grid.width * grid.height;
      gCost := new int32[n];
      parent := new int32[n];
      closed := new bool[n];
      pq := multiset{};
      st := State(map[], map[], {}, multiset{});
      run := [];
    }

    method Reset()
      requires Valid()
      modifies this, gCost, parent, closed
      ensures forall i :: 0 <= i < gCost.Length ==> gCost[i] == INF_COST && parent[i] == -1 && !closed[i]
      ensures pq == multiset{} && st == old(st) && run == old(run)
    {
      for i := 0 to gCost.Length
        invariant forall j :: 0 <= j < i ==> gCost[j] == INF_COST && parent[j] == -1 && !closed[j]
        invariant st == old(st) && run == old(run)
      {
        gCost[i] := INF_COST;
        parent[i] := -1;
        closed[i] := false;
      }
      pq := multiset{};
    }

    /** Some entry of least f leaves the queue; which of several is left open. */
    method Pop() returns (cur: Node)
      requires pq != multiset{}
      modifies this`pq
      ensures cur in old(pq) && (forall m :: m in old(pq) ==> cur.f <= m.f)
      ensures pq == old(pq) - multiset{cur}
    {
      LeastExists(pq);
      cur :| cur in pq && forall m :: m in pq ==> cur.f <= m.f;
      pq := pq - multiset{cur};
    }

    /** Relax the eight neighbours of the cell just closed. */
    method Expand(cur: Node, ghost s: Point, target: Point)
      requires Valid() && Mirrors()
      requires InBounds(grid, target)
      requires Expanding(grid, s, target, st, cur)
      requires |st.closed| < grid.width * grid.height
      modifies this`pq, this`st, gCost, parent
      ensures Mirrors()
      ensures st == RelaxFirst(grid, target, old(st), cur, 8)
    {
      hide Tree, Queue, Expanded, Idx, Room, Relax;
      ghost var st0 := st;
      Int32Room(grid, s, target, st, cur, grid.width * grid.height);
      for k := 0 to 8
        invariant Mirrors()
        invariant st == RelaxFirst(grid, target, st0, cur, k)
      {
        RelaxNeighbour(cur, k, target);
      }
    }

    /** Whether the neighbour `n` may be entered from `p`, and at what cost. */
    method LegalStep(p: Point, n: Point) returns (legal: bool, cost: int32)
      requires Adjacent(p, n) && InBounds(grid, n)
      ensures legal <==> Step(grid, p, n)
      ensures legal ==> cost == StepCost(p, n)
    {
      cost := MOVE_COST;
      if !grid.walkable(n.x, n.y) {
        return false, cost;
      }
      if n.x - p.x != 0 && n.y - p.y != 0 {
        if !grid.walkable(n.x, p.y) {
          return false, cost;
        }
        if !grid.walkable(p.x, n.y) {
          return false, cost;
        }
        cost := MOVE_DIAGONAL_COST;
      }
      return true, cost;
    }

    /** One round of the expansion loop. */
    method RelaxNeighbour(cur: Node, k: nat, target: Point)
      requires k < 8
      requires Valid() && Mirrors()
      requires Room(grid, target, cur, grid.width * grid.height)
      modifies this`pq, this`st, gCost, parent
      ensures Mirrors()
      ensures st == Relax(grid, target, old(st), cur, Neighbour(cur.at, k))
    {
      var d, n := DIRECTIONS[k], Neighbour(cur.at, k);
      NeighbourAdjacent(cur.at, k);
      var w: int32, h: int32 := grid.width, grid.height;
      var nx: int32, ny: int32 := cur.at.x + d.0, cur.at.y + d.1;
      if nx < 0 || ny < 0 || nx >= w || ny >= h {
        return;
      }
      assert n == Point(nx, ny) && InBounds(grid, n);
      assert 0 <= Idx(grid.width, n) < grid.width * grid.height && MirrorsAt(n);
      var nIdx: int32 := ny * w + nx;
      if closed[nIdx] {
        return;
      }
      var legal, cost := LegalStep(cur.at, n);
      if !legal {
        return;
      }
      var newG: int32 := cur.g + cost;
      if newG >= gCost[nIdx] {
        return;
      }
      Record(cur, n, newG, target);
    }

    /** Write the better cost and parent of `n` and queue it again. */
    method Record(cur: Node, n: Point, newG: int32, target: Point)
      requires Valid() && Mirrors()
      requires InBounds(grid, n) && InBounds(grid, cur.at) && InBounds(grid, target)
      requires 0 <= newG < INF_COST && grid.width * grid.height < INF_COST
      requires newG + Heuristic(n, target) < 0x8000_0000
      modifies this`pq, this`st, gCost, parent
      ensures Mirrors()
      ensures st == State(old(st).g[n := newG], old(st).parent[n := cur.at], old(st).closed,
                          old(st).open + multiset{Node(newG + Heuristic(n, target), newG, n)})
    {
      IdxFacts(grid);
      assert Idx(grid.width, n) == n.y * grid.width + n.x;
      assert Idx(grid.width, cur.at) == cur.at.y * grid.width + cur.at.x;
      var nIdx: int32 := n.y * grid.width + n.x;
      gCost[nIdx] := newG;
      parent[nIdx] := cur.at.y * grid.width + cur.at.x;
      var f: int32 := newG + Heuristic(n, target);
      pq := pq + multiset{Node(f, newG, n)};
      st := State(st.g[n := newG], st.parent[n := cur.at], st.closed, st.open + multiset{Node(f, newG, n)});
      forall p | InBounds(grid, p) ensures 0 <= Idx(grid.width, p) < grid.width * grid.height && MirrorsAt(p) {
        assert 0 <= Idx(grid.width, p) < grid.width * grid.height && old(MirrorsAt(p));
      }
    }

    /** Follow the parents back from the target, turn the list around, drop the start and cut to 32. */
    method ReconstructPath(targetIdx: int32, ghost s: Point, ghost target: Point) returns (out: seq<Point>)
      requires Valid() && Mirrors() && Tree(grid, s, st)
      requires target in st.g && targetIdx == Idx(grid.width, target)
      ensures out == Truncated(Chain(grid, s, st, target))
    {
      ghost var full := Chain(grid, s, st, target);
      out := [];
      var cur: int32 := targetIdx;
      ghost var at := target;
      while cur != -1
        invariant cur == -1 ==> full == Reverse(out)
        invariant cur != -1 ==> at in st.g && cur == Idx(grid.width, at) && full == Chain(grid, s, st, at) + Reverse(out)
        decreases if cur == -1 then 0 else 1 + st.g[at]
      {
        IdxRange(grid, at);
        assert MirrorsAt(at);
        ReverseSnoc(out, at);
        out := out + [Point(cur % grid.width, cur / grid.width)];
        cur := parent[cur];
        if at in st.parent {
          assert Idx(grid.width, st.parent[at]) != -1 by {
            IdxRange(grid, st.parent[at]);
          }
          at := st.parent[at];
        }
      }
      out := TurnAround(out);
      if |out| <= 1 {
        return [];
      }
      out := out[1..];
      if |out| > MAX_WALK_PATH {
        out := out[..MAX_WALK_PATH];
      }
    }

    /** The two-index swap loop that reverses the list. */
    static method TurnAround(path: seq<Point>) returns (out: seq<Point>)
      ensures out == Reverse(path)
    {
      out := path;
      var n := |path|;
      var i, j := 0, n - 1;
      while i < j
        invariant 0 <= i <= j + 1 && i + j == n - 1 && |out| == n
        invariant forall k :: 0 <= k < n && (k < i || k > j) ==> out[k] == path[n - 1 - k]
        invariant forall k :: i <= k <= j ==> out[k] == path[k]
      {
        out := out[i := out[j]][j := out[i]];
        i, j := i + 1, j - 1;
      }
    }

    method FindPath(start: Point, target: Point) returns (r: PathResult)
      requires Valid()
      modifies this, gCost, parent, closed
      ensures r.StartOutOfBounds? <==> !InBounds(grid, start)
      ensures r.TargetOutOfBounds? <==> InBounds(grid, start) && !InBounds(grid, target)
      ensures r.StartNotWalkable? <==> InBounds(grid, start) && InBounds(grid, target) && !Free(grid, start)
      ensures r.TargetNotWalkable? <==> Free(grid, start) && InBounds(grid, target) && !Free(grid, target)
      ensures r.NoPath? <==> Free(grid, start) && Free(grid, target) && !Reachable(grid, start, target)
      ensures r.Path? && start == target ==> r.points == []
      ensures r.Path? && start != target ==>
        && Run(grid, start, target, run)
        && Answers(grid, start, target, run[|run| - 1], r.points)
    {
      if !InBounds(grid, start) {
        return StartOutOfBounds;
      }
      if !InBounds(grid, target) {
        return TargetOutOfBounds;
      }
      if !grid.walkable(start.x, start.y) {
        return StartNotWalkable;
      }
      if !grid.walkable(target.x, target.y) {
        return TargetNotWalkable;
      }
      if start == target {
        assert Route(grid, start, target, [start]);
        return Path([]);
      }
      r := SearchFrom(start, target);
    }

    /** Clear the buffers, cost the start at 0 and queue it. */
    method Seed(start: Point, target: Point)
      requires Valid() && InBounds(grid, start) && InBounds(grid, target)
      modifies this, gCost, parent, closed
      ensures Mirrors() && st == Begin(start, target) && run == [st]
    {
      Reset();
      IdxFacts(grid);
      assert 0 <= Idx(grid.width, start) < grid.width * grid.height;
      var startIdx: int32 := start.y * grid.width + start.x;
      gCost[startIdx] := 0;
      parent[startIdx] := -1;
      pq := pq + multiset{Node(Heuristic(start, target), 0, start)};
      st := Begin(start, target);
      run := [st];
      assert pq == st.open;
      forall p {:trigger Idx(grid.width, p)} | InBounds(grid, p)
        ensures 0 <= Idx(grid.width, p) < grid.width * grid.height && MirrorsAt(p)
      {
        assert p in st.g <==> Idx(grid.width, p) == startIdx;
      }
    }

    /** Mark the popped cell closed. */
    method MarkClosed(cur: Node)
      requires Valid() && InBounds(grid, cur.at)
      requires pq == st.open - multiset{cur}
      requires MirrorsCells()
      modifies closed, this`st
      ensures Mirrors() && st == Close(old(st), cur)
    {
      IdxFacts(grid);
      closed[Idx(grid.width, cur.at)] := true;
      st := Close(st, cur);
      forall p | InBounds(grid, p) ensures 0 <= Idx(grid.width, p) < grid.width * grid.height && MirrorsAt(p) {
        assert 0 <= Idx(grid.width, p) < grid.width * grid.height && old(MirrorsAt(p));
      }
    }

    /** The loop invariant of the search. */
    ghost predicate Searching(start: Point, target: Point)
      reads this, gCost, parent, closed
    {
      && Valid() && Mirrors()
      && Run(grid, start, target, run) && run[|run| - 1] == st
      && Inv(grid, start, target, st) && target !in st.closed
    }

    /** The popped cell was closed already: the entry is stale and is skipped. */
    ghost method SkipStale(start: Point, target: Point, cur: Node, st1: State)
      requires Valid() && MirrorsCells()
      requires st1.g == st.g && st1.parent == st.parent && st1.closed == st.closed && st1.open == pq
      requires Run(grid, start, target, run + [st1])
      requires Inv(grid, start, target, st1) && target !in st1.closed
      modifies this`st, this`run
      ensures Searching(start, target) && st == st1
    {
      run := run + [st1];
      st := st1;
      forall p | InBounds(grid, p) ensures 0 <= Idx(grid.width, p) < grid.width * grid.height && MirrorsAt(p) {
        assert 0 <= Idx(grid.width, p) < grid.width * grid.height && old(MirrorsAt(p));
      }
    }

    /** Pop one entry: stop at the target, skip a stale entry, expand a fresh one. */
    method Iterate(start: Point, target: Point) returns (found: bool, ghost cur: Node)
      requires Searching(start, target) && pq != multiset{}
      requires Free(grid, start) && InBounds(grid, target)
      modifies this, gCost, parent, closed
      ensures !found ==> Searching(start, target)
      ensures !found ==> old(st.closed) < st.closed || (old(st.closed) == st.closed && |pq| < |old(pq)|)
      ensures found ==> Mirrors() && run == old(run) && st == Close(old(st), cur)
      ensures found ==> Poppable(old(st), cur) && cur.at == target
    {
      hide Tree, Queue, Expanded;
      var node := Pop();
      cur := node;
      PopInBounds(grid, start, target, st, cur);
      IdxRange(grid, cur.at);
      assert MirrorsAt(cur.at);
      var curIdx: int32 := node.at.y * grid.width + node.at.x;
      if closed[curIdx] {
        StaleTurn(grid, start, target, run, cur);
        SkipStale(start, target, cur, Drop(st, cur));
        found := false;
      } else {
        found := HandleFresh(start, target, node, curIdx);
      }
    }

    /** Close the popped cell, then stop at the target or expand. */
    method HandleFresh(start: Point, target: Point, cur: Node, curIdx: int32) returns (found: bool)
      requires Valid() && MirrorsCells() && pq == st.open - multiset{cur}
      requires Free(grid, start) && InBounds(grid, target) && InBounds(grid, cur.at)
      requires curIdx == Idx(grid.width, cur.at)
      requires Run(grid, start, target, run) && run[|run| - 1] == st
      requires Inv(grid, start, target, st) && target !in st.closed
      requires Poppable(st, cur) && cur.at !in st.closed
      modifies this, gCost, parent, closed
      ensures !found ==> Searching(start, target) && old(st.closed) < st.closed
      ensures found ==> Mirrors() && run == old(run) && st == Close(old(st), cur) && cur.at == target
    {
      hide Tree, Queue, Expanded, RelaxFirst;
      ghost var st0 := st;
      MarkClosed(cur);
      IdxRange(grid, target);
      var targetIdx: int32 := target.y * grid.width + target.x;
      if curIdx == targetIdx {
        IdxRange(grid, cur.at);
        found := true;
      } else {
        CloseInv(grid, start, target, st0, cur);
        RoomBeforeTarget(grid, start, target, st);
        FreshTurn(grid, start, target, run, cur);
        ExpandFresh(start, target, cur, RelaxFirst(grid, target, st, cur, 8));
        found := false;
      }
    }

    /** Expand the cell just closed and record the turn. */
    method ExpandFresh(start: Point, target: Point, cur: Node, ghost next: State)
      requires Valid() && Mirrors() && InBounds(grid, target)
      requires Expanding(grid, start, target, st, cur)
      requires |st.closed| < grid.width * grid.height
      requires next == RelaxFirst(grid, target, st, cur, 8) && next.closed == st.closed
      requires Run(grid, start, target, run + [next])
      requires Inv(grid, start, target, next) && target !in next.closed
      modifies this, gCost, parent
      ensures Searching(start, target) && st.closed == old(st.closed)
    {
      hide Tree, Queue, Expanded, Relax;
      Expand(cur, start, target);
      run := run + [st];
    }

    /** The target has just been closed: read the answer off the parents. */
    method Conclude(start: Point, target: Point, ghost st0: State, ghost cur: Node) returns (out: seq<Point>)
      requires Valid() && Mirrors() && InBounds(grid, target)
      requires Run(grid, start, target, run) && run[|run| - 1] == st0
      requires Inv(grid, start, target, st0) && target !in st0.closed
      requires Poppable(st0, cur) && cur.at == target && st == Close(st0, cur)
      ensures Reachable(grid, start, target)
      ensures Answers(grid, start, target, st0, out)
    {
      TargetClosed(grid, start, target, run, cur);
      IdxRange(grid, target);
      out := ReconstructPath(target.y * grid.width + target.x, start, target);
    }

    /** The search proper, for distinct free endpoints. */
    method SearchFrom(start: Point, target: Point) returns (r: PathResult)
      requires Valid() && Free(grid, start) && Free(grid, target) && start != target
      modifies this, gCost, parent, closed
      ensures r.Path? || r.NoPath?
      ensures r.NoPath? <==> !Reachable(grid, start, target)
      ensures r.Path? ==>
        && Run(grid, start, target, run)
        && Answers(grid, start, target, run[|run| - 1], r.points)
    {
      hide Tree, Queue, Expanded, Answers, Idx, Poppable, Close, Reachable;
      Seed(start, target);
      BeginInv(grid, start, target, 0, 0);
      while pq != multiset{}
        invariant Searching(start, target)
        decreases Cells(grid.width, grid.height) - st.closed, |pq|
      {
        ghost var st0 := st;
        var found, cur := Iterate(start, target);
        if found {
          var out := Conclude(start, target, st0, cur);
          return Path(out);
        }
        ClosedRoom(grid, start, st);
      }
      ExhaustedRun(grid, start, target, run);
      return NoPath;
    }

    /** Walk the line from `from` to `to`; false as soon as a cell between them is blocked. */
    method LineOfSight(from: Point, to: Point) returns (clear: bool)
      ensures clear <==> Clear(grid, from, to)
      ensures clear <==> forall p :: Between(from, to, p) ==> grid.walkable(p.x, p.y)
    {
      ClearMeans(grid, from, to);
      hide Rounded, LinePoint, ErrorTerm, OnLine, Along, Between;
      var x0, y0 := from.x, from.y;
      var x1, y1 := to.x, to.y;
      var dx := x1 - x0;
      if dx < 0 {
        dx := -dx;
      }
      var ady := y1 - y0;
      if ady < 0 {
        ady := -ady;
      }
      var dy := -ady;
      var sx := 1;
      if x0 >= x1 {
        sx := -1;
      }
      var sy := 1;
      if y0 >= y1 {
        sy := -1;
      }
      var err := dx + dy;
      ghost var i: int, j: int, k: nat, n: nat := 0, 0, 0, Steps(from, to);
      LineEnds(from, to);
      ErrorMoves(dx, ady, 0, 0);
      OnLineStart(dx, ady);
      AlongMoves(from.x, to.x, 0);
      AlongMoves(from.y, to.y, 0);
      while true
        invariant 0 <= k <= n
        invariant x0 == Along(from.x, to.x, i) && y0 == Along(from.y, to.y, j)
        invariant err == ErrorTerm(dx, ady, i, j)
        invariant OnLine(dx, ady, i, j, k)
        invariant forall m: nat {:trigger LinePoint(from, to, m)} :: 0 < m < k && m < n ==>
                    grid.walkable(LinePoint(from, to, m).x, LinePoint(from, to, m).y)
        decreases n - k
      {
        OnLinePoint(from, to, i, j, k);
        if x0 != from.x || y0 != from.y {
          if x0 != x1 || y0 != y1 {
            if !grid.walkable(x0, y0) {
              return false;
            }
          }
        }
        if x0 == x1 && y0 == y1 {
          return true;
        }
        var e2 := 2 * err;
        OnLineStep(dx, ady, i, j, k);
        ErrorMoves(dx, ady, i, j);
        AlongMoves(from.x, to.x, i);
        AlongMoves(from.y, to.y, j);
        if e2 >= dy {
          err := err + dy;
          x0 := x0 + sx;
          i := i + 1;
        }
        if e2 <= dx {
          err := err + dx;
          y0 := y0 + sy;
          j := j + 1;
        }
        k := k + 1;
      }
    }
  }

  lemma PopInBounds(g: Grid, s: Point, t: Point, st: State, node: Node)
    requires Inv(g, s, t, st) && node in st.open
    ensures InBounds(g, node.at)
  {
    assert node.at in st.g;
  }

  /** When the target has just been closed, its parent chain is the answer. */
  lemma TargetClosed(g: Grid, s: Point, t: Point, run: seq<State>, cur: Node)
    requires Run(g, s, t, run) && var st := run[|run| - 1]; Inv(g, s, t, st) && t !in st.closed && Poppable(st, cur)
    requires cur.at == t
    ensures var st1 := Close(run[|run| - 1], cur);
      && Tree(g, s, st1) && t in st1.g
      && Answers(g, s, t, run[|run| - 1], Truncated(Chain(g, s, st1, t)))
      && Reachable(g, s, t)
  {
    var st := run[|run| - 1];
    RunAnswers(g, s, t, run, cur);
    CloseInv(g, s, t, st, cur);
    hide Tree, Queue, Expanded, Answers, Reachable, Run, Poppable;
    ChainSame(g, s, st, Close(st, cur), t);
  }

  /** The parent chain of the target in the last state of a run that pops it. */
  lemma RunAnswers(g: Grid, s: Point, t: Point, run: seq<State>, cur: Node)
    requires Run(g, s, t, run) && var st := run[|run| - 1]; Inv(g, s, t, st) && t !in st.closed && Poppable(st, cur)
    requires cur.at == t
    ensures var st := run[|run| - 1];
      && Tree(g, s, st) && t in st.g
      && Answers(g, s, t, st, Truncated(Chain(g, s, st, t)))
      && Reachable(g, s, t)
  {
    assert Free(g, s);
    FoundRoute(g, s, t, run, cur);
    hide Tree, Queue, Expanded, Cost, Distinct, NoDiagonalStep, Run, Route, Poppable, Truncated;
  }

  /** A stale pop is a turn of the run. */
  lemma StaleTurn(g: Grid, s: Point, t: Point, run: seq<State>, node: Node)
    requires Run(g, s, t, run) && var st := run[|run| - 1]; Inv(g, s, t, st) && Poppable(st, node) && node.at in st.closed
    ensures var st := Drop(run[|run| - 1], node); Run(g, s, t, run + [st]) && Inv(g, s, t, st)
  {
    var st := run[|run| - 1];
    DropInv(g, s, t, st, node);
    RunSnoc(g, s, t, run, node, Drop(st, node));
  }

  /** A fresh pop away from the target is a turn of the run. */
  lemma FreshTurn(g: Grid, s: Point, t: Point, run: seq<State>, node: Node)
    requires Run(g, s, t, run) && var st := run[|run| - 1]; Inv(g, s, t, st) && Poppable(st, node) && node.at !in st.closed
    requires node.at != t
    ensures var st := RelaxFirst(g, t, Close(run[|run| - 1], node), node, 8);
      Run(g, s, t, run + [st]) && Inv(g, s, t, st) && st.closed == run[|run| - 1].closed + {node.at}
  {
    var st := run[|run| - 1];
    ExpandInv(g, s, t, st, node);
    AdvanceClosed(g, s, t, st, node);
    RunSnoc(g, s, t, run, node, Advance(g, t, st, node));
  }

  lemma RunSnoc(g: Grid, s: Point, t: Point, run: seq<State>, node: Node, st: State)
    requires Run(g, s, t, run) && Turn(g, t, run[|run| - 1], node, st)
    ensures Run(g, s, t, run + [st])
  {
    var longer := run + [st];
    forall i: nat | i < |longer| - 1 ensures NextAt(g, t, longer, i) {
      if i < |run| - 1 {
        assert NextAt(g, t, run, i);
      }
    }
  }

  /** As long as the target is open, not every cell of the grid is closed. */
  lemma RoomBeforeTarget(g: Grid, s: Point, t: Point, st: State)
    requires Tree(g, s, st) && InBounds(g, t) && t !in st.closed
    ensures |st.closed| < g.width * g.height
  {
    ClosedRoom(g, s, st);
    var cells := Cells(g.width, g.height);
    assert t in cells;
    CellsSize(g.width, g.height);
    SubsetSize(st.closed, cells - {t});
  }

  ghost function Truncated(chain: seq<Point>): seq<Point>
    requires chain != []
  {
    if |chain| - 1 <= MAX_WALK_PATH then chain[1..] else chain[1..MAX_WALK_PATH + 1]
  }

  /**
    The points returned are the parent chain of the target, without the start and cut to 32;
    the whole chain is a legal walk without repetitions whose cost is within 10/7 of every legal
    route, and least where no diagonal step is legal.
   */
  ghost predicate Answers(g: Grid, s: Point, t: Point, st: State, points: seq<Point>) {
    && Tree(g, s, st) && t in st.g
    && var chain := Chain(g, s, st, t);
    && points == Truncated(chain)
    && Route(g, s, t, chain) && Distinct(chain)
    && (exists node :: Poppable(st, node) && node.at == t && node.g == Cost(chain))
    && (forall path :: Route(g, s, t, path) ==> 7 * Cost(chain) <= 10 * Cost(path))
    && (NoDiagonalStep(g) ==> forall path :: Route(g, s, t, path) ==> Cost(chain) <= Cost(path))
  }

  /** The chain depends on costs and parents only. */
  lemma {:induction false} ChainSame(g: Grid, s: Point, a: State, b: State, p: Point)
    requires Tree(g, s, a) && Tree(g, s, b) && a.g == b.g && a.parent == b.parent && p in a.g
    ensures Chain(g, s, a, p) == Chain(g, s, b, p)
    decreases a.g[p]
  {
    if p != s {
      ChainSame(g, s, a, b, a.parent[p]);
    }
  }

  /** The points are the chain after the start, all of it up to 32 cells, else exactly the first 32. */
  lemma AnswerIsChain(g: Grid, s: Point, t: Point, st: State, points: seq<Point>)
    requires Answers(g, s, t, st, points)
    ensures var chain := Chain(g, s, st, t);
      && chain != [] && chain[0] == s
      && |points| == (if |chain| - 1 <= 32 then |chain| - 1 else 32)
      && forall i :: 0 <= i < |points| ==> points[i] == chain[i + 1]
  {
  }

  /**
    What a caller sees: at most 32 free cells, all distinct and none the start, each one legal
    step from the one before it; the target comes last exactly when nothing was cut off.
   */
  lemma AnswerIsWalkable(g: Grid, s: Point, t: Point, st: State, points: seq<Point>)
    requires s != t && Answers(g, s, t, st, points)
    ensures 1 <= |points| <= 32
    ensures Walk(g, [s] + points) && Distinct([s] + points)
    ensures forall i :: 0 <= i < |points| ==> Free(g, points[i])
    ensures [s] + points <= Chain(g, s, st, t)
    ensures points[|points| - 1] == t <==> |Chain(g, s, st, t)| - 1 <= 32
  {
    var chain := Chain(g, s, st, t);
    assert |chain| > 1;
    var shown := [s] + points;
    assert shown == chain[..|shown|];
    forall i | 0 <= i < |points| ensures Free(g, points[i]) {
      assert Step(g, chain[i], chain[i + 1]);
    }
  }

  lemma {:induction false} ReverseSnoc<T>(s: seq<T>, x: T)
    ensures Reverse(s + [x]) == [x] + Reverse(s)
  {
    var a, b := Reverse(s + [x]), [x] + Reverse(s);
    assert forall i :: 0 <= i < |a| ==> a[i] == b[i];
  }

  lemma NeighbourAdjacent(p: Point, k: nat)
    requires k < 8
    ensures Adjacent(p, Neighbour(p, k))
    ensures -1 <= DIRECTIONS[k].0 <= 1 && -1 <= DIRECTIONS[k].1 <= 1
  {
  }

  lemma Area(w: nat, h: nat, area: int)
    requires w >= 1 && h >= 1 && area == w * h
    ensures w + h <= area + 1
  {
    assert (w - 1) * (h - 1) == w * h - w - h + 1;
  }

  /** Sizes, the next cost and the next estimate all fit: nothing computed from `cur` overflows. */
  ghost predicate Room(g: Grid, t: Point, cur: Node, area: int) {
    && InBounds(g, cur.at) && InBounds(g, t)
    && 1 <= g.width <= area && 1 <= g.height <= area < INF_COST
    && 0 <= cur.g && cur.g + MOVE_DIAGONAL_COST < INF_COST
    && cur.g + MOVE_DIAGONAL_COST + MOVE_COST * (g.width + g.height) < 0x8000_0000
  }

  /** With 14 * width * height below INF_COST no cost, estimate or index leaves int32. */
  lemma Int32Room(g: Grid, s: Point, t: Point, st: State, cur: Node, area: int)
    requires Expanding(g, s, t, st, cur) && InBounds(g, t)
    requires area == g.width * g.height && |st.closed| < area
    requires MOVE_DIAGONAL_COST * area < INF_COST
    ensures Room(g, t, cur, area)
  {
    assert cur.at in st.g && Free(g, cur.at);
    Area(g.width, g.height, area);
  }

  lemma LeastExists(q: multiset<Node>)
    requires q != multiset{}
    ensures exists n :: n in q && forall m :: m in q ==> n.f <= m.f
    decreases |q|
  {
    var n :| n in q;
    var rest := q - multiset{n};
    if rest != multiset{} {
      LeastExists(rest);
      var r :| r in rest && forall m :: m in rest ==> r.f <= m.f;
      var best := if n.f <= r.f then n else r;
      forall m | m in q ensures best.f <= m.f {
        assert m == n || m in rest;
      }
      assert best in q;
    } else {
      forall m | m in q ensures n.f <= m.f {
        assert m == n || m in rest;
      }
    }
  }
}
