/**
  Maps on which the search has no choice: along a trail of cells the estimate
  never exceeds a bound, and every step off the trail does.  Every run then
  closes the trail cell by cell, however ties are broken, and answers with the
  trail's cost.
 */
module Trails {
  import opened WalkGrid
  import opened Search
  import opened SearchProofs

  /** Cells 0 to `n` from the start to the target, what each costs, and the bound on the estimates. */
  datatype Trail = Trail(grid: Grid, cell: nat -> Point, cost: nat -> int, n: nat, bound: int) {
    function Start(): Point {
      cell(0)
    }

    function Target(): Point {
      cell(n)
    }
  }

  /** Cell `k` is a legal step from the one before it, at the recorded cost. */
  ghost predicate Link(tr: Trail, k: nat)
    requires k >= 1
  {
    && Step(tr.grid, tr.cell(k - 1), tr.cell(k))
    && tr.cost(k) == tr.cost(k - 1) + StepCost(tr.cell(k - 1), tr.cell(k))
  }

  /** The trail starts free at cost 0, is linked, and visits no cell twice. */
  ghost predicate Linked(tr: Trail) {
    && Free(tr.grid, tr.cell(0)) && tr.cost(0) == 0
    && (forall k: nat :: 1 <= k <= tr.n ==> Link(tr, k))
    && (forall j: nat, k: nat :: j < k <= tr.n ==> tr.cell(j) != tr.cell(k))
  }

  /** The step from cell `j` to `p` stays on the trail or exceeds the bound. */
  ghost predicate Kept(tr: Trail, j: nat, p: Point) {
    || p == tr.cell(j + 1) || (j > 0 && p == tr.cell(j - 1))
    || tr.cost(j) + StepCost(tr.cell(j), p) + Heuristic(p, tr.Target()) > tr.bound
  }

  /** On the trail estimates stay within the bound; steps to cells off it exceed it. */
  ghost predicate Forced(tr: Trail) {
    && (forall k: nat :: 1 <= k <= tr.n ==> tr.cost(k) + Heuristic(tr.cell(k), tr.Target()) <= tr.bound)
    && (forall j: nat, p :: j < tr.n && Step(tr.grid, tr.cell(j), p) ==> Kept(tr, j, p))
  }

  ghost predicate Narrow(tr: Trail) {
    Linked(tr) && Forced(tr)
  }

  /** Exactly the first `k` cells are closed, at their costs. */
  ghost predicate ClosedPrefix(tr: Trail, st: State, k: nat) {
    && k <= tr.n
    && (forall p :: p in st.closed <==> exists j: nat :: j < k && p == tr.cell(j))
    && (forall j: nat :: j < k ==> tr.cell(j) in st.g && st.g[tr.cell(j)] == tr.cost(j))
  }

  ghost predicate InvOf(tr: Trail, st: State) {
    Inv(tr.grid, tr.Start(), tr.Target(), st)
  }

  /** Leaving the closed cells for anything but the next one exceeds the bound. */
  lemma OtherwiseDearer(tr: Trail, j: nat, k: nat, p: Point)
    requires Narrow(tr) && j < k <= tr.n && Step(tr.grid, tr.cell(j), p)
    requires forall i: nat :: i < k ==> p != tr.cell(i)
    ensures p != tr.cell(k) ==> tr.cost(j) + StepCost(tr.cell(j), p) + Heuristic(p, tr.Target()) > tr.bound
    ensures p == tr.cell(k) ==>
      || tr.cost(j) + StepCost(tr.cell(j), p) == tr.cost(k)
      || tr.cost(j) + StepCost(tr.cell(j), p) + Heuristic(p, tr.Target()) > tr.bound
  {
    assert Link(tr, k);
    hide Step, StepCost, Heuristic;
    assert Kept(tr, j, p);
    if p == tr.cell(j + 1) {
      assert j + 1 == k;
    }
  }

  /** What a reached open cell costs is decided by its closed parent. */
  lemma ReachedCost(tr: Trail, st: State, k: nat, p: Point) returns (j: nat)
    requires InvOf(tr, st) && ClosedPrefix(tr, st, k) && p in st.g && p !in st.closed && p != tr.Start()
    ensures j < k && Step(tr.grid, tr.cell(j), p) && st.g[p] == tr.cost(j) + StepCost(tr.cell(j), p)
  {
    hide Queue, Expanded, Step, StepCost;
    assert p in st.parent;
    var up := st.parent[p];
    assert up in st.closed;
    j :| j < k && up == tr.cell(j);
  }

  /** Once the start is closed, the next cell of the trail is queued within the bound. */
  lemma NextQueued(tr: Trail, st: State, k: nat)
    requires Narrow(tr) && InvOf(tr, st) && ClosedPrefix(tr, st, k) && k >= 1
    ensures var p := tr.cell(k);
      && p !in st.closed && p in st.g
      && Node(st.g[p] + Heuristic(p, tr.Target()), st.g[p], p) in st.open
      && st.g[p] + Heuristic(p, tr.Target()) <= tr.bound
  {
    hide Step, StepCost, Heuristic, Tree;
    assert Link(tr, k);
    assert tr.cell(k - 1) in st.closed;
    assert Offered(st, tr.cell(k - 1), tr.cell(k));
  }

  /** The only open cell that can be popped is the next one of the trail. */
  lemma ForcedPop(tr: Trail, st: State, k: nat, node: Node)
    requires Narrow(tr) && InvOf(tr, st) && ClosedPrefix(tr, st, k)
    requires Poppable(st, node) && node.at !in st.closed
    ensures node.at == tr.cell(k) && node.g == tr.cost(k)
  {
    hide Step, StepCost, Heuristic, Expanded, Queue, Forced;
    PopIsCurrent(tr.Target(), st, node);
    var p := node.at;
    if k == 0 {
      if p != tr.Start() {
        var j := ReachedCost(tr, st, k, p);
      }
    } else {
      NextQueued(tr, st, k);
      PopWithin(tr, st, k, node);
      assert tr.Start() in st.closed;
      var j := ReachedCost(tr, st, k, p);
      OtherwiseDearer(tr, j, k, p);
    }
  }

  lemma PopWithin(tr: Trail, st: State, k: nat, node: Node)
    requires Queue(tr.Target(), st) && Poppable(st, node) && node.at !in st.closed
    requires var p := tr.cell(k);
      && p !in st.closed && p in st.g
      && Node(st.g[p] + Heuristic(p, tr.Target()), st.g[p], p) in st.open
      && st.g[p] + Heuristic(p, tr.Target()) <= tr.bound
    ensures node.at in st.g && st.g[node.at] + Heuristic(node.at, tr.Target()) <= tr.bound
  {
    hide Heuristic;
    PopIsCurrent(tr.Target(), st, node);
  }

  lemma {:induction false} RunStaysOnTrail(tr: Trail, run: seq<State>, i: nat) returns (k: nat)
    requires Narrow(tr) && Run(tr.grid, tr.Start(), tr.Target(), run) && i < |run|
    ensures ClosedPrefix(tr, run[i], k)
  {
    hide Expanded, Queue, Tree, Bounded, Forced;
    if i == 0 {
      k := 0;
    } else {
      k := RunStaysOnTrail(tr, run, i - 1);
      SevenTenths(tr.grid);
      RunInvariant(tr.grid, tr.Start(), tr.Target(), run, i - 1, 7, 10);
      RunInvariant(tr.grid, tr.Start(), tr.Target(), run, i, 7, 10);
      assert NextAt(tr.grid, tr.Target(), run, i - 1);
      k := TurnStaysOnTrail(tr, run[i - 1], run[i], k);
    }
  }

  lemma TurnStaysOnTrail(tr: Trail, st: State, st': State, k: nat) returns (k': nat)
    requires Narrow(tr) && InvOf(tr, st) && ClosedPrefix(tr, st, k) && Next(tr.grid, tr.Target(), st, st')
    ensures ClosedPrefix(tr, st', k')
  {
    hide Step, StepCost, Heuristic, Expanded, Queue, Advance, Forced, Linked;
    var node :| Turn(tr.grid, tr.Target(), st, node, st');
    AdvanceClosed(tr.grid, tr.Start(), tr.Target(), st, node);
    if node.at in st.closed {
      k' := k;
    } else {
      ForcedPop(tr, st, k, node);
      assert k < tr.n;
      PrefixGrows(tr, st, st', k);
      k' := k + 1;
    }
  }

  lemma PrefixGrows(tr: Trail, st: State, st': State, k: nat)
    requires ClosedPrefix(tr, st, k) && k < tr.n
    requires st'.closed == st.closed + {tr.cell(k)} && KeepsClosed(st, st')
    requires tr.cell(k) in st'.g && st'.g[tr.cell(k)] == tr.cost(k)
    ensures ClosedPrefix(tr, st', k + 1)
  {
    forall p ensures p in st'.closed <==> exists j: nat :: j < k + 1 && p == tr.cell(j) {
      if p in st.closed {
        var j: nat :| j < k && p == tr.cell(j);
        assert j < k + 1 && p == tr.cell(j);
      }
      if p == tr.cell(k) {
        assert k < k + 1 && p == tr.cell(k);
      }
    }
  }

  /** Every finished search answers with the cost of the trail. */
  lemma FoundCost(tr: Trail, run: seq<State>, node: Node)
    requires Narrow(tr) && Run(tr.grid, tr.Start(), tr.Target(), run)
    requires Poppable(run[|run| - 1], node) && node.at == tr.Target()
    ensures node.g == tr.cost(tr.n)
  {
    hide Forced, Linked, Tree, Queue, Expanded;
    var last := run[|run| - 1];
    SevenTenths(tr.grid);
    assert Free(tr.grid, tr.Start()) by {
      StartFree(tr);
    }
    RunInvariant(tr.grid, tr.Start(), tr.Target(), run, |run| - 1, 7, 10);
    var k := RunStaysOnTrail(tr, run, |run| - 1);
    ForcedPop(tr, last, k, node);
    TargetLast(tr, k);
  }

  lemma StartFree(tr: Trail)
    requires Linked(tr)
    ensures Free(tr.grid, tr.Start())
  {
  }

  lemma TargetLast(tr: Trail, k: nat)
    requires Linked(tr) && k <= tr.n && tr.cell(k) == tr.Target()
    ensures k == tr.n
  {
  }
}
