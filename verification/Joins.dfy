/**
  Exactly what an unparenthesised join of any number of predicates means.  The
  evaluator splits at `||` first, so a disjunct of the joined text is a
  disjunct strictly inside one part, or a chain that leads from the last
  disjunct of one part, or from the start, through parts of one disjunct, to
  the first disjunct of a later part, or to the end.
 */
module Joins {
  import opened Text
  import opened Predicate
  import opened PredicateProofs

  /** Which disjuncts of a text hold. */
  ghost function Row(p: string, version: int): (row: seq<bool>)
    ensures row != []
  {
    seq(|Split(p, '|', 0)|, d requires 0 <= d < |Split(p, '|', 0)| => EvalConjunct(Split(p, '|', 0)[d], version))
  }

  ghost function Rows(parts: seq<string>, version: int): seq<seq<bool>> {
    seq(|parts|, i requires 0 <= i < |parts| => Row(parts[i], version))
  }

  ghost predicate Table(t: seq<seq<bool>>) {
    forall i :: 0 <= i < |t| ==> t[i] != []
  }

  /** A disjunct strictly inside one part holds. */
  ghost predicate Inside(t: seq<seq<bool>>) {
    exists i, d :: 0 <= i < |t| && 0 < d < |t[i]| - 1 && t[i][d]
  }

  /**
    A chain that holds: the last of several disjuncts of part `i` (-1 for the start), parts of one
    disjunct, and the first of several disjuncts of part `j` (|t| for the end).
   */
  ghost predicate Chain(t: seq<seq<bool>>, i: int, j: int)
    requires Table(t)
  {
    && -1 <= i < j <= |t|
    && (i >= 0 ==> |t[i]| > 1 && t[i][|t[i]| - 1])
    && (j < |t| ==> |t[j]| > 1 && t[j][0])
    && forall k :: i < k < j ==> t[k] == [true]
  }

  ghost predicate SomeChain(t: seq<seq<bool>>)
    requires Table(t)
  {
    Inside(t) || exists i, j :: Chain(t, i, j)
  }

  /** The row of the joined text: where two parts meet their disjuncts become one. */
  ghost function Fused(t: seq<seq<bool>>): (row: seq<bool>)
    requires t != [] && Table(t)
    ensures row != []
  {
    if |t| == 1 then t[0] else FuseRows(t[0], Fused(t[1..]))
  }

  ghost function FuseRows(a: seq<bool>, b: seq<bool>): (row: seq<bool>)
    requires a != [] && b != []
    ensures |row| == |a| + |b| - 1
  {
    a[..|a| - 1] + [a[|a| - 1] && b[0]] + b[1..]
  }

  // ----- rows of joined texts -----

  lemma PairRow(a: string, b: string, version: int)
    requires Part(a)
    ensures Row(a + AND + b, version) == FuseRows(Row(a, version), Row(b, version))
  {
    OrPieces(a, b);
    var ps, qs, rs := Split(a, '|', 0), Split(b, '|', 0), Split(a + AND + b, '|', 0);
    PieceDepth(a, '|', 0, |ps| - 1);
    AndConjunct(ps[|ps| - 1], qs[0], version);
    hide Split, EvalConjunct, Part;
    RowsMeet(rs, ps, qs, version, Row(a + AND + b, version), Row(a, version), Row(b, version));
  }

  lemma RowsMeet(rs: seq<string>, ps: seq<string>, qs: seq<string>, version: int, r: seq<bool>, a: seq<bool>, b: seq<bool>)
    requires ps != [] && qs != [] && |a| == |ps| && |b| == |qs| && |r| == |rs|
    requires rs == ps[..|ps| - 1] + [ps[|ps| - 1] + AND + qs[0]] + qs[1..]
    requires EvalConjunct(ps[|ps| - 1] + AND + qs[0], version) == (EvalConjunct(ps[|ps| - 1], version) && EvalConjunct(qs[0], version))
    requires forall d :: 0 <= d < |a| ==> a[d] == EvalConjunct(ps[d], version)
    requires forall d :: 0 <= d < |b| ==> b[d] == EvalConjunct(qs[d], version)
    requires forall d :: 0 <= d < |r| ==> r[d] == EvalConjunct(rs[d], version)
    ensures r == FuseRows(a, b)
  {
    hide EvalConjunct;
    var f := FuseRows(a, b);
    forall d | 0 <= d < |r| ensures r[d] == f[d] {
      if d < |ps| - 1 {
        assert rs[d] == ps[d];
      } else if d > |ps| - 1 {
        assert rs[d] == qs[d - |ps| + 1];
      }
    }
  }

  lemma {:induction false} JoinRow(parts: seq<string>, version: int)
    requires parts != [] && forall i :: 0 <= i < |parts| ==> Part(parts[i])
    ensures Table(Rows(parts, version)) && Row(Join(parts, AND), version) == Fused(Rows(parts, version))
  {
    var t := Rows(parts, version);
    assert t[0] == Row(parts[0], version);
    if |parts| > 1 {
      JoinRow(parts[1..], version);
      assert Rows(parts[1..], version) == t[1..];
      PairRow(parts[0], Join(parts[1..], AND), version);
    }
  }

  // ----- chains -----

  /** The first disjunct of the joined text. */
  ghost predicate FirstChain(t: seq<seq<bool>>)
    requires Table(t)
  {
    exists j :: Chain(t, -1, j)
  }

  /** The others. */
  ghost predicate LaterChain(t: seq<seq<bool>>)
    requires Table(t)
  {
    Inside(t) || exists i, j :: i >= 0 && Chain(t, i, j)
  }

  lemma ChainShift(t: seq<seq<bool>>, i: int, j: int)
    requires t != [] && Table(t) && Table(t[1..])
    ensures i >= 1 ==> (Chain(t, i, j) <==> Chain(t[1..], i - 1, j - 1))
    ensures Chain(t, 0, j) <==> |t[0]| > 1 && t[0][|t[0]| - 1] && Chain(t[1..], -1, j - 1)
    ensures j > 0 ==> (Chain(t, -1, j) <==> t[0] == [true] && Chain(t[1..], -1, j - 1))
    ensures Chain(t, -1, 0) <==> |t[0]| > 1 && t[0][0]
  {
    var u := t[1..];
    assert forall k :: 0 <= k < |u| ==> u[k] == t[k + 1];
    assert forall k :: 1 <= k < |t| ==> t[k] == u[k - 1];
    if j > 0 && Chain(u, -1, j - 1) && t[0] == [true] {
      forall k | -1 < k < j ensures t[k] == [true] {
        assert k > 0 ==> u[k - 1] == [true];
      }
    }
  }

  lemma FirstStep(t: seq<seq<bool>>)
    requires t != [] && Table(t) && Table(t[1..])
    ensures FirstChain(t) <==> if |t[0]| > 1 then t[0][0] else t[0][0] && FirstChain(t[1..])
  {
    hide Chain;
    assert |t[0]| == 1 && t[0][0] ==> t[0] == [true];
    if j :| Chain(t, -1, j) {
      ChainShift(t, -1, j);
      ChainRange(t, -1, j);
    }
    if j :| Chain(t[1..], -1, j) {
      ChainShift(t, -1, j + 1);
      ChainRange(t[1..], -1, j);
    }
    ChainShift(t, -1, 0);
  }

  lemma ChainRange(t: seq<seq<bool>>, i: int, j: int)
    requires Table(t) && Chain(t, i, j)
    ensures -1 <= i < j <= |t|
  {
  }

  lemma InsideStep(t: seq<seq<bool>>)
    requires t != []
    ensures Inside(t) <==> (exists d :: 0 < d < |t[0]| - 1 && t[0][d]) || Inside(t[1..])
  {
    var u := t[1..];
    if i, d :| 0 <= i < |t| && 0 < d < |t[i]| - 1 && t[i][d] {
      assert i > 0 ==> u[i - 1] == t[i];
    }
    if i, d :| 0 <= i < |u| && 0 < d < |u[i]| - 1 && u[i][d] {
      assert u[i] == t[i + 1];
    }
  }

  lemma LaterStep(t: seq<seq<bool>>)
    requires t != [] && Table(t) && Table(t[1..])
    ensures LaterChain(t) <==>
      || (exists d :: 0 < d < |t[0]| - 1 && t[0][d])
      || (|t[0]| > 1 && t[0][|t[0]| - 1] && FirstChain(t[1..]))
      || LaterChain(t[1..])
  {
    hide Chain, Inside;
    InsideStep(t);
    if i, j :| i >= 0 && Chain(t, i, j) {
      ChainShift(t, i, j);
    }
    if i, j :| i >= 0 && Chain(t[1..], i, j) {
      ChainShift(t, i + 1, j + 1);
    }
    if j :| Chain(t[1..], -1, j) {
      ChainShift(t, 0, j + 1);
    }
  }

  lemma FuseRowsHold(a: seq<bool>, b: seq<bool>)
    requires a != [] && b != []
    ensures FuseRows(a, b)[0] <==> if |a| > 1 then a[0] else a[0] && b[0]
    ensures (exists d :: 0 < d < |FuseRows(a, b)| && FuseRows(a, b)[d]) <==>
      || (exists d :: 0 < d < |a| - 1 && a[d])
      || (|a| > 1 && a[|a| - 1] && b[0])
      || (exists d :: 0 < d < |b| && b[d])
  {
    var f, n := FuseRows(a, b), |a| - 1;
    if d :| 0 < d < |f| && f[d] {
      assert d < n ==> f[d] == a[d];
      assert d > n ==> f[d] == b[d - n];
    }
    if d :| 0 < d < n && a[d] {
      assert f[d] == a[d];
    }
    if d :| 0 < d < |b| && b[d] {
      assert f[n + d] == b[d];
    }
    assert f[n] == (a[n] && b[0]);
  }

  /** The first disjunct of the joined row is the chain from the start, the others are the rest. */
  lemma {:induction false} FusedChains(t: seq<seq<bool>>)
    requires t != [] && Table(t)
    ensures Fused(t)[0] <==> FirstChain(t)
    ensures (exists d :: 0 < d < |Fused(t)| && Fused(t)[d]) <==> LaterChain(t)
  {
    var rest := t[1..];
    FirstStep(t);
    LaterStep(t);
    hide FirstChain, LaterChain;
    if |t| == 1 {
      NoParts(rest);
      LastOfRow(t[0]);
    } else {
      FusedChains(rest);
      FuseRowsHold(t[0], Fused(rest));
    }
  }

  lemma NoParts(t: seq<seq<bool>>)
    requires t == []
    ensures FirstChain(t) && !LaterChain(t)
  {
    assert Chain(t, -1, 0);
  }

  lemma LastOfRow(a: seq<bool>)
    requires a != []
    ensures (exists d :: 0 < d < |a| && a[d]) <==> (exists d :: 0 < d < |a| - 1 && a[d]) || (|a| > 1 && a[|a| - 1])
  {
  }

  lemma SomeOfRow(t: seq<seq<bool>>)
    requires t != [] && Table(t)
    ensures (exists d :: 0 <= d < |Fused(t)| && Fused(t)[d]) <==> SomeChain(t)
  {
    FusedChains(t);
    hide Fused, Inside, Chain;
    if i, j :| Chain(t, i, j) {
      ChainRange(t, i, j);
      assert i == -1 || i >= 0;
    }
  }

  /** What a join of parts means, exactly. */
  lemma JoinMeans(parts: seq<string>, version: int)
    requires parts != [] && forall i :: 0 <= i < |parts| ==> Part(parts[i])
    ensures Table(Rows(parts, version))
    ensures EvalPredicate(Join(parts, AND), version) <==> SomeChain(Rows(parts, version))
  {
    var p := Join(parts, AND);
    JoinIsPart(parts);
    JoinRow(parts, version);
    TightPredicate(p, version);
    SomeOfRow(Rows(parts, version));
    hide EvalPredicate, Fused, SomeChain, Rows, Part;
    RowDecides(p, version);
  }

  lemma RowDecides(p: string, version: int)
    ensures SomeDisjunct(p, version) <==> exists d :: 0 <= d < |Row(p, version)| && Row(p, version)[d]
  {
    hide EvalConjunct, Split;
    var row, ds := Row(p, version), Split(p, '|', 0);
    if d :| 0 <= d < |ds| && EvalConjunct(ds[d], version) {
      assert row[d];
    }
    if d :| 0 <= d < |row| && row[d] {
      assert EvalConjunct(ds[d], version);
    }
  }

  // ----- when a join conjoins -----

  ghost predicate HasWidths(t: seq<seq<bool>>, widths: seq<nat>) {
    |t| == |widths| && forall i :: 0 <= i < |t| ==> |t[i]| == widths[i]
  }

  /** Every part has a disjunct that holds. */
  ghost predicate AllRowsHold(t: seq<seq<bool>>) {
    forall i :: 0 <= i < |t| ==> true in t[i]
  }

  ghost predicate Conjoins(t: seq<seq<bool>>)
    requires Table(t)
  {
    SomeChain(t) ==> AllRowsHold(t)
  }

  /** One part at most, or one disjunct in each. */
  predicate FitWidths(widths: seq<nat>) {
    |widths| <= 1 || forall i :: 0 <= i < |widths| ==> widths[i] == 1
  }

  /**
    Judged by how many disjuncts the parts have, a join means the conjunction of its parts in every
    case exactly when there is at most one part or every part has one disjunct.
   */
  lemma FitWidthsExact(widths: seq<nat>)
    requires forall i :: 0 <= i < |widths| ==> widths[i] > 0
    ensures FitWidths(widths) <==> forall t :: HasWidths(t, widths) && Table(t) ==> Conjoins(t)
  {
    hide Conjoins;
    if FitWidths(widths) {
      forall t | HasWidths(t, widths) && Table(t) ensures Conjoins(t) {
        FitConjoins(t, widths);
      }
    } else {
      var i :| 0 <= i < |widths| && widths[i] != 1;
      var t := Breaks(widths, i);
    }
  }

  lemma FitConjoins(t: seq<seq<bool>>, widths: seq<nat>)
    requires HasWidths(t, widths) && Table(t) && FitWidths(widths)
    ensures Conjoins(t)
  {
    if SomeChain(t) && |t| > 0 {
      if |t| == 1 {
        SomeOfRow(t);
        assert Fused(t) == t[0];
      } else {
        assert !Inside(t);
        var i, j :| Chain(t, i, j);
        assert i == -1 && j == |t|;
        forall k | 0 <= k < |t| ensures true in t[k] {
          assert t[k] == [true];
        }
      }
    }
  }

  /** A part of several disjuncts among others: its first or last one alone can carry the join. */
  lemma Breaks(widths: seq<nat>, i: nat) returns (t: seq<seq<bool>>)
    requires forall k :: 0 <= k < |widths| ==> widths[k] > 0
    requires i < |widths| && widths[i] > 1 && |widths| > 1
    ensures HasWidths(t, widths) && Table(t) && !Conjoins(t)
  {
    var n := |widths|;
    if i == n - 1 {
      t := seq(n, k requires 0 <= k < n => seq(widths[k], d => k == i && d == widths[k] - 1));
      assert Chain(t, i, n);
      assert true !in t[0];
    } else {
      t := seq(n, k requires 0 <= k < n => seq(widths[k], d => k < i || (k == i && d == 0)));
      var from := LastWide(widths, i);
      assert Chain(t, from, i) by {
        forall k | from < k < i ensures t[k] == [true] {
          assert |t[k]| == 1 && t[k][0];
        }
      }
      assert true !in t[n - 1];
    }
  }

  /** The nearest part of several disjuncts in front of part `i`, or the start. */
  lemma LastWide(widths: seq<nat>, i: nat) returns (from: int)
    requires i <= |widths| && forall k :: 0 <= k < |widths| ==> widths[k] > 0
    ensures -1 <= from < i && (from >= 0 ==> widths[from] > 1)
    ensures forall k :: from < k < i ==> widths[k] == 1
  {
    from := i - 1;
    while from >= 0 && widths[from] == 1
      invariant -1 <= from < i
      invariant forall k :: from < k < i ==> widths[k] == 1
    {
      from := from - 1;
    }
  }
}
