/**
  What evaluation means for predicates put together from others: the
  evaluator sees a joined text piece by piece, and these lemmas say which
  truth value comes out.
 */
module PredicateProofs {
  import opened Options
  import opened Text
  import opened Predicate

  // ----- blanks do not matter -----

  lemma {:induction false} BlankInFront(b: string, s: string, op: char, depth: nat)
    requires op != '(' && op != ')' && !IsSpace(op) && Blank(b)
    ensures Split(b + s, op, depth) == Glue(b, Split(s, op, depth))
    ensures Depth(b, depth) == depth
    decreases |b|
  {
    if b == "" {
      assert b + s == s;
      GlueNothing(Split(s, op, depth));
    } else {
      assert (b + s)[1..] == b[1..] + s;
      BlankInFront(b[1..], s, op, depth);
      assert [b[0]] + (b[1..] + Split(s, op, depth)[0]) == b + Split(s, op, depth)[0];
    }
  }

  lemma BlankIsWhole(b: string, op: char, depth: nat)
    requires op != '(' && op != ')' && !IsSpace(op) && Blank(b)
    ensures Split(b, op, depth) == [b]
  {
    BlankInFront(b, "", op, depth);
    assert b + "" == b;
  }

  lemma BlankBehind(s: string, b: string, op: char, depth: nat)
    requires op != '(' && op != ')' && !IsSpace(op) && Blank(b)
    ensures Split(s + b, op, depth) == Fuse(Split(s, op, depth), [b])
  {
    SplitConcat(s, b, op, depth);
    BlankIsWhole(b, op, Depth(s, depth));
  }

  /** Piece by piece the same term, up to blanks. */
  ghost predicate SamePieces(ps: seq<string>, qs: seq<string>) {
    |ps| == |qs| && forall i :: 0 <= i < |ps| ==> Trim(ps[i]) == Trim(qs[i])
  }

  lemma SamePiecesSameConjunct(s: string, t: string, version: int)
    requires SamePieces(Split(s, '&', 0), Split(t, '&', 0))
    ensures EvalConjunct(s, version) == EvalConjunct(t, version)
  {
    var ps, qs := Split(s, '&', 0), Split(t, '&', 0);
    hide Split, Trim, EvalTerm;
    forall i | 0 <= i < |ps| ensures TermHolds(ps[i], version) == TermHolds(qs[i], version) {
    }
  }

  lemma BlankInFrontPieces(b: string, s: string, op: char)
    requires Blank(b) && (op == '&' || op == '|')
    ensures SamePieces(Split(b + s, op, 0), Split(s, op, 0))
  {
    BlankInFront(b, s, op, 0);
    var ps := Split(s, op, 0);
    hide Split;
    TrimOutside(b, ps[0], "");
    assert b + ps[0] + "" == b + ps[0];
  }

  lemma BlankBehindPieces(s: string, b: string, op: char)
    requires Blank(b) && (op == '&' || op == '|')
    ensures SamePieces(Split(s + b, op, 0), Split(s, op, 0))
  {
    BlankBehind(s, b, op, 0);
    FusedPieces(Split(s, op, 0), [b]);
    hide Split, Fuse;
    PaddedLast(Split(s, op, 0), Split(s + b, op, 0), b);
  }

  /** Piece by piece, outer blanks do not matter. */
  lemma TrimmedPieces(s: string, op: char)
    requires op == '&' || op == '|'
    ensures SamePieces(Split(s, op, 0), Split(Trim(s), op, 0))
  {
    var left, right := TrimParts(s);
    var core := Trim(s);
    hide Split, Trim;
    assert s == left + (core + right);
    BlankInFrontPieces(left, core + right, op);
    BlankBehindPieces(core, right, op);
  }

  lemma PaddedLast(ps: seq<string>, rs: seq<string>, b: string)
    requires ps != [] && |rs| == |ps| && Blank(b)
    requires forall i :: 0 <= i < |ps| - 1 ==> rs[i] == ps[i]
    requires rs[|ps| - 1] == ps[|ps| - 1] + b
    ensures SamePieces(rs, ps)
  {
    var last := ps[|ps| - 1];
    TrimOutside("", last, b);
    assert "" + last + b == last + b;
    hide Trim;
  }

  lemma FusedPieces(a: seq<string>, b: seq<string>)
    requires a != [] && b != []
    ensures var f, n := Fuse(a, b), |a|;
      && |f| == n + |b| - 1
      && (forall i :: 0 <= i < n - 1 ==> f[i] == a[i])
      && f[n - 1] == a[n - 1] + b[0]
      && (forall i :: 1 <= i < |b| ==> f[n - 1 + i] == b[i])
  {
  }

  /** A conjunction means the same with and without blanks around it. */
  lemma TrimmedConjunct(s: string, version: int)
    ensures EvalConjunct(Trim(s), version) == EvalConjunct(s, version)
  {
    TrimmedPieces(s, '&');
    SamePiecesSameConjunct(s, Trim(s), version);
  }

  /** Some disjunct holds: what EvalPredicate decides of a text without outer blanks. */
  ghost predicate SomeDisjunct(s: string, version: int) {
    exists i :: 0 <= i < |Split(s, '|', 0)| && EvalConjunct(Split(s, '|', 0)[i], version)
  }

  lemma PredicateDisjuncts(p: string, version: int)
    ensures EvalPredicate(p, version) <==> Trim(p) != "" && SomeDisjunct(Trim(p), version)
  {
    var ds := Split(Trim(p), '|', 0);
    forall i | 0 <= i < |ds| ensures EvalConjunct(Trim(ds[i]), version) == EvalConjunct(ds[i], version) {
      TrimmedConjunct(ds[i], version);
    }
  }

  lemma TightPredicate(p: string, version: int)
    requires Tight(p) && p != ""
    ensures EvalPredicate(p, version) <==> SomeDisjunct(p, version)
  {
    TrimTight(p);
    PredicateDisjuncts(p, version);
  }

  // ----- joining with && -----

  const AND := " && "

  /** How the splitter at && sees `a && b`. */
  lemma AndPieces(a: string, b: string)
    requires Depth(a, 0) == 0
    ensures Split(a + AND + b, '&', 0) == Fuse(Split(a, '&', 0), [" "] + Glue(" ", Split(b, '&', 0)))
  {
    var tail := AND + b;
    assert a + AND + b == a + tail;
    SplitConcat(a, tail, '&', 0);
    AndInFront(b);
  }

  lemma AndInFront(b: string)
    ensures Split(AND + b, '&', 0) == [" "] + Glue(" ", Split(b, '&', 0))
  {
    var t1, t2, t4 := AND + b, "&& " + b, " " + b;
    assert t1[1..] == t2 && t2[2..] == t4 && t4[1..] == b;
    assert Split(t4, '&', 0) == Glue(" ", Split(b, '&', 0));
    assert Split(t2, '&', 0) == [""] + Split(t4, '&', 0);
    assert Split(t1, '&', 0) == Glue(" ", Split(t2, '&', 0));
    assert " " + "" == " ";
  }

  /** How the splitter at || sees it: the && disappears inside one disjunct. */
  lemma OrPieces(a: string, b: string)
    requires Depth(a, 0) == 0
    ensures Split(a + AND + b, '|', 0) ==
      (var ps, qs := Split(a, '|', 0), Split(b, '|', 0);
       ps[..|ps| - 1] + [ps[|ps| - 1] + AND + qs[0]] + qs[1..])
  {
    var tail := AND + b;
    assert a + AND + b == a + tail;
    SplitConcat(a, tail, '|', 0);
    AndInsideDisjunct(b);
    var ps, qs := Split(a, '|', 0), Split(b, '|', 0);
    hide Split;
    FusedOr(ps, qs);
  }

  lemma FusedOr(ps: seq<string>, qs: seq<string>)
    requires ps != [] && qs != []
    ensures Fuse(ps, Glue(AND, qs)) == ps[..|ps| - 1] + [ps[|ps| - 1] + AND + qs[0]] + qs[1..]
  {
    assert ps[|ps| - 1] + (AND + qs[0]) == ps[|ps| - 1] + AND + qs[0];
  }

  lemma AndInsideDisjunct(b: string)
    ensures Split(AND + b, '|', 0) == Glue(AND, Split(b, '|', 0))
  {
    hide Split;
    PlainInFront(' ', b);
    PlainInFront('&', [' '] + b);
    PlainInFront('&', ['&'] + ([' '] + b));
    PlainInFront(' ', ['&'] + (['&'] + ([' '] + b)));
    assert AND + b == [' '] + (['&'] + (['&'] + ([' '] + b)));
    var first := Split(b, '|', 0)[0];
    assert [' '] + (['&'] + (['&'] + ([' '] + first))) == AND + first;
  }

  lemma PlainInFront(c: char, s: string)
    requires c != '(' && c != ')' && c != '|'
    ensures Split([c] + s, '|', 0) == Glue([c], Split(s, '|', 0))
  {
    assert ([c] + s)[1..] == s;
  }

  /** `a && b` as one conjunction. */
  lemma AndConjunct(a: string, b: string, version: int)
    requires Depth(a, 0) == 0
    ensures EvalConjunct(a + AND + b, version) <==> EvalConjunct(a, version) && EvalConjunct(b, version)
  {
    AndPieces(a, b);
    var ps, qs, rs := Split(a, '&', 0), Split(b, '&', 0), Split(a + AND + b, '&', 0);
    var n := |ps|;
    FusedAnd(ps, qs);
    hide Split, Fuse;
    AndPiecesHold(rs, ps, qs, version);
    hide TermHolds;
    AndTerms(rs, ps, qs, version);
  }

  lemma AndPiecesHold(rs: seq<string>, ps: seq<string>, qs: seq<string>, version: int)
    requires ps != [] && qs != [] && |rs| == |ps| + |qs|
    requires forall i :: 0 <= i < |ps| - 1 ==> rs[i] == ps[i]
    requires rs[|ps| - 1] == ps[|ps| - 1] + " "
    requires rs[|ps|] == " " + qs[0]
    requires forall i :: 1 <= i < |qs| ==> rs[|ps| + i] == qs[i]
    ensures forall i :: 0 <= i < |ps| ==> TermHolds(rs[i], version) == TermHolds(ps[i], version)
    ensures forall i :: 0 <= i < |qs| ==> TermHolds(rs[|ps| + i], version) == TermHolds(qs[i], version)
  {
    var a, b := ps[|ps| - 1], qs[0];
    hide TermHolds;
    SpacedTerm(a, version);
    SpacedTerm(b, version);
    forall i | 0 <= i < |qs| ensures TermHolds(rs[|ps| + i], version) == TermHolds(qs[i], version) {
      if i > 0 {
        assert rs[|ps| + i] == qs[i];
      }
    }
  }

  lemma SpacedTerm(a: string, version: int)
    ensures TermHolds(a + " ", version) == TermHolds(a, version) == TermHolds(" " + a, version)
  {
    PaddedTerm("", a, " ", version);
    PaddedTerm(" ", a, "", version);
    assert "" + a + " " == a + " " && " " + a + "" == " " + a;
    hide TermHolds;
  }

  lemma FusedAnd(ps: seq<string>, qs: seq<string>)
    requires ps != [] && qs != []
    ensures var f, n := Fuse(ps, [" "] + Glue(" ", qs)), |ps|;
      && |f| == n + |qs|
      && (forall i :: 0 <= i < n - 1 ==> f[i] == ps[i])
      && f[n - 1] == ps[n - 1] + " " && f[n] == " " + qs[0]
      && (forall i :: 1 <= i < |qs| ==> f[n + i] == qs[i])
  {
  }

  lemma PaddedTerm(left: string, piece: string, right: string, version: int)
    requires Blank(left) && Blank(right)
    ensures TermHolds(left + piece + right, version) == TermHolds(piece, version)
  {
    TrimOutside(left, piece, right);
    hide Trim, EvalTerm;
  }

  lemma AndTerms(rs: seq<string>, ps: seq<string>, qs: seq<string>, version: int)
    requires |rs| == |ps| + |qs|
    requires forall i :: 0 <= i < |ps| ==> TermHolds(rs[i], version) == TermHolds(ps[i], version)
    requires forall i :: 0 <= i < |qs| ==> TermHolds(rs[|ps| + i], version) == TermHolds(qs[i], version)
    ensures (forall i :: 0 <= i < |rs| ==> TermHolds(rs[i], version)) <==>
            (forall i :: 0 <= i < |ps| ==> TermHolds(ps[i], version)) && (forall i :: 0 <= i < |qs| ==> TermHolds(qs[i], version))
  {
    hide TermHolds;
    if forall i :: 0 <= i < |rs| ==> TermHolds(rs[i], version) {
      forall i | 0 <= i < |qs| ensures TermHolds(qs[i], version) {
        assert TermHolds(rs[|ps| + i], version);
      }
    }
    if (forall i :: 0 <= i < |ps| ==> TermHolds(ps[i], version)) && (forall i :: 0 <= i < |qs| ==> TermHolds(qs[i], version)) {
      forall i | 0 <= i < |rs| ensures TermHolds(rs[i], version) {
        if i >= |ps| {
          assert TermHolds(qs[i - |ps|], version);
          assert rs[|ps| + (i - |ps|)] == rs[i];
        }
      }
    }
  }

  /**
    Exactly what an unparenthesised `a && b` means: a disjunct of `a` before its last, or a
    disjunct of `b` after its first, or the last of `a` together with the first of `b`.
   */
  lemma JoinedPair(a: string, b: string, version: int)
    requires Depth(a, 0) == 0
    ensures var ps, qs := Split(a, '|', 0), Split(b, '|', 0);
      SomeDisjunct(a + AND + b, version) <==>
        || (exists i :: 0 <= i < |ps| - 1 && EvalConjunct(ps[i], version))
        || (EvalConjunct(ps[|ps| - 1], version) && EvalConjunct(qs[0], version))
        || (exists i :: 1 <= i < |qs| && EvalConjunct(qs[i], version))
  {
    OrPieces(a, b);
    var ps, qs, rs := Split(a, '|', 0), Split(b, '|', 0), Split(a + AND + b, '|', 0);
    PieceDepth(a, '|', 0, |ps| - 1);
    AndConjunct(ps[|ps| - 1], qs[0], version);
    hide Split;
    JoinedDisjuncts(rs, ps, qs, ps[|ps| - 1] + AND + qs[0], version);
  }

  lemma JoinedDisjuncts(rs: seq<string>, ps: seq<string>, qs: seq<string>, mid: string, version: int)
    requires ps != [] && qs != []
    requires rs == ps[..|ps| - 1] + [mid] + qs[1..]
    ensures (exists i :: 0 <= i < |rs| && EvalConjunct(rs[i], version)) <==>
      || (exists i :: 0 <= i < |ps| - 1 && EvalConjunct(ps[i], version))
      || EvalConjunct(mid, version)
      || (exists i :: 1 <= i < |qs| && EvalConjunct(qs[i], version))
  {
    hide EvalConjunct;
    var n := |ps|;
    if i :| 0 <= i < |rs| && EvalConjunct(rs[i], version) {
      assert i < n - 1 ==> rs[i] == ps[i];
      assert i > n - 1 ==> rs[i] == qs[i - (n - 1)];
    }
    if i :| 0 <= i < n - 1 && EvalConjunct(ps[i], version) {
      assert rs[i] == ps[i];
    }
    if EvalConjunct(mid, version) {
      assert rs[n - 1] == mid;
    }
    if i :| 1 <= i < |qs| && EvalConjunct(qs[i], version) {
      assert rs[n - 1 + i] == qs[i];
    }
  }

  // ----- joining any number of parts -----

  /** Text that can be joined: nothing to trim, no parenthesis left open. */
  ghost predicate Part(p: string) {
    p != "" && Tight(p) && Depth(p, 0) == 0
  }

  /** No disjunction outside parentheses. */
  ghost predicate NoTopLevelOr(p: string) {
    |Split(p, '|', 0)| == 1
  }

  lemma {:induction false} JoinIsPart(parts: seq<string>)
    requires parts != [] && forall i :: 0 <= i < |parts| ==> Part(parts[i])
    ensures Part(Join(parts, AND))
  {
    var a := parts[0];
    if |parts| > 1 {
      JoinIsPart(parts[1..]);
      PairIsPart(a, Join(parts[1..], AND));
    }
  }

  lemma PairIsPart(a: string, b: string)
    requires Part(a) && Part(b)
    ensures Part(a + AND + b)
  {
    assert a + AND + b == a + (AND + b);
    DepthConcat(a, AND + b, 0);
    DepthConcat(AND, b, 0);
    assert Depth(AND, 0) == 0 by {
      assert AND[1..] == "&& " && AND[1..][1..] == "& " && AND[1..][1..][1..] == " " && " "[1..] == "";
    }
  }

  /** A join holds whenever each of its parts holds: it never excludes. */
  lemma {:induction false} JoinNeverExcludes(parts: seq<string>, version: int)
    requires parts != [] && forall i :: 0 <= i < |parts| ==> Part(parts[i])
    requires forall i :: 0 <= i < |parts| ==> EvalPredicate(parts[i], version)
    ensures EvalPredicate(Join(parts, AND), version)
  {
    if |parts| > 1 {
      var a, b := parts[0], Join(parts[1..], AND);
      JoinIsPart(parts[1..]);
      JoinNeverExcludes(parts[1..], version);
      PairNeverExcludes(a, b, version);
    }
  }

  lemma PairNeverExcludes(a: string, b: string, version: int)
    requires Part(a) && Part(b) && EvalPredicate(a, version) && EvalPredicate(b, version)
    ensures EvalPredicate(a + AND + b, version)
  {
    PairIsPart(a, b);
    hide Split, EvalConjunct, EvalPredicate, SomeDisjunct;
    TightPredicate(a, version);
    TightPredicate(b, version);
    TightPredicate(a + AND + b, version);
    PairSome(a, b, version);
  }

  lemma PairSome(a: string, b: string, version: int)
    requires Depth(a, 0) == 0 && SomeDisjunct(a, version) && SomeDisjunct(b, version)
    ensures SomeDisjunct(a + AND + b, version)
  {
    hide *;
    JoinedPair(a, b, version);
    var ps, qs := Split(a, '|', 0), Split(b, '|', 0);
    SomeHolds(a, version);
    SomeHolds(b, version);
    var i :| 0 <= i < |ps| && EvalConjunct(ps[i], version);
    var j :| 0 <= j < |qs| && EvalConjunct(qs[j], version);
    assert i < |ps| - 1 || j >= 1 || (i == |ps| - 1 && j == 0);
  }

  lemma SomeHolds(p: string, version: int)
    requires SomeDisjunct(p, version)
    ensures exists i :: 0 <= i < |Split(p, '|', 0)| && EvalConjunct(Split(p, '|', 0)[i], version)
  {
  }

  /** Without top-level disjunctions a join holds exactly when all its parts hold. */
  lemma {:induction false} JoinExact(parts: seq<string>, version: int)
    requires parts != [] && forall i :: 0 <= i < |parts| ==> Part(parts[i]) && NoTopLevelOr(parts[i])
    ensures NoTopLevelOr(Join(parts, AND))
    ensures EvalPredicate(Join(parts, AND), version) <==> forall i :: 0 <= i < |parts| ==> EvalPredicate(parts[i], version)
  {
    if |parts| > 1 {
      var a, rest := parts[0], parts[1..];
      JoinIsPart(rest);
      JoinExact(rest, version);
      hide EvalPredicate, NoTopLevelOr, Part;
      PairExact(a, Join(rest, AND), version);
      AllHoldCons(parts, version);
    }
  }

  lemma AllHoldCons(parts: seq<string>, version: int)
    requires parts != []
    ensures (forall i :: 0 <= i < |parts| ==> EvalPredicate(parts[i], version)) <==>
      EvalPredicate(parts[0], version) && (forall i :: 0 <= i < |parts[1..]| ==> EvalPredicate(parts[1..][i], version))
  {
    hide EvalPredicate;
    assert forall i :: 1 <= i < |parts| ==> parts[i] == parts[1..][i - 1];
  }

  lemma PairExact(a: string, b: string, version: int)
    requires Part(a) && Part(b) && NoTopLevelOr(a) && NoTopLevelOr(b)
    ensures NoTopLevelOr(a + AND + b)
    ensures EvalPredicate(a + AND + b, version) <==> EvalPredicate(a, version) && EvalPredicate(b, version)
  {
    PairIsPart(a, b);
    OrPieces(a, b);
    TightPredicate(a, version);
    TightPredicate(b, version);
    TightPredicate(a + AND + b, version);
    JoinedPair(a, b, version);
    hide Split, EvalConjunct, EvalPredicate;
  }

  // ----- negation, parentheses, the #else sentinel -----

  function Negated(h: string): string {
    "!(" + h + ")"
  }

  /** `(h)` and `!(h)` as texts: the parentheses strip to `h`. */
  lemma ParenthesesStrip(h: string)
    requires Balanced(h)
    ensures Tight("(" + h + ")") && StripOuterParens("(" + h + ")") == Trim(h)
  {
    var t := "(" + h + ")";
    TrimTight(t);
    assert t[1..|t| - 1] == h;
  }

  lemma TrimTwice(h: string, version: int)
    ensures EvalPredicate(Trim(h), version) == EvalPredicate(h, version)
  {
    var l, r := TrimParts(h);
    TrimTight(Trim(h));
    PredicateDisjuncts(h, version);
    PredicateDisjuncts(Trim(h), version);
  }

  /** A whole text of one term is decided by that term. */
  lemma OneTerm(p: string, version: int)
    requires p != "" && Tight(p) && Split(p, '|', 0) == [p] && Split(p, '&', 0) == [p]
    ensures EvalPredicate(p, version) == EvalTerm(p, version)
  {
    TightPredicate(p, version);
    TrimTight(p);
    hide Split, Trim;
    var ds := Split(p, '|', 0);
    assert ds[0] == p;
    assert EvalConjunct(p, version) == TermHolds(p, version) by {
      assert Split(p, '&', 0)[0] == p;
    }
  }

  /** `!(h)` is one part, without top-level disjunction, and negates `h`. */
  lemma NegatedHolds(h: string, version: int)
    requires Balanced(h) && Trim(h) != ""
    ensures Part(Negated(h)) && NoTopLevelOr(Negated(h))
    ensures EvalPredicate(Negated(h), version) == !EvalPredicate(h, version)
  {
    var inner, p := "(" + h + ")", Negated(h);
    assert p == ['!'] + inner;
    ParenthesisedIsWhole(h, '|');
    ParenthesisedIsWhole(h, '&');
    MarkedIsWhole('!', inner, '|');
    MarkedIsWhole('!', inner, '&');
    OneTerm(p, version);
    ParenthesesStrip(h);
    TrimTwice(h, version);
    TrimTight(p);
    TrimTight(inner);
    assert p[1..] == inner;
    hide Split, Balanced, Trim, Depth;
    assert EvalTerm(p, version) == !EvalPredicate(Trim(h), version);
  }

  lemma {:induction false} PlainIsWhole(s: string, op: char)
    requires op != '(' && op != ')'
    requires forall i :: 0 <= i < |s| ==> s[i] != '(' && s[i] != ')' && s[i] != op
    ensures Split(s, op, 0) == [s] && Depth(s, 0) == 0
  {
    if s != "" {
      PlainIsWhole(s[1..], op);
      assert [s[0]] + s[1..] == s;
    }
  }

  const ELSE := "true /*else*/"

  /** The sentinel of an #else branch always holds. */
  lemma ElseHolds(version: int)
    ensures Part(ELSE) && NoTopLevelOr(ELSE) && Balanced(ELSE) && EvalPredicate(ELSE, version)
  {
    hide *;
    ElseIsPlain();
    PlainIsWhole(ELSE, '|');
    PlainIsWhole(ELSE, '&');
    PlainIsBalanced(ELSE);
    OneTerm(ELSE, version);
    ElseAtom(version);
    ElseIsPart();
  }

  lemma ElseIsPart()
    requires Split(ELSE, '|', 0) == [ELSE] && Depth(ELSE, 0) == 0
    ensures Part(ELSE) && NoTopLevelOr(ELSE)
  {
    hide Split, Depth;
  }

  lemma ElseIsPlain()
    ensures ELSE != "" && Tight(ELSE)
    ensures forall i :: 0 <= i < |ELSE| ==> ELSE[i] != '(' && ELSE[i] != ')' && ELSE[i] != '|' && ELSE[i] != '&'
  {
  }

  lemma ElseAtom(version: int)
    ensures EvalTerm(ELSE, version)
  {
    hide *;
    ElseIsNoComparison();
    ElseStartsTrue();
    TrueAtom(ELSE, version);
  }

  lemma ElseStartsTrue()
    ensures StartsTrue(ELSE) && Tight(ELSE) && ELSE[0] == 't'
  {
  }

  lemma TrueAtom(s: string, version: int)
    requires Tight(s) && StartsTrue(s) && s[0] == 't' && MatchGte(s) == None
    ensures EvalTerm(s, version)
  {
    TrimTight(s);
    hide Trim, MatchGte, MatchDefined, StartsTrue;
  }

  lemma {:induction false} PlainIsBalanced(s: string)
    requires forall i :: 0 <= i < |s| ==> s[i] != '(' && s[i] != ')'
    ensures Balanced(s)
  {
    if s != "" {
      PlainIsBalanced(s[1..]);
    }
  }

  lemma {:induction false} SkipIdentPrefix(a: string, b: string)
    requires (forall i :: 0 <= i < |a| ==> IsIdent(a[i])) && b != "" && !IsIdent(b[0])
    ensures SkipIdent(a + b) == b
  {
    if a == "" {
      assert a + b == b;
    } else {
      assert (a + b)[1..] == a[1..] + b;
      SkipIdentPrefix(a[1..], b);
    }
  }

  /** An identifier followed by a blank and then something other than `>` is no comparison. */
  lemma NoComparison(a: string, c: string)
    requires a != "" && IsIdentStart(a[0]) && forall i :: 0 <= i < |a| ==> IsIdent(a[i])
    requires c != "" && c[0] != '>' && !IsReSpace(c[0])
    ensures MatchGte(a + (" " + c)) == None
  {
    SkipIdentPrefix(a, " " + c);
    assert (" " + c)[1..] == c;
    assert SkipSpaces(" " + c) == SkipSpaces(c) == c;
    hide SkipIdent, SkipSpaces;
  }

  lemma ElseIsNoComparison()
    ensures MatchGte(ELSE) == None
  {
    hide MatchGte;
    NoComparison("true", "/*else*/");
    assert ELSE == "true" + (" " + "/*else*/");
  }

  /**
    `!` in front of a term negates it, except that in front of a term that itself starts with `!` it
    holds at every version.
   */
  lemma NegationExact(x: string, version: int)
    requires x != "" && Tight(x) && !HasTopLevelOp(x)
    ensures EvalTerm("!" + x, version) == (x[0] == '!' || !EvalTerm(x, version))
  {
    var t := "!" + x;
    assert t[1..] == x && Tight(t);
    TrimTight(t);
    TrimTight(x);
    hide Trim;
    if x[0] == '!' {
      assert StripOuterParens(x) == "" && !EvalAtom(x, version) by {
        MarkIsNoAtom(x, version);
      }
    }
  }

  lemma MarkIsNoAtom(x: string, version: int)
    requires x != "" && x[0] == '!' && Trim(x) == x
    ensures StripOuterParens(x) == "" && !EvalAtom(x, version)
  {
    hide *;
    MarkNotDefined(x);
    MarkNotTrue(x);
    MarkNoComparison(x);
    StripNeedsParen(x);
    AtomByForm(x, version);
  }

  lemma MarkNoComparison(x: string)
    requires x != "" && x[0] == '!'
    ensures MatchGte(x) == None
  {
    hide SkipSpaces, SkipIdent, LeadingNumber;
  }

  lemma StripNeedsParen(x: string)
    requires x != "" && Trim(x) == x && x[0] != '('
    ensures StripOuterParens(x) == ""
  {
    hide Trim, Balanced;
  }

  lemma AtomByForm(x: string, version: int)
    requires !MatchDefined(x) && MatchGte(x) == None
    ensures EvalAtom(x, version) == StartsTrue(Trim(x))
  {
    hide MatchDefined, MatchGte, StartsTrue, Trim;
  }

  lemma MarkNotDefined(x: string)
    requires x != "" && x[0] == '!'
    ensures !MatchDefined(x)
  {
    assert SkipSpaces(x) == x;
    hide SkipSpaces, SkipIdent;
    assert |x| >= 7 ==> x[..7][0] != "defined"[0];
  }

  lemma MarkNotTrue(x: string)
    requires x != "" && x[0] == '!' && Trim(x) == x
    ensures !StartsTrue(Trim(x))
  {
    hide Trim;
    assert |x| >= 4 ==> x[..4][0] != "true"[0];
  }
}
