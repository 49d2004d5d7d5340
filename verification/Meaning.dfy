/**
  What predicates written out as text mean at every version and which of them
  the validator accepts: atoms, negations, parentheses, disjunctions and
  conjunctions, with the characters and numbers spelled out.
 */
module Meaning {
  import opened Options
  import opened Text
  import opened Predicate
  import opened PredicateProofs
  import opened Versions
  import opened Atoms

  // ----- blanks around a text -----

  /** Blanks, tabs, line feeds, carriage returns, vertical tabs and form feeds. */
  predicate Padding(s: string) {
    forall i :: 0 <= i < |s| ==>
      s[i] == ' ' || s[i] == '\t' || s[i] == '\n' || s[i] == '\r' || s[i] == '\U{000B}' || s[i] == '\U{000C}'
  }

  lemma PaddingIsBlank(s: string)
    ensures Padding(s) <==> Blank(s)
    ensures Padding(s) <==> Trim(s) == ""
  {
    if Blank(s) {
      BlankAll(s);
    } else {
      var l, r := TrimParts(s);
      assert Trim(s) == "" ==> s == l + r;
    }
  }

  ghost predicate AllTermsValid(d: string) {
    forall j :: 0 <= j < |Split(d, '&', 0)| ==> ValidTerm(Trim(Split(d, '&', 0)[j]))
  }

  ghost predicate AllValid(s: string) {
    forall i :: 0 <= i < |Split(s, '|', 0)| ==> AllTermsValid(Split(s, '|', 0)[i])
  }

  lemma TrimmedTerms(d: string)
    ensures AllTermsValid(d) == AllTermsValid(Trim(d))
  {
    TrimmedPieces(d, '&');
    hide Split, Trim, ValidTerm;
    var ps, qs := Split(d, '&', 0), Split(Trim(d), '&', 0);
    assert forall i :: 0 <= i < |ps| ==> Trim(ps[i]) == Trim(qs[i]);
  }

  lemma SamePiecesSameValid(ps: seq<string>, qs: seq<string>)
    requires SamePieces(ps, qs)
    ensures (forall i :: 0 <= i < |ps| ==> AllTermsValid(ps[i])) <==> (forall i :: 0 <= i < |qs| ==> AllTermsValid(qs[i]))
  {
    hide AllTermsValid;
    forall i | 0 <= i < |ps| ensures AllTermsValid(ps[i]) == AllTermsValid(qs[i]) {
      TrimmedTerms(ps[i]);
      TrimmedTerms(qs[i]);
    }
  }

  lemma SamePiecesSameTruth(ps: seq<string>, qs: seq<string>, version: int)
    requires SamePieces(ps, qs)
    ensures (exists i :: 0 <= i < |ps| && EvalConjunct(ps[i], version)) <==>
            (exists i :: 0 <= i < |qs| && EvalConjunct(qs[i], version))
  {
    hide EvalConjunct;
    forall i | 0 <= i < |ps| ensures EvalConjunct(ps[i], version) == EvalConjunct(qs[i], version) {
      TrimmedConjunct(ps[i], version);
      TrimmedConjunct(qs[i], version);
    }
  }

  /** A predicate is decided by its disjuncts, whatever blanks stand around it. */
  lemma ByDisjuncts(p: string, version: int)
    ensures EvalPredicate(p, version) <==> !Padding(p) && SomeDisjunct(p, version)
    ensures ValidPredicate(p) <==> !Padding(p) && AllValid(p)
  {
    PaddingIsBlank(p);
    PredicateDisjuncts(p, version);
    ValidDisjuncts(p);
    TrimmedDisjuncts(p, version);
    hide *;
  }

  lemma TrimmedDisjuncts(p: string, version: int)
    ensures SomeDisjunct(p, version) == SomeDisjunct(Trim(p), version) && AllValid(p) == AllValid(Trim(p))
  {
    TrimmedPieces(p, '|');
    var t := Trim(p);
    hide Trim;
    SameTruth(p, t, version);
    hide *;
    SameValid(p, t);
  }

  lemma SameTruth(p: string, t: string, version: int)
    requires SamePieces(Split(p, '|', 0), Split(t, '|', 0))
    ensures SomeDisjunct(p, version) == SomeDisjunct(t, version)
  {
    hide Split, EvalConjunct, SamePieces;
    SamePiecesSameTruth(Split(p, '|', 0), Split(t, '|', 0), version);
  }

  lemma SameValid(p: string, t: string)
    requires SamePieces(Split(p, '|', 0), Split(t, '|', 0))
    ensures AllValid(p) == AllValid(t)
  {
    hide Split, AllTermsValid, SamePieces;
    SamePiecesSameValid(Split(p, '|', 0), Split(t, '|', 0));
  }

  lemma ValidDisjuncts(p: string)
    ensures ValidPredicate(p) <==> Trim(p) != "" && AllValid(Trim(p))
  {
  }

  /** Blanks around a predicate do not matter. */
  lemma PaddedPredicate(left: string, p: string, right: string, version: int)
    requires Padding(left) && Padding(right)
    ensures EvalPredicate(left + p + right, version) == EvalPredicate(p, version)
    ensures ValidPredicate(left + p + right) == ValidPredicate(p)
  {
    PaddingIsBlank(left);
    PaddingIsBlank(right);
    TrimOutside(left, p, right);
    PredicateDisjuncts(p, version);
    PredicateDisjuncts(left + p + right, version);
    ValidDisjuncts(p);
    ValidDisjuncts(left + p + right);
  }

  // ----- disjunctions and conjunctions -----

  /** A text that ends with no parenthesis open and not on `op`. */
  ghost predicate Ended(a: string, op: char) {
    Depth(a, 0) == 0 && (a == "" || a[|a| - 1] != op)
  }

  lemma {:induction false} SplitAtOp(a: string, b: string, op: char, depth: nat)
    requires op != '(' && op != ')' && Depth(a, depth) == 0 && (a == "" || a[|a| - 1] != op)
    ensures Split(a + ([op, op] + b), op, depth) == Split(a, op, depth) + Split(b, op, 0)
    decreases |a|
  {
    var tail := [op, op] + b;
    if a == "" {
      assert a + tail == tail && tail[2..] == b;
    } else if AtOp(a, op, depth) {
      assert a[1..][1..] == a[2..];
      assert Depth(a, depth) == Depth(a[1..], 0) == Depth(a[2..], 0);
      SplitAtOp(a[2..], b, op, 0);
      hide Depth, Split;
      TailAfter(a, tail, 2);
      CutHere(a, op);
      CutHere(a + tail, op);
      Associate([""], Split(a[2..], op, 0), Split(b, op, 0));
    } else {
      var d := NextDepth(a[0], depth);
      assert Depth(a, depth) == Depth(a[1..], d);
      SplitAtOp(a[1..], b, op, d);
      hide Depth, Split;
      TailAfter(a, tail, 1);
      assert !AtOp(a + tail, op, depth);
      NoCutHere(a, op, depth);
      NoCutHere(a + tail, op, depth);
      GlueConcat([a[0]], Split(a[1..], op, d), Split(b, op, 0));
    }
  }

  lemma TailAfter(a: string, tail: string, n: nat)
    requires n <= |a|
    ensures (a + tail)[n..] == a[n..] + tail && |a + tail| >= |a|
    ensures forall i :: 0 <= i < |a| ==> (a + tail)[i] == a[i]
  {
  }

  lemma CutHere(s: string, op: char)
    requires op != '(' && op != ')' && AtOp(s, op, 0)
    ensures Split(s, op, 0) == [""] + Split(s[2..], op, 0)
  {
  }

  lemma NoCutHere(s: string, op: char, depth: nat)
    requires op != '(' && op != ')' && s != "" && !AtOp(s, op, depth)
    ensures Split(s, op, depth) == Glue([s[0]], Split(s[1..], op, NextDepth(s[0], depth)))
  {
  }

  lemma GlueConcat(p: string, xs: seq<string>, ys: seq<string>)
    requires xs != []
    ensures Glue(p, xs + ys) == Glue(p, xs) + ys
  {
    assert (xs + ys)[1..] == xs[1..] + ys;
  }

  lemma SomeOfTwo(ps: seq<string>, qs: seq<string>, version: int)
    ensures (exists i :: 0 <= i < |ps + qs| && EvalConjunct((ps + qs)[i], version)) <==>
      || (exists i :: 0 <= i < |ps| && EvalConjunct(ps[i], version))
      || (exists i :: 0 <= i < |qs| && EvalConjunct(qs[i], version))
  {
    hide EvalConjunct;
    var rs := ps + qs;
    if i :| 0 <= i < |ps| && EvalConjunct(ps[i], version) {
      assert rs[i] == ps[i];
    }
    if i :| 0 <= i < |qs| && EvalConjunct(qs[i], version) {
      assert rs[|ps| + i] == qs[i];
    }
  }

  lemma AllOfTwo(ps: seq<string>, qs: seq<string>)
    ensures (forall i :: 0 <= i < |ps + qs| ==> AllTermsValid((ps + qs)[i])) <==>
      && (forall i :: 0 <= i < |ps| ==> AllTermsValid(ps[i]))
      && (forall i :: 0 <= i < |qs| ==> AllTermsValid(qs[i]))
  {
    hide AllTermsValid;
    var rs := ps + qs;
    assert forall i :: 0 <= i < |ps| ==> rs[i] == ps[i];
    assert forall i :: 0 <= i < |qs| ==> rs[|ps| + i] == qs[i];
  }

  /** A blank text is one disjunct, which holds. */
  lemma BlankDisjunct(b: string, version: int)
    requires Padding(b)
    ensures SomeDisjunct(b, version) && AllValid(b)
  {
    PaddingIsBlank(b);
    BlankIsWhole(b, '|', 0);
    BlankIsWhole(b, '&', 0);
    BlankAll(b);
    hide Split, Trim;
    WholeConjunct(b, version);
    assert forall i :: 0 <= i < |[b]| ==> [b][i] == b;
    assert Split(b, '|', 0)[0] == b;
  }

  /** A text that is one term. */
  lemma WholeConjunct(b: string, version: int)
    requires Split(b, '&', 0) == [b]
    ensures EvalConjunct(b, version) == TermHolds(b, version) && AllTermsValid(b) == ValidTerm(Trim(b))
    ensures ValidTerm("")
  {
    hide Trim, TermHolds;
    assert forall i :: 0 <= i < |[b]| ==> [b][i] == b;
    assert Split(b, '&', 0)[0] == b;
    TrimTight("");
  }

  lemma HasMark(a: string, c: char, b: string)
    requires c == '|' || c == '&'
    ensures !Padding(a + ([c, c] + b))
  {
    assert (a + ([c, c] + b))[|a|] == c;
  }

  /** A disjunction holds when either side does, and also when one is blank; the validator wants both accepted or blank. */
  lemma OrHolds(a: string, b: string, version: int)
    requires Ended(a, '|')
    ensures EvalPredicate(a + ("||" + b), version) <==>
      Padding(a) || Padding(b) || EvalPredicate(a, version) || EvalPredicate(b, version)
    ensures ValidPredicate(a + ("||" + b)) <==> (Padding(a) || ValidPredicate(a)) && (Padding(b) || ValidPredicate(b))
  {
    hide *;
    var p := a + ("||" + b);
    OrDisjuncts(a, b, version);
    ByDisjuncts(a, version);
    ByDisjuncts(b, version);
    ByDisjuncts(p, version);
    HasMark(a, '|', b);
    assert "||" + b == ['|', '|'] + b;
    if Padding(a) {
      BlankDisjunct(a, version);
    }
    if Padding(b) {
      BlankDisjunct(b, version);
    }
  }

  lemma OrDisjuncts(a: string, b: string, version: int)
    requires Ended(a, '|')
    ensures SomeDisjunct(a + ("||" + b), version) <==> SomeDisjunct(a, version) || SomeDisjunct(b, version)
    ensures AllValid(a + ("||" + b)) <==> AllValid(a) && AllValid(b)
  {
    SplitAtOp(a, b, '|', 0);
    assert "||" + b == ['|', '|'] + b;
    OrTruth(a + ("||" + b), a, b, version);
    hide *;
    OrValid(a + ("||" + b), a, b);
  }

  lemma OrTruth(p: string, a: string, b: string, version: int)
    requires Split(p, '|', 0) == Split(a, '|', 0) + Split(b, '|', 0)
    ensures SomeDisjunct(p, version) <==> SomeDisjunct(a, version) || SomeDisjunct(b, version)
  {
    hide Split, EvalConjunct;
    SomeOfTwo(Split(a, '|', 0), Split(b, '|', 0), version);
  }

  lemma OrValid(p: string, a: string, b: string)
    requires Split(p, '|', 0) == Split(a, '|', 0) + Split(b, '|', 0)
    ensures AllValid(p) <==> AllValid(a) && AllValid(b)
  {
    hide Split, AllTermsValid;
    AllOfTwo(Split(a, '|', 0), Split(b, '|', 0));
  }

  /** Without disjunctions in either, a conjunction holds when each side is blank or holds. */
  lemma AndHolds(a: string, b: string, version: int)
    requires Ended(a, '&') && NoTopLevelOr(a) && NoTopLevelOr(b)
    ensures EvalPredicate(a + ("&&" + b), version) <==>
      (Padding(a) || EvalPredicate(a, version)) && (Padding(b) || EvalPredicate(b, version))
    ensures ValidPredicate(a + ("&&" + b)) <==> (Padding(a) || ValidPredicate(a)) && (Padding(b) || ValidPredicate(b))
  {
    hide *;
    var p := a + ("&&" + b);
    AndTerms(a, b, version);
    AndNoOr(a, b);
    ByDisjuncts(a, version);
    ByDisjuncts(b, version);
    ByDisjuncts(p, version);
    OneDisjunct(a, version);
    OneDisjunct(b, version);
    OneDisjunct(p, version);
    HasMark(a, '&', b);
    assert "&&" + b == ['&', '&'] + b;
    if Padding(a) {
      BlankDisjunct(a, version);
    }
    if Padding(b) {
      BlankDisjunct(b, version);
    }
  }

  lemma OneDisjunct(p: string, version: int)
    requires NoTopLevelOr(p)
    ensures SomeDisjunct(p, version) == EvalConjunct(p, version) && AllValid(p) == AllTermsValid(p)
  {
    SplitLossless(p, '|', 0);
    var ps := Split(p, '|', 0);
    hide Split, EvalConjunct, AllTermsValid;
    assert ps[0] == p;
  }

  lemma AndTerms(a: string, b: string, version: int)
    requires Ended(a, '&')
    ensures EvalConjunct(a + ("&&" + b), version) <==> EvalConjunct(a, version) && EvalConjunct(b, version)
    ensures AllTermsValid(a + ("&&" + b)) <==> AllTermsValid(a) && AllTermsValid(b)
  {
    SplitAtOp(a, b, '&', 0);
    assert "&&" + b == ['&', '&'] + b;
    AndTruth(a + ("&&" + b), a, b, version);
    hide *;
    AndValid(a + ("&&" + b), a, b);
  }

  lemma AndTruth(p: string, a: string, b: string, version: int)
    requires Split(p, '&', 0) == Split(a, '&', 0) + Split(b, '&', 0)
    ensures EvalConjunct(p, version) <==> EvalConjunct(a, version) && EvalConjunct(b, version)
  {
    var ps, qs, rs := Split(a, '&', 0), Split(b, '&', 0), Split(p, '&', 0);
    hide Split, TermHolds;
    assert forall i :: 0 <= i < |ps| ==> rs[i] == ps[i];
    assert forall i :: 0 <= i < |qs| ==> rs[|ps| + i] == qs[i];
    assert forall i :: |ps| <= i < |rs| ==> rs[i] == qs[i - |ps|];
  }

  lemma AndValid(p: string, a: string, b: string)
    requires Split(p, '&', 0) == Split(a, '&', 0) + Split(b, '&', 0)
    ensures AllTermsValid(p) <==> AllTermsValid(a) && AllTermsValid(b)
  {
    var ps, qs, rs := Split(a, '&', 0), Split(b, '&', 0), Split(p, '&', 0);
    hide Split, ValidTerm, Trim;
    assert forall i :: 0 <= i < |ps| ==> rs[i] == ps[i];
    assert forall i :: 0 <= i < |qs| ==> rs[|ps| + i] == qs[i];
    assert forall i :: |ps| <= i < |rs| ==> rs[i] == qs[i - |ps|];
  }

  lemma AndNoOr(a: string, b: string)
    requires Ended(a, '&') && NoTopLevelOr(a) && NoTopLevelOr(b)
    ensures NoTopLevelOr(a + ("&&" + b))
  {
    var tail := "&&" + b;
    SplitConcat(a, tail, '|', 0);
    assert tail == ['&'] + (['&'] + b);
    hide Split, Depth;
    PlainInFront('&', b);
    PlainInFront('&', ['&'] + b);
  }

  // ----- atoms alone -----

  lemma {:induction false} NoOpIsWhole(s: string, op: char, depth: nat)
    requires op != '(' && op != ')' && forall i :: 0 <= i < |s| ==> s[i] != op
    ensures Split(s, op, depth) == [s]
  {
    if s != "" {
      NoOpIsWhole(s[1..], op, NextDepth(s[0], depth));
      assert [s[0]] + s[1..] == s;
    }
  }

  /** Text that can only be an atom. */
  ghost predicate Bare(t: string) {
    t != "" && Tight(t) && t[0] != '(' && t[0] != '!' && NoOp(t)
  }

  ghost predicate NoOp(t: string) {
    forall i :: 0 <= i < |t| ==> t[i] != '|' && t[i] != '&'
  }

  lemma AtomTerm(t: string, version: int)
    requires Bare(t)
    ensures EvalTerm(t, version) == EvalAtom(t, version)
    ensures ValidTerm(t) <==> MatchDefined(t) || MatchGte(t).Some? || StartsTrue(t)
    ensures StripOuterParens(t) == "" && Trim(t) == t
  {
    TrimTight(t);
    hide Trim, EvalAtom, MatchDefined, MatchGte, StartsTrue;
    StripNeedsParen(t);
  }

  lemma WholeTerm(t: string, version: int)
    requires t != "" && Tight(t) && Split(t, '|', 0) == [t] && Split(t, '&', 0) == [t]
    ensures EvalPredicate(t, version) == EvalTerm(t, version) && ValidPredicate(t) == ValidTerm(t)
  {
    hide *;
    OneTerm(t, version);
    ByDisjuncts(t, version);
    WholeConjunct(t, version);
    TrimTight(t);
    TightNotPadding(t);
    OneDisjunct(t, version) by {
      WholeHasNoOr(t);
    }
  }

  lemma TightNotPadding(t: string)
    requires t != "" && Tight(t)
    ensures !Padding(t)
  {
  }

  lemma AtomAlone(t: string, version: int)
    requires Bare(t)
    ensures EvalPredicate(t, version) == EvalAtom(t, version)
    ensures ValidPredicate(t) <==> MatchDefined(t) || MatchGte(t).Some? || StartsTrue(t)
  {
    hide EvalPredicate, ValidPredicate, EvalTerm, ValidTerm, EvalAtom, MatchDefined, MatchGte, StartsTrue, Split;
    NoOpIsWhole(t, '|', 0);
    NoOpIsWhole(t, '&', 0);
    WholeTerm(t, version);
    AtomTerm(t, version);
  }

  /** An exclamation mark in front of an atom, with or without blanks between, turns its value round. */
  lemma MarkedAtom(b: string, t: string, version: int)
    requires Bare(t) && Padding(b)
    ensures EvalPredicate("!" + (b + t), version) == !EvalPredicate(t, version)
    ensures ValidPredicate("!" + (b + t)) == ValidPredicate(t)
  {
    var p := "!" + (b + t);
    MarkedText(b, t);
    hide EvalPredicate, ValidPredicate, EvalTerm, ValidTerm, EvalAtom, MatchDefined, MatchGte, StartsTrue, Split, Padding;
    NoOpIsWhole(p, '|', 0);
    NoOpIsWhole(p, '&', 0);
    NoOpIsWhole(t, '|', 0);
    NoOpIsWhole(t, '&', 0);
    WholeTerm(p, version);
    WholeTerm(t, version);
    AtomTerm(t, version);
    MarkedTerm(p, t, version);
  }

  lemma MarkedText(b: string, t: string)
    requires Bare(t) && Padding(b)
    ensures var p := "!" + (b + t); p != "" && Tight(p) && NoOp(p) && p[0] == '!' && Trim(p[1..]) == t
  {
    var p := "!" + (b + t);
    assert p[1..] == b + t == b + t + "";
    TrimOf(b, t, "");
    assert forall i :: 0 <= i < |b| ==> p[1 + i] == b[i];
    assert forall i :: 0 <= i < |t| ==> p[1 + |b| + i] == t[i];
    assert p[|p| - 1] == t[|t| - 1];
  }

  lemma MarkedTerm(p: string, t: string, version: int)
    requires p != "" && Tight(p) && p[0] == '!' && Trim(p[1..]) == t && t != "" && Tight(t)
    requires StripOuterParens(t) == "" && Split(t, '|', 0) == [t] && Split(t, '&', 0) == [t]
    ensures EvalTerm(p, version) == !EvalAtom(t, version) && ValidTerm(p) == ValidTerm(t)
  {
    TrimTight(p);
    TrimTight(t);
    hide Trim, EvalAtom, StripOuterParens, Split;
  }

  // ----- the three kinds of atom -----

  ghost predicate Definedness(t: string) {
    exists b0, b1, b2, name, b3, b4 :: IsDefined(t, b0, b1, b2, name, b3, b4)
  }

  ghost predicate Comparison(t: string, n: string) {
    exists name, b1, b2, b3 :: IsGte(t, name, b1, b2, n, b3)
  }

  /**
    An atom is a definedness check, which holds, or a comparison, which holds from its number on, or a
    word that holds when it begins with `true`; the validator accepts nothing else.
   */
  lemma AtomMeans(t: string, version: int)
    requires Bare(t)
    ensures EvalPredicate(t, version) <==>
      || Definedness(t)
      || (exists n :: Comparison(t, n) && Reached(n, version))
      || ((forall n :: !Comparison(t, n)) && |t| >= 4 && t[..4] == "true")
    ensures ValidPredicate(t) <==> Definedness(t) || (exists n :: Comparison(t, n)) || (|t| >= 4 && t[..4] == "true")
  {
    AtomAlone(t, version);
    DefinedExact(t);
    forall n ensures MatchGte(t) == Some(n) <==> Comparison(t, n) {
      GteExact(t, n);
    }
    TrimTight(t);
    hide EvalPredicate, ValidPredicate, MatchDefined, MatchGte, Definedness, Comparison, Trim, Atoi;
  }

  predicate NoParens(s: string) {
    forall i :: 0 <= i < |s| ==> s[i] != '(' && s[i] != ')'
  }

  lemma {:induction false} ClosesPast(x: string, rest: string, open: nat)
    requires NoParens(x)
    ensures Closes(x + rest, open) == Closes(rest, open)
  {
    if x == "" {
      assert x + rest == rest;
    } else {
      assert (x + rest)[1..] == x[1..] + rest;
      ClosesPast(x[1..], rest, open);
    }
  }

  lemma OnePair(pre: string, mid: string, post: string)
    requires NoParens(pre) && NoParens(mid) && NoParens(post)
    ensures Balanced(pre + ("(" + (mid + (")" + post))))
  {
    var c := ")" + post;
    var b := "(" + (mid + c);
    assert c[1..] == post && b[1..] == mid + c && post + "" == post;
    ClosesPast(pre, b, 0);
    ClosesPast(mid, c, 1);
    ClosesPast(post, "", 0);
    assert Closes("", 0);
  }

  lemma NoParensConcat(a: string, b: string)
    requires NoParens(a) && NoParens(b)
    ensures NoParens(a + b)
  {
    var s := a + b;
    assert forall i :: 0 <= i < |s| ==> s[i] == if i < |a| then a[i] else b[i - |a|];
  }

  lemma NoOpConcat(a: string, b: string)
    requires NoOp(a) && NoOp(b)
    ensures NoOp(a + b)
  {
    var s := a + b;
    assert forall i :: 0 <= i < |s| ==> s[i] == if i < |a| then a[i] else b[i - |a|];
  }

  lemma GapChars(b: string)
    requires Gap(b)
    ensures NoParens(b) && NoOp(b) && Padding(b)
  {
  }

  lemma NameChars(name: string)
    requires Identifier(name)
    ensures NoParens(name) && NoOp(name)
  {
  }

  lemma WordChars()
    ensures NoParens("defined") && NoOp("defined") && NoOp("(") && NoOp(")") && Gap("") && Padding("")
  {
  }

  lemma DefinedChars(b0: string, b1: string, b2: string, name: string, b3: string, b4: string)
    requires Gap(b0) && Gap(b1) && Gap(b2) && Identifier(name) && Gap(b3) && Gap(b4)
    ensures var t := DefinedText(b0, b1, b2, name, b3, b4); Balanced(t) && NoOp(t)
  {
    var t := DefinedText(b0, b1, b2, name, b3, b4);
    GapChars(b0);
    GapChars(b1);
    GapChars(b2);
    GapChars(b3);
    GapChars(b4);
    NameChars(name);
    WordChars();
    hide *;
    NoParensConcat("defined", b1);
    NoParensConcat(b0, "defined" + b1);
    NoParensConcat(name, b3);
    NoParensConcat(b2, name + b3);
    OnePair(b0 + ("defined" + b1), b2 + (name + b3), b4);
    DefinedRegroup(b0, b1, b2, name, b3, b4);
    NoOpConcat(")", b4);
    NoOpConcat(b3, ")" + b4);
    NoOpConcat(name, b3 + (")" + b4));
    NoOpConcat(b2, name + (b3 + (")" + b4)));
    NoOpConcat("(", b2 + (name + (b3 + (")" + b4))));
    NoOpConcat(b1, "(" + (b2 + (name + (b3 + (")" + b4)))));
    NoOpConcat("defined", b1 + ("(" + (b2 + (name + (b3 + (")" + b4))))));
    NoOpConcat(b0, "defined" + (b1 + ("(" + (b2 + (name + (b3 + (")" + b4)))))));
  }

  lemma DefinedRegroup(b0: string, b1: string, b2: string, name: string, b3: string, b4: string)
    ensures DefinedText(b0, b1, b2, name, b3, b4) ==
      (b0 + ("defined" + b1)) + ("(" + ((b2 + (name + b3)) + (")" + b4)))
    ensures DefinedText(b0, b1, b2, name, b3, b4) ==
      b0 + ("defined" + (b1 + ("(" + (b2 + (name + (b3 + (")" + b4)))))))
    ensures DefinedText(b0, b1, b2, name, b3, b4) == b0 + DefinedText("", b1, b2, name, b3, "") + b4
  {
    assert DefinedText(b0, b1, b2, name, b3, b4) == b0 + "defined" + b1 + "(" + b2 + name + b3 + ")" + b4;
    assert DefinedText("", b1, b2, name, b3, "") == "defined" + b1 + "(" + b2 + name + b3 + ")";
  }

  lemma DefinedBare(b1: string, b2: string, name: string, b3: string)
    requires Gap(b1) && Gap(b2) && Identifier(name) && Gap(b3)
    ensures Bare(DefinedText("", b1, b2, name, b3, ""))
  {
    WordChars();
    DefinedChars("", b1, b2, name, b3, "");
    DefinedEnds(b1, b2, name, b3);
    hide DefinedText, NoOp;
  }

  lemma DefinedEnds(b1: string, b2: string, name: string, b3: string)
    ensures var t := DefinedText("", b1, b2, name, b3, ""); t != "" && t[0] == 'd' && t[|t| - 1] == ')'
  {
    var t := DefinedText("", b1, b2, name, b3, "");
    assert t == ("defined" + b1 + "(" + b2 + name + b3) + ")";
  }

  lemma DefinedAtom(t: string, version: int)
    requires MatchDefined(t)
    ensures EvalAtom(t, version)
  {
    hide MatchDefined;
  }

  /**
    A definedness check, with any blanks the recogniser allows, is accepted and holds at every
    version; negated it never holds.
   */
  lemma DefinedHolds(b0: string, b1: string, b2: string, name: string, b3: string, b4: string, version: int)
    requires Gap(b0) && Gap(b1) && Gap(b2) && Identifier(name) && Gap(b3) && Gap(b4)
    ensures var t := DefinedText(b0, b1, b2, name, b3, b4);
      && EvalPredicate(t, version) && ValidPredicate(t)
      && !EvalPredicate("!" + t, version) && ValidPredicate("!" + t)
      && !EvalPredicate("!(" + t + ")", version)
  {
    hide *;
    var t := DefinedText(b0, b1, b2, name, b3, b4);
    var core := DefinedText("", b1, b2, name, b3, "");
    WordChars();
    GapChars(b0);
    GapChars(b4);
    DefinedBare(b1, b2, name, b3);
    DefinedRecognised("", b1, b2, name, b3, "");
    AtomAlone(core, version);
    DefinedAtom(core, version);
    DefinedRegroup(b0, b1, b2, name, b3, b4);
    PaddedPredicate(b0, core, b4, version);
    MarkedAtom(b0, core, version);
    PaddedPredicate("", "!" + (b0 + core), b4, version);
    assert "" + ("!" + (b0 + core)) + b4 == "!" + (b0 + core + b4);
    DefinedChars(b0, b1, b2, name, b3, b4);
    ByDisjuncts(t, version);
    PaddingIsBlank(t);
    NegatedHolds(t, version);
    NegatedText(t);
  }

  lemma NegatedText(h: string)
    ensures Negated(h) == "!(" + h + ")"
  {
  }

  /** So a disjunction with a definedness check among its disjuncts holds at every version. */
  lemma DefinedDisjunct(a: string, t: string, c: string, version: int)
    requires Ended(a, '|') && Definedness(t) && (c == "" || exists b :: c == "||" + b)
    ensures EvalPredicate(t + c, version) && EvalPredicate(a + ("||" + (t + c)), version)
  {
    var b0, b1, b2, name, b3, b4 :| IsDefined(t, b0, b1, b2, name, b3, b4);
    DefinedHolds(b0, b1, b2, name, b3, b4, version);
    DefinedEnded(t, b0, b1, b2, name, b3, b4);
    hide *;
    if c == "" {
      assert t + c == t;
    } else {
      var b :| c == "||" + b;
      OrHolds(t, b, version);
    }
    OrHolds(a, t + c, version);
  }

  lemma DefinedEnded(t: string, b0: string, b1: string, b2: string, name: string, b3: string, b4: string)
    requires IsDefined(t, b0, b1, b2, name, b3, b4)
    ensures Ended(t, '|') && Ended(t, '&') && NoTopLevelOr(t)
  {
    DefinedChars(b0, b1, b2, name, b3, b4);
    hide DefinedText;
    ClosesDepth(t, 0, 0);
    NoOpIsWhole(t, '|', 0);
    hide Split, Depth;
  }

  // ----- comparisons -----

  /** A number in decimal. */
  function Decimal(n: nat): string {
    if n < 10 then ["0123456789"[n]] else Decimal(n / 10) + ["0123456789"[n % 10]]
  }

  function Zeros(k: nat): string {
    if k == 0 then "" else Zeros(k - 1) + "0"
  }

  /** An integer in decimal with `k` zeros in front. */
  function Numeral(n: int, k: nat): string {
    if n < 0 then "-" + (Zeros(k) + Decimal(-n)) else Zeros(k) + Decimal(n)
  }

  lemma {:induction false} ZerosValue(k: nat)
    ensures DigitsValue(Zeros(k)) == 0 && forall i :: 0 <= i < |Zeros(k)| ==> Digit(Zeros(k)[i])
  {
    if k > 0 {
      ZerosValue(k - 1);
      assert Zeros(k)[..|Zeros(k)| - 1] == Zeros(k - 1);
    }
  }

  lemma DigitValue(d: nat)
    requires d < 10
    ensures var c := "0123456789"[d]; Digit(c) && IsDigit(c) && c as int - '0' as int == d
  {
    assert d == 0 || d == 1 || d == 2 || d == 3 || d == 4 || d == 5 || d == 6 || d == 7 || d == 8 || d == 9;
  }

  lemma AppendDigit(s: string, d: nat)
    requires d < 10
    ensures DigitsValue(s + ["0123456789"[d]]) == 10 * DigitsValue(s) + d
  {
    DigitValue(d);
    var t := s + ["0123456789"[d]];
    assert t[..|t| - 1] == s && t[|t| - 1] == "0123456789"[d];
  }

  lemma {:induction false} DecimalValue(n: nat, k: nat)
    ensures DigitsValue(Zeros(k) + Decimal(n)) == n && Digits(Zeros(k) + Decimal(n))
  {
    var z := Zeros(k);
    DigitValue(n % 10);
    if n < 10 {
      ZerosValue(k);
      AppendDigit(z, n);
    } else {
      DecimalValue(n / 10, k);
      AppendDigit(z + Decimal(n / 10), n % 10);
      assert z + Decimal(n) == (z + Decimal(n / 10)) + ["0123456789"[n % 10]];
    }
  }

  /** Numerals are read back, as long as they fit 64 bits. */
  lemma NumeralValue(n: int, k: nat)
    ensures Number(Numeral(n, k))
    ensures Atoi(Numeral(n, k)) == if -9223372036854775808 <= n <= 9223372036854775807 then Some(n) else None
  {
    DecimalValue(if n < 0 then -n else n, k);
    hide DigitsValue, Decimal, Zeros;
    var s := Numeral(n, k);
    if n < 0 {
      assert s[1..] == Zeros(k) + Decimal(-n);
    }
  }

  lemma GteBare(name: string, b1: string, b2: string, n: string)
    requires Identifier(name) && Gap(b1) && Gap(b2) && Number(n)
    ensures Bare(GteText(name, b1, b2, n, ""))
    ensures MatchGte(GteText(name, b1, b2, n, "")) == Some(n) && !MatchDefined(GteText(name, b1, b2, n, ""))
  {
    var t := GteText(name, b1, b2, n, "");
    WordChars();
    GteRecognised(name, b1, b2, n, "");
    hide MatchGte, MatchDefined, Gap;
    GateIsPlain(t);
    GateNotDefined(t);
    assert t[|t| - 1] == n[|n| - 1];
  }

  lemma ComparisonAtom(t: string, n: string, version: int)
    requires MatchGte(t) == Some(n) && !MatchDefined(t)
    ensures EvalAtom(t, version) == Reached(n, version)
  {
    hide MatchGte, MatchDefined, Atoi;
  }

  /** A comparison is accepted and holds from its number on, unless that needs more than 64 bits. */
  lemma ComparisonHolds(name: string, b1: string, b2: string, n: int, k: nat, b3: string, version: int)
    requires Identifier(name) && Gap(b1) && Gap(b2) && Gap(b3)
    ensures var t := GteText(name, b1, b2, Numeral(n, k), b3);
      && ValidPredicate(t)
      && (EvalPredicate(t, version) <==> -9223372036854775808 <= n <= 9223372036854775807 && version >= n)
  {
    var s := Numeral(n, k);
    var core := GteText(name, b1, b2, s, "");
    NumeralValue(n, k);
    hide *;
    WordChars();
    GapChars(b3);
    GteBare(name, b1, b2, s);
    AtomAlone(core, version);
    ComparisonAtom(core, s, version);
    IsReached(s, version);
    PaddedPredicate("", core, b3, version);
    GteRegroup(name, b1, b2, s, b3);
  }

  lemma IsReached(n: string, version: int)
    ensures Reached(n, version) <==> Atoi(n).Some? && version >= Atoi(n).value
  {
  }

  lemma GteRegroup(name: string, b1: string, b2: string, n: string, b3: string)
    ensures GteText(name, b1, b2, n, b3) == "" + GteText(name, b1, b2, n, "") + b3
  {
    assert n + "" == n;
    assert GteText(name, b1, b2, n, b3) == name + b1 + ">=" + b2 + n + b3;
    assert GteText(name, b1, b2, n, "") == name + b1 + ">=" + b2 + n;
  }

  // ----- words -----

  /** A lone word is accepted, and holds, exactly when it begins with `true`. */
  lemma WordHolds(w: string, version: int)
    requires Identifier(w)
    ensures EvalPredicate(w, version) <==> |w| >= 4 && w[..4] == "true"
    ensures ValidPredicate(w) <==> |w| >= 4 && w[..4] == "true"
  {
    NameChars(w);
    assert Bare(w);
    WordIsNoComparison(w);
    AtomAlone(w, version);
    TrimTight(w);
    hide EvalPredicate, ValidPredicate, MatchDefined, MatchGte, Trim;
  }

  lemma WordIsNoComparison(w: string)
    requires Identifier(w)
    ensures MatchGte(w) == None && !MatchDefined(w)
  {
    AllSkipped(w);
    GateNotDefined(w);
    hide SkipIdent, MatchDefined;
  }

  lemma {:induction false} AllSkipped(w: string)
    requires forall i :: 0 <= i < |w| ==> Letter(w[i]) || Digit(w[i])
    ensures SkipIdent(w) == ""
  {
    if w != "" {
      AllSkipped(w[1..]);
    }
  }

  // ----- parentheses -----

  /** How many times `c` occurs. */
  function Count(s: string, c: char): nat {
    if s == "" then 0 else Count(s[1..], c) + if s[0] == c then 1 else 0
  }

  /** A text is balanced when no prefix closes more than it opens and the whole closes all. */
  lemma {:induction false} ClosesCounts(s: string, open: nat)
    ensures Closes(s, open) <==>
      && (forall k: nat :: k <= |s| ==> Count(s[..k], ')') <= open + Count(s[..k], '('))
      && Count(s, ')') == open + Count(s, '(')
  {
    assert s[..|s|] == s;
    if s == "" {
      assert forall k: nat :: k <= |s| ==> s[..k] == "";
    } else {
      var t := s[1..];
      forall k: nat | 1 <= k <= |s|
        ensures forall c :: Count(s[..k], c) == Count(t[..k - 1], c) + if s[0] == c then 1 else 0
      {
        assert s[..k][1..] == t[..k - 1];
      }
      var next := if s[0] == '(' then open + 1 else if s[0] == ')' then open - 1 else open;
      assert s[..1] == [s[0]] && t[..0] == "";
      if next >= 0 {
        ClosesCounts(t, next);
        assert t[..|t|] == t;
        CountsShift(s, t, open, next);
      } else {
        assert Count(s[..1], ')') > open + Count(s[..1], '(');
      }
    }
  }

  lemma CountsShift(s: string, t: string, open: nat, next: nat)
    requires s != "" && t == s[1..]
    requires forall k: nat :: 1 <= k <= |s| ==>
      Count(s[..k], ')') - Count(s[..k], '(') - open == Count(t[..k - 1], ')') - Count(t[..k - 1], '(') - next
    ensures (forall k: nat :: k <= |s| ==> Count(s[..k], ')') <= open + Count(s[..k], '(')) <==>
            (forall k: nat :: k <= |t| ==> Count(t[..k], ')') <= next + Count(t[..k], '('))
  {
    assert s[..0] == "";
    if forall k: nat :: k <= |s| ==> Count(s[..k], ')') <= open + Count(s[..k], '(') {
      forall k: nat | k <= |t| ensures Count(t[..k], ')') <= next + Count(t[..k], '(') {
        assert Count(s[..k + 1], ')') <= open + Count(s[..k + 1], '(');
      }
    }
  }

  /** One balanced pair of parentheses around a predicate does not matter, and after `!` it is negated. */
  lemma ParenthesesHold(h: string, version: int)
    requires Balanced(h) && !Padding(h)
    ensures EvalPredicate("(" + h + ")", version) == EvalPredicate(h, version)
    ensures ValidPredicate("(" + h + ")") == ValidPredicate(h)
    ensures EvalPredicate("!(" + h + ")", version) == !EvalPredicate(h, version)
    ensures ValidPredicate("!(" + h + ")") == ValidPredicate(h)
  {
    hide *;
    var t := "(" + h + ")";
    PaddingIsBlank(h);
    NegatedHolds(h, version);
    NegatedText(h);
    ParenthesisedIsWhole(h, '|');
    ParenthesisedIsWhole(h, '&');
    ParenthesesStrip(h);
    TrimValid(h, version);
    WholeTerm(t, version);
    EnclosedTerm(t, Trim(h), version);
    assert "!(" + h + ")" == ['!'] + t;
    MarkedIsWhole('!', t, '|');
    MarkedIsWhole('!', t, '&');
    TightMarked(t);
    WholeTerm(['!'] + t, version);
    MarkedEnclosed(t, version);
  }

  lemma TrimValid(h: string, version: int)
    ensures ValidPredicate(Trim(h)) == ValidPredicate(h) && EvalPredicate(Trim(h), version) == EvalPredicate(h, version)
  {
    var l, r := TrimParts(h);
    TrimTight(Trim(h));
    ValidDisjuncts(h);
    ValidDisjuncts(Trim(h));
    TrimTwice(h, version);
  }

  lemma TightMarked(t: string)
    requires t != "" && Tight(t)
    ensures Tight(['!'] + t) && Trim((['!'] + t)[1..]) == t
  {
    TrimTight(t);
    assert (['!'] + t)[1..] == t;
  }

  lemma EnclosedTerm(t: string, h: string, version: int)
    requires t != "" && Tight(t) && t[0] == '(' && StripOuterParens(t) == h != ""
    ensures EvalTerm(t, version) == EvalPredicate(h, version) && ValidTerm(t) == ValidPredicate(h)
  {
    TrimTight(t);
    hide Trim, StripOuterParens, EvalPredicate, ValidPredicate;
  }

  lemma MarkedEnclosed(t: string, version: int)
    requires t != "" && Tight(t) && Tight(['!'] + t) && Trim((['!'] + t)[1..]) == t
    ensures ValidTerm(['!'] + t) == ValidTerm(t)
  {
    TrimTight(['!'] + t);
    TrimTight(t);
    hide Trim, StripOuterParens;
  }

  /** No parenthesis is left open when no suffix opens more than it closes. */
  lemma {:induction false} DepthCounts(s: string, open: nat)
    ensures Depth(s, open) == 0 <==>
      && open + Count(s, '(') <= Count(s, ')')
      && (forall k: nat :: k <= |s| ==> Count(s[k..], '(') <= Count(s[k..], ')'))
  {
    assert s[0..] == s && s[|s|..] == "";
    if s != "" {
      var t := s[1..];
      assert t[0..] == t;
      assert forall k: nat :: k <= |t| ==> t[k..] == s[k + 1..];
      assert forall k: nat :: 1 <= k <= |s| ==> s[k..] == t[k - 1..];
      DepthCounts(t, NextDepth(s[0], open));
    }
  }

  /** A term that starts with `(` but is not one balanced pair around something is refused and never holds. */
  lemma NotEnclosed(t: string, version: int)
    requires t != "" && Tight(t) && t[0] == '(' && Split(t, '|', 0) == [t] && Split(t, '&', 0) == [t]
    requires forall h: string :: Balanced(h) && !Padding(h) ==> t != "(" + h + ")"
    ensures !EvalPredicate(t, version) && !ValidPredicate(t)
  {
    WholeTerm(t, version);
    TrimTight(t);
    NothingStripped(t);
    ParenthesisIsNoAtom(t);
    hide Split, Trim, StripOuterParens, MatchDefined, MatchGte, EvalPredicate, ValidPredicate;
  }

  lemma NothingStripped(t: string)
    requires t != "" && Tight(t) && t[0] == '('
    requires forall h: string :: Balanced(h) && !Padding(h) ==> t != "(" + h + ")"
    ensures StripOuterParens(t) == ""
  {
    TrimTight(t);
    hide Trim;
    if |t| >= 2 && t[|t| - 1] == ')' {
      var h := t[1..|t| - 1];
      assert t == "(" + h + ")";
      PaddingIsBlank(h);
    }
  }

  lemma ParenthesisIsNoAtom(t: string)
    requires t != "" && t[0] == '('
    ensures !MatchDefined(t) && MatchGte(t) == None && !StartsTrue(t)
  {
    assert SkipSpaces(t) == t;
    hide SkipSpaces, SkipIdent;
    assert |t| >= 7 ==> t[..7][0] != "defined"[0];
    assert |t| >= 4 ==> t[..4][0] != "true"[0];
  }

  /** A lone exclamation mark is accepted and never holds. */
  lemma LoneMark(version: int)
    ensures ValidPredicate("!") && !EvalPredicate("!", version)
  {
    NoOpIsWhole("!", '|', 0);
    NoOpIsWhole("!", '&', 0);
    WholeTerm("!", version);
    assert "!"[1..] == "";
  }
}
