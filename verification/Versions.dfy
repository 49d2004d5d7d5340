/**
  Predicates and version numbers: without negation a predicate that holds
  keeps holding for later versions, and the recorded minimum version is a
  bound that is exact for plain disjunctions of comparisons.
 */
module Versions {
  import opened Arithmetic
  import opened Options
  import opened Text
  import opened Predicate
  import opened PredicateProofs
  import opened Parser
  import opened Flattening

  // ----- pieces are parts of the text -----

  /** A piece stands in the text, followed by nothing or by the operator. */
  lemma {:induction false} PieceIn(s: string, op: char, depth: nat, i: nat) returns (a: string, b: string)
    requires op != '(' && op != ')' && i < |Split(s, op, depth)|
    ensures s == a + Split(s, op, depth)[i] + b && (b == "" || b[0] == op)
    decreases |s|
  {
    if i == 0 {
      a := "";
      b := FirstPieceEnds(s, op, depth);
    } else {
      var n, d := if AtOp(s, op, depth) then 2 else 1, if AtOp(s, op, depth) then 0 else NextDepth(s[0], depth);
      var j := if AtOp(s, op, depth) then i - 1 else i;
      assert Split(s, op, depth)[i] == Split(s[n..], op, d)[j];
      assert s == s[..n] + s[n..];
      hide *;
      a, b := PieceIn(s[n..], op, d, j);
      Shift(s[..n], s[n..], a, Split(s[n..], op, d)[j], b);
      a := s[..n] + a;
    }
  }

  lemma Shift(x: string, rest: string, a: string, p: string, b: string)
    requires rest == a + p + b
    ensures x + rest == (x + a) + p + b
  {
  }

  lemma {:induction false} FirstPieceEnds(s: string, op: char, depth: nat) returns (b: string)
    requires op != '(' && op != ')'
    ensures s == Split(s, op, depth)[0] + b && (b == "" || b[0] == op)
    decreases |s|
  {
    if s == "" {
      b := "";
    } else if AtOp(s, op, depth) {
      b := s;
    } else {
      b := FirstPieceEnds(s[1..], op, NextDepth(s[0], depth));
      assert s == [s[0]] + s[1..];
    }
  }

  // ----- monotonicity -----

  ghost predicate NoMark(s: string) {
    forall i :: 0 <= i < |s| ==> s[i] != '!'
  }

  lemma PartHasNoMark(s: string, a: string, t: string, b: string)
    requires NoMark(s) && s == a + t + b
    ensures NoMark(t)
  {
    forall i | 0 <= i < |t| ensures t[i] != '!' {
      assert s[|a| + i] == t[i];
    }
  }

  lemma TrimHasNoMark(s: string)
    requires NoMark(s)
    ensures NoMark(Trim(s))
  {
    var l, r := TrimParts(s);
    PartHasNoMark(s, l, Trim(s), r);
  }

  lemma PieceHasNoMark(s: string, op: char, i: nat)
    requires op != '(' && op != ')' && i < |Split(s, op, 0)| && NoMark(s)
    ensures NoMark(Trim(Split(s, op, 0)[i]))
  {
    var a, b := PieceIn(s, op, 0, i);
    hide Split, Trim;
    PartHasNoMark(s, a, Split(s, op, 0)[i], b);
    TrimHasNoMark(Split(s, op, 0)[i]);
  }

  lemma InnerHasNoMark(s: string)
    requires NoMark(s)
    ensures NoMark(StripOuterParens(s))
  {
    var t := Trim(s);
    TrimHasNoMark(s);
    hide Trim, Balanced;
    if StripOuterParens(s) != "" {
      TrimHasNoMark(t[1..|t| - 1]);
    }
  }

  /** Without negation, a predicate that holds at a version holds at every later one. */
  lemma {:induction false} MonotonePredicate(p: string, v: int, w: int)
    requires NoMark(p) && v <= w && EvalPredicate(p, v)
    ensures EvalPredicate(p, w)
    decreases |p|, 4
  {
    var t := Trim(p);
    var ds := Split(t, '|', 0);
    var i :| 0 <= i < |ds| && EvalConjunct(Trim(ds[i]), v);
    TrimHasNoMark(p);
    PieceHasNoMark(t, '|', i);
    hide EvalConjunct, NoMark, Split, Trim;
    MonotoneConjunct(Trim(ds[i]), v, w);
  }

  lemma {:induction false} MonotoneConjunct(s: string, v: int, w: int)
    requires NoMark(s) && v <= w && EvalConjunct(s, v)
    ensures EvalConjunct(s, w)
    decreases |s|, 3
  {
    var ps := Split(s, '&', 0);
    hide EvalTerm, NoMark, Trim, Split;
    forall i | 0 <= i < |ps| ensures TermHolds(ps[i], w) {
      assert TermHolds(ps[i], v);
      PieceHasNoMark(s, '&', i);
      if Trim(ps[i]) != "" {
        MonotoneTerm(Trim(ps[i]), v, w);
      }
    }
  }

  lemma {:induction false} MonotoneTerm(term: string, v: int, w: int)
    requires NoMark(term) && v <= w && EvalTerm(term, v)
    ensures EvalTerm(term, w)
    decreases |term|, 1
  {
    var t := Trim(term);
    TrimHasNoMark(term);
    InnerHasNoMark(t);
    assert t[0] != '!';
    hide NoMark, Trim, StripOuterParens;
    if StripOuterParens(t) != "" {
      MonotonePredicate(StripOuterParens(t), v, w);
    } else {
      hide MatchGte, MatchDefined, StartsTrue, Atoi;
    }
  }

  // ----- texts of one kind of character -----

  /** Every character of `s` is of kind `p`. */
  ghost predicate All(s: string, p: char -> bool) {
    forall i :: 0 <= i < |s| ==> p(s[i])
  }

  lemma AllConcat(a: string, b: string, p: char -> bool)
    ensures All(a + b, p) <==> All(a, p) && All(b, p)
  {
    var s := a + b;
    assert forall i :: 0 <= i < |a| ==> s[i] == a[i];
    assert forall i :: 0 <= i < |b| ==> s[|a| + i] == b[i];
  }

  lemma AllOne(c: char, p: char -> bool)
    ensures All([c], p) <==> p(c)
  {
    assert [c][0] == c;
  }

  lemma AllWeaken(s: string, p: char -> bool, q: char -> bool)
    requires All(s, p) && forall c :: p(c) ==> q(c)
    ensures All(s, q)
  {
  }

  predicate NotGreater(c: char) {
    c != '>'
  }

  // ----- what the scan for numbers finds -----

  /** A character at which no number after `>=` can go on. */
  predicate Barrier(c: char) {
    c != '=' && c != '-' && !IsDigit(c) && !IsReSpace(c)
  }

  ghost predicate Barred(c: string) {
    c == "" || Barrier(c[0])
  }

  lemma {:induction false} SkipSpacesConcat(a: string, c: string)
    requires c == "" || !IsReSpace(c[0])
    ensures SkipSpaces(a + c) == SkipSpaces(a) + c
  {
    if a == "" {
      assert a + c == c;
    } else {
      assert (a + c)[1..] == a[1..] + c;
      SkipSpacesConcat(a[1..], c);
    }
  }

  lemma {:induction false} SkipDigitsConcat(a: string, c: string)
    requires c == "" || !IsDigit(c[0])
    ensures SkipDigits(a + c) == SkipDigits(a) + c
  {
    if a == "" {
      assert a + c == c;
    } else {
      assert (a + c)[1..] == a[1..] + c;
      SkipDigitsConcat(a[1..], c);
    }
  }

  /** `long` shows the number `short` shows, with `c` after it. */
  ghost predicate SameNumber(short: Option<(string, string)>, long: Option<(string, string)>, c: string) {
    && (short.Some? <==> long.Some?)
    && (short.Some? ==> long.value.0 == short.value.0 && long.value.1 == short.value.1 + c)
  }

  /** The number part of `s`, given its sign and what follows the digits. */
  lemma NumberParts(s: string, sign: nat, rest: string, n: nat)
    requires sign == (if s != "" && s[0] == '-' then 1 else 0)
    requires SkipDigits(s[sign..]) == rest && n == |s| - |rest|
    ensures LeadingNumber(s).Some? <==> n != sign
    ensures n != sign ==> 0 <= n <= |s| && LeadingNumber(s).value.0 == s[..n] && LeadingNumber(s).value.1 == rest
  {
    hide SkipDigits;
  }

  /** A number in front is the same number whatever follows, if that does not start with a digit or a sign. */
  lemma LeadingNumberConcat(a: string, c: string)
    requires c == "" || (!IsDigit(c[0]) && (a != "" || c[0] != '-'))
    ensures SameNumber(LeadingNumber(a), LeadingNumber(a + c), c)
  {
    var sign := if a != "" && a[0] == '-' then 1 else 0;
    SkipDigitsConcat(a[sign..], c);
    var rest := SkipDigits(a[sign..]);
    var n := |a| - |rest|;
    assert n >= 0;
    hide SkipDigits, LeadingNumber, IsDigit;
    CutConcat(a, c, sign, n);
    NumberParts(a, sign, rest, n);
    NumberParts(a + c, sign, rest + c, n);
  }

  lemma CutConcat(a: string, c: string, sign: nat, n: nat)
    requires sign <= |a| && n <= |a|
    ensures (a + c)[sign..] == a[sign..] + c && (a + c)[..n] == a[..n]
  {
  }

  /** The match that starts at the `>=` in front of `s`. */
  function MatchHere(s: string): Option<(string, string)>
    requires |s| >= 2
  {
    LeadingNumber(SkipSpaces(s[2..]))
  }

  lemma MatchHereConcat(a: string, c: string)
    requires |a| >= 2 && Barred(c)
    ensures SameNumber(MatchHere(a), MatchHere(a + c), c)
    ensures MatchHere(a).Some? ==> |MatchHere(a).value.1| < |a|
  {
    assert (a + c)[2..] == a[2..] + c;
    SkipSpacesConcat(a[2..], c);
    LeadingNumberConcat(SkipSpaces(a[2..]), c);
    hide SkipSpaces, SameNumber;
  }

  /** One step of the scan. */
  lemma ThresholdsStep(s: string)
    requires s != ""
    ensures Thresholds(s) ==
      if |s| >= 2 && s[0] == '>' && s[1] == '=' && MatchHere(s).Some? && |MatchHere(s).value.1| < |s|
      then [MatchHere(s).value.0] + Thresholds(MatchHere(s).value.1)
      else Thresholds(s[1..])
  {
    hide SkipSpaces, SkipDigits;
    if |s| == 1 {
      assert s[1..] == "";
    }
  }

  /** The scan of a text that goes on behind a barrier finds what it finds in the two parts. */
  lemma {:induction false} ThresholdsConcat(a: string, c: string)
    requires Barred(c)
    ensures Thresholds(a + c) == Thresholds(a) + Thresholds(c)
    decreases |a|
  {
    if a == "" {
      assert a + c == c;
      assert Thresholds(a) == [];
    } else {
      var s := a + c;
      assert s[1..] == a[1..] + c && s[0] == a[0] && (|a| >= 2 ==> s[1] == a[1]);
      if |a| == 1 {
        assert c != "" ==> s[1] == c[0] != '=';
      }
      hide *;
      ThresholdsStep(a);
      ThresholdsStep(s);
      if |a| >= 2 {
        MatchHereConcat(a, c);
      }
      if |a| >= 2 && a[0] == '>' && a[1] == '=' && MatchHere(a).Some? {
        var found := MatchHere(a).value;
        SameFound(MatchHere(a), MatchHere(s), c);
        ThresholdsConcat(found.1, c);
        Associate([found.0], Thresholds(found.1), Thresholds(c));
      } else {
        if |a| >= 2 {
          SameFound(MatchHere(a), MatchHere(s), c);
        }
        ThresholdsConcat(a[1..], c);
      }
    }
  }

  lemma SameFound(short: Option<(string, string)>, long: Option<(string, string)>, c: string)
    requires SameNumber(short, long, c)
    ensures short.Some? <==> long.Some?
    ensures short.Some? ==> long.value.0 == short.value.0 && long.value.1 == short.value.1 + c
  {
  }

  lemma Associate<T>(a: seq<T>, b: seq<T>, c: seq<T>)
    ensures a + (b + c) == (a + b) + c
  {
  }

  /** Nothing is found in front of the first `>`. */
  lemma {:induction false} ThresholdsSkip(a: string, c: string)
    requires All(a, NotGreater)
    ensures Thresholds(a + c) == Thresholds(c)
    decreases |a|
  {
    if a == "" {
      assert a + c == c;
    } else {
      assert (a + c)[1..] == a[1..] + c && a == [a[0]] + a[1..];
      AllConcat([a[0]], a[1..], NotGreater);
      ThresholdsSkip(a[1..], c);
    }
  }

  lemma ThresholdsNone(a: string)
    requires All(a, NotGreater)
    ensures Thresholds(a) == []
  {
    ThresholdsSkip(a, "");
    assert a + "" == a;
  }

  // ----- comparisons -----

  lemma PutBack(s: string, y: string, rest: string)
    requires s != "" && s[1..] == y + rest
    ensures s == ([s[0]] + y) + rest
  {
  }

  lemma {:induction false} SkippedIdent(s: string) returns (x: string)
    ensures s == x + SkipIdent(s) && All(x, IsIdent)
  {
    if s != "" && IsIdent(s[0]) {
      var y := SkippedIdent(s[1..]);
      x := [s[0]] + y;
      PutBack(s, y, SkipIdent(s[1..]));
      AllOne(s[0], IsIdent);
      AllConcat([s[0]], y, IsIdent);
    } else {
      x := "";
    }
  }

  lemma {:induction false} SkippedSpaces(s: string) returns (x: string)
    ensures s == x + SkipSpaces(s) && All(x, IsReSpace)
  {
    if s != "" && IsReSpace(s[0]) {
      var y := SkippedSpaces(s[1..]);
      x := [s[0]] + y;
      PutBack(s, y, SkipSpaces(s[1..]));
      AllOne(s[0], IsReSpace);
      AllConcat([s[0]], y, IsReSpace);
    } else {
      x := "";
    }
  }

  lemma {:induction false} SkippedDigits(s: string) returns (x: string)
    ensures s == x + SkipDigits(s) && All(x, IsDigit)
  {
    if s != "" && IsDigit(s[0]) {
      var y := SkippedDigits(s[1..]);
      x := [s[0]] + y;
      PutBack(s, y, SkipDigits(s[1..]));
      AllOne(s[0], IsDigit);
      AllConcat([s[0]], y, IsDigit);
    } else {
      x := "";
    }
  }

  lemma {:induction false} SkipSpacesMore(a: string, c: string)
    requires SkipSpaces(a) != ""
    ensures SkipSpaces(a + c) == SkipSpaces(a) + c
  {
    if a != "" && IsReSpace(a[0]) {
      assert (a + c)[1..] == a[1..] + c;
      SkipSpacesMore(a[1..], c);
    }
  }

  /** A character that may occur in a comparison. */
  predicate GateChar(c: char) {
    IsIdent(c) || IsReSpace(c) || c == '-' || c == '>' || c == '='
  }

  /** Everything in front of the comparison sign. */
  ghost predicate GateFront(pre: string) {
    pre != "" && IsIdentStart(pre[0]) && All(pre, NotGreater) && All(pre, GateChar)
  }

  /** `rest` is the number of a comparison with blanks around it. */
  ghost predicate GateRest(rest: string, number: string) {
    && LeadingNumber(SkipSpaces(rest)).Some?
    && LeadingNumber(SkipSpaces(rest)).value.0 == number
    && SkipSpaces(LeadingNumber(SkipSpaces(rest)).value.1) == ""
  }

  const GTE := ">="

  lemma GateParts(t: string) returns (pre: string, rest: string)
    requires MatchGte(t).Some?
    ensures t == pre + (GTE + rest) && GateFront(pre) && GateRest(rest, MatchGte(t).value)
  {
    hide *;
    GateShape(t);
    var x := SkippedIdent(t);
    var mid := SkipIdent(t);
    var y := SkippedSpaces(mid);
    var op := SkipSpaces(mid);
    pre, rest := x + y, op[2..];
    FrontJoins(t, x, y, mid, op);
    FrontChars(x, y);
    FrontIntro(pre);
  }

  lemma GateShape(t: string)
    requires MatchGte(t).Some?
    ensures t != "" && IsIdentStart(t[0]) && |SkipIdent(t)| < |t|
    ensures var op := SkipSpaces(SkipIdent(t));
      |op| >= 2 && op[0] == '>' && op[1] == '=' && GateRest(op[2..], MatchGte(t).value)
  {
    hide SkipIdent, SkipSpaces, LeadingNumber;
    IdentSkips(t);
  }

  lemma IdentSkips(t: string)
    requires t != "" && IsIdentStart(t[0])
    ensures |SkipIdent(t)| < |t|
  {
    assert SkipIdent(t) == SkipIdent(t[1..]);
  }

  lemma FrontIntro(pre: string)
    requires pre != "" && IsIdentStart(pre[0]) && All(pre, NotGreater) && All(pre, GateChar)
    ensures GateFront(pre)
  {
  }

  lemma FrontChars(x: string, y: string)
    requires x != "" && All(x, IsIdent) && All(y, IsReSpace)
    ensures All(x + y, NotGreater) && All(x + y, GateChar)
  {
    AllWeaken(x, IsIdent, NotGreater);
    AllWeaken(x, IsIdent, GateChar);
    AllWeaken(y, IsReSpace, NotGreater);
    AllWeaken(y, IsReSpace, GateChar);
    hide All;
    AllConcat(x, y, NotGreater);
    AllConcat(x, y, GateChar);
  }

  lemma FrontJoins(t: string, x: string, y: string, mid: string, op: string)
    requires |mid| < |t| && t == x + mid && mid == y + op && |op| >= 2 && op[0] == '>' && op[1] == '='
    ensures t == (x + y) + (GTE + op[2..]) && x != "" && (x + y)[0] == t[0]
  {
    assert op == GTE + op[2..];
  }

  lemma AllSpaces(s: string)
    requires SkipSpaces(s) == ""
    ensures All(s, IsReSpace)
  {
    var x := SkippedSpaces(s);
    assert s == x + "" == x;
  }

  lemma NumberText(s: string)
    requires LeadingNumber(s).Some?
    ensures var found := LeadingNumber(s).value; s == found.0 + found.1 && All(found.0, GateChar)
  {
    var sign := if s[0] == '-' then 1 else 0;
    var rest := SkipDigits(s[sign..]);
    var x := SkippedDigits(s[sign..]);
    hide SkipDigits, All;
    var n := |s| - |rest|;
    NumberParts(s, sign, rest, n);
    SignAndDigits(s, sign, x, rest, n);
  }

  lemma SignAndDigits(s: string, sign: nat, x: string, rest: string, n: nat)
    requires s != "" && sign == (if s[0] == '-' then 1 else 0)
    requires s[sign..] == x + rest && n == |s| - |rest| && All(x, IsDigit)
    ensures n <= |s| && s == s[..n] + rest && All(s[..n], GateChar)
  {
    assert s == s[..sign] + s[sign..];
    assert s[..n] == s[..sign] + x;
    AllWeaken(x, IsDigit, GateChar);
    AllConcat(s[..sign], x, GateChar);
  }

  /** A comparison holds none of the characters that structure a predicate. */
  lemma GateIsPlain(t: string)
    requires MatchGte(t).Some?
    ensures All(t, GateChar) && t != "" && IsIdentStart(t[0])
  {
    var pre, rest := GateParts(t);
    assert t[0] == pre[0];
    hide MatchGte, All;
    RestChars(rest, MatchGte(t).value);
    SignChars();
    AllConcat(GTE, rest, GateChar);
    AllConcat(pre, GTE + rest, GateChar);
  }

  lemma SignChars()
    ensures All(GTE, GateChar)
  {
  }

  lemma RestChars(rest: string, number: string)
    requires GateRest(rest, number)
    ensures All(rest, GateChar)
  {
    var blank := SkippedSpaces(rest);
    var n := SkipSpaces(rest);
    hide SkipSpaces, LeadingNumber;
    NumberText(n);
    var found := LeadingNumber(n).value;
    AllSpaces(found.1);
    AllWeaken(found.1, IsReSpace, GateChar);
    AllWeaken(blank, IsReSpace, GateChar);
    hide All;
    AllConcat(found.0, found.1, GateChar);
    AllConcat(blank, n, GateChar);
  }

  /** Scanning a comparison yields its number and goes on behind it. */
  lemma GateThresholds(t: string, c: string)
    requires MatchGte(t).Some? && (c == "" || !IsDigit(c[0]))
    ensures Thresholds(t + c) == [MatchGte(t).value] + Thresholds(c)
  {
    hide MatchGte, All, Thresholds, GateRest;
    var pre, rest := GateParts(t);
    FrontAssociates(pre, rest, c);
    ThresholdsSkip(pre, GTE + (rest + c));
    RestThresholds(rest, MatchGte(t).value, c);
  }

  lemma FrontAssociates(pre: string, rest: string, c: string)
    ensures (pre + (GTE + rest)) + c == pre + (GTE + (rest + c))
  {
  }

  lemma RestThresholds(rest: string, number: string, c: string)
    requires GateRest(rest, number) && (c == "" || !IsDigit(c[0]))
    ensures Thresholds(GTE + (rest + c)) == [number] + Thresholds(c)
  {
    var s := GTE + (rest + c);
    var n := SkipSpaces(rest);
    var found := LeadingNumber(n).value;
    NumberNeedsText(n);
    assert s[2..] == rest + c && s[0] == '>' && s[1] == '=';
    hide *;
    SkipSpacesMore(rest, c);
    LeadingNumberConcat(n, c);
    SameFound(LeadingNumber(n), LeadingNumber(n + c), c);
    MatchAtFront(s, rest + c);
    ShorterTail(n + c, rest + c);
    ThresholdsStep(s);
    RestTail(rest, number, c);
  }

  lemma NumberNeedsText(n: string)
    requires LeadingNumber(n).Some?
    ensures n != ""
  {
  }

  lemma MatchAtFront(s: string, rest: string)
    requires |s| >= 2 && s[2..] == rest
    ensures MatchHere(s) == LeadingNumber(SkipSpaces(rest))
  {
    hide SkipSpaces, LeadingNumber;
  }

  lemma ShorterTail(n: string, rest: string)
    requires LeadingNumber(n).Some? && SkipSpaces(rest) == n
    ensures |LeadingNumber(n).value.1| <= |rest|
  {
    hide SkipDigits;
  }

  lemma RestTail(rest: string, number: string, c: string)
    requires GateRest(rest, number)
    ensures Thresholds(LeadingNumber(SkipSpaces(rest)).value.1 + c) == Thresholds(c)
    ensures LeadingNumber(SkipSpaces(rest)).value.0 == number
  {
    var tail := LeadingNumber(SkipSpaces(rest)).value.1;
    AllSpaces(tail);
    AllWeaken(tail, IsReSpace, NotGreater);
    hide SkipSpaces, LeadingNumber, Thresholds;
    ThresholdsSkip(tail, c);
  }

  /** A comparison alone, as the evaluator takes it. */
  predicate Reached(number: string, version: int) {
    Atoi(number).Some? && version >= Atoi(number).value
  }

  lemma GateTerm(t: string, version: int)
    requires MatchGte(t).Some? && Trim(t) == t
    ensures EvalTerm(t, version) <==> Reached(MatchGte(t).value, version)
  {
    GateIsPlain(t);
    assert t[0] != '(' && t[0] != '!';
    GateNotDefined(t);
    hide MatchGte, MatchDefined, Trim, Atoi, All;
    StripNeedsParen(t);
  }

  lemma GateNotDefined(t: string)
    requires All(t, GateChar)
    ensures !MatchDefined(t)
  {
    var a := SkipSpaces(t);
    BlanksOff(t);
    hide SkipSpaces, SkipIdent, All;
    if |a| >= 7 {
      assert a == a[..7] + a[7..];
      AllConcat(a[..7], a[7..], GateChar);
      BlanksOff(a[7..]);
      NoParenthesis(SkipSpaces(a[7..]));
    }
  }

  lemma BlanksOff(s: string)
    requires All(s, GateChar)
    ensures All(SkipSpaces(s), GateChar)
  {
    hide All;
    var x := SkippedSpaces(s);
    AllConcat(x, SkipSpaces(s), GateChar);
  }

  lemma NoParenthesis(b: string)
    requires All(b, GateChar)
    ensures b == "" || b[0] != '('
  {
  }

  // ----- the minimum version is a bound -----

  /** Some conjunct of the disjunct is a comparison. */
  ghost predicate HasGate(d: string) {
    exists j :: 0 <= j < |Split(d, '&', 0)| && MatchGte(Trim(Split(d, '&', 0)[j])).Some?
  }

  ghost predicate Gated(p: string) {
    forall i :: 0 <= i < |Split(Trim(p), '|', 0)| ==> HasGate(Split(Trim(p), '|', 0)[i])
  }

  /** The number of a comparison that stands as a term of `d` is found by the scan of a text around `d`. */
  lemma GateIsFound(d: string, j: nat, left: string, right: string)
    requires j < |Split(d, '&', 0)| && MatchGte(Trim(Split(d, '&', 0)[j])).Some?
    requires right == "" || IsSpace(right[0]) || right[0] == '|'
    ensures MatchGte(Trim(Split(d, '&', 0)[j])).value in Thresholds(left + d + right)
  {
    var q := Split(d, '&', 0)[j];
    var a, b := PieceIn(d, '&', 0, j);
    hide Split, Trim, MatchGte, Thresholds;
    var x, y := TrimParts(q);
    var t := Trim(q);
    Regroup(left, d, right, a, q, b, x, t, y);
    AfterTerm(y, b, right);
    GateIsPlain(t);
    IdentIsBarrier(t[0]);
    ThresholdsConcat(left + a + x, t + (y + b + right));
    GateThresholds(t, y + b + right);
  }

  lemma Regroup(left: string, d: string, right: string, a: string, q: string, b: string, x: string, t: string,
      y: string)
    requires d == a + q + b && q == x + t + y
    ensures left + d + right == (left + a + x) + (t + (y + b + right))
  {
  }

  /** What follows a term starts with a blank or an operator. */
  lemma AfterTerm(y: string, b: string, right: string)
    requires Blank(y) && (b == "" || b[0] == '&') && (right == "" || IsSpace(right[0]) || right[0] == '|')
    ensures var c := y + b + right; c == "" || !IsDigit(c[0])
  {
    var c := y + b + right;
    assert y != "" ==> c[0] == y[0];
    assert y == "" && b != "" ==> c[0] == b[0];
    assert y == "" && b == "" ==> c == right;
  }

  lemma IdentIsBarrier(c: char)
    requires IsIdentStart(c)
    ensures Barrier(c)
  {
  }

  /** When every disjunct has a comparison, the predicate holds only from the recorded minimum version on. */
  lemma MinVersionBounds(p: string, version: int)
    requires Gated(p) && EvalPredicate(p, version)
    ensures version >= MinVersionFor(p)
  {
    hide *;
    var i, j := GatedDisjunct(p, version);
    var d := Split(Trim(p), '|', 0)[i];
    var left, right := DisjunctIn(p, i);
    GateIsFound(d, j, left, right);
    TermMustHold(d, j, version);
    LeastBound(p, MatchGte(Trim(Split(d, '&', 0)[j])).value, version);
  }

  /** The disjunct that holds, and its comparison. */
  lemma GatedDisjunct(p: string, version: int) returns (i: nat, j: nat)
    requires Gated(p) && EvalPredicate(p, version)
    ensures i < |Split(Trim(p), '|', 0)| && EvalConjunct(Split(Trim(p), '|', 0)[i], version)
    ensures var d := Split(Trim(p), '|', 0)[i]; j < |Split(d, '&', 0)| && MatchGte(Trim(Split(d, '&', 0)[j])).Some?
  {
    PredicateDisjuncts(p, version);
    var ds := Split(Trim(p), '|', 0);
    hide EvalConjunct, EvalPredicate, Split, Trim, MatchGte;
    i :| 0 <= i < |ds| && EvalConjunct(ds[i], version);
    var d := ds[i];
    assert HasGate(d);
    j :| 0 <= j < |Split(d, '&', 0)| && MatchGte(Trim(Split(d, '&', 0)[j])).Some?;
  }

  lemma DisjunctIn(p: string, i: nat) returns (left: string, right: string)
    requires i < |Split(Trim(p), '|', 0)|
    ensures p == left + Split(Trim(p), '|', 0)[i] + right
    ensures right == "" || IsSpace(right[0]) || right[0] == '|'
  {
    var l, r := TrimParts(p);
    var a, b := PieceIn(Trim(p), '|', 0, i);
    hide Split, Trim;
    left, right := l + a, b + r;
    assert right == "" || right[0] == if b == "" then r[0] else b[0];
  }

  lemma LeastBound(p: string, number: string, version: int)
    requires number in Thresholds(p) && Reached(number, version)
    ensures version >= MinVersionFor(p)
  {
    var numbers := Thresholds(p);
    LeastIsMinimum(numbers);
    hide Thresholds, Atoi, Least;
    var k :| 0 <= k < |numbers| && numbers[k] == number;
    assert Atoi(numbers[k]).Some?;
  }

  lemma TermMustHold(d: string, j: nat, version: int)
    requires EvalConjunct(d, version)
    requires j < |Split(d, '&', 0)| && MatchGte(Trim(Split(d, '&', 0)[j])).Some?
    ensures Reached(MatchGte(Trim(Split(d, '&', 0)[j])).value, version)
  {
    var q := Split(d, '&', 0)[j];
    assert TermHolds(q, version);
    var x, y := TrimParts(q);
    TrimTight(Trim(q));
    assert Trim(q) != "";
    hide EvalTerm, Split, Trim, MatchGte;
    GateTerm(Trim(q), version);
  }

  // ----- and exact for plain disjunctions -----

  ghost predicate Comparisons(ds: seq<string>) {
    forall i :: 0 <= i < |ds| ==> MatchGte(Trim(ds[i])).Some?
  }

  function Numbers(ds: seq<string>): seq<string>
    requires Comparisons(ds)
  {
    if ds == [] then [] else [MatchGte(Trim(ds[0])).value] + Numbers(ds[1..])
  }

  /** The scan of a disjunction of comparisons finds their numbers in order. */
  lemma {:induction false} DisjunctionThresholds(ds: seq<string>, right: string)
    requires ds != [] && Comparisons(ds) && Blank(right)
    ensures Thresholds(Join(ds, "||") + right) == Numbers(ds)
    decreases |ds|
  {
    var d, rest := ds[0], ds[1..];
    NumbersCons(ds);
    JoinCons(ds);
    hide *;
    if |ds| == 1 {
      LastThresholds(d, right);
    } else {
      DisjunctionThresholds(rest, right);
      BarsSkip(Join(rest, "||") + right);
      ComparisonThresholds(d, "||" + (Join(rest, "||") + right));
      Associate3(d, "||", Join(rest, "||"), right);
    }
  }

  lemma NumbersCons(ds: seq<string>)
    requires ds != [] && Comparisons(ds)
    ensures MatchGte(Trim(ds[0])).Some? && Comparisons(ds[1..])
    ensures Numbers(ds) == [MatchGte(Trim(ds[0])).value] + Numbers(ds[1..])
    ensures |ds| == 1 ==> Numbers(ds) == [MatchGte(Trim(ds[0])).value]
  {
    hide MatchGte, Trim;
    assert |ds| == 1 ==> Numbers(ds[1..]) == [];
  }

  lemma JoinCons(ds: seq<string>)
    requires ds != []
    ensures Join(ds, "||") == if |ds| == 1 then ds[0] else ds[0] + "||" + Join(ds[1..], "||")
  {
  }

  lemma LastThresholds(d: string, right: string)
    requires MatchGte(Trim(d)).Some? && Blank(right)
    ensures Thresholds(d + right) == [MatchGte(Trim(d)).value]
  {
    hide *;
    BlankNotGreater(right);
    BlankNoDigit(right);
    ThresholdsNone(right);
    ComparisonThresholds(d, right);
  }

  lemma BlankNoDigit(b: string)
    requires Blank(b)
    ensures b == "" || !IsDigit(b[0])
  {
  }

  lemma BarsSkip(after: string)
    ensures Thresholds("||" + after) == Thresholds(after)
    ensures "||" + after != "" && !IsDigit(("||" + after)[0])
  {
    hide Thresholds;
    ThresholdsSkip("||", after);
  }

  lemma Associate3(a: string, b: string, c: string, d: string)
    ensures (a + b + c) + d == a + (b + (c + d))
  {
  }

  lemma BlankNotGreater(b: string)
    requires Blank(b)
    ensures All(b, NotGreater)
  {
  }

  /** A disjunct that is one comparison adds its number. */
  lemma ComparisonThresholds(d: string, c: string)
    requires MatchGte(Trim(d)).Some? && (c == "" || !IsDigit(c[0]))
    ensures Thresholds(d + c) == [MatchGte(Trim(d)).value] + Thresholds(c)
  {
    hide *;
    var x, y := TrimParts(d);
    var t := Trim(d);
    BlankNotGreater(x);
    BlankNotGreater(y);
    Around(d, x, t, y, c);
    BlankStarts(y, c);
    ThresholdsSkip(x, t + (y + c));
    GateThresholds(t, y + c);
    ThresholdsSkip(y, c);
  }

  lemma Around(d: string, x: string, t: string, y: string, c: string)
    requires d == x + t + y
    ensures d + c == x + (t + (y + c))
  {
  }

  lemma BlankStarts(y: string, c: string)
    requires Blank(y) && (c == "" || !IsDigit(c[0]))
    ensures y + c == "" || !IsDigit((y + c)[0])
  {
    assert y != "" ==> (y + c)[0] == y[0];
    assert y == "" ==> y + c == c;
  }

  /** A disjunct that is one comparison holds from its number on. */
  lemma ComparisonHolds(d: string, version: int)
    requires MatchGte(Trim(d)).Some?
    ensures EvalConjunct(d, version) <==> Reached(MatchGte(Trim(d)).value, version)
  {
    hide *;
    var t := Trim(d);
    var x, y := TrimParts(d);
    TrimTight(t);
    GateIsPlain(t);
    GatePlain(t);
    TrimmedConjunct(d, version);
    PlainIsWhole(t, '&');
    GateTerm(t, version);
    OnePiece(t, version);
  }

  lemma GatePlain(t: string)
    requires All(t, GateChar)
    ensures forall i :: 0 <= i < |t| ==> t[i] != '(' && t[i] != ')' && t[i] != '&'
  {
    assert forall i :: 0 <= i < |t| ==> GateChar(t[i]);
  }

  lemma OnePiece(t: string, version: int)
    requires Split(t, '&', 0) == [t] && Trim(t) == t && t != ""
    ensures EvalConjunct(t, version) == EvalTerm(t, version)
  {
    hide Split, Trim, EvalTerm;
    assert Split(t, '&', 0)[0] == t;
    assert EvalConjunct(t, version) == TermHolds(t, version);
  }

  /**
    A disjunction of comparisons holds at a version exactly when one of its numbers fits and the
    version has reached the recorded minimum.
   */
  lemma MinVersionExact(p: string, version: int)
    requires Comparisons(Split(Trim(p), '|', 0))
    ensures EvalPredicate(p, version) <==>
      version >= MinVersionFor(p) && exists n :: n in Numbers(Split(Trim(p), '|', 0)) && Atoi(n).Some?
  {
    hide *;
    var ds := Split(Trim(p), '|', 0);
    NotBlank(p);
    PredicateDisjuncts(p, version);
    SomeReached(p, version);
    PredicateThresholds(p);
    LeastReached(Numbers(ds), version);
    LeastOf(p);
  }

  lemma NotBlank(p: string)
    requires Comparisons(Split(Trim(p), '|', 0))
    ensures Trim(p) != ""
  {
    var t := Trim(p);
    EmptyIsNoComparison();
    EmptySplit(t);
    hide Trim, MatchGte, Split;
    assert MatchGte(Trim(Split(t, '|', 0)[0])).Some?;
  }

  lemma EmptySplit(t: string)
    ensures t == "" ==> Split(t, '|', 0)[0] == ""
  {
  }

  lemma EmptyIsNoComparison()
    ensures MatchGte(Trim("")).None?
  {
  }

  /** The scan of the whole text. */
  lemma PredicateThresholds(p: string)
    requires Comparisons(Split(Trim(p), '|', 0))
    ensures Thresholds(p) == Numbers(Split(Trim(p), '|', 0))
  {
    hide *;
    var t := Trim(p);
    var l, r := TrimParts(p);
    SplitLossless(t, '|', 0);
    Bars();
    SplitSome(t);
    DisjunctionThresholds(Split(t, '|', 0), r);
    BlankNotGreater(l);
    ThresholdsSkip(l, t + r);
    Associate(l, t, r);
  }

  lemma Bars()
    ensures ['|', '|'] == "||"
  {
  }

  lemma SplitSome(t: string)
    ensures Split(t, '|', 0) != []
  {
  }

  lemma {:induction false} NumbersAt(ds: seq<string>, i: nat)
    requires Comparisons(ds) && i < |ds|
    ensures |Numbers(ds)| == |ds| && Numbers(ds)[i] == MatchGte(Trim(ds[i])).value
  {
    hide MatchGte, Trim;
    if |ds| > 1 {
      NumbersAt(ds[1..], if i > 0 then i - 1 else 0);
    }
  }

  lemma NumbersSize(ds: seq<string>)
    requires Comparisons(ds)
    ensures |Numbers(ds)| == |ds|
  {
    if ds != [] {
      NumbersAt(ds, 0);
    }
  }

  lemma SomeReached(p: string, version: int)
    requires Comparisons(Split(Trim(p), '|', 0))
    ensures SomeDisjunct(Trim(p), version) <==>
            exists n :: n in Numbers(Split(Trim(p), '|', 0)) && Reached(n, version)
  {
    var ds := Split(Trim(p), '|', 0);
    NumbersSize(ds);
    var ns := Numbers(ds);
    forall i | 0 <= i < |ds| ensures EvalConjunct(ds[i], version) == Reached(ns[i], version) {
      hide *;
      NumbersAt(ds, i);
      ComparisonAt(ds, i);
      ComparisonHolds(ds[i], version);
    }
    hide EvalConjunct, Split, Trim, MatchGte, Numbers, Reached, Comparisons;
    PointwiseSome(ds, ns, version);
  }

  lemma ComparisonAt(ds: seq<string>, i: nat)
    requires Comparisons(ds) && i < |ds|
    ensures MatchGte(Trim(ds[i])).Some?
  {
    hide MatchGte, Trim;
  }

  lemma PointwiseSome(ds: seq<string>, ns: seq<string>, version: int)
    requires |ds| == |ns| && forall i :: 0 <= i < |ds| ==> EvalConjunct(ds[i], version) == Reached(ns[i], version)
    ensures (exists i :: 0 <= i < |ds| && EvalConjunct(ds[i], version)) <==> exists n :: n in ns && Reached(n, version)
  {
    hide EvalConjunct, Reached;
    if i :| 0 <= i < |ds| && EvalConjunct(ds[i], version) {
      assert ns[i] in ns && Reached(ns[i], version);
    }
    if n :| n in ns && Reached(n, version) {
      var i :| 0 <= i < |ns| && ns[i] == n;
      assert EvalConjunct(ds[i], version);
    }
  }

  /** Some number is reached when one fits and the least of those that fit is reached. */
  lemma LeastReached(ns: seq<string>, version: int)
    ensures (exists n :: n in ns && Reached(n, version)) <==> Least(ns).Some? && version >= Least(ns).value
    ensures Least(ns).Some? <==> exists n :: n in ns && Atoi(n).Some?
  {
    LeastIsMinimum(ns);
    hide Least, Atoi;
    if n :| n in ns && Reached(n, version) {
      var i :| 0 <= i < |ns| && ns[i] == n;
    }
    if n :| n in ns && Atoi(n).Some? {
      var i :| 0 <= i < |ns| && ns[i] == n;
    }
    if Least(ns).Some? {
      var i :| 0 <= i < |ns| && Atoi(ns[i]) == Least(ns);
      assert ns[i] in ns;
      assert version >= Least(ns).value ==> Reached(ns[i], version);
    }
  }

  lemma LeastOf(p: string)
    ensures MinVersionFor(p) == match Least(Thresholds(p)) case Some(v) => v case None => 0
  {
  }

  // ----- disjunctions of conjunctions of comparisons -----

  /** Every term of every disjunct is a comparison. */
  ghost predicate Conjunctive(p: string) {
    forall i :: 0 <= i < |Split(Trim(p), '|', 0)| ==> Comparisons(Split(Split(Trim(p), '|', 0)[i], '&', 0))
  }

  /** The numbers of one disjunct. */
  ghost function Needs(d: string): seq<string>
    requires Comparisons(Split(d, '&', 0))
  {
    Numbers(Split(d, '&', 0))
  }

  /** A conjunction of comparisons holds from its greatest number on. */
  lemma ConjunctReached(d: string, version: int)
    requires Comparisons(Split(d, '&', 0))
    ensures Needs(d) != []
    ensures EvalConjunct(d, version) <==> forall n :: n in Needs(d) ==> Reached(n, version)
  {
    var qs := Split(d, '&', 0);
    NumbersSize(qs);
    var ns := Needs(d);
    forall j | 0 <= j < |qs| ensures TermHolds(qs[j], version) == Reached(ns[j], version) {
      hide *;
      ComparisonAt(qs, j);
      NumbersAt(qs, j);
      NeedsAre(d);
      PieceReached(qs[j], version);
    }
    hide TermHolds, Reached, Split, Numbers, Comparisons;
    if EvalConjunct(d, version) {
      forall n | n in ns ensures Reached(n, version) {
        var j :| 0 <= j < |ns| && ns[j] == n;
        assert TermHolds(qs[j], version);
      }
    }
  }

  lemma NeedsAre(d: string)
    requires Comparisons(Split(d, '&', 0))
    ensures Needs(d) == Numbers(Split(d, '&', 0))
  {
  }

  lemma PieceReached(q: string, version: int)
    requires MatchGte(Trim(q)).Some?
    ensures TermHolds(q, version) == Reached(MatchGte(Trim(q)).value, version)
  {
    var x, y := TrimParts(q);
    TrimTight(Trim(q));
    assert Trim(q) != "";
    hide EvalTerm, Trim, MatchGte, Reached;
    GateTerm(Trim(q), version);
  }

  lemma ConjunctiveGated(p: string)
    requires Conjunctive(p)
    ensures Gated(p)
  {
    var ds := Split(Trim(p), '|', 0);
    forall i | 0 <= i < |ds| ensures HasGate(ds[i]) {
      assert Comparisons(Split(ds[i], '&', 0));
      assert |Split(ds[i], '&', 0)| > 0;
      assert MatchGte(Trim(Split(ds[i], '&', 0)[0])).Some?;
    }
  }

  /** Every number of a disjunct is found by the scan, so none that fits is below the recorded minimum. */
  lemma NeedsFound(p: string, i: nat, n: string)
    requires Conjunctive(p) && i < |Split(Trim(p), '|', 0)| && n in Needs(Split(Trim(p), '|', 0)[i]) && Atoi(n).Some?
    ensures Atoi(n).value >= MinVersionFor(p)
  {
    var d := Split(Trim(p), '|', 0)[i];
    var qs := Split(d, '&', 0);
    NumbersSize(qs);
    hide *;
    NeedsAre(d);
    var j :| 0 <= j < |Numbers(qs)| && Numbers(qs)[j] == n;
    NumbersAt(qs, j);
    ComparisonAt(qs, j);
    var left, right := DisjunctIn(p, i);
    GateIsFound(d, j, left, right);
    ReachedOrBelow(n, Atoi(n).value);
    LeastBound(p, n, Atoi(n).value);
  }

  /** What the recorded minimum is documented to be. */
  ghost predicate Documented(p: string) {
    forall version :: EvalPredicate(p, version) <==> version >= MinVersionFor(p)
  }

  /** Every number of the disjunct is `least`. */
  ghost predicate AllNeed(d: string, least: int)
    requires Comparisons(Split(d, '&', 0))
  {
    forall n :: n in Needs(d) ==> Atoi(n) == Some(least)
  }

  /** The recorded minimum is what it is documented to be exactly when some disjunct has every number equal to it. */
  lemma MinVersionMeets(p: string)
    requires Conjunctive(p)
    ensures Documented(p) <==>
      exists i :: 0 <= i < |Split(Trim(p), '|', 0)| && AllNeed(Split(Trim(p), '|', 0)[i], MinVersionFor(p))
  {
    hide EvalPredicate, AllNeed, MinVersionFor, Split, Trim, Comparisons;
    if Documented(p) {
      assert EvalPredicate(p, MinVersionFor(p));
      var i := DisjunctMeets(p, MinVersionFor(p));
    }
    if i :| 0 <= i < |Split(Trim(p), '|', 0)| && AllNeed(Split(Trim(p), '|', 0)[i], MinVersionFor(p)) {
      forall version ensures EvalPredicate(p, version) <==> version >= MinVersionFor(p) {
        MinimumReached(p, i, version);
      }
    }
  }

  lemma DisjunctMeets(p: string, least: int) returns (i: nat)
    requires Conjunctive(p) && least == MinVersionFor(p) && EvalPredicate(p, least)
    ensures i < |Split(Trim(p), '|', 0)| && AllNeed(Split(Trim(p), '|', 0)[i], least)
  {
    var ds := Split(Trim(p), '|', 0);
    PredicateDisjuncts(p, least);
    hide EvalPredicate, EvalConjunct, Needs, Atoi, MinVersionFor, Split, Trim, Comparisons;
    i :| 0 <= i < |ds| && EvalConjunct(ds[i], least);
    hide *;
    HeldDisjunct(p, i, least);
  }

  lemma HeldDisjunct(p: string, i: nat, least: int)
    requires Conjunctive(p) && least == MinVersionFor(p) && i < |Split(Trim(p), '|', 0)|
    requires EvalConjunct(Split(Trim(p), '|', 0)[i], least)
    ensures AllNeed(Split(Trim(p), '|', 0)[i], least)
  {
    var d := Split(Trim(p), '|', 0)[i];
    hide EvalPredicate, EvalConjunct, Needs, Atoi, MinVersionFor, Split, Trim, Comparisons;
    ConjunctReached(d, least);
    forall n | n in Needs(d) ensures Atoi(n) == Some(least) {
      assert Reached(n, least);
      NeedsFound(p, i, n);
    }
  }

  lemma MinimumReached(p: string, i: nat, version: int)
    requires Conjunctive(p) && i < |Split(Trim(p), '|', 0)|
    requires AllNeed(Split(Trim(p), '|', 0)[i], MinVersionFor(p))
    ensures EvalPredicate(p, version) <==> version >= MinVersionFor(p)
  {
    var ds := Split(Trim(p), '|', 0);
    var d := ds[i];
    assert Comparisons(Split(d, '&', 0));
    ConjunctiveGated(p);
    hide EvalPredicate, EvalConjunct, Needs, Atoi, MinVersionFor, Split, Trim, Comparisons, Gated;
    if EvalPredicate(p, version) {
      MinVersionBounds(p, version);
    }
    if version >= MinVersionFor(p) {
      ConjunctReached(d, version);
      assert EvalConjunct(d, version);
      SomeDisjunctHolds(p, i, version);
    }
  }

  lemma SomeDisjunctHolds(p: string, i: nat, version: int)
    requires i < |Split(Trim(p), '|', 0)| && EvalConjunct(Split(Trim(p), '|', 0)[i], version)
    requires Comparisons(Split(Split(Trim(p), '|', 0)[i], '&', 0))
    ensures EvalPredicate(p, version)
  {
    PredicateDisjuncts(p, version);
    NoTermsInBlank(Trim(p), i);
    hide EvalPredicate, EvalConjunct, Comparisons, Trim, Split;
  }

  lemma NoTermsInBlank(t: string, i: nat)
    requires i < |Split(t, '|', 0)|
    ensures t == "" ==> !Comparisons(Split(Split(t, '|', 0)[i], '&', 0))
  {
    EmptyIsNoComparison();
    hide MatchGte, Trim;
    assert Split("", '&', 0) == [""] && Split("", '|', 0) == [""];
  }

  // ----- the true threshold -----

  /** The greatest of some numbers, if all fit. */
  function Greatest(ns: seq<string>): Option<int>
    requires ns != []
  {
    if |ns| == 1 then Atoi(ns[0])
    else
      match (Atoi(ns[0]), Greatest(ns[1..]))
      case (Some(a), Some(b)) => Some(Max(a, b))
      case _ => None
  }

  lemma {:induction false} GreatestReached(ns: seq<string>, version: int)
    requires ns != []
    ensures (forall n :: n in ns ==> Reached(n, version)) <==> Greatest(ns).Some? && version >= Greatest(ns).value
  {
    hide Atoi;
    if |ns| == 1 {
      assert ns == [ns[0]];
    } else {
      var rest := ns[1..];
      GreatestReached(rest, version);
      assert ns == [ns[0]] + rest;
      assert (forall n :: n in ns ==> Reached(n, version)) <==>
        Reached(ns[0], version) && forall n :: n in rest ==> Reached(n, version);
    }
  }

  /** The first version at which some disjunct holds. */
  ghost function Soonest(ds: seq<string>): Option<int>
    requires forall i :: 0 <= i < |ds| ==> Comparisons(Split(ds[i], '&', 0)) && Needs(ds[i]) != []
  {
    if ds == [] then None
    else
      match (Greatest(Needs(ds[0])), Soonest(ds[1..]))
      case (None, m) => m
      case (Some(a), None) => Some(a)
      case (Some(a), Some(b)) => Some(if a < b then a else b)
  }

  lemma {:induction false} SoonestReached(ds: seq<string>, version: int)
    requires forall i :: 0 <= i < |ds| ==> Comparisons(Split(ds[i], '&', 0)) && Needs(ds[i]) != []
    ensures (exists i :: 0 <= i < |ds| && EvalConjunct(ds[i], version)) <==>
            Soonest(ds).Some? && version >= Soonest(ds).value
  {
    hide EvalConjunct, Needs, Split, Comparisons, Greatest;
    if ds != [] {
      var rest := ds[1..];
      ConjunctReached(ds[0], version);
      GreatestReached(Needs(ds[0]), version);
      SoonestReached(rest, version);
      if i :| 0 <= i < |ds| && EvalConjunct(ds[i], version) {
        assert i > 0 ==> rest[i - 1] == ds[i];
      }
      if i :| 0 <= i < |rest| && EvalConjunct(rest[i], version) {
        assert rest[i] == ds[i + 1];
      }
    }
  }

  /** The true threshold: the least over the disjuncts of the greatest number in each. */
  lemma TrueThreshold(p: string, version: int)
    requires Conjunctive(p)
    ensures forall i :: 0 <= i < |Split(Trim(p), '|', 0)| ==>
      Comparisons(Split(Split(Trim(p), '|', 0)[i], '&', 0)) && Needs(Split(Trim(p), '|', 0)[i]) != []
    ensures var s := Soonest(Split(Trim(p), '|', 0)); EvalPredicate(p, version) <==> s.Some? && version >= s.value
  {
    var ds := Split(Trim(p), '|', 0);
    PredicateDisjuncts(p, version);
    NoTermsInBlank(Trim(p), 0);
    assert Comparisons(Split(ds[0], '&', 0));
    hide EvalPredicate, EvalConjunct, Needs, Split, Trim, Comparisons, Soonest;
    forall i | 0 <= i < |ds| ensures Needs(ds[i]) != [] {
      ConjunctReached(ds[i], version);
    }
    SoonestReached(ds, version);
  }

  // ----- nested gates -----

  /** A frame for each of the nested #if heads. */
  function Nest(heads: seq<string>): seq<Frame> {
    if heads == [] then [] else [Frame(heads[0], [])] + Nest(heads[1..])
  }

  ghost predicate Gates(heads: seq<string>) {
    forall i :: 0 <= i < |heads| ==> Tight(heads[i]) && MatchGte(heads[i]).Some?
  }

  lemma {:induction false} NestParts(heads: seq<string>)
    requires Gates(heads)
    ensures Parts(Nest(heads)) == heads
  {
    if heads != [] {
      NestParts(heads[1..]);
      assert heads[0] != "";
      assert FrameParts(Frame(heads[0], [])) == [heads[0]];
      assert ([Frame(heads[0], [])] + Nest(heads[1..]))[1..] == Nest(heads[1..]);
      hide MatchGte;
    }
  }

  lemma GatesCompare(heads: seq<string>)
    requires Gates(heads)
    ensures Comparisons(heads) && forall i :: 0 <= i < |heads| ==> Trim(heads[i]) == heads[i]
  {
    hide MatchGte, Trim;
    forall i | 0 <= i < |heads| ensures Trim(heads[i]) == heads[i] {
      TrimTight(heads[i]);
    }
  }

  /** The scan of nested gates joined with && finds their numbers in order. */
  lemma {:induction false} NestThresholds(heads: seq<string>)
    requires heads != [] && Gates(heads) && Comparisons(heads)
    ensures Thresholds(Join(heads, AND)) == Numbers(heads)
  {
    var h, rest := heads[0], heads[1..];
    NumbersCons(heads);
    JoinConsAnd(heads);
    GatesRest(heads);
    hide *;
    TrimTight(h);
    if |heads| == 1 {
      GateThresholds(h, "");
      Nothing(h);
    } else {
      NestThresholds(rest);
      AndSkips(Join(rest, AND));
      GateThresholds(h, AND + Join(rest, AND));
      Associate(h, AND, Join(rest, AND));
    }
  }

  lemma GatesRest(heads: seq<string>)
    requires heads != [] && Gates(heads)
    ensures Gates(heads[1..]) && Tight(heads[0]) && MatchGte(heads[0]).Some?
  {
    hide MatchGte;
  }

  lemma Nothing(h: string)
    ensures h + "" == h && Thresholds("") == [] && forall n: string :: [n] + Thresholds("") == [n]
  {
  }

  lemma AndSkips(c: string)
    ensures Thresholds(AND + c) == Thresholds(c) && AND + c != "" && !IsDigit((AND + c)[0])
  {
    ElseChars();
    hide Thresholds;
    ThresholdsSkip(AND, c);
  }

  lemma JoinConsAnd(heads: seq<string>)
    requires heads != []
    ensures Join(heads, AND) == if |heads| == 1 then heads[0] else heads[0] + AND + Join(heads[1..], AND)
  {
  }

  /** Of nested comparisons joined into one text the scan gives the least number; it holds from the greatest on. */
  lemma NestedText(heads: seq<string>, version: int)
    requires heads != [] && Gates(heads)
    ensures Comparisons(heads) && Numbers(heads) != []
    ensures var p, ns := ActivePredicate(Nest(heads)), Numbers(heads);
      && MinVersionFor(p) == (match Least(ns) case Some(v) => v case None => 0)
      && (Included(p, version) <==> Greatest(ns).Some? && version >= Greatest(ns).value)
  {
    hide *;
    GatesCompare(heads);
    NumbersCons(heads);
    NestParts(heads);
    ActiveIsJoin(heads);
    NestThresholds(heads);
    LeastOf(Join(heads, AND));
    GatesJoin(heads, version);
    GreatestReached(Numbers(heads), version);
  }

  /** So the two agree exactly when all the numbers are the same. */
  lemma NestedTextMeets(heads: seq<string>)
    requires heads != [] && Gates(heads)
    ensures Comparisons(heads) && Numbers(heads) != []
    ensures var p := ActivePredicate(Nest(heads));
      (forall version :: Included(p, version) <==> version >= MinVersionFor(p)) <==>
        forall n :: n in Numbers(heads) ==> Atoi(n) == Some(MinVersionFor(p))
  {
    var p := ActivePredicate(Nest(heads));
    var least := MinVersionFor(p);
    hide ActivePredicate, MinVersionFor, Included, Gates, MatchGte, Thresholds, Atoi, Greatest, Numbers, Comparisons;
    NestedText(heads, least);
    var ns := Numbers(heads);
    forall version ensures Included(p, version) <==> Greatest(ns).Some? && version >= Greatest(ns).value {
      NestedText(heads, version);
    }
    GreatestReached(ns, least);
    LeastOfSome(ns);
    if forall version :: Included(p, version) <==> version >= least {
      assert Included(p, least);
      forall n | n in ns ensures Atoi(n) == Some(least) {
        assert Reached(n, least);
      }
    }
    if forall n :: n in ns ==> Atoi(n) == Some(least) {
      AllOneGreatest(ns, least);
    }
  }

  lemma LeastOfSome(ns: seq<string>)
    ensures forall n :: n in ns && Atoi(n).Some? ==> Least(ns).Some? && Least(ns).value <= Atoi(n).value
  {
    LeastIsMinimum(ns);
    hide Least, Atoi;
    forall n | n in ns && Atoi(n).Some? ensures Least(ns).Some? && Least(ns).value <= Atoi(n).value {
      var i :| 0 <= i < |ns| && ns[i] == n;
    }
  }

  lemma {:induction false} AllOneGreatest(ns: seq<string>, v: int)
    requires ns != [] && forall n :: n in ns ==> Atoi(n) == Some(v)
    ensures Greatest(ns) == Some(v)
  {
    hide Atoi;
    assert ns[0] in ns;
    if |ns| > 1 {
      assert forall n :: n in ns[1..] ==> n in ns;
      AllOneGreatest(ns[1..], v);
    }
  }

  lemma ActiveIsJoin(heads: seq<string>)
    requires Parts(Nest(heads)) == heads
    ensures ActivePredicate(Nest(heads)) == Join(heads, AND)
  {
    hide Parts, Join;
  }

  lemma GatesJoin(heads: seq<string>, version: int)
    requires heads != [] && Gates(heads) && Comparisons(heads)
    ensures Included(Join(heads, AND), version) <==> forall n :: n in Numbers(heads) ==> Reached(n, version)
  {
    var ns := Numbers(heads);
    NumbersSize(heads);
    forall i | 0 <= i < |heads|
      ensures Part(heads[i]) && NoTopLevelOr(heads[i]) && EvalPredicate(heads[i], version) == Reached(ns[i], version)
    {
      assert Tight(heads[i]) && MatchGte(heads[i]).Some?;
      hide *;
      TrimTight(heads[i]);
      NumbersAt(heads, i);
      GatePart(heads[i], version);
    }
    hide *;
    JoinExact(heads, version);
    JoinIsPart(heads);
    PartSome(Join(heads, AND));
    SomeIncluded(Join(heads, AND), version);
    PointwiseAll(heads, ns, version);
  }

  lemma SomeIncluded(p: string, version: int)
    requires p != ""
    ensures Included(p, version) == EvalPredicate(p, version)
  {
    hide EvalPredicate;
  }

  lemma PointwiseAll(heads: seq<string>, ns: seq<string>, version: int)
    requires |heads| == |ns|
    requires forall i :: 0 <= i < |heads| ==> EvalPredicate(heads[i], version) == Reached(ns[i], version)
    ensures (forall i :: 0 <= i < |heads| ==> EvalPredicate(heads[i], version)) <==> forall n :: n in ns ==> Reached(n, version)
  {
    hide EvalPredicate, Reached;
    if forall i :: 0 <= i < |heads| ==> EvalPredicate(heads[i], version) {
      forall n | n in ns ensures Reached(n, version) {
        var i :| 0 <= i < |ns| && ns[i] == n;
        assert EvalPredicate(heads[i], version);
      }
    }
  }

  lemma PartSome(p: string)
    requires Part(p)
    ensures p != ""
  {
  }

  lemma GatePart(t: string, version: int)
    requires Tight(t) && MatchGte(t).Some?
    ensures Part(t) && NoTopLevelOr(t) && EvalPredicate(t, version) == Reached(MatchGte(t).value, version)
  {
    hide *;
    GateIsPlain(t);
    ComparisonSound(t, version);
    SoundIsPart(t);
    GatePlain(t);
    GateNoBar(t);
    PlainIsWhole(t, '|');
    WholeHasNoOr(t);
  }

  lemma WholeHasNoOr(t: string)
    requires Split(t, '|', 0) == [t]
    ensures NoTopLevelOr(t)
  {
  }

  // ----- the minimum version of an #else group -----

  /** Of the negated comparison in front of the sentinel the scan gives the number, below which the text holds. */
  lemma ElseText(t: string, version: int)
    requires Tight(t) && MatchGte(t).Some? && Atoi(MatchGte(t).value).Some?
    ensures var p := ActivePredicate([Frame(ELSE, [t])]);
      && MinVersionFor(p) == Atoi(MatchGte(t).value).value
      && (Included(p, version) <==> version < MinVersionFor(p))
  {
    hide *;
    GateIsPlain(t);
    ComparisonSound(t, version);
    ElseThresholds(t);
    ElseFrameGood(t, version);
    ActiveAlone(Frame(ELSE, [t]), version);
    OneNumber(MatchGte(t).value);
    LeastOf(ActivePredicate([Frame(ELSE, [t])]));
    ReachedOrBelow(MatchGte(t).value, version);
  }

  lemma ReachedOrBelow(n: string, version: int)
    requires Atoi(n).Some?
    ensures Reached(n, version) <==> !(version < Atoi(n).value)
  {
  }

  lemma OneNumber(n: string)
    ensures Least([n]) == Atoi(n)
  {
    hide Atoi;
    assert [n][1..] == [];
  }

  lemma ComparisonSound(t: string, version: int)
    requires Tight(t) && MatchGte(t).Some? && All(t, GateChar) && t != ""
    ensures Sound(t) && (EvalPredicate(t, version) <==> Reached(MatchGte(t).value, version))
  {
    hide *;
    GatePlain(t);
    GateNoBar(t);
    PlainIsWhole(t, '&');
    PlainIsWhole(t, '|');
    PlainIsBalanced(t);
    TrimTight(t);
    GateTerm(t, version);
    OneTerm(t, version);
    SoundWord(t);
  }

  lemma GateNoBar(t: string)
    requires All(t, GateChar)
    ensures forall i :: 0 <= i < |t| ==> t[i] != '|'
  {
    assert forall i :: 0 <= i < |t| ==> GateChar(t[i]);
  }

  lemma ElseFrameGood(t: string, version: int)
    requires Sound(t) && t != ""
    ensures var f := Frame(ELSE, [t]);
      GoodFrame(f) && PlainFrame(f) && (FrameTrue(f, version) <==> !EvalPredicate(t, version))
  {
    ElseStored(version);
    hide Sound, EvalPredicate, NoTopLevelOr;
    assert forall i :: 0 <= i < |[t]| ==> [t][i] == t;
    assert AllFail([t], version) <==> Fails([t][0], version);
  }

  lemma ElseThresholds(t: string)
    requires MatchGte(t).Some? && t != ""
    ensures Thresholds(ActivePredicate([Frame(ELSE, [t])])) == [MatchGte(t).value]
  {
    hide *;
    ElseWritten(t);
    TailChars();
    ThresholdsSkip("!(", t + (")" + AND + ELSE));
    GateThresholds(t, ")" + AND + ELSE);
    ThresholdsNone(")" + AND + ELSE);
  }

  lemma TailChars()
    ensures All("!(", NotGreater)
    ensures var c := ")" + AND + ELSE; All(c, NotGreater) && c != "" && !IsDigit(c[0])
  {
    hide All;
    AllConcat(")" + AND, ELSE, NotGreater);
    AllConcat(")", AND, NotGreater);
    ElseChars();
  }

  lemma ElseChars()
    ensures All("!(", NotGreater) && All(")", NotGreater) && All(AND, NotGreater) && All(ELSE, NotGreater)
  {
  }

  lemma ElseWritten(t: string)
    requires t != ""
    ensures ActivePredicate([Frame(ELSE, [t])]) == "!(" + (t + (")" + AND + ELSE))
  {
    ElseIsPlain();
    TwoParts(t, ELSE);
    hide ActivePredicate;
  }
}
