/**
  Why the heads must be balanced: the validator takes `true) && !true`, and
  under it the recorded predicate of the #else group excludes an entry that
  conditional inclusion keeps.
 */
module Unbalanced {
  import opened Options
  import opened Text
  import opened Predicate
  import opened PredicateProofs
  import opened Parser
  import opened Conditional
  import opened Flattening

  /** A word such as `true`. */
  ghost predicate TrueWord(t: string) {
    t != "" && Tight(t) && StartsTrue(t) && forall i :: 0 <= i < |t| ==> IsIdent(t[i])
  }

  /** `t) && !t`. */
  function Head(t: string): string {
    (t + ")") + AND + Denied(t)
  }

  function Denied(t: string): string {
    ['!'] + t
  }

  ghost predicate Whole(s: string, op: char)
    requires op != '(' && op != ')'
  {
    Split(s, op, 0) == [s]
  }

  lemma ClosedEarly(s: string, op: char)
    requires op == '&' || op == '|'
    requires Whole(s, op) && Depth(s, 0) == 0
    ensures Whole(s + ")", op) && Depth(s + ")", 0) == 0
  {
    SplitConcat(s, ")", op, 0);
    DepthConcat(s, ")", 0);
    CloserAlone(op);
    hide Split, Depth;
  }

  lemma CloserAlone(op: char)
    requires op == '&' || op == '|'
    ensures Split(")", op, 0) == [")"] && Depth(")", 0) == 0
  {
    assert ")"[1..] == "";
    assert ")" + "" == ")";
  }

  lemma WordFacts(t: string, version: int)
    requires TrueWord(t)
    ensures t != "" && Whole(t, '&') && Whole(t, '|') && Depth(t, 0) == 0 && t[0] == 't' && Trim(t) == t
    ensures EvalTerm(t, version) && Sound(t) && EvalPredicate(t, version)
  {
    assert t[0] == t[..4][0] == 't';
    hide *;
    WordParts(t);
    WordIsPlain(t);
    PlainIsWhole(t, '|');
    PlainIsWhole(t, '&');
    WordIsNoComparison(t);
    TrueAtom(t, version);
    WordHolds(t, version);
    TrimTight(t);
    WholeIntro(t);
  }

  lemma WordParts(t: string)
    requires TrueWord(t)
    ensures t != "" && Tight(t) && StartsTrue(t) && forall i :: 0 <= i < |t| ==> IsIdent(t[i])
  {
  }

  lemma WholeIntro(t: string)
    requires Split(t, '|', 0) == [t] && Split(t, '&', 0) == [t]
    ensures Whole(t, '|') && Whole(t, '&')
  {
  }

  /** How the pieces of the head look. */
  lemma HeadParts(t: string, version: int)
    requires TrueWord(t)
    ensures Whole(t + ")", '&') && Whole(t + ")", '|') && Depth(t + ")", 0) == 0
    ensures Whole(Denied(t), '&') && Whole(Denied(t), '|') && Depth(Denied(t), 0) == 0
    ensures Whole(Denied(t) + ")", '&') && Whole(Denied(t) + ")", '|') && Depth(Denied(t) + ")", 0) == 0
    ensures !EvalConjunct(Denied(t), version)
  {
    WordFacts(t, version);
    ClosedEarly(t, '&');
    ClosedEarly(t, '|');
    MarkedIsWhole('!', t, '&');
    MarkedIsWhole('!', t, '|');
    ClosedEarly(Denied(t), '&');
    ClosedEarly(Denied(t), '|');
    DeniedFails(t, version);
  }

  lemma DeniedFails(t: string, version: int)
    requires t != "" && Tight(t) && t[0] == 't' && Whole(t, '&') && Whole(t, '|') && Whole(Denied(t), '&')
    requires EvalTerm(t, version)
    ensures !EvalConjunct(Denied(t), version)
  {
    hide EvalTerm, Split;
    NegationExact(t, version);
    assert Denied(t) == "!" + t;
    TrimTight(Denied(t));
    assert !TermHolds(Split(Denied(t), '&', 0)[0], version);
  }

  lemma OneDisjunct(p: string, version: int)
    requires p != "" && Tight(p) && Whole(p, '|')
    ensures EvalPredicate(p, version) == EvalConjunct(p, version)
  {
    TightPredicate(p, version);
    hide EvalConjunct, EvalPredicate;
    assert Split(p, '|', 0)[0] == p;
  }

  lemma JoinedWhole(a: string, b: string)
    requires Whole(a, '|') && Whole(b, '|') && Depth(a, 0) == 0
    ensures Whole(a + AND + b, '|')
  {
    OrPieces(a, b);
    hide Split, Depth;
  }

  /** The head is false at every version. */
  lemma HeadFails(t: string, version: int)
    requires TrueWord(t)
    ensures Tight(Head(t)) && Whole(Head(t), '|') && !EvalPredicate(Head(t), version)
  {
    HeadParts(t, version);
    HeadTight(t);
    hide *;
    HeadIs(t);
    JoinedWhole(t + ")", Denied(t));
    AndConjunct(t + ")", Denied(t), version);
    OneDisjunct(Head(t), version);
  }

  lemma HeadIs(t: string)
    ensures Head(t) == (t + ")") + AND + Denied(t) && Head(t) != ""
  {
  }

  lemma HeadTight(t: string)
    requires TrueWord(t)
    ensures Tight(Head(t))
  {
    hide StartsTrue;
    assert Head(t)[0] == t[0] && Head(t)[|Head(t)| - 1] == t[|t| - 1];
  }

  /** Yet the validator accepts it. */
  lemma HeadAccepted(t: string)
    requires TrueWord(t)
    ensures Accepted(Head(t))
  {
    hide *;
    HeadIs(t);
    HeadFails(t, 0);
    HeadParts(t, 0);
    TrimTight(Head(t));
    AndPieces(t + ")", Denied(t));
    WholePieces(t + ")");
    WholePieces(Denied(t));
    HeadPieces(t);
    FirstValid(t);
    SecondValid(t);
    TwoTermsAccepted(Head(t), t + ")" + " ", " " + Denied(t));
  }

  lemma WholePieces(s: string)
    ensures Whole(s, '&') <==> Split(s, '&', 0) == [s]
  {
  }

  lemma TwoTermsAccepted(h: string, a: string, b: string)
    requires h != "" && Trim(h) == h && Whole(h, '|') && Split(h, '&', 0) == [a, b]
    requires ValidTerm(Trim(a)) && ValidTerm(Trim(b))
    ensures Accepted(h)
  {
    hide Split, Trim, ValidTerm;
    var ds := Split(h, '|', 0);
    assert forall i :: 0 <= i < |ds| ==> ds[i] == h;
    assert [a, b][0] == a && [a, b][1] == b;
  }

  lemma HeadPieces(t: string)
    ensures Fuse([t + ")"], [" "] + Glue(" ", [Denied(t)])) == [t + ")" + " ", " " + Denied(t)]
  {
    hide Denied;
  }

  lemma FirstValid(t: string)
    requires TrueWord(t)
    ensures ValidTerm(Trim(t + ")" + " "))
  {
    var s := t + ")";
    assert s[..4] == t[..4] && s[0] == t[..4][0] == 't';
    assert StartsTrue(s) && Tight(s);
    hide *;
    TrimOutside("", s, " ");
    PadRight(s);
    TrimTight(s);
    TrueIsValid(s);
  }

  lemma PadRight(s: string)
    ensures "" + s + " " == s + " "
  {
  }

  lemma TrueIsValid(s: string)
    requires s != "" && Trim(s) == s && StartsTrue(s) && s[0] == 't'
    ensures ValidTerm(s)
  {
    hide MatchGte, MatchDefined, Trim, StartsTrue;
  }

  lemma SecondValid(t: string)
    requires TrueWord(t)
    ensures ValidTerm(Trim(" " + Denied(t)))
  {
    var s := Denied(t);
    assert s[1..] == t && s[0] == '!' && t[0] == t[..4][0] == 't';
    assert Tight(s);
    assert " " + s + "" == " " + s;
    hide *;
    WordParts(t);
    TrimOutside(" ", s, "");
    TrimTight(s);
    TrimTight(t);
    TrueIsValid(t);
    DeniedIsValid(s, t);
  }

  lemma DeniedIsValid(s: string, t: string)
    requires s != "" && Trim(s) == s && s[0] == '!' && s[1..] == t && Trim(t) == t && ValidTerm(t)
    ensures ValidTerm(s)
  {
    hide MatchGte, MatchDefined, Trim;
  }

  /** The predicate recorded under the #else is false, because `!(t)` became a term of its own. */
  lemma ElseExcluded(t: string, version: int)
    requires TrueWord(t)
    ensures !Included(ActivePredicate([Frame(ELSE, [Head(t)])]), version)
  {
    hide *;
    var b := Denied(t) + ")";
    HeadIs(t);
    ElseWhole();
    TwoParts(Head(t), ELSE);
    Rearranged(t);
    HeadParts(t, version);
    JoinedWhole(b, ELSE);
    NegatedFails(t, version);
    JoinedWhole(Negated(t), b + AND + ELSE);
    AndConjunct(Negated(t), b + AND + ELSE, version);
    var p := Negated(t) + AND + (b + AND + ELSE);
    ElseEnds(Negated(t), b);
    OneDisjunct(p, version);
    NotIncluded(p, version);
  }

  lemma NotIncluded(p: string, version: int)
    requires p != "" && !EvalPredicate(p, version)
    ensures !Included(p, version)
  {
    hide EvalPredicate;
  }

  lemma ElseWhole()
    ensures ELSE != "" && Whole(ELSE, '|')
  {
    hide *;
    ElseIsPlain();
    PlainIsWhole(ELSE, '|');
    WholeOr(ELSE);
  }

  lemma WholeOr(s: string)
    requires Split(s, '|', 0) == [s]
    ensures Whole(s, '|')
  {
  }

  lemma Rearranged(t: string)
    ensures Negated(Head(t)) + AND + ELSE == Negated(t) + AND + ((Denied(t) + ")") + AND + ELSE)
  {
    hide Denied;
    assert Negated(Head(t)) == "!(" + ((t + ")") + AND + Denied(t)) + ")";
    assert Negated(Head(t)) == Negated(t) + AND + (Denied(t) + ")");
  }

  lemma ElseEnds(a: string, b: string)
    requires Part(a)
    ensures var p := a + AND + (b + AND + ELSE); p != "" && Tight(p)
  {
    hide Depth;
    ElseIsPlain();
    var p := a + AND + (b + AND + ELSE);
    assert p[0] == a[0] && p[|p| - 1] == ELSE[|ELSE| - 1];
  }

  lemma NegatedFails(t: string, version: int)
    requires TrueWord(t)
    ensures Part(Negated(t)) && Depth(Negated(t), 0) == 0 && Whole(Negated(t), '|') && !EvalConjunct(Negated(t), version)
  {
    hide *;
    WordFacts(t, version);
    SoundText(t);
    NegatedHolds(t, version);
    PartDepth(Negated(t));
    ParenthesisedIsWhole(t, '|');
    NegatedText(t);
    MarkedIsWhole('!', "(" + t + ")", '|');
    WholeOr(Negated(t));
    OneDisjunct(Negated(t), version);
  }

  lemma SoundText(t: string)
    requires Sound(t) && t != ""
    ensures Balanced(t) && Trim(t) != ""
  {
  }

  lemma PartDepth(p: string)
    requires Part(p)
    ensures p != "" && Tight(p) && Depth(p, 0) == 0
  {
  }

  lemma NegatedText(t: string)
    ensures Negated(t) == ['!'] + ("(" + t + ")")
  {
  }

  /**
    An accepted source with an unbalanced head: at every version conditional inclusion keeps the
    entry of its #else group, and the flattener leaves it out.
   */
  lemma UnbalancedExcludes(version: int, names: Names)
    ensures var items := [Section(IfTrue("true) && !true"), [], [ElseGroup([Define(1, 2)])])];
      && Heads(items, Accepted)
      && Kept(items, version, names, true) == [true]
      && |Recorded(items, [])| == 1 && !Included(Recorded(items, [])[0].condition, version)
  {
    hide *;
    TrueIsWord();
    TrueWordIntro("true");
    HeadText();
    HeadAccepted("true");
    HeadFails("true", version);
    ElseExcluded("true", version);
    TrimTight(Head("true"));
    ElseRecorded(Head("true"), version, names);
  }

  lemma TrueWordIntro(t: string)
    requires t != "" && Tight(t) && StartsTrue(t) && forall i :: 0 <= i < |t| ==> IsIdent(t[i])
    ensures TrueWord(t)
  {
  }

  lemma HeadText()
    ensures Head("true") == "true) && !true"
  {
  }

  lemma ElseRecorded(h: string, version: int, names: Names)
    requires Accepted(h) && !EvalPredicate(h, version) && Trim(h) == h
    ensures var items := [Section(IfTrue(h), [], [ElseGroup([Define(1, 2)])])];
      && Heads(items, Accepted)
      && Kept(items, version, names, true) == [true]
      && |Recorded(items, [])| == 1
      && Recorded(items, [])[0].condition == ActivePredicate([Frame(ELSE, [h])])
  {
    hide EvalPredicate, Trim, ActivePredicate, Accepted;
    var body := [Define(1, 2)];
    var bs := [ElseGroup(body)];
    var s := Section(IfTrue(h), [], bs);
    assert bs[1..] == [] && body[1..] == [] && [s][1..] == [];
    assert Heads(body, Accepted) && HeadsBranches(bs, Accepted) && HeadsItem(s, Accepted);
    assert Kept(body, version, names, true) == [true];
    assert KeptBranches(bs, version, names, true) == [true];
    assert KeptItem(s, version, names, true) == [true];
    var f := Frame(ELSE, [h]);
    assert NextFrame(bs[0], OpenerFrame(IfTrue(h))) == f;
    assert [] + [f] == [f];
    assert Recorded(body, [f]) == [MakeEntry(Packet(1, 2), [f])];
    assert RecordedBranches(bs, [], OpenerFrame(IfTrue(h))) == Recorded(body, [] + [f]) + [];
    assert RecordedItem(s, []) == [MakeEntry(Packet(1, 2), [f])];
  }
}
