/**
  The two recognisers of the evaluator written out by hand accept exactly the
  texts of the patterns they stand for.
 */
module Atoms {
  import opened Options
  import opened Text
  import opened Predicate
  import opened PredicateProofs
  import opened Versions

  // ----- the patterns, character by character -----

  predicate Letter(c: char) {
    'A' <= c <= 'Z' || 'a' <= c <= 'z' || c == '_'
  }

  predicate Digit(c: char) {
    '0' <= c <= '9'
  }

  predicate Identifier(s: string) {
    s != "" && Letter(s[0]) && forall i :: 0 <= i < |s| ==> Letter(s[i]) || Digit(s[i])
  }

  /** Blanks, tabs, line feeds, form feeds and carriage returns. */
  predicate Gap(s: string) {
    forall i :: 0 <= i < |s| ==> s[i] == ' ' || s[i] == '\t' || s[i] == '\n' || s[i] == '\U{000C}' || s[i] == '\r'
  }

  predicate Digits(s: string) {
    s != "" && forall i :: 0 <= i < |s| ==> Digit(s[i])
  }

  /** Digits with a minus sign or without. */
  predicate Number(s: string) {
    Digits(s) || (s != "" && s[0] == '-' && Digits(s[1..]))
  }

  /** A comparison: name, `>=`, number. */
  function GteText(name: string, b1: string, b2: string, n: string, b3: string): string {
    name + (b1 + (GTE + (b2 + (n + b3))))
  }

  ghost predicate IsGte(s: string, name: string, b1: string, b2: string, n: string, b3: string) {
    s == GteText(name, b1, b2, n, b3) && Identifier(name) && Gap(b1) && Gap(b2) && Number(n) && Gap(b3)
  }

  /** A definedness check: `defined`, parenthesis, name, parenthesis. */
  function DefinedText(b0: string, b1: string, b2: string, name: string, b3: string, b4: string): string {
    b0 + ("defined" + (b1 + ("(" + (b2 + (name + (b3 + (")" + b4)))))))
  }

  ghost predicate IsDefined(s: string, b0: string, b1: string, b2: string, name: string, b3: string, b4: string) {
    && s == DefinedText(b0, b1, b2, name, b3, b4)
    && Gap(b0) && Gap(b1) && Gap(b2) && Identifier(name) && Gap(b3) && Gap(b4)
  }

  // ----- skipping -----

  lemma {:induction false} GapSkipped(b: string, c: string)
    requires Gap(b) && (c == "" || !Gap([c[0]]))
    ensures SkipSpaces(b + c) == c
  {
    if b == "" {
      assert b + c == c;
      assert c != "" ==> [c[0]][0] == c[0];
    } else {
      assert (b + c)[1..] == b[1..] + c;
      GapSkipped(b[1..], c);
    }
  }

  lemma {:induction false} DigitsSkipped(a: string, c: string)
    requires (forall i :: 0 <= i < |a| ==> Digit(a[i])) && (c == "" || !Digit(c[0]))
    ensures SkipDigits(a + c) == c
  {
    if a == "" {
      assert a + c == c;
    } else {
      assert (a + c)[1..] == a[1..] + c;
      DigitsSkipped(a[1..], c);
    }
  }

  lemma NameSkipped(name: string, c: string)
    requires Identifier(name) && c != "" && !Letter(c[0]) && !Digit(c[0])
    ensures SkipIdent(name + c) == c
  {
    SkipIdentPrefix(name, c);
  }

  lemma NumberFirst(n: string, c: string)
    requires Number(n) && (c == "" || !Digit(c[0]))
    ensures LeadingNumber(n + c) == Some((n, c))
    ensures n != "" && !Gap([n[0]])
  {
    var sign := if n[0] == '-' then 1 else 0;
    assert (n + c)[sign..] == n[sign..] + c;
    DigitsSkipped(n[sign..], c);
    assert (n + c)[..|n|] == n;
    assert [n[0]][0] == n[0];
    hide SkipDigits;
    NumberParts(n + c, sign, c, |n|);
  }

  // ----- the comparison recogniser -----

  lemma GteRecognised(name: string, b1: string, b2: string, n: string, b3: string)
    requires Identifier(name) && Gap(b1) && Gap(b2) && Number(n) && Gap(b3)
    ensures MatchGte(GteText(name, b1, b2, n, b3)) == Some(n)
  {
    var s := GteText(name, b1, b2, n, b3);
    var op := GTE + (b2 + (n + b3));
    assert b3 != "" ==> !Digit(b3[0]);
    assert (b1 + op)[0] == if b1 == "" then '>' else b1[0];
    assert s[0] == name[0] && op[0] == '>' && op[1] == '=' && op[2..] == b2 + (n + b3);
    assert [op[0]][0] == '>' && !Gap([op[0]]);
    NameSkipped(name, b1 + op);
    GapSkipped(b1, op);
    NumberFirst(n, b3);
    assert (n + b3)[0] == n[0];
    GapSkipped(b2, n + b3);
    GapSkipped(b3, "");
    assert b3 + "" == b3;
    hide SkipIdent, SkipSpaces, SkipDigits, LeadingNumber, Gap, Number;
  }

  lemma GteOnly(s: string) returns (name: string, b1: string, b2: string, b3: string)
    requires MatchGte(s).Some?
    ensures IsGte(s, name, b1, b2, MatchGte(s).value, b3)
  {
    GateShape(s);
    name := SkippedIdent(s);
    var mid := SkipIdent(s);
    b1 := SkippedSpaces(mid);
    var op := SkipSpaces(mid);
    hide MatchGte, SkipIdent, SkipSpaces, LeadingNumber, All;
    var rest := op[2..];
    b2 := SkippedSpaces(rest);
    var num := SkipSpaces(rest);
    var n, tail := LeadingNumber(num).value.0, LeadingNumber(num).value.1;
    NumberText(num);
    NumberIsNumber(num);
    AllSpaces(tail);
    b3 := tail;
    assert op == GTE + rest;
    GapOf(b1);
    GapOf(b2);
    GapOf(b3);
    NameOf(name, s);
  }

  lemma NumberIsNumber(s: string)
    requires LeadingNumber(s).Some?
    ensures Number(LeadingNumber(s).value.0)
  {
    var sign := if s[0] == '-' then 1 else 0;
    var rest := SkipDigits(s[sign..]);
    var x := SkippedDigits(s[sign..]);
    hide SkipDigits;
    var n := |s| - |rest|;
    NumberParts(s, sign, rest, n);
    assert s[..n] == s[..sign] + x;
    assert x != "";
    assert forall i :: 0 <= i < |x| ==> Digit(x[i]);
    if sign == 1 {
      assert s[..n][1..] == x && s[..n][0] == '-';
    } else {
      assert s[..n] == x;
    }
  }

  lemma GapOf(b: string)
    requires All(b, IsReSpace)
    ensures Gap(b)
  {
  }

  lemma NameOf(name: string, s: string)
    requires All(name, IsIdent) && name <= s && name != "" && IsIdentStart(s[0])
    ensures Identifier(name)
  {
  }

  /** The recogniser accepts exactly the texts name, gap, `>=`, gap, number, gap, and yields the number. */
  lemma GteExact(s: string, n: string)
    ensures MatchGte(s) == Some(n) <==> exists name, b1, b2, b3 :: IsGte(s, name, b1, b2, n, b3)
  {
    hide MatchGte;
    if MatchGte(s) == Some(n) {
      var name, b1, b2, b3 := GteOnly(s);
    }
    if name, b1, b2, b3 :| IsGte(s, name, b1, b2, n, b3) {
      GteRecognised(name, b1, b2, n, b3);
    }
  }

  // ----- the definedness recogniser -----

  lemma DefinedRecognised(b0: string, b1: string, b2: string, name: string, b3: string, b4: string)
    requires Gap(b0) && Gap(b1) && Gap(b2) && Identifier(name) && Gap(b3) && Gap(b4)
    ensures MatchDefined(DefinedText(b0, b1, b2, name, b3, b4))
  {
    var d := b3 + (")" + b4);
    var c := b2 + (name + d);
    var b := b1 + ("(" + c);
    var a := "defined" + b;
    Word(b, a);
    GapSkipped(b0, a);
    assert ["("[0]][0] == '(' && ("(" + c)[0] == '(' && ("(" + c)[1..] == c;
    GapSkipped(b1, "(" + c);
    assert (name + d)[0] == name[0];
    NotGap(name, d);
    GapSkipped(b2, name + d);
    assert (")" + b4)[0] == ')' && (")" + b4)[1..] == b4;
    assert d[0] == if b3 == "" then ')' else b3[0];
    NameSkipped(name, d);
    GapSkipped(b3, ")" + b4);
    GapSkipped(b4, "");
    assert b4 + "" == b4;
    hide SkipIdent, SkipSpaces, Gap, Identifier;
  }

  lemma NotGap(name: string, d: string)
    requires Identifier(name)
    ensures !Gap([(name + d)[0]])
  {
    assert [name[0]][0] == name[0];
  }

  lemma Word(b: string, a: string)
    requires a == "defined" + b
    ensures |a| >= 7 && a[..7] == "defined" && a[7..] == b && a[0] == 'd'
  {
  }

  lemma DefinedOnly(s: string) returns (b0: string, b1: string, b2: string, name: string, b3: string, b4: string)
    requires MatchDefined(s)
    ensures IsDefined(s, b0, b1, b2, name, b3, b4)
  {
    b0 := SkippedSpaces(s);
    var a := SkipSpaces(s);
    b1 := SkippedSpaces(a[7..]);
    var b := SkipSpaces(a[7..]);
    b2 := SkippedSpaces(b[1..]);
    var c := SkipSpaces(b[1..]);
    name := SkippedIdent(c);
    IdentSkips(c);
    b3 := SkippedSpaces(SkipIdent(c));
    var d := SkipSpaces(SkipIdent(c));
    b4 := d[1..];
    AllSpaces(b4);
    hide SkipIdent, SkipSpaces, All;
    GapOf(b0);
    GapOf(b1);
    GapOf(b2);
    GapOf(b3);
    GapOf(b4);
    NameOf(name, c);
    assert d == ")" + b4 && b == "(" + b[1..] && a == "defined" + a[7..];
  }

  /** The recogniser accepts exactly gap, `defined`, gap, `(`, gap, name, gap, `)`, gap. */
  lemma DefinedExact(s: string)
    ensures MatchDefined(s) <==> exists b0, b1, b2, name, b3, b4 :: IsDefined(s, b0, b1, b2, name, b3, b4)
  {
    hide MatchDefined;
    if MatchDefined(s) {
      var b0, b1, b2, name, b3, b4 := DefinedOnly(s);
    }
    if b0, b1, b2, name, b3, b4 :| IsDefined(s, b0, b1, b2, name, b3, b4) {
      DefinedRecognised(b0, b1, b2, name, b3, b4);
    }
  }
}
