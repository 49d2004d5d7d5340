/**
  The evaluator of #if predicates: disjunctions of conjunctions of terms,
  where a term is an atom, a parenthesised predicate or a negation.
 */
module Predicate {
  import opened Options
  import opened Text

  // ----- atoms -----

  /** What \s matches. */
  predicate IsReSpace(c: char) {
    c == ' ' || c == '\t' || c == '\n' || c == '\r' || c == '\U{000C}'
  }

  predicate IsDigit(c: char) {
    '0' <= c <= '9'
  }

  predicate IsIdentStart(c: char) {
    'A' <= c <= 'Z' || 'a' <= c <= 'z' || c == '_'
  }

  predicate IsIdent(c: char) {
    IsIdentStart(c) || IsDigit(c)
  }

  function SkipSpaces(s: string): (r: string)
    ensures |r| <= |s|
  {
    if s != "" && IsReSpace(s[0]) then SkipSpaces(s[1..]) else s
  }

  function SkipIdent(s: string): (r: string)
    ensures |r| <= |s|
  {
    if s != "" && IsIdent(s[0]) then SkipIdent(s[1..]) else s
  }

  function SkipDigits(s: string): (r: string)
    ensures |r| <= |s|
  {
    if s != "" && IsDigit(s[0]) then SkipDigits(s[1..]) else s
  }

  /** The number -?[0-9]+ at the front of `s`, and what follows it. */
  function LeadingNumber(s: string): Option<(string, string)> {
    var sign := if s != "" && s[0] == '-' then 1 else 0;
    var rest := SkipDigits(s[sign..]);
    if |rest| == |s| - sign then None else Some((s[..|s| - |rest|], rest))
  }

  function DigitsValue(s: string): nat {
    if s == "" then 0
    else if IsDigit(s[|s| - 1]) then 10 * DigitsValue(s[..|s| - 1]) + (s[|s| - 1] as int - '0' as int)
    else 0
  }

  /** strconv.Atoi on -?[0-9]+: the 64-bit value, or nothing when it does not fit. */
  function Atoi(s: string): Option<int> {
    var v: int := if s != "" && s[0] == '-' then 0 - DigitsValue(s[1..]) else DigitsValue(s);
    if -0x8000_0000_0000_0000 <= v < 0x8000_0000_0000_0000 then Some(v) else None
  }

  /** `<symbol> >= <integer>`: the digits of the integer. */
  function MatchGte(s: string): Option<string> {
    if s == "" || !IsIdentStart(s[0]) then None
    else
      var op := SkipSpaces(SkipIdent(s));
      if |op| < 2 || op[0] != '>' || op[1] != '=' then None
      else
        match LeadingNumber(SkipSpaces(op[2..]))
        case None => None
        case Some(found) => if SkipSpaces(found.1) == "" then Some(found.0) else None
  }

  /** `defined(IDENT)` with any blanks between the tokens. */
  predicate MatchDefined(s: string) {
    var a := SkipSpaces(s);
    && |a| >= 7 && a[..7] == "defined"
    && var b := SkipSpaces(a[7..]);
    && b != "" && b[0] == '('
    && var c := SkipSpaces(b[1..]);
    && c != "" && IsIdentStart(c[0])
    && var d := SkipSpaces(SkipIdent(c));
    && d != "" && d[0] == ')' && SkipSpaces(d[1..]) == ""
  }

  predicate StartsTrue(s: string) {
    |s| >= 4 && s[..4] == "true"
  }

  predicate EvalAtom(term: string, version: int) {
    if MatchDefined(term) then true
    else
      match MatchGte(term)
      case Some(number) =>
        (match Atoi(number)
         case Some(threshold) => version >= threshold
         case None => false)
      case None => StartsTrue(Trim(term))
  }

  // ----- terms, conjunctions, disjunctions -----

  predicate EvalPredicate(p: string, version: int)
    decreases |p|, 4
  {
    var t := Trim(p);
    t != "" && exists i :: 0 <= i < |Split(t, '|', 0)| && EvalConjunct(Trim(Split(t, '|', 0)[i]), version)
  }

  predicate EvalConjunct(s: string, version: int)
    decreases |s|, 3
  {
    forall i :: 0 <= i < |Split(s, '&', 0)| ==> TermHolds(Split(s, '&', 0)[i], version)
  }

  /** One piece of a conjunction; an empty one is passed over. */
  predicate TermHolds(piece: string, version: int)
    decreases |piece|, 2
  {
    Trim(piece) == "" || EvalTerm(Trim(piece), version)
  }

  predicate EvalTerm(term: string, version: int)
    decreases |term|, 1
  {
    var t := Trim(term);
    if t == "" then false
    else if t[0] == '!' then
      var inner := Trim(t[1..]);
      if inner == "" then false
      else if StripOuterParens(inner) != "" then !EvalPredicate(StripOuterParens(inner), version)
      else if HasTopLevelOp(inner) then !EvalPredicate(inner, version)
      else !EvalAtom(inner, version)
    else if StripOuterParens(t) != "" then EvalPredicate(StripOuterParens(t), version)
    else EvalAtom(t, version)
  }

  // ----- validation -----

  predicate ValidPredicate(p: string)
    decreases |p|, 3
  {
    var t := Trim(p);
    t != "" && forall i :: 0 <= i < |Split(t, '|', 0)| ==>
      var d := Split(t, '|', 0)[i];
      forall j :: 0 <= j < |Split(d, '&', 0)| ==> ValidTerm(Trim(Split(d, '&', 0)[j]))
  }

  predicate ValidTerm(term: string)
    decreases |term|, 1
  {
    var t := Trim(term);
    if t == "" then true
    else if t[0] == '!' then ValidTerm(Trim(t[1..]))
    else if StripOuterParens(t) != "" then ValidPredicate(StripOuterParens(t))
    else MatchDefined(t) || MatchGte(t).Some? || StartsTrue(Trim(t))
  }
}
