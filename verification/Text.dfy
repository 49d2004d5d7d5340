/**
  Trimming and top-level splitting of predicate text: the two splitters and
  the outer-parentheses stripper as loops, and the functions they compute.
 */
module Text {

  /** What strings.TrimSpace removes, within ASCII. */
  predicate IsSpace(c: char) {
    c == ' ' || c == '\t' || c == '\n' || c == '\r' || c == '\U{000B}' || c == '\U{000C}'
  }

  function TrimLeft(s: string): (r: string)
    ensures |r| <= |s|
  {
    if s != "" && IsSpace(s[0]) then TrimLeft(s[1..]) else s
  }

  function TrimRight(s: string): (r: string)
    ensures |r| <= |s|
  {
    if s != "" && IsSpace(s[|s| - 1]) then TrimRight(s[..|s| - 1]) else s
  }

  function Trim(s: string): (r: string)
    ensures |r| <= |s|
  {
    TrimRight(TrimLeft(s))
  }

  predicate Blank(s: string) {
    forall i :: 0 <= i < |s| ==> IsSpace(s[i])
  }

  /** Nothing to trim at either end. */
  predicate Tight(s: string) {
    s == "" || (!IsSpace(s[0]) && !IsSpace(s[|s| - 1]))
  }

  // ----- depth -----

  /** Nesting depth after `s`, where a closing parenthesis at depth 0 is ignored. */
  function Depth(s: string, depth: nat): nat {
    if s == "" then depth
    else Depth(s[1..], if s[0] == '(' then depth + 1 else if s[0] == ')' && depth > 0 then depth - 1 else depth)
  }

  /** Every parenthesis of `s`, read inside `depth` open ones, closes in order and all end closed. */
  predicate Closes(s: string, depth: nat) {
    if s == "" then depth == 0
    else if s[0] == '(' then Closes(s[1..], depth + 1)
    else if s[0] == ')' then depth > 0 && Closes(s[1..], depth - 1)
    else Closes(s[1..], depth)
  }

  predicate Balanced(s: string) {
    Closes(s, 0)
  }

  // ----- splitting -----

  /** Text glued in front of the first piece. */
  function Glue(s: string, pieces: seq<string>): seq<string>
    requires pieces != []
  {
    [s + pieces[0]] + pieces[1..]
  }

  /** Two splits joined: the last piece of one and the first of the other become one piece. */
  function Fuse(a: seq<string>, b: seq<string>): seq<string>
    requires a != [] && b != []
  {
    a[..|a| - 1] + [a[|a| - 1] + b[0]] + b[1..]
  }

  function NextDepth(c: char, depth: nat): nat {
    if c == '(' then depth + 1 else if c == ')' && depth > 0 then depth - 1 else depth
  }

  predicate AtOp(s: string, op: char, depth: nat) {
    depth == 0 && |s| >= 2 && s[0] == op && s[1] == op
  }

  /** The pieces of `s` between doubled `op` characters at depth 0. */
  function Split(s: string, op: char, depth: nat): (pieces: seq<string>)
    requires op != '(' && op != ')'
    ensures pieces != []
    ensures forall i :: 0 <= i < |pieces| ==> |pieces[i]| <= |s|
    decreases |s|
  {
    if s == "" then [""]
    else if AtOp(s, op, depth) then [""] + Split(s[2..], op, 0)
    else Glue([s[0]], Split(s[1..], op, NextDepth(s[0], depth)))
  }

  /** What the splitting loop still has to produce when it stands at `i` with a piece begun at `last`. */
  ghost function Pending(s: string, op: char, depth: nat, last: nat, i: nat): seq<string>
    requires op != '(' && op != ')' && last <= i <= |s|
  {
    Glue(s[last..i], Split(s[i..], op, depth))
  }

  /** The pieces found so far and those still to come make up the whole split. */
  ghost predicate Found(s: string, op: char, out: seq<string>, depth: nat, last: nat, i: nat)
    requires op != '(' && op != ')' && last <= i <= |s|
  {
    Split(s, op, 0) == out + Pending(s, op, depth, last, i)
  }

  /** `out` is the split of `s` at top-level operators. */
  ghost predicate SplitsInto(s: string, op: char, out: seq<string>)
    requires op != '(' && op != ')'
  {
    out == Split(s, op, 0)
  }

  /** The loop of splitTopLevelOr and splitTopLevelAnd, which differ in the operator only. */
  method SplitTopLevel(s: string, op: char) returns (out: seq<string>)
    requires op != '(' && op != ')'
    ensures SplitsInto(s, op, out)
  {
    out := [];
    var depth: nat, last: nat := 0, 0;
    var i: nat := 0;
    FoundFirst(s, op);
    hide *;
    while i < |s|
      invariant last <= i <= |s|
      invariant Found(s, op, out, depth, last, i)
    {
      out, depth, last, i := ScanCharacter(s, op, out, depth, last, i);
    }
    FoundLast(s, op, out, depth, last, i);
    out := out + [s[last..]];
  }

  /** The body of the loop: count parentheses, cut at an operator outside them. */
  method ScanCharacter(s: string, op: char, out0: seq<string>, depth0: nat, last0: nat, i0: nat)
    returns (out: seq<string>, depth: nat, last: nat, i: nat)
    requires op != '(' && op != ')' && last0 <= i0 < |s| && Found(s, op, out0, depth0, last0, i0)
    ensures i0 < i && last <= i <= |s| && Found(s, op, out, depth, last, i)
  {
    out, depth, last, i := out0, depth0, last0, i0;
    FoundNext(s, op, out, depth, last, i);
    hide *;
    if s[i] == '(' {
      depth := depth + 1;
    } else if s[i] == ')' {
      if depth > 0 {
        depth := depth - 1;
      }
    } else if s[i] == op && depth == 0 && i + 1 < |s| && s[i + 1] == op {
      out := out + [s[last..i]];
      last := i + 2;
      i := i + 1;
    }
    i := i + 1;
  }

  lemma FoundFirst(s: string, op: char)
    requires op != '(' && op != ')'
    ensures Found(s, op, [], 0, 0, 0)
  {
    PendingEnds(s, op);
  }

  lemma FoundLast(s: string, op: char, out: seq<string>, depth: nat, last: nat, i: nat)
    requires op != '(' && op != ')' && last <= i == |s| && Found(s, op, out, depth, last, i)
    ensures SplitsInto(s, op, out + [s[last..]])
  {
    hide Split;
    PendingEnds(s, op);
  }

  /** One turn of the loop, by the character it stands at. */
  lemma FoundNext(s: string, op: char, out: seq<string>, depth: nat, last: nat, i: nat)
    requires op != '(' && op != ')' && last <= i < |s| && Found(s, op, out, depth, last, i)
    ensures s[i] == '(' ==> Found(s, op, out, depth + 1, last, i + 1)
    ensures s[i] == ')' ==> Found(s, op, out, if depth > 0 then depth - 1 else depth, last, i + 1)
    ensures s[i] != '(' && s[i] != ')' ==>
      if s[i] == op && depth == 0 && i + 1 < |s| && s[i + 1] == op
      then Found(s, op, out + [s[last..i]], depth, i + 2, i + 1 + 1)
      else Found(s, op, out, depth, last, i + 1)
  {
    PendingStep(s, op, depth, last, i);
    hide Split, Pending, Glue;
    assert AtOp(s[i..], op, depth) <==> s[i] == op && depth == 0 && i + 1 < |s| && s[i + 1] == op;
    if AtOp(s[i..], op, depth) {
      var later := Pending(s, op, 0, i + 2, i + 2);
      assert out + ([s[last..i]] + later) == (out + [s[last..i]]) + later;
    }
  }

  lemma PendingEnds(s: string, op: char)
    requires op != '(' && op != ')'
    ensures [] + Pending(s, op, 0, 0, 0) == Split(s, op, 0)
    ensures forall depth, last: nat :: last <= |s| ==> Pending(s, op, depth, last, |s|) == [s[last..]]
  {
    assert s[0..0] == "" && s[0..] == s;
    GlueNothing(Split(s, op, 0));
    assert s[|s|..] == "";
    forall last: nat | last <= |s| ensures s[last..|s|] + "" == s[last..] {
    }
  }

  /** One turn of the loop: at an operator a piece is finished, elsewhere it grows. */
  lemma PendingStep(s: string, op: char, depth: nat, last: nat, i: nat)
    requires op != '(' && op != ')' && last <= i < |s|
    ensures !AtOp(s[i..], op, depth) ==>
      Pending(s, op, depth, last, i) == Pending(s, op, NextDepth(s[i], depth), last, i + 1)
    ensures AtOp(s[i..], op, depth) ==>
      Pending(s, op, depth, last, i) == [s[last..i]] + Pending(s, op, 0, i + 2, i + 2)
  {
    var rest := s[i..];
    if AtOp(rest, op, depth) {
      assert rest[2..] == s[i + 2..] && s[last..i] + "" == s[last..i] && s[i + 2..i + 2] == "";
      GlueNothing(Split(s[i + 2..], op, 0));
    } else {
      assert rest[1..] == s[i + 1..];
      var ps := Split(s[i + 1..], op, NextDepth(s[i], depth));
      assert s[last..i] + ([s[i]] + ps[0]) == s[last..i + 1] + ps[0];
    }
  }

  lemma GlueNothing(pieces: seq<string>)
    requires pieces != []
    ensures Glue("", pieces) == pieces
  {
    assert "" + pieces[0] == pieces[0];
  }

  // ----- outer parentheses and operators -----

  /** The contents of one pair of parentheses around all of `s`, or "" when there is no such pair. */
  function StripOuterParens(s: string): (r: string)
    ensures r != "" ==> |r| + 2 <= |s|
  {
    var t := Trim(s);
    if |t| < 2 || t[0] != '(' || t[|t| - 1] != ')' || !Balanced(t[1..|t| - 1]) then ""
    else Trim(t[1..|t| - 1])
  }

  /** The counting loop of stripOuterParens finds out whether the first parenthesis closes last. */
  method StripOuter(s: string) returns (r: string)
    ensures r == StripOuterParens(s)
  {
    var t := Trim(s);
    if |t| < 2 || t[0] != '(' || t[|t| - 1] != ')' {
      return "";
    }
    var depth := 0;
    ghost var n := |t| - 1;
    var i := 0;
    while i < |t|
      invariant 0 <= i <= |t|
      invariant i == 0 ==> depth == 0
      invariant 1 <= i <= n ==> depth >= 1 && (Balanced(t[1..n]) <==> Closes(t[i..n], depth - 1))
      invariant i == |t| ==> depth >= 0 && (Balanced(t[1..n]) <==> depth == 0)
    {
      if 1 <= i < n {
        assert t[i..n][0] == t[i] && t[i..n][1..] == t[i + 1..n];
      } else if i == n {
        assert t[i..n] == "";
      }
      if t[i] == '(' {
        depth := depth + 1;
      } else if t[i] == ')' {
        depth := depth - 1;
        if depth == 0 && i != |t| - 1 {
          return "";
        }
      }
      i := i + 1;
    }
    if depth != 0 {
      return "";
    }
    return Trim(t[1..|t| - 1]);
  }

  /** A doubled '&' or '|' occurs outside parentheses. */
  predicate HasTopLevelOp(s: string) {
    |Split(s, '&', 0)| > 1 || |Split(s, '|', 0)| > 1
  }

  method FindTopLevelOp(s: string) returns (found: bool)
    ensures found == HasTopLevelOp(s)
  {
    var depth: nat := 0;
    assert s[0..] == s;
    var i := 0;
    while i < |s| - 1
      invariant 0 <= i <= |s| && (i == 0 || i < |s|)
      invariant |Split(s, '&', 0)| == |Split(s[i..], '&', depth)|
      invariant |Split(s, '|', 0)| == |Split(s[i..], '|', depth)|
    {
      var rest := s[i..];
      assert rest[1..] == s[i + 1..];
      if s[i] == '(' {
        depth := depth + 1;
      } else if s[i] == ')' {
        if depth > 0 {
          depth := depth - 1;
        }
      } else if s[i] == '&' && depth == 0 && s[i + 1] == '&' {
        return true;
      } else if s[i] == '|' && depth == 0 && s[i + 1] == '|' {
        return true;
      }
      i := i + 1;
    }
    ShortHasNoOp(s[i..], depth);
    return false;
  }

  lemma ShortHasNoOp(s: string, depth: nat)
    requires |s| <= 1
    ensures |Split(s, '&', depth)| == 1 && |Split(s, '|', depth)| == 1
  {
    if |s| == 1 {
      assert s[1..] == "";
    }
  }

  /** strings.Join. */
  function Join(pieces: seq<string>, sep: string): string {
    if pieces == [] then ""
    else if |pieces| == 1 then pieces[0]
    else pieces[0] + sep + Join(pieces[1..], sep)
  }

  /** Splitting loses nothing: joining the pieces with the doubled operator gives the text back. */
  lemma {:induction false} SplitLossless(s: string, op: char, depth: nat)
    requires op != '(' && op != ')'
    ensures Join(Split(s, op, depth), [op, op]) == s
    decreases |s|
  {
    if s == "" {
    } else if AtOp(s, op, depth) {
      SplitLossless(s[2..], op, 0);
      assert s == "" + [op, op] + s[2..];
    } else {
      var rest := Split(s[1..], op, NextDepth(s[0], depth));
      SplitLossless(s[1..], op, NextDepth(s[0], depth));
      JoinGlue([s[0]], rest, [op, op]);
      assert s == [s[0]] + s[1..];
    }
  }

  lemma JoinGlue(a: string, pieces: seq<string>, sep: string)
    requires pieces != []
    ensures Join(Glue(a, pieces), sep) == a + Join(pieces, sep)
  {
    if |pieces| > 1 {
      assert Glue(a, pieces)[1..] == pieces[1..];
      assert a + pieces[0] + sep + Join(pieces[1..], sep) == a + (pieces[0] + sep + Join(pieces[1..], sep));
    }
  }

  /** No piece can be split further: the first read at the starting depth, the others at depth 0. */
  lemma {:induction false} PiecesAreWhole(s: string, op: char, depth: nat, i: nat)
    requires op != '(' && op != ')' && i < |Split(s, op, depth)|
    ensures var p := Split(s, op, depth)[i]; Split(p, op, if i == 0 then depth else 0) == [p]
    decreases |s|
  {
    if s == "" {
    } else if AtOp(s, op, depth) {
      if i > 0 {
        PiecesAreWhole(s[2..], op, 0, i - 1);
      }
    } else {
      var d := NextDepth(s[0], depth);
      PiecesAreWhole(s[1..], op, d, i);
      if i == 0 {
        var q := Split(s[1..], op, d)[0];
        FirstPiecePrefix(s[1..], op, d);
        var p := [s[0]] + q;
        assert p[1..] == q;
        assert !AtOp(p, op, depth) by {
          if |q| > 0 {
            assert q[0] == s[1];
          }
        }
      }
    }
  }

  lemma {:induction false} FirstPiecePrefix(s: string, op: char, depth: nat)
    requires op != '(' && op != ')'
    ensures Split(s, op, depth)[0] <= s
    decreases |s|
  {
    if s != "" && !AtOp(s, op, depth) {
      FirstPiecePrefix(s[1..], op, NextDepth(s[0], depth));
    }
  }

  /** Every piece but the last closes what it opens; the last ends at the depth of the whole. */
  lemma {:induction false} PieceDepth(s: string, op: char, depth: nat, i: nat)
    requires op != '(' && op != ')' && i < |Split(s, op, depth)|
    ensures var ps := Split(s, op, depth);
      Depth(ps[i], if i == 0 then depth else 0) == if i == |ps| - 1 then Depth(s, depth) else 0
    decreases |s|
  {
    if s == "" {
    } else if AtOp(s, op, depth) {
      assert s[1..][1..] == s[2..];
      assert Depth(s, depth) == Depth(s[1..], 0) == Depth(s[2..], 0);
      if i > 0 {
        PieceDepth(s[2..], op, 0, i - 1);
      }
    } else {
      PieceDepth(s[1..], op, NextDepth(s[0], depth), i);
      if i == 0 {
        var q := Split(s[1..], op, NextDepth(s[0], depth))[0];
        assert ([s[0]] + q)[1..] == q;
      }
    }
  }

  // ----- putting text together -----

  lemma {:induction false} DepthConcat(a: string, b: string, depth: nat)
    ensures Depth(a + b, depth) == Depth(b, Depth(a, depth))
    decreases |a|
  {
    if a == "" {
      assert a + b == b;
    } else {
      assert (a + b)[1..] == a[1..] + b;
      DepthConcat(a[1..], b, NextDepth(a[0], depth));
    }
  }

  /** Splitting commutes with concatenation where no operator straddles the seam. */
  lemma {:induction false} SplitConcat(a: string, b: string, op: char, depth: nat)
    requires op != '(' && op != ')'
    requires b == "" || b[0] != op
    ensures Split(a + b, op, depth) == Fuse(Split(a, op, depth), Split(b, op, Depth(a, depth)))
    decreases |a|
  {
    var ab := a + b;
    if a == "" {
      assert ab == b;
      assert "" + Split(b, op, depth)[0] == Split(b, op, depth)[0];
    } else if AtOp(a, op, depth) {
      assert ab[2..] == a[2..] + b;
      assert a[1..][1..] == a[2..];
      assert Depth(a, depth) == Depth(a[1..], 0) == Depth(a[2..], 0);
      SplitConcat(a[2..], b, op, 0);
      FuseCons("", Split(a[2..], op, 0), Split(b, op, Depth(a, depth)));
    } else {
      assert ab[1..] == a[1..] + b;
      assert !AtOp(ab, op, depth);
      SplitConcat(a[1..], b, op, NextDepth(a[0], depth));
      FuseGlue([a[0]], Split(a[1..], op, NextDepth(a[0], depth)), Split(b, op, Depth(a, depth)));
    }
  }

  lemma FuseCons(p: string, a: seq<string>, b: seq<string>)
    requires a != [] && b != []
    ensures Fuse([p] + a, b) == [p] + Fuse(a, b)
  {
    assert ([p] + a)[..|a|] == [p] + a[..|a| - 1];
  }

  lemma FuseGlue(p: string, a: seq<string>, b: seq<string>)
    requires a != [] && b != []
    ensures Fuse(Glue(p, a), b) == Glue(p, Fuse(a, b))
  {
    if |a| == 1 {
      assert p + a[0] + b[0] == p + (a[0] + b[0]);
    } else {
      assert Glue(p, a)[..|a| - 1] == Glue(p, a[..|a| - 1]);
    }
  }

  /** Text that closes inside at least one more parenthesis is never split. */
  lemma {:induction false} SplitInside(h: string, rest: string, op: char, open: nat, depth: nat)
    requires op != '(' && op != ')'
    requires Closes(h, open) && depth > 0
    ensures Split(h + rest, op, depth + open) == Glue(h, Split(rest, op, depth))
    decreases |h|
  {
    if h == "" {
      assert h + rest == rest;
      GlueNothing(Split(rest, op, depth));
    } else {
      assert (h + rest)[1..] == h[1..] + rest;
      var inner := if h[0] == '(' then open + 1 else if h[0] == ')' then open - 1 else open;
      SplitInside(h[1..], rest, op, inner, depth);
      var ps := Split(rest, op, depth);
      assert [h[0]] + (h[1..] + ps[0]) == h + ps[0];
    }
  }

  lemma {:induction false} ClosesDepth(h: string, open: nat, depth: nat)
    requires Closes(h, open)
    ensures Depth(h, depth + open) == depth
    decreases |h|
  {
    if h != "" {
      ClosesDepth(h[1..], if h[0] == '(' then open + 1 else if h[0] == ')' then open - 1 else open, depth);
    }
  }

  /** `(h)` is one piece when `h` is balanced. */
  lemma ParenthesisedIsWhole(h: string, op: char)
    requires op != '(' && op != ')' && Balanced(h)
    ensures Split("(" + h + ")", op, 0) == ["(" + h + ")"] && Depth("(" + h + ")", 0) == 0
  {
    SplitInside(h, ")", op, 0, 1);
    assert ")"[1..] == "" && Split(")", op, 1) == Glue(")", Split("", op, 0)) == [")" + ""];
    assert ")" + "" == ")";
    assert Split(h + ")", op, 1) == [h + ")"];
    ClosesDepth(h, 0, 1);
    DepthConcat(h, ")", 1);
    assert Depth(")", 1) == Depth("", 0) == 0;
    hide Closes;
    OpenedIsWhole(h + ")", op);
    assert "(" + h + ")" == ['('] + (h + ")");
  }

  lemma OpenedIsWhole(tail: string, op: char)
    requires op != '(' && op != ')' && Split(tail, op, 1) == [tail]
    ensures Split(['('] + tail, op, 0) == [['('] + tail] && Depth(['('] + tail, 0) == Depth(tail, 1)
  {
    assert (['('] + tail)[1..] == tail;
  }

  /** A mark in front of one piece leaves it one piece. */
  lemma MarkedIsWhole(c: char, s: string, op: char)
    requires op != '(' && op != ')' && c != '(' && c != ')' && c != op
    requires Split(s, op, 0) == [s]
    ensures Split([c] + s, op, 0) == [[c] + s] && Depth([c] + s, 0) == Depth(s, 0)
  {
    assert ([c] + s)[1..] == s;
  }

  // ----- trimming -----

  lemma {:induction false} TrimLeftParts(s: string) returns (blank: string)
    ensures Blank(blank) && s == blank + TrimLeft(s)
    ensures TrimLeft(s) == "" || !IsSpace(TrimLeft(s)[0])
  {
    if s != "" && IsSpace(s[0]) {
      var b := TrimLeftParts(s[1..]);
      blank := [s[0]] + b;
      assert s == [s[0]] + s[1..] == blank + TrimLeft(s[1..]);
    } else {
      blank := "";
    }
  }

  lemma {:induction false} TrimRightParts(s: string) returns (blank: string)
    ensures Blank(blank) && s == TrimRight(s) + blank
    ensures TrimRight(s) == "" || !IsSpace(TrimRight(s)[|TrimRight(s)| - 1])
  {
    if s != "" && IsSpace(s[|s| - 1]) {
      var b := TrimRightParts(s[..|s| - 1]);
      blank := b + [s[|s| - 1]];
      assert s == s[..|s| - 1] + [s[|s| - 1]];
    } else {
      blank := "";
    }
  }

  /** Trimming removes blanks at both ends and only those. */
  lemma TrimParts(s: string) returns (left: string, right: string)
    ensures Blank(left) && Blank(right) && s == left + Trim(s) + right
    ensures Tight(Trim(s))
  {
    left := TrimLeftParts(s);
    right := TrimRightParts(TrimLeft(s));
  }

  lemma TrimTight(s: string)
    requires Tight(s)
    ensures Trim(s) == s
  {
  }

  lemma {:induction false} TrimLeftBlank(b: string, s: string)
    requires Blank(b)
    ensures TrimLeft(b + s) == TrimLeft(s)
    decreases |b|
  {
    if b == "" {
      assert b + s == s;
    } else {
      assert (b + s)[1..] == b[1..] + s;
      TrimLeftBlank(b[1..], s);
    }
  }

  lemma {:induction false} TrimRightBlank(s: string, b: string)
    requires Blank(b)
    ensures TrimRight(s + b) == TrimRight(s)
    decreases |b|
  {
    if b == "" {
      assert s + b == s;
    } else {
      assert (s + b)[..|s + b| - 1] == s + b[..|b| - 1];
      TrimRightBlank(s, b[..|b| - 1]);
    }
  }

  /** Only the tight middle of a text matters to Trim. */
  lemma TrimOf(left: string, core: string, right: string)
    requires Blank(left) && Blank(right) && Tight(core)
    ensures Trim(left + core + right) == core
  {
    if core == "" {
      assert left + core + right == left + right;
      BlankAll(left + right);
    } else {
      assert left + core + right == left + (core + right);
      TrimLeftBlank(left, core + right);
      assert TrimLeft(core + right) == core + right;
      TrimRightBlank(core, right);
    }
  }

  lemma {:induction false} BlankAll(b: string)
    requires Blank(b)
    ensures Trim(b) == ""
    decreases |b|
  {
    if b != "" {
      BlankAll(b[1..]);
    }
  }

  lemma TrimOutside(left: string, s: string, right: string)
    requires Blank(left) && Blank(right)
    ensures Trim(left + s + right) == Trim(s)
  {
    var a, b := TrimParts(s);
    assert left + s + right == (left + a) + Trim(s) + (b + right);
    TrimOf(left + a, Trim(s), b + right);
  }
}
