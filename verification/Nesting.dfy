/**
  The converse of parsing a nested source: the parser accepts a list of lines
  only if they are the lines of a nested structure whose heads are accepted.
 */
module Nesting {
  import opened Text
  import opened Parser
  import opened Conditional

  /** A line that ends the group it stands in. */
  predicate EndsGroup(line: Line) {
    line.Elif? || line.Else? || line.Endif?
  }

  /** The lines left after a group: none at the outermost level, else a line that ends the group. */
  ghost predicate Leaves(rest: seq<Line>, stack: seq<Frame>) {
    && ParseFrom(rest, stack).Ok?
    && if stack == [] then rest == [] else rest != [] && EndsGroup(rest[0])
  }

  /** Reads the items of one group off accepted lines. */
  lemma {:induction false} TakeItems(lines: seq<Line>, stack: seq<Frame>) returns (items: seq<Item>, rest: seq<Line>)
    requires ParseFrom(lines, stack).Ok?
    ensures lines == Lines(items) + rest && Heads(items, Accepted) && Leaves(rest, stack)
    decreases |lines|, 1
  {
    if lines == [] || EndsGroup(lines[0]) {
      items, rest := [], lines;
    } else {
      var item, after := TakeItem(lines, stack);
      var more;
      more, rest := TakeItems(after, stack);
      items := [item] + more;
      ItemsCons(item, more, lines, after, rest);
    }
  }

  lemma ItemsCons(item: Item, more: seq<Item>, lines: seq<Line>, after: seq<Line>, rest: seq<Line>)
    requires lines == ItemLines(item) + after && after == Lines(more) + rest
    requires HeadsItem(item, Accepted) && Heads(more, Accepted)
    ensures lines == Lines([item] + more) + rest && Heads([item] + more, Accepted)
  {
    hide ItemLines, HeadsItem, Accepted;
    assert ([item] + more)[1..] == more;
    assert ItemLines(item) + (Lines(more) + rest) == (ItemLines(item) + Lines(more)) + rest;
  }

  lemma {:induction false} TakeItem(lines: seq<Line>, stack: seq<Frame>) returns (item: Item, rest: seq<Line>)
    requires ParseFrom(lines, stack).Ok? && lines != [] && !EndsGroup(lines[0])
    ensures lines == ItemLines(item) + rest && HeadsItem(item, Accepted)
    ensures ParseFrom(rest, stack).Ok? && |rest| < |lines|
    decreases |lines|, 0
  {
    var line := lines[0];
    if line.If? || line.Ifdef? || line.Ifndef? {
      var open := Opening(line);
      SectionOpens(lines, stack);
      hide ParseFrom;
      var body, inner := TakeItems(lines[1..], stack + [OpenerFrame(open)]);
      var branches;
      branches, rest := TakeBranches(inner, stack, OpenerFrame(open));
      item := Section(open, body, branches);
      SectionWhole(open, body, branches, lines, inner, rest);
    } else {
      item, rest := Single(line), lines[1..];
    }
  }

  function Opening(line: Line): Opener
    requires line.If? || line.Ifdef? || line.Ifndef?
  {
    match line
    case If(text) => IfTrue(text)
    case Ifdef(name) => IfDefined(name)
    case Ifndef(name) => IfNotDefined(name)
  }

  /** The item a line that neither opens nor ends a group stands for. */
  function Single(line: Line): Item {
    match line
    case Packet(id, length) => Define(id, length)
    case OutOfRangePacket => OutOfRange
    case SymbolicPacket => Symbolic
    case _ => Anything
  }

  lemma SectionOpens(lines: seq<Line>, stack: seq<Frame>)
    requires ParseFrom(lines, stack).Ok? && lines != [] && (lines[0].If? || lines[0].Ifdef? || lines[0].Ifndef?)
    ensures var open := Opening(lines[0]);
      && ParseFrom(lines[1..], stack + [OpenerFrame(open)]).Ok?
      && (open.IfTrue? ==> Accepted(open.text))
      && lines[0] == OpenerLine(open)
  {
    hide Trim;
  }

  lemma SectionWhole(open: Opener, body: seq<Item>, branches: seq<Branch>,
                     lines: seq<Line>, inner: seq<Line>, rest: seq<Line>)
    requires lines != [] && lines[0] == OpenerLine(open) && lines[1..] == Lines(body) + inner
    requires inner == BranchLines(branches) + [Endif] + rest
    requires (open.IfTrue? ==> Accepted(open.text)) && Heads(body, Accepted) && HeadsBranches(branches, Accepted)
    ensures lines == ItemLines(Section(open, body, branches)) + rest
    ensures HeadsItem(Section(open, body, branches), Accepted)
  {
    hide Lines, BranchLines, OpenerLine, Heads, HeadsBranches, Accepted;
    var head := [OpenerLine(open)];
    assert lines == head + lines[1..];
    assert head + (Lines(body) + (BranchLines(branches) + [Endif] + rest)) ==
           (head + Lines(body) + BranchLines(branches) + [Endif]) + rest;
  }

  /** Reads the branches of a section and its #endif. */
  lemma {:induction false} TakeBranches(lines: seq<Line>, stack: seq<Frame>, f: Frame)
    returns (branches: seq<Branch>, rest: seq<Line>)
    requires Leaves(lines, stack + [f])
    ensures lines == BranchLines(branches) + [Endif] + rest && HeadsBranches(branches, Accepted)
    ensures ParseFrom(rest, stack).Ok? && |rest| < |lines|
    decreases |lines|, 0
  {
    assert stack + [f] != [];
    if lines[0].Endif? {
      branches, rest := [], lines[1..];
      EndifPops(rest, stack, f);
      assert lines == [Endif] + rest;
    } else {
      var b := BranchOf(lines[0], []);
      var g := NextFrame(b, f);
      BranchOpens(lines, stack, f);
      hide ParseFrom;
      var body, inner := TakeItems(lines[1..], stack + [g]);
      var more;
      more, rest := TakeBranches(inner, stack, g);
      b := BranchOf(lines[0], body);
      branches := [b] + more;
      BranchesCons(b, more, lines, inner, rest);
    }
  }

  function BranchOf(line: Line, body: seq<Item>): Branch
    requires line.Elif? || line.Else?
  {
    if line.Elif? then ElifGroup(line.text, body) else ElseGroup(body)
  }

  lemma BranchOpens(lines: seq<Line>, stack: seq<Frame>, f: Frame)
    requires ParseFrom(lines, stack + [f]).Ok? && lines != [] && (lines[0].Elif? || lines[0].Else?)
    ensures ParseFrom(lines[1..], stack + [NextFrame(BranchOf(lines[0], []), f)]).Ok?
    ensures lines[0].Elif? ==> Accepted(lines[0].text)
  {
    hide Trim;
    assert (stack + [f])[..|stack|] == stack;
  }

  lemma BranchesCons(b: Branch, more: seq<Branch>, lines: seq<Line>, inner: seq<Line>, rest: seq<Line>)
    requires lines != [] && lines[0] == BranchHead(b) && lines[1..] == Lines(b.body) + inner
    requires inner == BranchLines(more) + [Endif] + rest
    requires (b.ElifGroup? ==> Accepted(b.text)) && Heads(b.body, Accepted) && HeadsBranches(more, Accepted)
    ensures lines == BranchLines([b] + more) + [Endif] + rest
    ensures HeadsBranches([b] + more, Accepted)
  {
    hide Lines, Heads, Accepted, BranchHead;
    assert ([b] + more)[1..] == more;
    var head := [BranchHead(b)];
    assert lines == head + lines[1..];
    assert head + (Lines(b.body) + (BranchLines(more) + [Endif] + rest)) ==
           (head + Lines(b.body) + BranchLines(more)) + [Endif] + rest;
  }

  /** Every accepted list of lines is the lines of a nested source with accepted heads. */
  lemma AcceptedIsNested(lines: seq<Line>) returns (items: seq<Item>)
    requires ParseFrom(lines, []).Ok?
    ensures lines == Lines(items) && Heads(items, Accepted)
  {
    var rest;
    items, rest := TakeItems(lines, []);
    assert Lines(items) + [] == Lines(items);
  }

  // ----- heads, by line -----

  /** `p` holds of every #if and #elif text among the lines. */
  ghost predicate LineHeads(lines: seq<Line>, p: string -> bool) {
    forall i :: 0 <= i < |lines| ==> LineHead(lines[i], p)
  }

  ghost predicate LineHead(line: Line, p: string -> bool) {
    (line.If? ==> p(line.text)) && (line.Elif? ==> p(line.text))
  }

  lemma LineHeadsConcat(a: seq<Line>, b: seq<Line>, p: string -> bool)
    ensures LineHeads(a + b, p) <==> LineHeads(a, p) && LineHeads(b, p)
  {
    hide LineHead;
    assert forall i :: 0 <= i < |a| ==> (a + b)[i] == a[i];
    assert forall i :: 0 <= i < |b| ==> (a + b)[|a| + i] == b[i];
  }

  lemma LineHeadsOne(line: Line, p: string -> bool)
    ensures LineHeads([line], p) <==> LineHead(line, p)
  {
    assert [line][0] == line;
  }

  lemma {:induction false} HeadsByLine(items: seq<Item>, p: string -> bool)
    ensures Heads(items, p) <==> LineHeads(Lines(items), p)
    decreases items, 0
  {
    if items != [] {
      HeadsItemByLine(items[0], p);
      HeadsByLine(items[1..], p);
      LineHeadsConcat(ItemLines(items[0]), Lines(items[1..]), p);
    }
  }

  lemma {:induction false} HeadsItemByLine(item: Item, p: string -> bool)
    ensures HeadsItem(item, p) <==> LineHeads(ItemLines(item), p)
    decreases item, 1
  {
    if item.Section? {
      var head, body, tail := [OpenerLine(item.open)], Lines(item.body), BranchLines(item.branches);
      HeadsByLine(item.body, p);
      HeadsBranchesByLine(item.branches, p);
      LineHeadsOne(OpenerLine(item.open), p);
      LineHeadsOne(Endif, p);
      assert LineHead(Endif, p);
      assert ItemLines(item) == head + body + tail + [Endif];
      hide LineHeads;
      LineHeadsConcat(head, body, p);
      LineHeadsConcat(head + body, tail, p);
      LineHeadsConcat(head + body + tail, [Endif], p);
    } else {
      LineHeadsOne(ItemLines(item)[0], p);
    }
  }

  lemma {:induction false} HeadsBranchesByLine(branches: seq<Branch>, p: string -> bool)
    ensures HeadsBranches(branches, p) <==> LineHeads(BranchLines(branches), p)
    decreases branches, 0
  {
    if branches != [] {
      var b := branches[0];
      var head, body, tail := [BranchHead(b)], Lines(b.body), BranchLines(branches[1..]);
      HeadsByLine(b.body, p);
      HeadsBranchesByLine(branches[1..], p);
      LineHeadsOne(BranchHead(b), p);
      assert BranchLines(branches) == head + body + tail;
      hide LineHeads;
      LineHeadsConcat(head, body, p);
      LineHeadsConcat(head + body, tail, p);
    }
  }
}
