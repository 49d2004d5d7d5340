/**
  Conditional inclusion as section 6.10.1 of ISO/IEC 9899:2011 defines it, on
  the nested structure of the source: the groups of an if-section are tried in
  order, the first whose condition is true is kept and the rest are skipped.
  The flattened entries are compared with it.
 */
module Conditional {
  import opened Text
  import opened Predicate
  import opened PredicateProofs
  import opened Parser

  datatype Opener = IfTrue(text: string) | IfDefined(name: string) | IfNotDefined(name: string)

  datatype Item =
    | Define(id: int, length: int)
    | OutOfRange
    | Symbolic
    | Anything
    | Section(open: Opener, body: seq<Item>, branches: seq<Branch>)

  datatype Branch = ElifGroup(text: string, body: seq<Item>) | ElseGroup(body: seq<Item>)

  // ----- as source lines -----

  function OpenerLine(open: Opener): Line {
    match open
    case IfTrue(text) => If(text)
    case IfDefined(name) => Ifdef(name)
    case IfNotDefined(name) => Ifndef(name)
  }

  function Lines(items: seq<Item>): seq<Line>
    decreases items, 0
  {
    if items == [] then [] else ItemLines(items[0]) + Lines(items[1..])
  }

  function ItemLines(item: Item): seq<Line>
    decreases item, 1
  {
    match item
    case Define(id, length) => [Packet(id, length)]
    case OutOfRange => [OutOfRangePacket]
    case Symbolic => [SymbolicPacket]
    case Anything => [Other]
    case Section(open, body, branches) => [OpenerLine(open)] + Lines(body) + BranchLines(branches) + [Endif]
  }

  function BranchLines(branches: seq<Branch>): seq<Line>
    decreases branches, 0
  {
    if branches == [] then []
    else
      [BranchHead(branches[0])] + Lines(branches[0].body) + BranchLines(branches[1..])
  }

  function BranchHead(b: Branch): Line {
    if b.ElifGroup? then Elif(b.text) else Else
  }

  // ----- reference semantics -----

  /** Which names are defined; the flattener never asks. */
  type Names = string -> bool

  predicate Opens(open: Opener, version: int, names: Names) {
    match open
    case IfTrue(text) => EvalPredicate(text, version)
    case IfDefined(name) => names(name)
    case IfNotDefined(name) => !names(name)
  }

  /** For each recorded definition, in order, whether conditional inclusion keeps it. */
  function Kept(items: seq<Item>, version: int, names: Names, live: bool): seq<bool>
    decreases items, 0
  {
    if items == [] then [] else KeptItem(items[0], version, names, live) + Kept(items[1..], version, names, live)
  }

  function KeptItem(item: Item, version: int, names: Names, live: bool): seq<bool>
    decreases item, 1
  {
    match item
    case Define(_, _) => [live]
    case OutOfRange => [live]
    case Symbolic => []
    case Anything => []
    case Section(open, body, branches) =>
      var c := Opens(open, version, names);
      Kept(body, version, names, live && c) + KeptBranches(branches, version, names, live && !c)
  }

  /** `open`: the section is live and no group before these was kept. */
  function KeptBranches(branches: seq<Branch>, version: int, names: Names, open: bool): seq<bool>
    decreases branches, 0
  {
    if branches == [] then []
    else
      match branches[0]
      case ElifGroup(text, body) =>
        var c := EvalPredicate(text, version);
        Kept(body, version, names, open && c) + KeptBranches(branches[1..], version, names, open && !c)
      case ElseGroup(body) =>
        Kept(body, version, names, open) + KeptBranches(branches[1..], version, names, false)
  }

  // ----- what the parser records -----

  function OpenerFrame(open: Opener): Frame {
    Frame(if open.IfTrue? then Trim(open.text) else "", [])
  }

  function NextFrame(b: Branch, f: Frame): Frame {
    Frame(if b.ElifGroup? then Trim(b.text) else ELSE, f.history + [f.condition])
  }

  function Recorded(items: seq<Item>, stack: seq<Frame>): seq<Entry>
    decreases items, 0
  {
    if items == [] then [] else RecordedItem(items[0], stack) + Recorded(items[1..], stack)
  }

  function RecordedItem(item: Item, stack: seq<Frame>): seq<Entry>
    decreases item, 1
  {
    match item
    case Define(id, length) => [MakeEntry(Packet(id, length), stack)]
    case OutOfRange => [MakeEntry(OutOfRangePacket, stack)]
    case Symbolic => []
    case Anything => []
    case Section(open, body, branches) =>
      Recorded(body, stack + [OpenerFrame(open)]) + RecordedBranches(branches, stack, OpenerFrame(open))
  }

  function RecordedBranches(branches: seq<Branch>, stack: seq<Frame>, f: Frame): seq<Entry>
    decreases branches, 0
  {
    if branches == [] then []
    else
      Recorded(branches[0].body, stack + [NextFrame(branches[0], f)]) +
      RecordedBranches(branches[1..], stack, NextFrame(branches[0], f))
  }

  // ----- every head of a source -----

  /** `p` holds of every #if and #elif text. */
  ghost predicate Heads(items: seq<Item>, p: string -> bool)
    decreases items, 0
  {
    items == [] || (HeadsItem(items[0], p) && Heads(items[1..], p))
  }

  ghost predicate HeadsItem(item: Item, p: string -> bool)
    decreases item, 1
  {
    item.Section? ==>
      && (item.open.IfTrue? ==> p(item.open.text))
      && Heads(item.body, p) && HeadsBranches(item.branches, p)
  }

  ghost predicate HeadsBranches(branches: seq<Branch>, p: string -> bool)
    decreases branches, 0
  {
    branches != [] ==>
      && (branches[0].ElifGroup? ==> p(branches[0].text))
      && Heads(branches[0].body, p)
      && HeadsBranches(branches[1..], p)
  }

  // ----- the parser accepts well-nested sources and records these entries -----

  predicate Accepted(text: string) {
    ValidPredicate(Trim(text))
  }

  lemma PrependTwice(a: seq<Entry>, b: seq<Entry>, r: Result)
    ensures Prepend(a, Prepend(b, r)) == Prepend(a + b, r)
  {
    if r.Ok? {
      assert a + (b + r.entries) == (a + b) + r.entries;
    }
  }

  lemma PrependNothing(r: Result)
    ensures Prepend([], r) == r
  {
    if r.Ok? {
      assert [] + r.entries == r.entries;
    }
  }

  lemma {:induction false} ParseItems(items: seq<Item>, rest: seq<Line>, stack: seq<Frame>)
    requires Heads(items, Accepted)
    ensures ParseFrom(Lines(items) + rest, stack) == Prepend(Recorded(items, stack), ParseFrom(rest, stack))
    decreases items, 0
  {
    if items == [] {
      assert Lines(items) + rest == rest;
      PrependNothing(ParseFrom(rest, stack));
    } else {
      var more := Lines(items[1..]) + rest;
      assert Lines(items) + rest == ItemLines(items[0]) + more;
      ParseItem(items[0], more, stack);
      ParseItems(items[1..], rest, stack);
      PrependTwice(RecordedItem(items[0], stack), Recorded(items[1..], stack), ParseFrom(rest, stack));
    }
  }

  lemma {:induction false} ParseItem(item: Item, rest: seq<Line>, stack: seq<Frame>)
    requires HeadsItem(item, Accepted)
    ensures ParseFrom(ItemLines(item) + rest, stack) == Prepend(RecordedItem(item, stack), ParseFrom(rest, stack))
    decreases item, 1
  {
    var all := ItemLines(item) + rest;
    if item.Section? {
      var f, tail := OpenerFrame(item.open), [Endif] + rest;
      var inside := Lines(item.body) + (BranchLines(item.branches) + tail);
      assert all == [OpenerLine(item.open)] + inside;
      assert all[1..] == inside;
      ParseItems(item.body, BranchLines(item.branches) + tail, stack + [f]);
      ParseBranches(item.branches, tail, stack, f);
      EndifPops(rest, stack, LastFrame(item.branches, f));
      PrependTwice(Recorded(item.body, stack + [f]), RecordedBranches(item.branches, stack, f), ParseFrom(rest, stack));
    } else {
      assert all[1..] == rest;
      PrependNothing(ParseFrom(rest, stack));
    }
  }

  /** The frame on top of the stack after the branches. */
  function LastFrame(branches: seq<Branch>, f: Frame): Frame {
    if branches == [] then f else LastFrame(branches[1..], NextFrame(branches[0], f))
  }

  lemma EndifPops(rest: seq<Line>, stack: seq<Frame>, f: Frame)
    ensures ParseFrom([Endif] + rest, stack + [f]) == ParseFrom(rest, stack)
  {
    assert ([Endif] + rest)[1..] == rest && (stack + [f])[..|stack|] == stack;
  }

  lemma {:induction false} ParseBranches(branches: seq<Branch>, rest: seq<Line>, stack: seq<Frame>, f: Frame)
    requires HeadsBranches(branches, Accepted)
    ensures ParseFrom(BranchLines(branches) + rest, stack + [f]) ==
            Prepend(RecordedBranches(branches, stack, f), ParseFrom(rest, stack + [LastFrame(branches, f)]))
    decreases branches, 0
  {
    if branches == [] {
      assert BranchLines(branches) + rest == rest;
      PrependNothing(ParseFrom(rest, stack + [f]));
    } else {
      var b, g := branches[0], NextFrame(branches[0], f);
      hide ParseFrom, Prepend, Accepted, NextFrame, BranchLines, Lines, BranchHead, Recorded;
      var more := BranchLines(branches[1..]) + rest;
      BranchLinesCons(branches, rest);
      SwitchBranch(b, f, Lines(b.body) + more, stack);
      ParseItems(b.body, more, stack + [g]);
      ParseBranches(branches[1..], rest, stack, g);
      PrependTwice(Recorded(b.body, stack + [g]), RecordedBranches(branches[1..], stack, g),
                   ParseFrom(rest, stack + [LastFrame(branches[1..], g)]));
    }
  }

  lemma BranchLinesCons(branches: seq<Branch>, rest: seq<Line>)
    requires branches != []
    ensures BranchLines(branches) + rest ==
            [BranchHead(branches[0])] + (Lines(branches[0].body) + (BranchLines(branches[1..]) + rest))
  {
  }

  lemma SwitchBranch(b: Branch, f: Frame, rest: seq<Line>, stack: seq<Frame>)
    requires b.ElifGroup? ==> Accepted(b.text)
    ensures ParseFrom([BranchHead(b)] + rest, stack + [f]) == ParseFrom(rest, stack + [NextFrame(b, f)])
  {
    assert ([BranchHead(b)] + rest)[1..] == rest && (stack + [f])[..|stack|] == stack;
  }

  /** A well-nested source with accepted heads parses, to the entries read off its structure. */
  lemma ParseSource(items: seq<Item>)
    requires Heads(items, Accepted)
    ensures ParseFrom(Lines(items), []) == Ok(Recorded(items, []))
  {
    ParseItems(items, [], []);
    assert Lines(items) + [] == Lines(items) && Recorded(items, []) + [] == Recorded(items, []);
  }

  // ----- the recorded minimum -----

  ghost predicate AllHaveMinimum(entries: seq<Entry>) {
    forall i :: 0 <= i < |entries| ==> HasItsMinimum(entries[i])
  }

  lemma MinimumConcat(a: seq<Entry>, b: seq<Entry>)
    requires AllHaveMinimum(a) && AllHaveMinimum(b)
    ensures AllHaveMinimum(a + b)
  {
    hide HasItsMinimum;
  }

  /** Every entry read off a nested source has the least number of its condition, whatever its heads. */
  lemma {:induction false} RecordedMinimum(items: seq<Item>, stack: seq<Frame>)
    ensures AllHaveMinimum(Recorded(items, stack))
    decreases items, 0
  {
    hide AllHaveMinimum;
    if items == [] {
      NoEntries();
    } else {
      ItemMinimum(items[0], stack);
      RecordedMinimum(items[1..], stack);
      MinimumConcat(RecordedItem(items[0], stack), Recorded(items[1..], stack));
    }
  }

  lemma {:induction false} ItemMinimum(item: Item, stack: seq<Frame>)
    ensures AllHaveMinimum(RecordedItem(item, stack))
    decreases item, 1
  {
    if item.Section? {
      var f := OpenerFrame(item.open);
      hide AllHaveMinimum;
      RecordedMinimum(item.body, stack + [f]);
      BranchesMinimum(item.branches, stack, f);
      MinimumConcat(Recorded(item.body, stack + [f]), RecordedBranches(item.branches, stack, f));
    } else if item.Define? {
      EntryMinimum(Packet(item.id, item.length), stack);
      hide MakeEntry, HasItsMinimum;
    } else if item.OutOfRange? {
      EntryMinimum(OutOfRangePacket, stack);
      hide MakeEntry, HasItsMinimum;
    }
  }

  lemma {:induction false} BranchesMinimum(branches: seq<Branch>, stack: seq<Frame>, f: Frame)
    ensures AllHaveMinimum(RecordedBranches(branches, stack, f))
    decreases branches, 0
  {
    hide AllHaveMinimum;
    if branches == [] {
      NoEntries();
    } else {
      var g := NextFrame(branches[0], f);
      RecordedMinimum(branches[0].body, stack + [g]);
      BranchesMinimum(branches[1..], stack, g);
      MinimumConcat(Recorded(branches[0].body, stack + [g]), RecordedBranches(branches[1..], stack, g));
    }
  }

  lemma NoEntries()
    ensures AllHaveMinimum([])
  {
  }
}
