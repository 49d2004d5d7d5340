/**
  What whole sources record: the condition, the minimum version and the table
  row of the entries under nested gates, #elif and #else groups and gates with
  a definedness check.
 */
module Entries {
  import opened Options
  import opened Text
  import opened Predicate
  import opened PredicateProofs
  import opened Parser
  import opened Conditional
  import opened Flattening
  import opened Registry
  import opened Versions
  import opened Atoms
  import opened Meaning

  // ----- nested gates -----

  /** One definition inside a nest of #if sections. */
  function Nested(heads: seq<string>, id: int, length: int): seq<Item> {
    if heads == [] then [Define(id, length)] else [Section(IfTrue(heads[0]), Nested(heads[1..], id, length), [])]
  }

  lemma {:induction false} NestedRecorded(heads: seq<string>, id: int, length: int, outer: seq<Frame>)
    requires forall i :: 0 <= i < |heads| ==> Tight(heads[i])
    ensures Recorded(Nested(heads, id, length), outer) == [MakeEntry(Packet(id, length), outer + Nest(heads))]
  {
    if heads == [] {
      assert outer + Nest(heads) == outer;
      hide MakeEntry;
      DefineRecorded(Define(id, length), outer);
    } else {
      var f := Frame(heads[0], []);
      var rest := Nested(heads[1..], id, length);
      TrimTight(heads[0]);
      NestFrames(heads, outer);
      hide MakeEntry, Trim, Nest, Recorded, RecordedItem;
      NestedRecorded(heads[1..], id, length, outer + [f]);
      Alone(Section(IfTrue(heads[0]), rest, []), outer);
      AloneBody(IfTrue(heads[0]), rest, outer);
    }
  }

  lemma NestFrames(heads: seq<string>, outer: seq<Frame>)
    requires heads != []
    ensures outer + [Frame(heads[0], [])] + Nest(heads[1..]) == outer + Nest(heads)
  {
  }

  lemma Alone(item: Item, stack: seq<Frame>)
    ensures Recorded([item], stack) == RecordedItem(item, stack)
    ensures forall p :: HeadsItem(item, p) ==> Heads([item], p)
  {
    hide RecordedItem, HeadsItem;
    assert [item][1..] == [] && RecordedItem(item, stack) + [] == RecordedItem(item, stack);
  }

  lemma AloneBody(open: Opener, body: seq<Item>, stack: seq<Frame>)
    ensures RecordedItem(Section(open, body, []), stack) == Recorded(body, stack + [OpenerFrame(open)])
  {
    var r := Recorded(body, stack + [OpenerFrame(open)]);
    hide Recorded, OpenerFrame;
    assert r + [] == r;
  }

  /** One more group. */
  lemma GroupRecorded(b: Branch, more: seq<Branch>, stack: seq<Frame>, f: Frame)
    ensures RecordedBranches([b] + more, stack, f) ==
      Recorded(b.body, stack + [NextFrame(b, f)]) + RecordedBranches(more, stack, NextFrame(b, f))
    ensures RecordedBranches([], stack, f) == []
  {
    hide Recorded, NextFrame;
    assert ([b] + more)[1..] == more;
  }

  lemma DefineRecorded(x: Item, stack: seq<Frame>)
    requires x.Define?
    ensures Recorded([x], stack) == [MakeEntry(Packet(x.id, x.length), stack)]
    ensures forall p :: Heads([x], p)
  {
    Alone(x, stack);
    hide MakeEntry, Recorded;
  }

  lemma GateAccepted(t: string)
    requires Tight(t) && MatchGte(t).Some?
    ensures Accepted(t) && Bare(t)
  {
    GateIsPlain(t);
    TrimTight(t);
    assert Bare(t);
    hide MatchGte, ValidPredicate, Trim;
    AtomAlone(t, 0);
  }

  lemma {:induction false} NestedAccepted(heads: seq<string>, id: int, length: int)
    requires Gates(heads)
    ensures Heads(Nested(heads, id, length), Accepted)
  {
    hide Accepted, MatchGte;
    if heads == [] {
      DefineRecorded(Define(id, length), []);
    } else {
      GateAccepted(heads[0]);
      NestedAccepted(heads[1..], id, length);
      Alone(Section(IfTrue(heads[0]), Nested(heads[1..], id, length), []), []);
      hide Heads;
      NoBranches(Accepted);
    }
  }

  lemma NoBranches(p: string -> bool)
    ensures HeadsBranches([], p)
  {
  }

  /** The entry a source with one definition records. */
  ghost predicate RecordsOnly(items: seq<Item>, e: Entry) {
    ParseFrom(Lines(items), []) == Ok([e])
  }

  lemma NestedParsed(heads: seq<string>, id: int, length: int) returns (e: Entry)
    requires Gates(heads)
    ensures RecordsOnly(Nested(heads, id, length), e) && e == MakeEntry(Packet(id, length), Nest(heads))
  {
    e := MakeEntry(Packet(id, length), Nest(heads));
    hide MakeEntry, MatchGte, Accepted;
    NestedAccepted(heads, id, length);
    ParseSource(Nested(heads, id, length));
    NestedRecorded(heads, id, length, []);
    assert [] + Nest(heads) == Nest(heads);
  }

  lemma EntryFields(id: int, length: int, stack: seq<Frame>)
    ensures var e := MakeEntry(Packet(id, length), stack);
      && e.id == id && e.length == length && e.condition == ActivePredicate(stack)
      && (e.condition != "" ==> e.minVersion == MinVersionFor(e.condition))
  {
    hide ActivePredicate, MinVersionFor, Name;
  }

  /**
    The entry under any number of nested comparisons records the least of their numbers that fits, and
    is included once the version has reached them all.
   */
  lemma NestedGates(heads: seq<string>, id: int, length: int, version: int) returns (e: Entry)
    requires heads != [] && Gates(heads)
    ensures RecordsOnly(Nested(heads, id, length), e) && e.id == id && e.length == length
    ensures e.condition == Join(heads, " && ") != "" && Comparisons(heads)
    ensures LeastNumber(e.minVersion, Numbers(heads))
    ensures Included(e.condition, version) <==> forall n :: n in Numbers(heads) ==> Atoi(n).Some? && version >= Atoi(n).value
  {
    e := NestedParsed(heads, id, length);
    hide *;
    EntryFields(id, length, Nest(heads));
    NestedText(heads, version);
    NestParts(heads);
    ActiveIsJoin(heads);
    NestThresholds(heads);
    MinimumOfText(e.condition);
    GreatestReached(Numbers(heads), version);
    AllReached(Numbers(heads), version);
    NestPart(heads);
  }

  lemma AllReached(ns: seq<string>, version: int)
    ensures (forall n :: n in ns ==> Reached(n, version)) <==> forall n :: n in ns ==> Atoi(n).Some? && version >= Atoi(n).value
  {
    hide Atoi;
    forall n | n in ns ensures Reached(n, version) <==> Atoi(n).Some? && version >= Atoi(n).value {
    }
  }

  lemma NestPart(heads: seq<string>)
    requires heads != [] && Gates(heads)
    ensures Join(heads, AND) != "" && AND == " && "
  {
    hide MatchGte;
    GateIsPlain(heads[0]);
  }

  /** For nested gates the recorded minimum is the documented one exactly when all their numbers are the same. */
  lemma NestedGatesMeet(heads: seq<string>, id: int, length: int) returns (e: Entry)
    requires heads != [] && Gates(heads)
    ensures RecordsOnly(Nested(heads, id, length), e) && Comparisons(heads)
    ensures (forall version :: Included(e.condition, version) <==> version >= e.minVersion) <==>
      forall n :: n in Numbers(heads) ==> Atoi(n) == Some(e.minVersion)
  {
    e := NestedGates(heads, id, length, 0);
    var f := NestedParsed(heads, id, length);
    hide *;
    OneEntry(Nested(heads, id, length), e, f);
    EntryFields(id, length, Nest(heads));
    NestedTextMeets(heads);
  }

  lemma OneEntry(items: seq<Item>, e: Entry, f: Entry)
    requires RecordsOnly(items, e) && RecordsOnly(items, f)
    ensures e == f
  {
    assert [e][0] == e && [f][0] == f;
    hide ParseFrom, Lines;
    assert Ok([e]).entries == Ok([f]).entries;
  }

  /** A packet under one comparison records its number and is included from there on. */
  lemma PlainGate(name: string, b1: string, b2: string, n: int, k: nat, id: int, length: int, version: int)
    returns (e: Entry)
    requires Identifier(name) && Gap(b1) && Gap(b2) && -9223372036854775808 <= n <= 9223372036854775807
    ensures RecordsOnly([Section(IfTrue(GteText(name, b1, b2, Numeral(n, k), "")), [Define(id, length)], [])], e)
    ensures e.id == id && e.length == length && e.minVersion == n && (Included(e.condition, version) <==> version >= n)
  {
    var s := Numeral(n, k);
    var t := GteText(name, b1, b2, s, "");
    NumeralValue(n, k);
    GteBare(name, b1, b2, s);
    hide *;
    BareTight(t);
    OneGate(t, s);
    e := NestedGates([t], id, length, version);
    OneLeast(e.minVersion, s, n, version);
    NestedOnce(t, id, length);
  }

  lemma BareTight(t: string)
    requires Bare(t)
    ensures Tight(t)
  {
  }

  lemma OneGate(t: string, n: string)
    requires Tight(t) && MatchGte(t) == Some(n)
    ensures Gates([t]) && Comparisons([t]) && Numbers([t]) == [n]
  {
    TrimTight(t);
    hide MatchGte, Trim;
    assert [t][0] == t && [t][1..] == [];
  }

  lemma OneLeast(m: int, s: string, n: int, version: int)
    requires LeastNumber(m, [s]) && Atoi(s) == Some(n)
    ensures m == n
    ensures (forall x :: x in [s] ==> Atoi(x).Some? && version >= Atoi(x).value) <==> version >= n
  {
    hide Atoi;
    assert s in [s];
  }

  lemma NestedOnce(t: string, id: int, length: int)
    ensures Nested([t], id, length) == [Section(IfTrue(t), [Define(id, length)], [])]
  {
    assert [t][1..] == [];
  }

  // ----- #elif and #else groups -----

  /**
    Under negation the recorded number is no minimum: an entry in the #else group of one comparison
    carries the number of that comparison and is included exactly below it.
   */
  lemma ElseVersions(t: string, id: int, length: int, version: int) returns (e: Entry)
    requires Tight(t) && MatchGte(t).Some? && Atoi(MatchGte(t).value).Some?
    ensures RecordsOnly([Section(IfTrue(t), [], [ElseGroup([Define(id, length)])])], e)
    ensures e.id == id && e.length == length && e.condition == "!(" + t + ") && true /*else*/"
    ensures Atoi(MatchGte(t).value) == Some(e.minVersion)
    ensures Included(e.condition, version) <==> version < e.minVersion
  {
    var stack := [Frame(ELSE, [t])];
    e := MakeEntry(Packet(id, length), stack);
    hide *;
    GateIsPlain(t);
    GateAccepted(t);
    ElseWritten(t);
    ElseLiteral(t);
    EntryFields(id, length, stack);
    ElseText(t, version);
    ElseGroupParsed(t, id, length);
  }

  lemma ElseLiteral(t: string)
    ensures "!(" + (t + (")" + AND + ELSE)) == "!(" + t + ") && true /*else*/"
  {
    assert ")" + AND + ELSE == ") && true /*else*/";
  }

  lemma ElseGroupParsed(t: string, id: int, length: int)
    requires Tight(t) && Accepted(t)
    ensures RecordsOnly([Section(IfTrue(t), [], [ElseGroup([Define(id, length)])])],
                        MakeEntry(Packet(id, length), [Frame(ELSE, [t])]))
  {
    var b := ElseGroup([Define(id, length)]);
    var item := Section(IfTrue(t), [], [b]);
    var f, g := Frame(t, []), Frame(ELSE, [t]);
    TrimTight(t);
    ElseHeads(t, Define(id, length));
    hide MakeEntry, Accepted, Trim, Recorded, RecordedBranches, ParseFrom, Lines;
    ParseSource([item]);
    Alone(item, []);
    GroupRecorded(b, [], [], f);
    GroupRecorded(b, [], [], g);
    DefineRecorded(Define(id, length), [g]);
    assert [b] + [] == [b] && [] + [f] == [f] && [] + [g] == [g] && [] + [t] == [t];
    NothingRecorded([f]);
  }

  lemma NothingRecorded(stack: seq<Frame>)
    ensures Recorded([], stack) == []
  {
  }

  lemma ElseHeads(t: string, x: Item)
    requires Accepted(t) && x.Define?
    ensures Heads([Section(IfTrue(t), [], [ElseGroup([x])])], Accepted)
  {
    hide Accepted;
    DefineRecorded(x, []);
    var b := ElseGroup([x]);
    assert [b][1..] == [];
    assert HeadsBranches([b], Accepted);
    Alone(Section(IfTrue(t), [], [b]), []);
  }

  /** The conditions recorded for the three groups of an #if ... #elif ... #else section. */
  lemma ElifElseText(a: string, b: string, x: Item, y: Item, z: Item)
    requires x.Define? && y.Define? && z.Define? && Tight(a) && Tight(b) && a != "" && b != ""
    ensures var es := Recorded([Section(IfTrue(a), [x], [ElifGroup(b, [y]), ElseGroup([z])])], []);
      && |es| == 3
      && es[0].id == x.id && es[0].condition == a
      && es[1].id == y.id && es[1].condition == "!(" + a + ") && " + b
      && es[2].id == z.id && es[2].condition == "!(" + a + ") && !(" + b + ") && true /*else*/"
  {
    TrimTight(a);
    TrimTight(b);
    var f, g, h := Frame(a, []), Frame(b, [a]), Frame(ELSE, [a, b]);
    GroupsRecorded(a, b, x, y, z);
    EntryFields(x.id, x.length, [f]);
    EntryFields(y.id, y.length, [g]);
    EntryFields(z.id, z.length, [h]);
    ThreeConditions(a, b);
    hide *;
  }

  lemma GroupsRecorded(a: string, b: string, x: Item, y: Item, z: Item)
    requires x.Define? && y.Define? && z.Define? && Trim(a) == a && Trim(b) == b
    ensures Recorded([Section(IfTrue(a), [x], [ElifGroup(b, [y]), ElseGroup([z])])], []) ==
      [MakeEntry(Packet(x.id, x.length), [Frame(a, [])]), MakeEntry(Packet(y.id, y.length), [Frame(b, [a])]),
       MakeEntry(Packet(z.id, z.length), [Frame(ELSE, [a, b])])]
  {
    var b1, b2 := ElifGroup(b, [y]), ElseGroup([z]);
    var f, g, h := Frame(a, []), Frame(b, [a]), Frame(ELSE, [a, b]);
    hide MakeEntry, Trim, Recorded, RecordedBranches;
    Alone(Section(IfTrue(a), [x], [b1, b2]), []);
    GroupRecorded(b1, [b2], [], f);
    GroupRecorded(b2, [], [], g);
    GroupRecorded(b2, [], [], h);
    assert [b1] + [b2] == [b1, b2] && [b2] + [] == [b2];
    assert [] + [f] == [f] && [] + [g] == [g] && [] + [h] == [h];
    assert [] + [a] == [a] && [a] + [b] == [a, b];
    DefineRecorded(x, [f]);
    DefineRecorded(y, [g]);
    DefineRecorded(z, [h]);
  }

  lemma ThreeConditions(a: string, b: string)
    requires a != "" && b != ""
    ensures ActivePredicate([Frame(a, [])]) == a
    ensures ActivePredicate([Frame(b, [a])]) == "!(" + a + ") && " + b
    ensures ActivePredicate([Frame(ELSE, [a, b])]) == "!(" + a + ") && !(" + b + ") && true /*else*/"
  {
    ElseIsPlain();
    hide *;
    GroupParts(a, []);
    GroupParts(b, [a]);
    GroupParts(ELSE, [a, b]);
    Histories(a, b);
    JoinedParts(a, b);
    JoinedTexts(a, b);
  }

  lemma GroupParts(head: string, history: seq<string>)
    requires head != ""
    ensures ActivePredicate([Frame(head, history)]) == Join(HistoryParts(history) + [head], AND)
  {
    hide HistoryParts, Join;
    OnePart(Frame(head, history));
  }

  lemma Histories(a: string, b: string)
    requires a != "" && b != ""
    ensures HistoryParts([]) == [] && HistoryParts([a]) == [Negated(a)] && HistoryParts([a, b]) == [Negated(a), Negated(b)]
  {
    hide Negated;
    assert [a, b][1..] == [b] && [a][1..] == [] && [b][1..] == [];
  }

  lemma JoinedParts(a: string, b: string)
    ensures Join([] + [a], AND) == a
    ensures Join([Negated(a)] + [b], AND) == Negated(a) + AND + b
    ensures Join([Negated(a), Negated(b)] + [ELSE], AND) == Negated(a) + AND + (Negated(b) + AND + ELSE)
  {
    hide *;
    JoinUpToThree(a, b, b);
    JoinUpToThree(Negated(a), b, b);
    JoinUpToThree(Negated(a), Negated(b), ELSE);
    assert [] + [a] == [a] && [Negated(a)] + [b] == [Negated(a), b];
    assert [Negated(a), Negated(b)] + [ELSE] == [Negated(a), Negated(b), ELSE];
  }

  lemma JoinUpToThree(x: string, y: string, z: string)
    ensures Join([x], AND) == x && Join([x, y], AND) == x + AND + y && Join([x, y, z], AND) == x + AND + (y + AND + z)
  {
    hide AND;
    assert [x, y][1..] == [y] && [x, y, z][1..] == [y, z] && [y, z][1..] == [z];
    JoinOne(z);
    JoinOne(y);
    assert Join([y, z], AND) == y + AND + Join([z], AND);
  }

  lemma JoinOne(z: string)
    ensures Join([z], AND) == z
  {
  }

  lemma OnePart(f: Frame)
    ensures Parts([f]) == FrameParts(f)
  {
    hide FrameParts;
    assert [f][1..] == [];
  }

  lemma JoinedTexts(a: string, b: string)
    ensures Negated(a) + AND + b == "!(" + a + ") && " + b
    ensures Negated(a) + AND + (Negated(b) + AND + ELSE) == "!(" + a + ") && !(" + b + ") && true /*else*/"
  {
  }

  // ----- definedness gates -----

  /**
    A packet under a disjunction with a definedness check among its disjuncts is in the table of every
    version.
   */
  lemma DefinedGateOpen(a: string, t: string, c: string, id: int, length: int, version: int)
    requires Ended(a, '|') && (Padding(a) || ValidPredicate(a)) && Definedness(t)
    requires c == "" || exists b :: c == "||" + b && (Padding(b) || ValidPredicate(b))
    ensures var source := [Section(IfTrue(a + ("||" + (t + c))), [Define(id, length)], [])];
      var r := ParseFrom(Lines(source), []);
      r.Ok? && id in Flattened(r.entries, version) && Flattened(r.entries, version)[id].length == length
  {
    var head := a + ("||" + (t + c));
    hide *;
    DefinedDisjunct(a, t, c, version);
    DefinedHeadValid(a, t, c);
    TrimValid(head, version);
    HasMark(a, '|', t + c);
    assert "||" + (t + c) == ['|', '|'] + (t + c);
    PaddingIsBlank(head);
    OneGroupParsed(head, id, length);
    var e := MakeEntry(Packet(id, length), [Frame(Trim(head), [])]);
    EntryFields(id, length, [Frame(Trim(head), [])]);
    OneCondition(Trim(head));
    OneRow(e, version);
    OneParsed([Section(IfTrue(head), [Define(id, length)], [])], e);
  }

  lemma OneParsed(items: seq<Item>, e: Entry)
    requires RecordsOnly(items, e)
    ensures ParseFrom(Lines(items), []) == Ok([e])
  {
  }

  lemma OneCondition(h: string)
    requires h != ""
    ensures ActivePredicate([Frame(h, [])]) == h
  {
    OnePart(Frame(h, []));
  }

  lemma DefinedHeadValid(a: string, t: string, c: string)
    requires Ended(a, '|') && (Padding(a) || ValidPredicate(a)) && Definedness(t)
    requires c == "" || exists b :: c == "||" + b && (Padding(b) || ValidPredicate(b))
    ensures ValidPredicate(a + ("||" + (t + c)))
  {
    var b0, b1, b2, name, b3, b4 :| IsDefined(t, b0, b1, b2, name, b3, b4);
    DefinedHolds(b0, b1, b2, name, b3, b4, 0);
    DefinedEnded(t, b0, b1, b2, name, b3, b4);
    hide *;
    if c == "" {
      assert t + c == t;
    } else {
      var b :| c == "||" + b && (Padding(b) || ValidPredicate(b));
      OrHolds(t, b, 0);
    }
    OrHolds(a, t + c, 0);
  }

  lemma OneGroupParsed(head: string, id: int, length: int)
    requires ValidPredicate(Trim(head))
    ensures RecordsOnly([Section(IfTrue(head), [Define(id, length)], [])],
                        MakeEntry(Packet(id, length), [Frame(Trim(head), [])]))
  {
    var item, x := Section(IfTrue(head), [Define(id, length)], []), Define(id, length);
    var f := Frame(Trim(head), []);
    OneHead(head, x);
    hide MakeEntry, Trim, ValidPredicate, Recorded, ParseFrom, Lines, Heads;
    ParseSource([item]);
    Alone(item, []);
    AloneBody(IfTrue(head), [x], []);
    assert [] + [f] == [f];
    DefineRecorded(x, [f]);
  }

  lemma OneHead(head: string, x: Item)
    requires Accepted(head) && x.Define?
    ensures Heads([Section(IfTrue(head), [x], [])], Accepted)
  {
    hide Accepted;
    DefineRecorded(x, []);
    NoBranches(Accepted);
    assert HeadsItem(Section(IfTrue(head), [x], []), Accepted);
    Alone(Section(IfTrue(head), [x], []), []);
  }

  lemma OneRow(e: Entry, version: int)
    requires EvalPredicate(e.condition, version)
    ensures e.id in Flattened([e], version) && Flattened([e], version)[e.id].length == e.length
  {
    TableExact([e], version, e.id);
    hide Flattened, EvalPredicate;
    assert Registers([e], 0, version, e.id);
  }
}
