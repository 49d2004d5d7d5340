/**
  The packet database and its flattening from parsed entries: every entry
  whose predicate holds is registered in source order, so the last one wins.
  The outcome is compared with preprocessing the source and registering all
  definitions that are left.
 */
module Registry {
  import opened Options
  import opened Predicate
  import opened Parser
  import opened Conditional
  import opened Nesting
  import opened Flattening

  datatype Direction = ClientToServer | ServerToClient

  datatype Definition = Definition(id: int, name: string, length: int, direction: Direction)

  // ----- the database -----

  class DB {
    var entries: map<int, Definition>

    ghost predicate Valid()
      reads this
    {
      forall id :: id in entries ==> entries[id].id == id
    }

    constructor ()
      ensures Valid() && entries == map[]
    {
      entries := map[];
    }

    /** An earlier definition of the same command is overwritten, all others stay. */
    method Register(d: Definition)
      requires Valid()
      modifies this
      ensures Valid() && entries == old(entries)[d.id := d]
    {
      entries := entries[d.id := d];
    }

    method Lookup(cmd: int) returns (r: Option<Definition>)
      requires Valid()
      ensures r.Some? <==> cmd in entries
      ensures r.Some? ==> r.value == entries[cmd] && r.value.id == cmd
    {
      r := if cmd in entries then Some(entries[cmd]) else None;
    }

    method Length(cmd: int) returns (length: int, ok: bool)
      ensures ok <==> cmd in entries
      ensures length == if cmd in entries then entries[cmd].length else 0
    {
      if cmd in entries {
        return entries[cmd].length, true;
      }
      return 0, false;
    }

    /** Definitions of the other database win; a missing one changes nothing. */
    method Merge(other: DB?)
      requires Valid() && (other != null ==> other.Valid())
      modifies this
      ensures Valid()
      ensures entries == if other == null then old(entries) else old(entries) + old(other.entries)
    {
      if other != null {
        entries := entries + other.entries;
      }
    }
  }

  // ----- flattening -----

  /** What an entry registers. */
  function Defines(e: Entry): Definition {
    Definition(e.id, e.name, e.length, ClientToServer)
  }

  /** All definitions registered in order on top of `before`. */
  function RegisterAll(ds: seq<Definition>, before: map<int, Definition>): map<int, Definition> {
    if ds == [] then before else RegisterAll(ds[1..], before[ds[0].id := ds[0]])
  }

  /** What the included entries define, in source order. */
  function IncludedDefinitions(entries: seq<Entry>, version: int): seq<Definition> {
    if entries == [] then []
    else (if Included(entries[0].condition, version) then [Defines(entries[0])] else []) +
         IncludedDefinitions(entries[1..], version)
  }

  /** The flattened table for a version. */
  function Flattened(entries: seq<Entry>, version: int): map<int, Definition> {
    RegisterAll(IncludedDefinitions(entries, version), map[])
  }

  class PacketRegistry {
    const entries: seq<Entry>

    constructor (entries: seq<Entry>)
      ensures this.entries == entries
    {
      this.entries := entries;
    }

    method ForPacketVer(version: int) returns (db: DB)
      ensures fresh(db) && db.Valid() && db.entries == Flattened(entries, version)
      ensures forall id: int :: RowHolds(db.entries, entries, version, id)
    {
      TableOf(entries, version);
      hide RowHolds;
      db := new DB();
      assert entries[0..] == entries;
      var i := 0;
      while i < |entries|
        invariant 0 <= i <= |entries|
        invariant fresh(db) && db.Valid()
        invariant RegisterAll(IncludedDefinitions(entries[i..], version), db.entries) == Flattened(entries, version)
      {
        var e := entries[i];
        IncludedStep(entries, i, version, db.entries);
        i := i + 1;
        if e.condition != "" && !EvalPredicate(e.condition, version) {
          continue;
        }
        db.Register(Definition(e.id, e.name, e.length, ClientToServer));
      }
      assert entries[i..] == [];
    }
  }

  lemma IncludedStep(entries: seq<Entry>, i: nat, version: int, before: map<int, Definition>)
    requires i < |entries|
    ensures var rest := IncludedDefinitions(entries[i + 1..], version);
      RegisterAll(IncludedDefinitions(entries[i..], version), before) ==
        if Included(entries[i].condition, version)
        then RegisterAll(rest, before[entries[i].id := Defines(entries[i])]) else RegisterAll(rest, before)
  {
    hide Included;
    assert entries[i..][1..] == entries[i + 1..];
    var rest := IncludedDefinitions(entries[i + 1..], version);
    assert ([Defines(entries[i])] + rest)[1..] == rest;
    assert [] + rest == rest;
  }

  /** A command keeps its last definition; one without definition keeps what it had. */
  lemma {:induction false} LastWins(ds: seq<Definition>, before: map<int, Definition>, id: int)
    ensures (exists i :: 0 <= i < |ds| && ds[i].id == id) ==>
      exists i :: 0 <= i < |ds| && ds[i].id == id && (forall j :: i < j < |ds| ==> ds[j].id != id)
                  && id in RegisterAll(ds, before) && RegisterAll(ds, before)[id] == ds[i]
    ensures (forall i :: 0 <= i < |ds| ==> ds[i].id != id) ==>
      && (id in RegisterAll(ds, before) <==> id in before)
      && (id in before ==> RegisterAll(ds, before)[id] == before[id])
  {
    if ds != [] {
      var rest := ds[1..];
      LastWins(rest, before[ds[0].id := ds[0]], id);
      assert forall j :: 0 <= j < |rest| ==> rest[j] == ds[j + 1];
      if exists i :: 0 <= i < |rest| && rest[i].id == id {
        var i :| 0 <= i < |rest| && rest[i].id == id && (forall j :: i < j < |rest| ==> rest[j].id != id)
                 && RegisterAll(rest, before[ds[0].id := ds[0]])[id] == rest[i];
        assert ds[i + 1].id == id;
        forall j | i + 1 < j < |ds| ensures ds[j].id != id {
          assert rest[j - 1].id != id;
        }
      } else if ds[0].id == id {
        forall j | 0 < j < |ds| ensures ds[j].id != id {
          assert rest[j - 1].id != id;
        }
      } else {
        forall i | 0 <= i < |ds| ensures ds[i].id != id {
          assert i > 0 ==> rest[i - 1].id != id;
        }
      }
    }
  }

  /** Entry `i` is for command `id` and has no condition or one that holds. */
  ghost predicate Registers(entries: seq<Entry>, i: int, version: int, id: int)
    requires 0 <= i < |entries|
  {
    entries[i].id == id && (entries[i].condition == "" || EvalPredicate(entries[i].condition, version))
  }

  /** It is the last such entry. */
  ghost predicate LastFor(entries: seq<Entry>, i: int, version: int, id: int)
    requires 0 <= i < |entries|
  {
    Registers(entries, i, version, id) && forall j :: i < j < |entries| ==> !Registers(entries, j, version, id)
  }

  /** The included definitions of a command come from the entries that register it, the last from the last. */
  lemma {:induction false} LastIncluded(entries: seq<Entry>, version: int, id: int)
    ensures var ds := IncludedDefinitions(entries, version);
      if exists i :: 0 <= i < |entries| && Registers(entries, i, version, id) then
        exists i, k :: 0 <= i < |entries| && LastFor(entries, i, version, id) && LastDefinition(ds, k, Defines(entries[i]))
      else forall k :: 0 <= k < |ds| ==> ds[k].id != id
  {
    hide EvalPredicate;
    if entries != [] {
      var rest := entries[1..];
      var first := if Included(entries[0].condition, version) then [Defines(entries[0])] else [];
      var ds := IncludedDefinitions(rest, version);
      LastIncluded(rest, version, id);
      assert forall i :: 0 <= i < |rest| ==> Registers(rest, i, version, id) == Registers(entries, i + 1, version, id);
      assert forall j :: 1 <= j < |entries| ==> Registers(entries, j, version, id) == Registers(rest, j - 1, version, id);
      assert IncludedDefinitions(entries, version) == first + ds;
      hide IncludedDefinitions;
      if exists i :: 0 <= i < |rest| && Registers(rest, i, version, id) {
        var i, k :| 0 <= i < |rest| && LastFor(rest, i, version, id) && LastDefinition(ds, k, Defines(rest[i]));
        assert rest[i] == entries[i + 1];
        assert LastFor(entries, i + 1, version, id);
        LastShift(first, ds, k, Defines(entries[i + 1]));
        assert LastDefinition(IncludedDefinitions(entries, version), |first| + k, Defines(entries[i + 1]));
      } else if Registers(entries, 0, version, id) {
        assert LastFor(entries, 0, version, id);
        OnlyFirst(Defines(entries[0]), ds);
      }
    }
  }

  /** `d` stands at `k`, and no later definition is for its command. */
  ghost predicate LastDefinition(ds: seq<Definition>, k: int, d: Definition) {
    0 <= k < |ds| && ds[k] == d && forall j :: k < j < |ds| ==> ds[j].id != d.id
  }

  lemma LastShift(first: seq<Definition>, ds: seq<Definition>, k: int, d: Definition)
    requires LastDefinition(ds, k, d)
    ensures LastDefinition(first + ds, |first| + k, d)
  {
  }

  lemma OnlyFirst(d: Definition, ds: seq<Definition>)
    requires forall j :: 0 <= j < |ds| ==> ds[j].id != d.id
    ensures LastDefinition([d] + ds, 0, d)
  {
  }

  /**
    A command is in the table exactly when an entry for it has no condition or one that holds, and
    then has the name and length of the last such entry, as a packet from client to server.
   */
  ghost predicate RowHolds(table: map<int, Definition>, entries: seq<Entry>, version: int, id: int) {
    if exists i :: 0 <= i < |entries| && Registers(entries, i, version, id) then
      && id in table
      && exists i :: 0 <= i < |entries| && LastFor(entries, i, version, id) &&
           table[id] == Definition(id, entries[i].name, entries[i].length, ClientToServer)
    else id !in table
  }

  lemma TableExact(entries: seq<Entry>, version: int, id: int)
    ensures RowHolds(Flattened(entries, version), entries, version, id)
  {
    var ds := IncludedDefinitions(entries, version);
    LastIncluded(entries, version, id);
    LastWins(ds, map[], id);
    hide IncludedDefinitions, RegisterAll, Registers, LastFor;
    if exists i :: 0 <= i < |entries| && Registers(entries, i, version, id) {
      var i, k :| 0 <= i < |entries| && LastFor(entries, i, version, id) && LastDefinition(ds, k, Defines(entries[i]));
      LastRegisters(entries, i, version, id);
      assert ds[k].id == id;
      var m :| 0 <= m < |ds| && ds[m].id == id && (forall j :: m < j < |ds| ==> ds[j].id != id)
               && id in RegisterAll(ds, map[]) && RegisterAll(ds, map[])[id] == ds[m];
      assert m == k;
    }
  }

  lemma TableOf(entries: seq<Entry>, version: int)
    ensures forall id: int :: RowHolds(Flattened(entries, version), entries, version, id)
  {
    hide RowHolds, Flattened;
    forall id: int ensures RowHolds(Flattened(entries, version), entries, version, id) {
      TableExact(entries, version, id);
    }
  }

  lemma LastRegisters(entries: seq<Entry>, i: int, version: int, id: int)
    requires 0 <= i < |entries| && LastFor(entries, i, version, id)
    ensures Registers(entries, i, version, id) && entries[i].id == id
  {
  }

  // ----- against the preprocessed source -----

  /** All definitions of a source in order, whatever their conditions. */
  function AllDefinitions(items: seq<Item>): seq<Definition>
    decreases items, 0
  {
    if items == [] then [] else ItemDefinitions(items[0]) + AllDefinitions(items[1..])
  }

  function ItemDefinitions(item: Item): seq<Definition>
    decreases item, 1
  {
    match item
    case Define(id, length) => [Definition(id, Name(id), length, ClientToServer)]
    case OutOfRange => [Definition(0, "", 0, ClientToServer)]
    case Symbolic => []
    case Anything => []
    case Section(_, body, branches) => AllDefinitions(body) + BranchDefinitions(branches)
  }

  function BranchDefinitions(branches: seq<Branch>): seq<Definition>
    decreases branches, 0
  {
    if branches == [] then [] else AllDefinitions(branches[0].body) + BranchDefinitions(branches[1..])
  }

  function Select(ds: seq<Definition>, keep: seq<bool>): seq<Definition>
    requires |ds| == |keep|
  {
    if ds == [] then [] else (if keep[0] then [ds[0]] else []) + Select(ds[1..], keep[1..])
  }

  ghost predicate Records(entries: seq<Entry>, ds: seq<Definition>) {
    |entries| == |ds| && forall i :: 0 <= i < |entries| ==> Defines(entries[i]) == ds[i]
  }

  lemma RecordsConcat(a: seq<Entry>, b: seq<Entry>, d: seq<Definition>, e: seq<Definition>)
    requires Records(a, d) && Records(b, e)
    ensures Records(a + b, d + e)
  {
  }

  /** The parser records the definitions of the source in order. */
  lemma {:induction false} RecordsAll(items: seq<Item>, stack: seq<Frame>)
    ensures Records(Recorded(items, stack), AllDefinitions(items))
    decreases items, 0
  {
    if items != [] {
      RecordsItem(items[0], stack);
      RecordsAll(items[1..], stack);
      RecordsConcat(RecordedItem(items[0], stack), Recorded(items[1..], stack),
                    ItemDefinitions(items[0]), AllDefinitions(items[1..]));
    }
  }

  lemma {:induction false} RecordsItem(item: Item, stack: seq<Frame>)
    ensures Records(RecordedItem(item, stack), ItemDefinitions(item))
    decreases item, 1
  {
    if item.Section? {
      var f := OpenerFrame(item.open);
      RecordsAll(item.body, stack + [f]);
      RecordsBranches(item.branches, stack, f);
      RecordsConcat(Recorded(item.body, stack + [f]), RecordedBranches(item.branches, stack, f),
                    AllDefinitions(item.body), BranchDefinitions(item.branches));
    } else {
      hide ActivePredicate, MinVersionFor;
    }
  }

  lemma {:induction false} RecordsBranches(branches: seq<Branch>, stack: seq<Frame>, f: Frame)
    ensures Records(RecordedBranches(branches, stack, f), BranchDefinitions(branches))
    decreases branches, 0
  {
    if branches != [] {
      var g := NextFrame(branches[0], f);
      RecordsAll(branches[0].body, stack + [g]);
      RecordsBranches(branches[1..], stack, g);
      RecordsConcat(Recorded(branches[0].body, stack + [g]), RecordedBranches(branches[1..], stack, g),
                    AllDefinitions(branches[0].body), BranchDefinitions(branches[1..]));
    }
  }

  /** The definitions conditional inclusion leaves, in order. */
  ghost function Preprocessed(items: seq<Item>, version: int, names: Names): seq<Definition>
    requires |AllDefinitions(items)| == |Kept(items, version, names, true)|
  {
    Select(AllDefinitions(items), Kept(items, version, names, true))
  }

  lemma {:induction false} SelectIncluded(entries: seq<Entry>, ds: seq<Definition>, keep: seq<bool>, version: int)
    requires Records(entries, ds) && Agrees(keep, entries, version, true)
    ensures |ds| == |keep| && IncludedDefinitions(entries, version) == Select(ds, keep)
  {
    hide Included;
    if ds != [] {
      assert Included(entries[0].condition, version) <==> keep[0];
      SelectIncluded(entries[1..], ds[1..], keep[1..], version);
    }
  }

  lemma {:induction false} SelectSome(entries: seq<Entry>, ds: seq<Definition>, keep: seq<bool>, version: int)
    requires Records(entries, ds) && Agrees(keep, entries, version, false)
    ensures |ds| == |keep|
    ensures forall d :: d in Select(ds, keep) ==> d in IncludedDefinitions(entries, version)
  {
    hide Included;
    if ds != [] {
      assert keep[0] ==> Included(entries[0].condition, version);
      SelectSome(entries[1..], ds[1..], keep[1..], version);
    }
  }

  /**
    With fit stacks and open guards, flattening a source for a version gives the table that
    preprocessing it at that version and registering what is left gives.
   */
  lemma FlattenedIsPreprocessed(items: seq<Item>, version: int, names: Names)
    requires Heads(items, Accepted) && Heads(items, Closed) && Fits(items, []) && Guarded(items, names)
    ensures |AllDefinitions(items)| == |Kept(items, version, names, true)|
    ensures var r := ParseFrom(Lines(items), []);
      r.Ok? && Flattened(r.entries, version) == RegisterAll(Preprocessed(items, version, names), map[])
  {
    FlattensExactly(items, version, names);
    RecordsAll(items, []);
    hide Accepted, Closed, Fits, Included;
    SelectIncluded(Recorded(items, []), AllDefinitions(items), Kept(items, version, names, true), version);
  }

  /**
    For every list of lines the parser accepts whose heads are balanced, no command that
    preprocessing leaves defined, for whatever set of names, is missing from the table.
   */
  lemma NoCommandLost(lines: seq<Line>, version: int, names: Names) returns (items: seq<Item>)
    requires ParseFrom(lines, []).Ok? && LineHeads(lines, Closed)
    ensures lines == Lines(items) && |AllDefinitions(items)| == |Kept(items, version, names, true)|
    ensures forall id :: id in RegisterAll(Preprocessed(items, version, names), map[]) ==>
      id in Flattened(ParseFrom(lines, []).entries, version)
  {
    items := AcceptedIsNested(lines);
    HeadsByLine(items, Closed);
    NeverExcludes(items, version, names);
    RecordsAll(items, []);
    hide Accepted, Closed, Included, Lines, Kept, Recorded, AllDefinitions, ParseFrom, RegisterAll, Select;
    SelectSome(Recorded(items, []), AllDefinitions(items), Kept(items, version, names, true), version);
    MoreDefinitions(Preprocessed(items, version, names), IncludedDefinitions(Recorded(items, []), version));
  }

  lemma MoreDefinitions(ds: seq<Definition>, all: seq<Definition>)
    requires forall d :: d in ds ==> d in all
    ensures forall id :: id in RegisterAll(ds, map[]) ==> id in RegisterAll(all, map[])
  {
    hide RegisterAll;
    forall id | id in RegisterAll(ds, map[]) ensures id in RegisterAll(all, map[]) {
      LastWins(ds, map[], id);
      LastWins(all, map[], id);
      if i :| 0 <= i < |ds| && ds[i].id == id {
        assert ds[i] in all;
        var j :| 0 <= j < |all| && all[j] == ds[i];
      }
    }
  }
}
