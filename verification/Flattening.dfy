/**
  Compile-then-evaluate against conditional inclusion: the predicate recorded
  for an entry never excludes what inclusion keeps, and equals it for sources
  whose heads have no disjunction outside parentheses.
 */
module Flattening {
  import opened Options
  import opened Text
  import opened Predicate
  import opened PredicateProofs
  import opened Joins
  import opened Parser
  import opened Conditional

  // ----- frames and their truth -----

  /** A head the parser may store: none, or tight, not blank and with balanced parentheses. */
  ghost predicate Sound(head: string) {
    head == "" || (Tight(head) && Trim(head) != "" && Balanced(head))
  }

  ghost predicate GoodFrame(f: Frame) {
    Sound(f.condition) && forall i :: 0 <= i < |f.history| ==> Sound(f.history[i])
  }

  ghost predicate GoodStack(stack: seq<Frame>) {
    forall i :: 0 <= i < |stack| ==> GoodFrame(stack[i])
  }

  ghost predicate Fails(head: string, version: int) {
    head == "" || !EvalPredicate(head, version)
  }

  /** Every head tried before fails. */
  ghost predicate AllFail(heads: seq<string>, version: int) {
    forall i :: 0 <= i < |heads| ==> Fails(heads[i], version)
  }

  /** The branch a frame stands for is the one its section keeps. */
  ghost predicate FrameTrue(f: Frame, version: int) {
    (f.condition == "" || EvalPredicate(f.condition, version)) && AllFail(f.history, version)
  }

  ghost predicate StackTrue(stack: seq<Frame>, version: int) {
    forall i :: 0 <= i < |stack| ==> FrameTrue(stack[i], version)
  }

  ghost predicate PlainFrame(f: Frame) {
    f.condition == "" || NoTopLevelOr(f.condition)
  }

  ghost predicate PlainStack(stack: seq<Frame>) {
    forall i :: 0 <= i < |stack| ==> PlainFrame(stack[i])
  }

  ghost predicate AllParts(parts: seq<string>) {
    forall i :: 0 <= i < |parts| ==> Part(parts[i])
  }

  ghost predicate AllPlain(parts: seq<string>) {
    forall i :: 0 <= i < |parts| ==> NoTopLevelOr(parts[i])
  }

  ghost predicate AllHold(parts: seq<string>, version: int) {
    forall i :: 0 <= i < |parts| ==> EvalPredicate(parts[i], version)
  }

  lemma Concatenated(a: seq<string>, b: seq<string>, version: int)
    ensures AllParts(a + b) <==> AllParts(a) && AllParts(b)
    ensures AllPlain(a + b) <==> AllPlain(a) && AllPlain(b)
    ensures AllHold(a + b, version) <==> AllHold(a, version) && AllHold(b, version)
  {
    hide Part, NoTopLevelOr, EvalPredicate;
    var c := a + b;
    assert forall i :: 0 <= i < |a| ==> c[i] == a[i];
    assert forall i :: 0 <= i < |b| ==> c[|a| + i] == b[i];
    assert forall i :: |a| <= i < |c| ==> c[i] == b[i - |a|];
  }

  lemma SoundNegates(h: string, version: int)
    requires Sound(h) && h != ""
    ensures var ps := [Negated(h)]; AllParts(ps) && AllPlain(ps) && (AllHold(ps, version) <==> Fails(h, version))
  {
    NegatedHolds(h, version);
    hide EvalPredicate, Part, NoTopLevelOr, Negated;
    assert [Negated(h)][0] == Negated(h);
  }

  lemma {:induction false} HistoryPartsHold(history: seq<string>, version: int)
    requires forall i :: 0 <= i < |history| ==> Sound(history[i])
    ensures var ps := HistoryParts(history);
      AllParts(ps) && AllPlain(ps) && (AllHold(ps, version) <==> AllFail(history, version))
  {
    if history != [] {
      var h, rest := history[0], history[1..];
      HistoryPartsHold(rest, version);
      if h != "" {
        SoundNegates(h, version);
        Concatenated([Negated(h)], HistoryParts(rest), version);
      }
      assert HistoryParts(history) == if h == "" then HistoryParts(rest) else [Negated(h)] + HistoryParts(rest);
      hide Sound, EvalPredicate, Part, NoTopLevelOr, HistoryParts, Negated, AllParts, AllPlain, AllHold;
      assert AllFail(history, version) <==> Fails(h, version) && AllFail(rest, version) by {
        assert forall i :: 1 <= i < |history| ==> history[i] == rest[i - 1];
      }
    }
  }

  lemma SoundIsPart(head: string)
    requires Sound(head) && head != ""
    ensures Part(head)
  {
    ClosesDepth(head, 0, 0);
  }

  lemma FramePartsHold(f: Frame, version: int)
    requires GoodFrame(f)
    ensures var ps := FrameParts(f);
      AllParts(ps) && (PlainFrame(f) ==> AllPlain(ps)) && (AllHold(ps, version) <==> FrameTrue(f, version))
  {
    HistoryPartsHold(f.history, version);
    var own := if f.condition == "" then [] else [f.condition];
    if f.condition != "" {
      SoundIsPart(f.condition);
    }
    hide Sound, EvalPredicate, Part, NoTopLevelOr, HistoryParts, AllFail;
    assert AllParts(own) && (PlainFrame(f) ==> AllPlain(own));
    assert AllHold(own, version) <==> f.condition == "" || EvalPredicate(f.condition, version) by {
      assert f.condition != "" ==> own[0] == f.condition;
    }
    Concatenated(HistoryParts(f.history), own, version);
  }

  lemma {:induction false} StackPartsHold(stack: seq<Frame>, version: int)
    requires GoodStack(stack)
    ensures var ps := Parts(stack);
      AllParts(ps) && (PlainStack(stack) ==> AllPlain(ps)) && (AllHold(ps, version) <==> StackTrue(stack, version))
  {
    if stack != [] {
      var rest := stack[1..];
      hide GoodFrame, PlainFrame, FrameTrue, FrameParts, AllParts, AllPlain, AllHold;
      FramePartsHold(stack[0], version);
      StackPartsHold(rest, version);
      Concatenated(FrameParts(stack[0]), Parts(rest), version);
      assert forall i :: 1 <= i < |stack| ==> stack[i] == rest[i - 1];
    }
  }

  // ----- one entry -----

  /** The flattener includes an entry that has no predicate or one that holds. */
  predicate Included(condition: string, version: int) {
    condition == "" || EvalPredicate(condition, version)
  }

  /** At most one part is recorded, or no current head has a disjunction outside parentheses. */
  ghost predicate FitStack(stack: seq<Frame>) {
    |Parts(stack)| <= 1 || PlainStack(stack)
  }

  /** Under frames that are all true the recorded predicate holds; on a fit stack only then. */
  lemma ActiveHolds(stack: seq<Frame>, version: int)
    requires GoodStack(stack)
    ensures StackTrue(stack, version) ==> Included(ActivePredicate(stack), version)
    ensures FitStack(stack) ==> (Included(ActivePredicate(stack), version) <==> StackTrue(stack, version))
  {
    StackPartsHold(stack, version);
    var ps := Parts(stack);
    hide GoodStack, PlainStack, StackTrue, Part, NoTopLevelOr, EvalPredicate, Parts;
    if ps != [] {
      if StackTrue(stack, version) {
        JoinNeverExcludes(ps, version);
      }
      if |ps| == 1 {
        assert Join(ps, AND) == ps[0];
        assert AllHold(ps, version) <==> EvalPredicate(ps[0], version);
      } else if PlainStack(stack) {
        JoinExact(ps, version);
      }
      NotEmpty(ps);
    }
  }

  /** What any recorded predicate means, fit or not, in terms of the disjuncts of its parts. */
  lemma ActiveMeans(stack: seq<Frame>, version: int)
    requires GoodStack(stack)
    ensures Table(Rows(Parts(stack), version))
    ensures Included(ActivePredicate(stack), version) <==>
      Parts(stack) == [] || SomeChain(Rows(Parts(stack), version))
  {
    StackPartsHold(stack, version);
    var ps := Parts(stack);
    hide GoodStack, EvalPredicate, Parts, SomeChain, Part;
    if ps != [] {
      JoinMeans(ps, version);
      NotEmpty(ps);
    }
  }

  lemma NotEmpty(ps: seq<string>)
    requires ps != [] && AllParts(ps)
    ensures Join(ps, AND) != ""
  {
    JoinIsPart(ps);
  }

  // ----- whole sources -----

  /** Balanced parentheses in an #if or #elif head. */
  ghost predicate Closed(text: string) {
    Balanced(Trim(text))
  }

  ghost predicate Plain(text: string) {
    NoTopLevelOr(Trim(text))
  }

  /** #ifdef and #ifndef guards that are open, as the flattener takes them, and have no branches. */
  ghost predicate Guarded(items: seq<Item>, names: Names)
    decreases items, 0
  {
    items == [] || (GuardedItem(items[0], names) && Guarded(items[1..], names))
  }

  ghost predicate GuardedItem(item: Item, names: Names)
    decreases item, 1
  {
    item.Section? ==>
      && (!item.open.IfTrue? ==> item.branches == [] && Opens(item.open, 0, names))
      && Guarded(item.body, names) && GuardedBranches(item.branches, names)
  }

  ghost predicate GuardedBranches(branches: seq<Branch>, names: Names)
    decreases branches, 0
  {
    branches != [] ==> Guarded(branches[0].body, names) && GuardedBranches(branches[1..], names)
  }

  /** Every entry of the source is recorded under a fit stack. */
  ghost predicate Fits(items: seq<Item>, stack: seq<Frame>)
    decreases items, 0
  {
    items == [] || (FitsItem(items[0], stack) && Fits(items[1..], stack))
  }

  ghost predicate FitsItem(item: Item, stack: seq<Frame>)
    decreases item, 1
  {
    match item
    case Define(_, _) => FitStack(stack)
    case OutOfRange => FitStack(stack)
    case Section(open, body, branches) =>
      Fits(body, stack + [OpenerFrame(open)]) && FitsBranches(branches, stack, OpenerFrame(open))
    case _ => true
  }

  ghost predicate FitsBranches(branches: seq<Branch>, stack: seq<Frame>, f: Frame)
    decreases branches, 0
  {
    branches != [] ==>
      && Fits(branches[0].body, stack + [NextFrame(branches[0], f)])
      && FitsBranches(branches[1..], stack, NextFrame(branches[0], f))
  }

  /** What is assumed of a source: accepted, balanced heads; for exactness also fit stacks and open guards. */
  ghost predicate Readable(items: seq<Item>, stack: seq<Frame>, names: Names, exact: bool) {
    Heads(items, Accepted) && Heads(items, Closed) && (exact ==> Fits(items, stack) && Guarded(items, names))
  }

  /** Entry by entry: kept implies included, and for `exact` included implies kept. */
  ghost predicate Agrees(kept: seq<bool>, entries: seq<Entry>, version: int, exact: bool) {
    && |kept| == |entries|
    && forall i :: 0 <= i < |kept| ==>
         && (kept[i] ==> Included(entries[i].condition, version))
         && (exact && Included(entries[i].condition, version) ==> kept[i])
  }

  lemma AgreesConcat(a: seq<bool>, b: seq<bool>, d: seq<Entry>, e: seq<Entry>, version: int, exact: bool)
    requires Agrees(a, d, version, exact) && Agrees(b, e, version, exact)
    ensures Agrees(a + b, d + e, version, exact)
  {
    hide Included;
  }

  /** `live` says no more than the frames do, and for `exact` no less. */
  ghost predicate Tracks(live: bool, stack: seq<Frame>, version: int, exact: bool) {
    && GoodStack(stack)
    && (live ==> StackTrue(stack, version))
    && (exact && StackTrue(stack, version) ==> live)
  }

  ghost predicate ReadableItem(item: Item, stack: seq<Frame>, names: Names, exact: bool) {
    && HeadsItem(item, Accepted) && HeadsItem(item, Closed)
    && (exact ==> FitsItem(item, stack) && GuardedItem(item, names))
  }

  ghost predicate ReadableBranches(branches: seq<Branch>, stack: seq<Frame>, f: Frame, names: Names, exact: bool) {
    && HeadsBranches(branches, Accepted) && HeadsBranches(branches, Closed)
    && (exact ==> FitsBranches(branches, stack, f) && GuardedBranches(branches, names))
  }

  /** A stored head is sound and means what the head means. */
  lemma HeadStored(text: string, version: int)
    requires Accepted(text) && Closed(text)
    ensures Sound(Trim(text)) && Trim(text) != ""
    ensures EvalPredicate(Trim(text), version) == EvalPredicate(text, version)
  {
    var l, r := TrimParts(text);
    TrimTwice(text, version);
    TrimTight(Trim(text));
  }

  lemma PushTracks(stack: seq<Frame>, f: Frame, live: bool, c: bool, version: int, exact: bool)
    requires Tracks(live, stack, version, exact)
    requires GoodFrame(f)
    requires (live && c ==> FrameTrue(f, version)) && (exact && live && FrameTrue(f, version) ==> c)
    ensures Tracks(live && c, stack + [f], version, exact)
  {
    hide GoodFrame, FrameTrue;
    var longer := stack + [f];
    assert forall i :: 0 <= i < |stack| ==> longer[i] == stack[i];
    assert longer[|stack|] == f;
  }

  lemma {:induction false} ItemsAgree(items: seq<Item>, stack: seq<Frame>, version: int, names: Names, live: bool,
      exact: bool)
    requires Readable(items, stack, names, exact) && Tracks(live, stack, version, exact)
    ensures Agrees(Kept(items, version, names, live), Recorded(items, stack), version, exact)
    decreases items, 0
  {
    if items != [] {
      ItemAgrees(items[0], stack, version, names, live, exact);
      ItemsAgree(items[1..], stack, version, names, live, exact);
      AgreesConcat(KeptItem(items[0], version, names, live), Kept(items[1..], version, names, live),
                   RecordedItem(items[0], stack), Recorded(items[1..], stack), version, exact);
    }
  }

  lemma {:induction false} ItemAgrees(item: Item, stack: seq<Frame>, version: int, names: Names, live: bool,
      exact: bool)
    requires ReadableItem(item, stack, names, exact) && Tracks(live, stack, version, exact)
    ensures Agrees(KeptItem(item, version, names, live), RecordedItem(item, stack), version, exact)
    decreases item, 1
  {
    if item.Section? {
      var f, c := OpenerFrame(item.open), Opens(item.open, version, names);
      OpenerTracks(item, stack, version, names, live, exact);
      ItemsAgree(item.body, stack + [f], version, names, live && c, exact);
      BranchesAgree(item.branches, stack, f, version, names, live, live && !c, exact);
      hide Agrees;
      AgreesConcat(Kept(item.body, version, names, live && c), KeptBranches(item.branches, version, names, live && !c),
                   Recorded(item.body, stack + [f]), RecordedBranches(item.branches, stack, f), version, exact);
    } else {
      ActiveHolds(stack, version);
    }
  }

  /** `open` says no more than that the section is live and all heads so far fail, and for `exact` no less. */
  ghost predicate StillOpen(open: bool, live: bool, f: Frame, version: int, exact: bool) {
    GoodFrame(f) && (open ==> live && AllFail(Tried(f), version)) && (exact && live && AllFail(Tried(f), version) ==> open)
  }

  lemma OpenerTracks(item: Item, stack: seq<Frame>, version: int, names: Names, live: bool, exact: bool)
    requires item.Section? && ReadableItem(item, stack, names, exact) && Tracks(live, stack, version, exact)
    ensures var f, c := OpenerFrame(item.open), Opens(item.open, version, names);
      && Tracks(live && c, stack + [f], version, exact)
      && (item.branches != [] ==> StillOpen(live && !c, live, f, version, exact))
      && GoodFrame(f)
  {
    var f, c := OpenerFrame(item.open), Opens(item.open, version, names);
    if item.open.IfTrue? {
      HeadStored(item.open.text, version);
    }
    PushTracks(stack, f, live, c, version, exact);
    TriedFail(f, version);
    hide Sound, EvalPredicate, Tracks, Tried;
  }

  /** All heads so far fail when the earlier ones and the current one do. */
  lemma TriedFail(f: Frame, version: int)
    ensures AllFail(Tried(f), version) <==> AllFail(f.history, version) && Fails(f.condition, version)
  {
    hide Fails;
    assert forall i :: 0 <= i < |f.history| ==> Tried(f)[i] == f.history[i];
    assert Tried(f)[|f.history|] == f.condition;
  }

  lemma NextFrameGood(b: Branch, f: Frame, version: int)
    requires GoodFrame(f)
    requires b.ElifGroup? ==> Accepted(b.text) && Closed(b.text)
    ensures var g, c := NextFrame(b, f), b.ElseGroup? || EvalPredicate(b.text, version);
      && GoodFrame(g)
      && (FrameTrue(g, version) <==> c && AllFail(Tried(f), version))
      && (Fails(g.condition, version) <==> !c)
      && g.history == Tried(f)
  {
    if b.ElifGroup? {
      HeadStored(b.text, version);
      hide *;
      ElifFrame(b, f);
      StoredFrame(NextFrame(b, f), f, version);
    } else {
      hide *;
      ElseStored(version);
      ElseFrame(b, f);
      StoredFrame(NextFrame(b, f), f, version);
    }
  }

  lemma ElifFrame(b: Branch, f: Frame)
    requires b.ElifGroup?
    ensures NextFrame(b, f) == Frame(Trim(b.text), Tried(f))
    ensures Plain(b.text) ==> PlainFrame(NextFrame(b, f))
  {
    hide Trim, NoTopLevelOr;
  }

  lemma ElseFrame(b: Branch, f: Frame)
    requires b.ElseGroup?
    ensures NextFrame(b, f) == Frame(ELSE, Tried(f))
    ensures NoTopLevelOr(ELSE) ==> PlainFrame(NextFrame(b, f))
  {
    hide NoTopLevelOr;
  }

  lemma ElseStored(version: int)
    ensures Sound(ELSE) && ELSE != "" && NoTopLevelOr(ELSE) && EvalPredicate(ELSE, version)
  {
    hide NoTopLevelOr, EvalPredicate, Balanced, Tight, Trim, Part;
    ElseHolds(version);
    ElseIsPlain();
    TrimTight(ELSE);
  }

  lemma StoredFrame(g: Frame, f: Frame, version: int)
    requires GoodFrame(f) && Sound(g.condition) && g.condition != "" && g.history == Tried(f)
    ensures GoodFrame(g)
    ensures FrameTrue(g, version) <==> EvalPredicate(g.condition, version) && AllFail(Tried(f), version)
    ensures Fails(g.condition, version) <==> !EvalPredicate(g.condition, version)
  {
    hide EvalPredicate, Sound, AllFail;
    forall i | 0 <= i < |Tried(f)| ensures Sound(Tried(f)[i]) {
      if i < |f.history| {
        assert Tried(f)[i] == f.history[i];
      }
    }
  }

  lemma {:induction false} BranchesAgree(branches: seq<Branch>, stack: seq<Frame>, f: Frame, version: int, names: Names,
                                         live: bool, open: bool, exact: bool)
    requires ReadableBranches(branches, stack, f, names, exact) && Tracks(live, stack, version, exact)
    requires branches != [] ==> StillOpen(open, live, f, version, exact)
    ensures Agrees(KeptBranches(branches, version, names, open), RecordedBranches(branches, stack, f), version, exact)
    decreases branches, 0
  {
    if branches != [] {
      var b, g := branches[0], NextFrame(branches[0], f);
      var c := b.ElseGroup? || EvalPredicate(b.text, version);
      BranchTracks(b, stack, f, version, live, open, exact);
      ItemsAgree(b.body, stack + [g], version, names, open && c, exact);
      BranchesAgree(branches[1..], stack, g, version, names, live, open && !c, exact);
      hide Agrees;
      AgreesConcat(Kept(b.body, version, names, open && c), KeptBranches(branches[1..], version, names, open && !c),
                   Recorded(b.body, stack + [g]), RecordedBranches(branches[1..], stack, g), version, exact);
    }
  }

  lemma BranchTracks(b: Branch, stack: seq<Frame>, f: Frame, version: int, live: bool, open: bool, exact: bool)
    requires Tracks(live, stack, version, exact) && StillOpen(open, live, f, version, exact)
    requires b.ElifGroup? ==> Accepted(b.text) && Closed(b.text)
    ensures var g, c := NextFrame(b, f), b.ElseGroup? || EvalPredicate(b.text, version);
      && Tracks(open && c, stack + [g], version, exact)
      && StillOpen(open && !c, live, g, version, exact)
  {
    var g, c := NextFrame(b, f), b.ElseGroup? || EvalPredicate(b.text, version);
    NextFrameGood(b, f, version);
    TriedFail(g, version);
    hide *;
    BranchTracksFrom(stack, f, g, version, live, open, c, exact);
  }

  lemma BranchTracksFrom(stack: seq<Frame>, f: Frame, g: Frame, version: int, live: bool, open: bool, c: bool,
      exact: bool)
    requires Tracks(live, stack, version, exact) && StillOpen(open, live, f, version, exact)
    requires GoodFrame(g)
    requires FrameTrue(g, version) <==> c && AllFail(Tried(f), version)
    requires AllFail(Tried(g), version) <==> AllFail(Tried(f), version) && !c
    ensures Tracks(open && c, stack + [g], version, exact)
    ensures StillOpen(open && !c, live, g, version, exact)
  {
    hide GoodFrame, FrameTrue, AllFail, Tried, Tracks;
    assert (open && c) == (live && (open && c));
    PushTracks(stack, g, live, open && c, version, exact);
  }

  /**
    The documented rule: whatever conditional inclusion keeps at a version, for any set of defined
    names, has a recorded predicate that holds at that version.
   */
  lemma NeverExcludes(items: seq<Item>, version: int, names: Names)
    requires Heads(items, Accepted) && Heads(items, Closed)
    ensures ParseFrom(Lines(items), []) == Ok(Recorded(items, []))
    ensures var kept, entries := Kept(items, version, names, true), Recorded(items, []);
      |kept| == |entries| && forall i :: 0 <= i < |kept| && kept[i] ==> Included(entries[i].condition, version)
  {
    ParseSource(items);
    ItemsAgree(items, [], version, names, true, false);
  }

  /** With fit stacks and open guards the recorded predicates keep exactly what inclusion keeps. */
  lemma FlattensExactly(items: seq<Item>, version: int, names: Names)
    requires Heads(items, Accepted) && Heads(items, Closed) && Fits(items, []) && Guarded(items, names)
    ensures ParseFrom(Lines(items), []) == Ok(Recorded(items, []))
    ensures var kept, entries := Kept(items, version, names, true), Recorded(items, []);
      |kept| == |entries| && forall i :: 0 <= i < |kept| ==> (kept[i] <==> Included(entries[i].condition, version))
  {
    ParseSource(items);
    ItemsAgree(items, [], version, names, true, true);
  }

  // ----- which sources fit -----

  lemma PlainPush(stack: seq<Frame>, f: Frame)
    requires PlainStack(stack) && PlainFrame(f)
    ensures PlainStack(stack + [f])
  {
    hide PlainFrame;
  }

  lemma NextPlain(b: Branch, f: Frame)
    requires b.ElifGroup? ==> Plain(b.text)
    ensures PlainFrame(NextFrame(b, f))
  {
    hide *;
    if b.ElifGroup? {
      ElifFrame(b, f);
    } else {
      ElseStored(0);
      ElseFrame(b, f);
    }
  }

  lemma OpenerPlain(open: Opener)
    requires open.IfTrue? ==> Plain(open.text)
    ensures PlainFrame(OpenerFrame(open))
  {
    hide Trim, NoTopLevelOr;
  }

  /** Sources whose heads have no disjunction outside parentheses fit. */
  lemma {:induction false} PlainFits(items: seq<Item>, stack: seq<Frame>)
    requires Heads(items, Plain) && PlainStack(stack)
    ensures Fits(items, stack)
    decreases items, 0
  {
    hide Plain, FitStack;
    if items != [] {
      PlainFitsItem(items[0], stack);
      PlainFits(items[1..], stack);
    }
  }

  lemma {:induction false} PlainFitsItem(item: Item, stack: seq<Frame>)
    requires HeadsItem(item, Plain) && PlainStack(stack)
    ensures FitsItem(item, stack)
    decreases item, 1
  {
    hide Plain, PlainStack;
    if item.Section? {
      var f := OpenerFrame(item.open);
      OpenerPlain(item.open);
      PlainPush(stack, f);
      PlainFits(item.body, stack + [f]);
      PlainFitsBranches(item.branches, stack, f);
    }
  }

  lemma {:induction false} PlainFitsBranches(branches: seq<Branch>, stack: seq<Frame>, f: Frame)
    requires HeadsBranches(branches, Plain) && PlainStack(stack)
    ensures FitsBranches(branches, stack, f)
    decreases branches, 0
  {
    hide Plain, PlainStack;
    if branches != [] {
      var g := NextFrame(branches[0], f);
      NextPlain(branches[0], f);
      PlainPush(stack, g);
      PlainFits(branches[0].body, stack + [g]);
      PlainFitsBranches(branches[1..], stack, g);
    }
  }

  /** Lines of a group that open no further section. */
  ghost predicate Flat(items: seq<Item>) {
    forall i :: 0 <= i < |items| ==> !items[i].Section?
  }

  lemma {:induction false} FlatFits(items: seq<Item>, stack: seq<Frame>)
    requires Flat(items) && FitStack(stack)
    ensures Fits(items, stack)
  {
    hide FitStack;
    if items != [] {
      assert !items[0].Section?;
      FlatFits(items[1..], stack);
    }
  }

  /**
    A section at the outermost level whose groups open no further ones fits when its #elif heads are
    plain; the #if head may be any disjunction.
   */
  lemma GateFits(open: Opener, body: seq<Item>, branches: seq<Branch>)
    requires Flat(body) && HeadsBranches(branches, Plain)
    requires forall i :: 0 <= i < |branches| ==> Flat(branches[i].body)
    ensures Fits([Section(open, body, branches)], [])
  {
    var f := OpenerFrame(open);
    var item := Section(open, body, branches);
    OnePart(f);
    assert [] + [f] == [f];
    hide FitStack, Plain;
    FlatFits(body, [f]);
    PlainFitsBranches(branches, [], f);
    assert [item][1..] == [];
    assert FitsItem(item, []);
  }

  lemma OnePart(f: Frame)
    requires f.history == []
    ensures FitStack([f])
  {
    assert [f][1..] == [];
    assert Parts([f]) == FrameParts(f) + Parts([]);
    hide PlainStack;
  }

  // ----- one branch per section -----

  /** The frame of the k-th group of a section that starts with frame `f`. */
  function GroupFrame(f: Frame, branches: seq<Branch>, k: nat): Frame
    requires k <= |branches|
    decreases k
  {
    if k == 0 then f else GroupFrame(NextFrame(branches[0], f), branches[1..], k - 1)
  }

  ghost predicate ReadableBranch(b: Branch) {
    b.ElifGroup? ==> Accepted(b.text) && Closed(b.text)
  }

  ghost predicate ReadableHeads(branches: seq<Branch>) {
    forall i :: 0 <= i < |branches| ==> ReadableBranch(branches[i])
  }

  lemma GroupStep(f: Frame, branches: seq<Branch>, k: nat)
    requires k <= |branches|
    ensures GroupFrame(f, branches, k) == if k == 0 then f else GroupFrame(NextFrame(branches[0], f), branches[1..], k - 1)
  {
    hide NextFrame;
  }

  lemma FirstTrue(f: Frame, version: int)
    requires EvalPredicate(f.condition, version) && AllFail(f.history, version)
    ensures FrameTrue(f, version)
  {
    hide EvalPredicate, AllFail;
  }

  /** A later frame of the section remembers the heads of all earlier ones. */
  lemma {:induction false} GroupFrameRemembers(f: Frame, branches: seq<Branch>, k: nat)
    requires k <= |branches|
    ensures k > 0 ==> f.condition in GroupFrame(f, branches, k).history
    ensures forall h :: h in f.history ==> h in GroupFrame(f, branches, k).history
    decreases k
  {
    if k > 0 {
      var g := NextFrame(branches[0], f);
      assert g.history == f.history + [f.condition];
      GroupFrameRemembers(g, branches[1..], k - 1);
      hide NextFrame;
      assert f.condition in g.history && forall h :: h in f.history ==> h in g.history;
    }
  }

  /** A section from frame `f` on: `f` is good and has a head, the remaining heads are readable. */
  ghost predicate Ready(f: Frame, branches: seq<Branch>) {
    GoodFrame(f) && f.condition != "" && ReadableHeads(branches)
  }

  lemma NextReady(f: Frame, branches: seq<Branch>, version: int)
    requires Ready(f, branches) && branches != []
    ensures var g := NextFrame(branches[0], f);
      && Ready(g, branches[1..])
      && (AllFail(g.history, version) <==> AllFail(f.history, version) && !EvalPredicate(f.condition, version))
      && (branches[0].ElseGroup? ==> EvalPredicate(g.condition, version))
  {
    var b := branches[0];
    assert ReadableBranch(b);
    TriedFail(f, version);
    NextFrameGood(b, f, version);
    if b.ElifGroup? {
      HeadStored(b.text, version);
    } else {
      hide *;
      ElseStored(version);
      ElseFrame(b, f);
    }
    hide EvalPredicate, Trim, Balanced, AllFail, Accepted, Closed, GoodFrame, Tried, ReadableBranch;
  }

  /** Every group of a readable section has a good frame. */
  lemma {:induction false} GroupGood(f: Frame, branches: seq<Branch>, k: nat)
    requires Ready(f, branches) && k <= |branches|
    ensures var g := GroupFrame(f, branches, k); GoodFrame(g) && g.condition != ""
    decreases k
  {
    hide GoodFrame, NextFrame, ReadableHeads;
    if k > 0 {
      NextReady(f, branches, 0);
      hide Ready;
      GroupGood(NextFrame(branches[0], f), branches[1..], k - 1);
    }
  }

  lemma LaterExcludes(f: Frame, g: Frame, version: int)
    requires f.condition != "" && f.condition in g.history
    ensures !(FrameTrue(f, version) && FrameTrue(g, version))
  {
    hide EvalPredicate;
    var h := g.history;
    var i :| 0 <= i < |h| && h[i] == f.condition;
    assert AllFail(h, version) ==> Fails(h[i], version);
  }

  lemma FirstExcludesLater(f: Frame, branches: seq<Branch>, version: int, k: nat)
    requires Ready(f, branches) && 0 < k <= |branches|
    ensures !(FrameTrue(f, version) && FrameTrue(GroupFrame(f, branches, k), version))
  {
    hide GoodFrame, ReadableHeads, FrameTrue, GroupFrame;
    GroupFrameRemembers(f, branches, k);
    LaterExcludes(f, GroupFrame(f, branches, k), version);
  }

  /** No two groups of one section are true at the same version. */
  lemma {:induction false} AtMostOneGroup(f: Frame, branches: seq<Branch>, version: int, j: nat, k: nat)
    requires Ready(f, branches) && j < k <= |branches|
    ensures !(FrameTrue(GroupFrame(f, branches, j), version) && FrameTrue(GroupFrame(f, branches, k), version))
    decreases k
  {
    hide *;
    GroupStep(f, branches, j);
    if j == 0 {
      FirstExcludesLater(f, branches, version, k);
    } else {
      GroupStep(f, branches, k);
      NextReady(f, branches, version);
      AtMostOneGroup(NextFrame(branches[0], f), branches[1..], version, j - 1, k - 1);
    }
  }

  /** A section that ends in #else has a true group at every version. */
  lemma {:induction false} SomeGroup(f: Frame, branches: seq<Branch>, version: int) returns (k: nat)
    requires Ready(f, branches) && AllFail(f.history, version)
    requires EvalPredicate(f.condition, version) || (branches != [] && branches[|branches| - 1].ElseGroup?)
    ensures k <= |branches| && FrameTrue(GroupFrame(f, branches, k), version)
    decreases |branches|
  {
    hide *;
    if EvalPredicate(f.condition, version) {
      k := 0;
      GroupStep(f, branches, k);
      FirstTrue(f, version);
    } else {
      var g, rest := NextFrame(branches[0], f), branches[1..];
      NextReady(f, branches, version);
      assert rest != [] ==> rest[|rest| - 1] == branches[|branches| - 1];
      k := SomeGroup(g, rest, version);
      k := k + 1;
      GroupStep(f, branches, k);
    }
  }

  /**
    Of an #if ... #else chain under any outer gates exactly one group is active at a version at
    which the outer gates are true, and none otherwise: the predicate recorded in the others fails.
   */
  lemma ExactlyOneActive(outer: seq<Frame>, text: string, branches: seq<Branch>, version: int) returns (k: nat)
    requires GoodStack(outer) && Accepted(text) && Closed(text) && ReadableHeads(branches)
    requires branches != [] && branches[|branches| - 1].ElseGroup?
    requires forall j: nat :: j <= |branches| ==> FitStack(outer + [GroupFrame(OpenerFrame(IfTrue(text)), branches, j)])
    ensures k <= |branches|
    ensures forall j: nat :: j <= |branches| ==>
      (Included(ActivePredicate(outer + [GroupFrame(OpenerFrame(IfTrue(text)), branches, j)]), version) <==>
         j == k && StackTrue(outer, version))
  {
    var f := OpenerFrame(IfTrue(text));
    FirstFrame(text, branches, version);
    hide *;
    k := SomeGroup(f, branches, version);
    forall j: nat | j <= |branches|
      ensures Included(ActivePredicate(outer + [GroupFrame(f, branches, j)]), version) <==>
        j == k && StackTrue(outer, version)
    {
      GroupGood(f, branches, j);
      ActiveUnder(outer, GroupFrame(f, branches, j), version);
      if j < k {
        AtMostOneGroup(f, branches, version, j, k);
      } else if k < j {
        AtMostOneGroup(f, branches, version, k, j);
      }
    }
  }

  lemma FirstFrame(text: string, branches: seq<Branch>, version: int)
    requires Accepted(text) && Closed(text) && ReadableHeads(branches)
    ensures var f := OpenerFrame(IfTrue(text)); Ready(f, branches) && AllFail(f.history, version)
  {
    HeadStored(text, version);
    hide Sound, Trim, Accepted, Closed, ReadableHeads;
  }

  lemma ActiveUnder(outer: seq<Frame>, f: Frame, version: int)
    requires GoodStack(outer) && GoodFrame(f) && FitStack(outer + [f])
    ensures Included(ActivePredicate(outer + [f]), version) <==> StackTrue(outer, version) && FrameTrue(f, version)
  {
    hide GoodFrame, FitStack, FrameTrue, Included, ActivePredicate;
    var stack := outer + [f];
    assert forall i :: 0 <= i < |outer| ==> stack[i] == outer[i];
    assert stack[|outer|] == f;
    ActiveHolds(stack, version);
  }

  lemma ActiveAlone(f: Frame, version: int)
    requires GoodFrame(f) && PlainFrame(f)
    ensures Included(ActivePredicate([f]), version) <==> FrameTrue(f, version)
  {
    hide GoodFrame, PlainFrame, FrameTrue, Included, ActivePredicate;
    assert [] + [f] == [f] && StackTrue([], version);
    assert PlainStack([f]);
    ActiveUnder([], f, version);
  }

  // ----- what disjunctions do -----

  /**
    The case of one earlier head at the outermost level: the first disjunct of the #elif head needs
    that head to fail, its later disjuncts do not.
   */
  lemma ElifExact(h: string, e: string, version: int)
    requires Sound(h) && h != "" && Sound(e) && e != ""
    ensures var ds := Split(e, '|', 0);
      Included(ActivePredicate([Frame(e, [h])]), version) <==>
        || (!EvalPredicate(h, version) && EvalConjunct(ds[0], version))
        || (exists i :: 1 <= i < |ds| && EvalConjunct(ds[i], version))
  {
    var n, ds := Negated(h), Split(e, '|', 0);
    NegatedHolds(h, version);
    SoundIsPart(e);
    PairIsPart(n, e);
    JoinedPair(n, e, version);
    TightPredicate(n, version);
    TightPredicate(n + AND + e, version);
    TwoParts(h, e);
    hide EvalPredicate, EvalConjunct, Split, Negated, ActivePredicate;
  }

  lemma TwoParts(h: string, e: string)
    requires h != "" && e != ""
    ensures ActivePredicate([Frame(e, [h])]) == Negated(h) + AND + e
  {
    var f := Frame(e, [h]);
    assert HistoryParts([h]) == [Negated(h)] + HistoryParts([]) == [Negated(h)];
    assert FrameParts(f) == [Negated(h), e];
    assert Parts([f]) == FrameParts(f) + Parts([]) == [Negated(h), e];
    JoinTwo(Negated(h), e);
  }

  lemma JoinTwo(a: string, b: string)
    ensures Join([a, b], AND) == a + AND + b
  {
    assert [a, b][1..] == [b];
    assert Join([b], AND) == b;
  }

  /**
    So an entry under `#if true` / `#elif true || true` is included although conditional inclusion
    skips it: with a disjunction in a head the flattener can keep too much.
   */
  lemma DisjunctionKeepsTooMuch(version: int, names: Names)
    ensures var items := [Section(IfTrue("true"), [], [ElifGroup("true || true", [Define(1, 2)])])];
      && Kept(items, version, names, true) == [false]
      && |Recorded(items, [])| == 1
      && Included(Recorded(items, [])[0].condition, version)
  {
    var h, e := "true", "true || true";
    TrueHolds(version);
    TwoTrue(version);
    ElifExact(h, e, version);
    assert Trim(h) == h && Trim(e) == e by {
      TrimTight(h);
      TrimTight(e);
    }
    hide *;
    assert EvalConjunct(Split(e, '|', 0)[1], version);
    LeakRecorded(h, e, version, names);
  }

  lemma LeakRecorded(h: string, e: string, version: int, names: Names)
    requires EvalPredicate(h, version) && Trim(h) == h && Trim(e) == e
    ensures var items := [Section(IfTrue(h), [], [ElifGroup(e, [Define(1, 2)])])];
      && Kept(items, version, names, true) == [false]
      && |Recorded(items, [])| == 1
      && Recorded(items, [])[0].condition == ActivePredicate([Frame(e, [h])])
  {
    hide EvalPredicate, Trim, ActivePredicate;
    var body := [Define(1, 2)];
    var bs := [ElifGroup(e, body)];
    var s := Section(IfTrue(h), [], bs);
    assert bs[1..] == [] && body[1..] == [] && [s][1..] == [];
    assert Kept(body, version, names, false) == [false];
    assert KeptBranches(bs, version, names, false) == [false];
    assert KeptItem(s, version, names, true) == [false];
    var f := Frame(e, [h]);
    assert NextFrame(bs[0], OpenerFrame(IfTrue(h))) == f;
    assert Recorded(body, [f]) == [MakeEntry(Packet(1, 2), [f])];
    assert RecordedBranches(bs, [], OpenerFrame(IfTrue(h))) == Recorded(body, [] + [f]) + [];
    assert [] + [f] == [f];
    assert RecordedItem(s, []) == [MakeEntry(Packet(1, 2), [f])];
  }

  lemma TrueHolds(version: int)
    ensures Sound("true") && EvalPredicate("true", version)
  {
    hide *;
    TrueIsWord();
    WordHolds("true", version);
  }

  lemma TrueIsWord()
    ensures Tight("true") && StartsTrue("true") && "true" != ""
    ensures forall i :: 0 <= i < |"true"| ==> IsIdent("true"[i])
  {
  }

  /** A word that starts with `true` always holds. */
  lemma WordHolds(t: string, version: int)
    requires t != "" && Tight(t) && StartsTrue(t) && forall i :: 0 <= i < |t| ==> IsIdent(t[i])
    ensures Sound(t) && EvalPredicate(t, version)
  {
    assert t[0] == t[..4][0] == 't';
    hide *;
    WordIsNoComparison(t);
    WordIsPlain(t);
    PlainIsWhole(t, '|');
    PlainIsWhole(t, '&');
    PlainIsBalanced(t);
    TrueAtom(t, version);
    OneTerm(t, version);
    SoundWord(t);
  }

  lemma WordIsPlain(t: string)
    requires forall i :: 0 <= i < |t| ==> IsIdent(t[i])
    ensures forall i :: 0 <= i < |t| ==> t[i] != '(' && t[i] != ')' && t[i] != '|' && t[i] != '&'
  {
  }

  /** `a || b` as the splitter sees it, for two texts without operators or parentheses. */
  lemma OrPair(a: string, b: string)
    requires forall i :: 0 <= i < |a| ==> a[i] != '(' && a[i] != ')' && a[i] != '|'
    requires forall i :: 0 <= i < |b| ==> b[i] != '(' && b[i] != ')' && b[i] != '|'
    ensures Split(a + " || " + b, '|', 0) == [a + " ", " " + b]
  {
    OrInFront(b);
    PlainIsWhole(a, '|');
    hide Split, Depth;
    assert a + " || " + b == a + (" || " + b);
    SplitConcat(a, " || " + b, '|', 0);
    FuseOne(a, " ", " " + b);
  }

  lemma FuseOne(a: string, b: string, c: string)
    ensures Fuse([a], [b, c]) == [a + b, c]
  {
  }

  lemma OrInFront(b: string)
    requires forall i :: 0 <= i < |b| ==> b[i] != '(' && b[i] != ')' && b[i] != '|'
    ensures Split(" || " + b, '|', 0) == [" ", " " + b]
  {
    hide *;
    OrSign(b);
    SpacedIsWhole(b);
    OrMark(" " + b);
    PutInFront(" ", " " + b, Split(" " + b, '|', 0));
  }

  lemma OrSign(b: string)
    ensures " || " + b == [' ', '|', '|'] + (" " + b)
  {
  }

  lemma SpacedIsWhole(b: string)
    requires forall i :: 0 <= i < |b| ==> b[i] != '(' && b[i] != ')' && b[i] != '|'
    ensures Split(" " + b, '|', 0) == [" " + b]
  {
    hide *;
    PlainIsWhole(" " + b, '|');
  }

  lemma PutInFront(a: string, t: string, pieces: seq<string>)
    requires pieces == [t]
    ensures [a] + pieces == [a, t]
  {
  }

  lemma OrMark(t: string)
    ensures Split([' ', '|', '|'] + t, '|', 0) == [" "] + Split(t, '|', 0)
  {
    var t1, t2 := [' ', '|', '|'] + t, ['|', '|'] + t;
    assert t1[1..] == t2 && t2[2..] == t;
    assert [' '] + "" == " ";
  }

  lemma TwoTrue(version: int)
    ensures Sound("true || true")
    ensures var ds := Split("true || true", '|', 0); |ds| > 1 && EvalConjunct(ds[1], version)
  {
    assert "true" + " || " + "true" == "true || true";
    hide *;
    TrueHolds(version);
    TrueIsLetters();
    BothHold("true", version);
  }

  lemma TrueIsLetters()
    ensures "true" != "" && forall i :: 0 <= i < |"true"| ==> "true"[i] != '(' && "true"[i] != ')' && "true"[i] != '|'
  {
  }

  lemma BothHold(t: string, version: int)
    requires Sound(t) && t != "" && EvalPredicate(t, version)
    requires forall i :: 0 <= i < |t| ==> t[i] != '(' && t[i] != ')' && t[i] != '|'
    ensures var e := t + " || " + t; Sound(e) && |Split(e, '|', 0)| > 1 && EvalConjunct(Split(e, '|', 0)[1], version)
  {
    var e := t + " || " + t;
    hide Balanced, Split, EvalConjunct, EvalPredicate, Trim;
    PlainIsBalanced(e);
    TrimTight(e);
    OrPair(t, t);
    SpacedHolds(t, version);
  }

  lemma SpacedHolds(t: string, version: int)
    requires Sound(t) && t != "" && EvalPredicate(t, version)
    requires forall i :: 0 <= i < |t| ==> t[i] != '(' && t[i] != ')' && t[i] != '|'
    ensures EvalConjunct(" " + t, version)
  {
    hide Balanced, Split, EvalConjunct, EvalPredicate, Trim;
    PlainIsWhole(t, '|');
    TightPredicate(t, version);
    assert Split(t, '|', 0)[0] == t;
    TrimOutside(" ", t, "");
    assert " " + t + "" == " " + t;
    TrimTight(t);
    TrimmedConjunct(" " + t, version);
  }

  lemma SoundWord(t: string)
    requires t != "" && Tight(t) && Balanced(t)
    ensures Sound(t)
  {
    TrimTight(t);
  }

  lemma WordIsNoComparison(a: string)
    requires a != "" && forall i :: 0 <= i < |a| ==> IsIdent(a[i])
    ensures MatchGte(a) == None
  {
    WordSkipped(a);
  }

  lemma {:induction false} WordSkipped(a: string)
    requires forall i :: 0 <= i < |a| ==> IsIdent(a[i])
    ensures SkipIdent(a) == ""
  {
    if a != "" {
      WordSkipped(a[1..]);
    }
  }
}
