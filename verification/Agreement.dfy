/**
  When concurrent adds and moves leave indexes and towers in agreement: always,
  if no two calls in flight concern the same entity and no move falls; and not
  in general, since two rising moves of one entity can part its index from its
  tower.
 */
module Agreement {
  import opened Towers
  import opened Interleaving

  // ----- what agrees -----

  /** The object is at a cell of tower `t`. */
  predicate At(s: State, r: Ref, t: int) {
    r in s.objects && OnMap(s, s.objects[r].x, s.objects[r].y) && TowerOf(s.width, s.objects[r].x, s.objects[r].y) == t
  }

  /** The entity is in the tower and type its indexes name, at a cell of that tower. */
  ghost predicate Settled(s: State, id: EntityID)
    requires s.types.Keys == s.index.Keys && id in s.index
  {
    var k := Key(s.index[id], s.types[id], id);
    k in s.slots && At(s, s.slots[k], s.index[id])
  }

  /** The identifier a call in flight concerns. */
  predicate Concerns(c: Call, id: EntityID) {
    !c.Idle? && c.id == id
  }

  /** A call between the two critical sections that part and rejoin index and tower. */
  predicate Parting(c: Call) {
    c.AddInsert? || c.MoveTake? || c.MoveWrite? || c.MoveInsert?
  }

  /** What a call in flight relies on, as long as no other call concerns its entity. */
  ghost predicate InOrder(s: State, c: Call)
    requires s.types.Keys == s.index.Keys
  {
    match c
    case Idle => true
    case AddPending(r, id, typ, t) => id !in s.index ==> At(s, r, t)
    case AddInsert(r, id, typ, t) => id in s.index && s.index[id] == t && s.types[id] == typ && At(s, r, t)
    case MoveWithin(id, typ, t, x, y) =>
      id in s.index && s.index[id] == t && s.types[id] == typ && OnMap(s, x, y) && TowerOf(s.width, x, y) == t
    case MoveTake(id, typ, first, second, x, y) =>
      && id in s.index && s.index[id] == second && s.types[id] == typ
      && OnMap(s, x, y) && TowerOf(s.width, x, y) == second && Key(first, typ, id) in s.slots
    case MoveWrite(r, id, typ, second, x, y) =>
      && id in s.index && s.index[id] == second && s.types[id] == typ
      && OnMap(s, x, y) && TowerOf(s.width, x, y) == second
    case MoveInsert(r, id, typ, second, x, y) =>
      && id in s.index && s.index[id] == second && s.types[id] == typ
      && OnMap(s, x, y) && TowerOf(s.width, x, y) == second && At(s, r, second)
  }

  /** Every call is in order, and every entity no call is parting is settled. */
  ghost predicate Orderly(s: State)
    requires s.types.Keys == s.index.Keys
  {
    && (forall i :: 0 <= i < |s.calls| ==> InOrder(s, s.calls[i]))
    && (forall id :: id in s.index ==> Settled(s, id) || exists i :: 0 <= i < |s.calls| && Parting(s.calls[i]) && s.calls[i].id == id)
  }

  /** No two calls in flight concern the same entity. */
  ghost predicate Apart(s: State) {
    forall i, j, id :: 0 <= i < |s.calls| && 0 <= j < |s.calls| && Concerns(s.calls[i], id) && Concerns(s.calls[j], id) ==> i == j
  }

  /** A call that starts is the only one in flight for its entity. */
  ghost predicate StartsAlone(s: State, i: nat, a: Action)
    requires i < |s.calls|
  {
    s.calls[i].Idle? ==>
      match a
      case StartAdd(r) => r in s.objects ==> Unconcerned(s, s.objects[r].id)
      case StartMove(id, _, _) => Unconcerned(s, id)
      case Continue => true
  }

  /** A move that starts does not go to a lower tower than the index names. */
  predicate StartsRising(s: State, i: nat, a: Action)
    requires i < |s.calls|
  {
    s.calls[i].Idle? && a.StartMove? && OnMap(s, a.x, a.y) && a.id in s.index ==>
      TowerOf(s.width, a.x, a.y) >= s.index[a.id]
  }

  ghost predicate MayStart(s: State, i: nat, a: Action)
    requires i < |s.calls|
  {
    StartsAlone(s, i, a) && StartsRising(s, i, a)
  }

  ghost predicate Unconcerned(s: State, id: EntityID) {
    forall i :: 0 <= i < |s.calls| ==> !Concerns(s.calls[i], id)
  }

  // ----- what a step leaves alone -----

  /** Nothing changes but what belongs to entity `id`. */
  ghost predicate OnlyFor(s: State, s': State, id: EntityID) {
    && s'.width == s.width && s'.height == s.height && s'.types.Keys == s'.index.Keys
    && (forall i :: i != id ==> (i in s'.index <==> i in s.index))
    && (forall i :: i != id && i in s.index && i in s.types && i in s'.types ==>
          s'.index[i] == s.index[i] && s'.types[i] == s.types[i])
    && (forall k: Key :: k.id != id ==> (k in s'.slots <==> k in s.slots))
    && (forall k: Key :: k.id != id && k in s.slots ==> s'.slots[k] == s.slots[k])
    && (forall r :: r in s.objects && s.objects[r].id != id ==> r in s'.objects && s'.objects[r] == s.objects[r])
  }

  lemma OthersKept(s: State, s': State, id: EntityID, other: EntityID)
    requires WellTyped(s) && OnlyFor(s, s', id) && other != id && other in s.index
    ensures other in s'.index && (Settled(s', other) <==> Settled(s, other))
  {
    hide TowerOf;
    var k := Key(s.index[other], s.types[other], other);
    assert k in s.slots ==> LeadsTo(s.objects, s.slots[k], other);
  }

  lemma OtherInOrder(s: State, s': State, id: EntityID, c: Call)
    requires WellTyped(s) && OnlyFor(s, s', id) && CallTyped(s.objects, c)
    requires InOrder(s, c) && (c.Idle? || c.id != id)
    ensures InOrder(s', c)
  {
    assert s.types.Keys == s.index.Keys;
    hide TowerOf, WellTyped;
    if !c.Idle? && c.id in s.index {
      assert c.id in s.types && c.id in s'.types;
    }
  }

  // ----- one step -----

  /** The identifier a step concerns, if any. */
  ghost function Subject(s: State, c: Call, a: Action): (id: EntityID)
    ensures !c.Idle? ==> id == c.id
  {
    match c
    case Idle =>
      (match a
       case StartAdd(r) => if r in s.objects then s.objects[r].id else 0
       case StartMove(id, x, y) => id
       case Continue => 0)
    case _ => c.id
  }

  lemma StepOnlyFor(s: State, c: Call, a: Action)
    requires WellTyped(s) && CallTyped(s.objects, c)
    ensures OnlyFor(s, Effect(s, c, a), Subject(s, c, a))
  {
    hide TowerOf, OnMap;
    match c
    case MoveWithin(id, typ, t, x, y) =>
      if Key(t, typ, id) in s.slots {
        SlotTyped(s, Key(t, typ, id));
      }
    case MoveInsert(r, id, typ, second, x, y) =>
      if Key(second, typ, id) in s.slots {
        SlotTyped(s, Key(second, typ, id));
      }
    case _ =>
  }

  /** After its step the call is in order again, and its entity settled unless the call is parting it. */
  lemma StepInOrder(s: State, i: nat, a: Action)
    requires WellTyped(s) && i < |s.calls| && InOrder(s, s.calls[i]) && MayStart(s, i, a)
    requires CallTyped(s.objects, s.calls[i])
    requires var id := Subject(s, s.calls[i], a); id in s.index ==> Settled(s, id) || Parting(s.calls[i])
    ensures WellTyped(Effect(s, s.calls[i], a))
    ensures var e, rest, id := Effect(s, s.calls[i], a), Rest(s, s.calls[i], a), Subject(s, s.calls[i], a);
      && InOrder(e, rest)
      && (id in e.index ==> Settled(e, id) || (Parting(rest) && rest.id == id))
      && (!rest.Idle? ==> rest.id == id)
  {
    var c := s.calls[i];
    EffectTyped(s, c, a);
    hide TowerOf, WellTyped, Unconcerned;
    match c
    case MoveWithin(id, typ, t, x, y) =>
    case MoveInsert(r, id, typ, second, x, y) =>
      InsertSettles(s, c, a);
    case _ =>
  }

  lemma InsertSettles(s: State, c: Call, a: Action)
    requires WellTyped(s) && CallTyped(s.objects, c) && c.MoveInsert? && InOrder(s, c)
    ensures WellTyped(Effect(s, c, a)) && c.id in Effect(s, c, a).index && Settled(Effect(s, c, a), c.id)
  {
    EffectTyped(s, c, a);
    hide TowerOf, WellTyped;
    var k := Key(c.second, c.typ, c.id);
    if k in s.slots {
      assert LeadsTo(s.objects, s.slots[k], c.id) by {
        SlotTyped(s, k);
      }
    }
  }

  /** No other call concerns what this step concerns. */
  lemma AloneInFlight(s: State, i: nat, a: Action, j: nat)
    requires i < |s.calls| && j < |s.calls| && i != j && Apart(s) && MayStart(s, i, a)
    requires Starts(s, i, a)
    ensures !Concerns(s.calls[j], Subject(s, s.calls[i], a))
  {
    hide TowerOf, OnMap;
    if !s.calls[i].Idle? {
      assert Concerns(s.calls[i], s.calls[i].id);
    }
  }

  /** The step is one of a call in flight or starts one for an existing object. */
  predicate Starts(s: State, i: nat, a: Action)
    requires i < |s.calls|
  {
    s.calls[i].Idle? ==> a.StartMove? || (a.StartAdd? && a.ref in s.objects)
  }

  lemma NothingStarts(s: State, i: nat, a: Action)
    requires WellTyped(s) && i < |s.calls| && !Starts(s, i, a)
    ensures Next(s, i, a) == s
  {
    assert s.calls[i := Idle] == s.calls;
  }

  lemma OwnSettled(s: State, i: nat, a: Action)
    requires WellTyped(s) && Orderly(s) && Apart(s) && i < |s.calls| && MayStart(s, i, a) && Starts(s, i, a)
    ensures var id := Subject(s, s.calls[i], a); id in s.index ==> Settled(s, id) || Parting(s.calls[i])
  {
    hide TowerOf, OnMap, Settled, MayStart, Apart, InOrder;
    var id := Subject(s, s.calls[i], a);
    if id in s.index && !Settled(s, id) {
      var j: nat :| j < |s.calls| && Parting(s.calls[j]) && s.calls[j].id == id;
      if j != i {
        AloneInFlight(s, i, a, j);
      }
    }
  }

  /** The shared state alone decides what is in order and what is settled. */
  lemma CallsApart(s: State, i: nat, c: Call)
    requires s.types.Keys == s.index.Keys && i < |s.calls|
    ensures forall d :: InOrder(SetCall(s, i, c), d) <==> InOrder(s, d)
    ensures forall id :: id in s.index ==> (Settled(SetCall(s, i, c), id) <==> Settled(s, id))
  {
    hide TowerOf;
  }

  lemma NextOrderly(s: State, i: nat, a: Action)
    requires WellTyped(s) && Orderly(s) && Apart(s) && i < |s.calls| && MayStart(s, i, a)
    ensures WellTyped(Next(s, i, a)) && Orderly(Next(s, i, a)) && Apart(Next(s, i, a))
  {
    NextWellTyped(s, i, a);
    if !Starts(s, i, a) {
      NothingStarts(s, i, a);
    } else {
      assert CallTyped(s.objects, s.calls[i]) && InOrder(s, s.calls[i]);
      OwnSettled(s, i, a);
      StepInOrder(s, i, a);
      StepOnlyFor(s, s.calls[i], a);
      EffectTyped(s, s.calls[i], a);
      forall j: nat | j < |s.calls| && j != i ensures !Concerns(s.calls[j], Subject(s, s.calls[i], a)) {
        AloneInFlight(s, i, a, j);
      }
      CallsApart(Effect(s, s.calls[i], a), i, Rest(s, s.calls[i], a));
      hide MayStart, Starts, Effect, Rest, Subject, Settled, InOrder, OnlyFor;
      OrderlyAfter(s, i, Effect(s, s.calls[i], a), Rest(s, s.calls[i], a), Subject(s, s.calls[i], a));
    }
  }

  lemma OrderlyAfter(s: State, i: nat, e: State, rest: Call, id: EntityID)
    requires WellTyped(s) && WellTyped(e) && Orderly(s) && Apart(s) && i < |s.calls| && e.calls == s.calls
    requires OnlyFor(s, e, id) && InOrder(e, rest)
    requires id in e.index ==> Settled(e, id) || (Parting(rest) && rest.id == id)
    requires (!rest.Idle? ==> rest.id == id) && (!s.calls[i].Idle? ==> s.calls[i].id == id)
    requires forall j: nat :: j < |s.calls| && j != i ==> !Concerns(s.calls[j], id)
    ensures Orderly(SetCall(e, i, rest)) && Apart(SetCall(e, i, rest))
  {
    var s' := SetCall(e, i, rest);
    CallsApart(e, i, rest);
    forall j | 0 <= j < |s'.calls| ensures InOrder(s', s'.calls[j]) {
      if j != i {
        assert InOrder(s, s.calls[j]) && CallTyped(s.objects, s.calls[j]);
        assert !Concerns(s.calls[j], id);
        hide WellTyped, InOrder, OnlyFor, Settled;
        OtherInOrder(s, e, id, s.calls[j]);
      }
    }
    forall other | other in s'.index
      ensures Settled(s', other) || exists j :: 0 <= j < |s'.calls| && Parting(s'.calls[j]) && s'.calls[j].id == other
    {
      if other == id {
        assert s'.calls[i] == rest;
      } else {
        OtherStays(s, i, e, rest, id, other);
      }
    }
  }

  lemma OtherStays(s: State, i: nat, e: State, rest: Call, id: EntityID, other: EntityID)
    requires WellTyped(s) && WellTyped(e) && Orderly(s) && i < |s.calls| && e.calls == s.calls && OnlyFor(s, e, id)
    requires other != id && other in e.index && (!s.calls[i].Idle? ==> s.calls[i].id == id)
    ensures Settled(SetCall(e, i, rest), other)
      || exists j :: 0 <= j < |s.calls| && Parting(SetCall(e, i, rest).calls[j]) && SetCall(e, i, rest).calls[j].id == other
  {
    assert other in s.index;
    CallsApart(e, i, rest);
    OthersKept(s, e, id, other);
    hide WellTyped, OnlyFor, Settled, InOrder;
    if !Settled(s, other) {
      var j :| 0 <= j < |s.calls| && Parting(s.calls[j]) && s.calls[j].id == other;
      assert j != i;
      assert SetCall(e, i, rest).calls[j] == s.calls[j];
    }
  }

  // ----- every tame interleaving -----

  /** Each call, when it starts, is alone with its entity and its move does not fall. */
  ghost predicate Tame(s: State, turns: seq<Turn>)
    requires WellTyped(s) && Scheduled(s, turns)
    decreases |turns|
  {
    turns == [] ||
    (assert turns[0] in turns;
     NextWellTyped(s, turns[0].call, turns[0].action);
     MayStart(s, turns[0].call, turns[0].action) && Tame(Next(s, turns[0].call, turns[0].action), turns[1..]))
  }

  lemma {:induction false} OrderlyThroughout(s: State, turns: seq<Turn>)
    requires WellTyped(s) && Orderly(s) && Apart(s) && Scheduled(s, turns) && Tame(s, turns)
    ensures Orderly(After(s, turns)) && Apart(After(s, turns))
    decreases |turns|
  {
    if turns != [] {
      assert turns[0] in turns;
      NextOrderly(s, turns[0].call, turns[0].action);
      hide WellTyped, Orderly, Apart, MayStart, Next;
      OrderlyThroughout(Next(s, turns[0].call, turns[0].action), turns[1..]);
    }
  }

  ghost predicate Quiet(s: State) {
    forall i :: 0 <= i < |s.calls| ==> s.calls[i] == Idle
  }

  /** Indexes and towers agree both ways, and every entity is in the tower of its cell. */
  ghost predicate Agrees(s: State)
    requires s.types.Keys == s.index.Keys
  {
    && (forall id :: id in s.index ==> Settled(s, id))
    && (forall k :: k in s.slots ==> k.id in s.index && s.index[k.id] == k.tower && s.types[k.id] == k.typ)
  }

  /**
    From a quiet grid in agreement, after any interleaving of calls in which no two in flight concern
    the same entity and no move falls: whenever all calls have returned, the grid agrees again.
   */
  lemma AgreesWhenQuiet(s: State, turns: seq<Turn>)
    requires WellTyped(s) && HeldOnce(s) && Quiet(s) && Agrees(s) && Scheduled(s, turns) && Tame(s, turns)
    ensures Quiet(After(s, turns)) ==> Agrees(After(s, turns))
  {
    hide Settled, MayStart;
    assert Orderly(s) && Apart(s);
    OrderlyThroughout(s, turns);
    HeldOnceThroughout(s, turns);
    var e := After(s, turns);
    if Quiet(e) {
      QuietAgrees(e);
    }
  }

  lemma QuietAgrees(s: State)
    requires WellTyped(s) && HeldOnce(s) && Quiet(s) && Orderly(s)
    ensures Agrees(s)
  {
    forall k | k in s.slots ensures k.id in s.index && s.index[k.id] == k.tower && s.types[k.id] == k.typ {
      assert Has(s, InTower(k.tower, k.typ), k.id);
      assert k.id in s.index;
      assert Settled(s, k.id);
      assert Has(s, InTower(s.index[k.id], s.types[k.id]), k.id);
    }
  }

  // ----- and when entities are shared between calls -----

  /** No move of the interleaving falls when it starts. */
  ghost predicate NoneFalls(s: State, turns: seq<Turn>)
    requires WellTyped(s) && Scheduled(s, turns)
    decreases |turns|
  {
    turns == [] ||
    (assert turns[0] in turns;
     NextWellTyped(s, turns[0].call, turns[0].action);
     StartsRising(s, turns[0].call, turns[0].action) && NoneFalls(Next(s, turns[0].call, turns[0].action), turns[1..]))
  }

  /** One step of a run. */
  lemma RunStep(s: State, i: nat, a: Action, s': State, turns: seq<Turn>)
    requires WellTyped(s) && i < |s.calls| && s' == Next(s, i, a) && Scheduled(s', turns)
    requires StartsRising(s, i, a) && WellTyped(s') && NoneFalls(s', turns)
    ensures |s'.calls| == |s.calls| && Scheduled(s, [Turn(i, a)] + turns)
    ensures NoneFalls(s, [Turn(i, a)] + turns) && After(s, [Turn(i, a)] + turns) == After(s', turns)
  {
    NextWellTyped(s, i, a);
    var all := [Turn(i, a)] + turns;
    assert all[0] == Turn(i, a) && all[1..] == turns;
    forall t | t in all ensures t.call < |s.calls| {
      assert t in turns || t == Turn(i, a);
    }
  }

  /** The map of the examples: one row of four towers. */
  const ROW: nat := 72

  lemma RowTowers()
    ensures TowerOf(ROW, 0, 0) == 0 && TowerOf(ROW, 20, 0) == 1 && TowerOf(ROW, 40, 0) == 2
  {
    hide *;
    Quotients();
    FirstRow(ROW, 0);
    FirstRow(ROW, 20);
    FirstRow(ROW, 40);
  }

  lemma Quotients()
    ensures 0 / TOWER_SIZE == 0 && 20 / TOWER_SIZE == 1 && 40 / TOWER_SIZE == 2
  {
  }

  lemma FirstRow(width: nat, x: nat)
    ensures TowerOf(width, x, 0) == x / TOWER_SIZE
  {
    hide Across;
    assert 0 / TOWER_SIZE == 0;
    assert 0 * Across(width) == 0;
  }

  /** The grid with entity 7, object 0, in the given state, and two calls. */
  ghost function Example(index: map<EntityID, int>, slots: map<Key, Ref>, x: int, c: Call, d: Call): State {
    State(ROW, TOWER_SIZE, index, map id | id in index :: Player, slots, map[0 := Object(7, Player, x, 0)], [c, d])
  }

  lemma ExampleTyped(index: map<EntityID, int>, slots: map<Key, Ref>, x: int, c: Call, d: Call)
    requires forall k :: k in slots ==> k.id == 7 && slots[k] == 0
    requires CallTyped(map[0 := Object(7, Player, x, 0)], c) && CallTyped(map[0 := Object(7, Player, x, 0)], d)
    ensures WellTyped(Example(index, slots, x, c, d))
  {
  }

  /** The calls of the two racing moves. */
  function Take(first: int, second: int, x: int): Call {
    MoveTake(7, Player, first, second, x, 0)
  }

  ghost function InTower0(): map<Key, Ref> {
    map[Key(0, Player, 7) := 0]
  }

  /** Adding entity 7 at (0, 0), in three steps of call 0. */
  lemma Adding(turns: seq<Turn>)
    requires var s := Example(map[7 := 0], InTower0(), 0, Idle, Idle);
      WellTyped(s) && Scheduled(s, turns) && NoneFalls(s, turns)
    ensures var s, e := Example(map[], map[], 0, Idle, Idle), Example(map[7 := 0], InTower0(), 0, Idle, Idle);
      var all := [Turn(0, StartAdd(0))] + ([Turn(0, Continue)] + ([Turn(0, Continue)] + turns));
      && WellTyped(s) && Initial(s) && Scheduled(s, all) && NoneFalls(s, all) && After(s, all) == After(e, turns)
  {
    RowTowers();
    hide TowerOf, NoneFalls, After, Initial;
    var pending, insert := AddPending(0, 7, Player, 0), AddInsert(0, 7, Player, 0);
    var s0, s1 := Example(map[], map[], 0, Idle, Idle), Example(map[], map[], 0, pending, Idle);
    var s2, s3 := Example(map[7 := 0], map[], 0, insert, Idle), Example(map[7 := 0], InTower0(), 0, Idle, Idle);
    ExampleTyped(map[], map[], 0, Idle, Idle);
    ExampleTyped(map[], map[], 0, pending, Idle);
    ExampleTyped(map[7 := 0], map[], 0, insert, Idle);
    assert Next(s0, 0, StartAdd(0)) == s1;
    assert Next(s1, 0, Continue) == s2 by {
      assert s1.types[7 := Player] == s2.types;
    }
    assert Next(s2, 0, Continue) == s3;
    RunStep(s2, 0, Continue, s3, turns);
    RunStep(s1, 0, Continue, s2, [Turn(0, Continue)] + turns);
    RunStep(s0, 0, StartAdd(0), s1, [Turn(0, Continue)] + ([Turn(0, Continue)] + turns));
    assert Initial(s0) by {
      NewExample(s0);
    }
  }

  lemma NewExample(s: State)
    requires s == Example(map[], map[], 0, Idle, Idle)
    ensures Initial(s)
  {
  }

  /** All calls have returned, and the index of entity 7 names a tower that does not hold it. */
  ghost predicate Parted(s: State) {
    Quiet(s) && 7 in s.index && 7 in s.types && Key(s.index[7], s.types[7], 7) !in s.slots
    && exists k :: k in s.slots && k.id == 7
  }

  /** The states of the race, from the entity in tower 0 to both calls returned. */
  ghost function Race(n: nat): State
    requires n <= 6
  {
    match n
    case 0 => Example(map[7 := 0], InTower0(), 0, Idle, Idle)
    case 1 => Example(map[7 := 1], InTower0(), 0, Take(0, 1, 20), Idle)
    case 2 => Example(map[7 := 2], InTower0(), 0, Take(0, 1, 20), Take(1, 2, 40))
    case 3 => Example(map[7 := 2], InTower0(), 0, Take(0, 1, 20), Idle)
    case 4 => Example(map[7 := 2], map[], 0, MoveWrite(0, 7, Player, 1, 20, 0), Idle)
    case 5 => Example(map[7 := 2], map[], 20, MoveInsert(0, 7, Player, 1, 20, 0), Idle)
    case _ => Example(map[7 := 2], map[Key(1, Player, 7) := 0], 20, Idle, Idle)
  }

  function RaceTurn(n: nat): Turn {
    if n == 0 then Turn(0, StartMove(7, 20, 0)) else if n == 1 then Turn(1, StartMove(7, 40, 0))
    else if n == 2 then Turn(1, Continue) else Turn(0, Continue)
  }

  ghost function RaceTurns(n: nat): seq<Turn>
    requires n <= 6
    decreases 6 - n
  {
    if n == 6 then [] else [RaceTurn(n)] + RaceTurns(n + 1)
  }

  lemma RaceTyped(n: nat)
    requires n <= 6
    ensures WellTyped(Race(n)) && |Race(n).calls| == 2
  {
  }

  /** A move from tower `from` to the higher tower `to` starts in call `i`. */
  lemma MoveStarts(s: State, i: nat, from: int, to: int, x: int)
    requires WellTyped(s) && i < |s.calls| && s.calls[i] == Idle && OnMap(s, x, 0)
    requires s.index == map[7 := from] && s.types == map[7 := Player] && TowerOf(s.width, x, 0) == to > from
    ensures StartsRising(s, i, StartMove(7, x, 0))
    ensures Next(s, i, StartMove(7, x, 0)) == SetCall(s.(index := map[7 := to]), i, Take(from, to, x))
  {
    hide TowerOf, WellTyped;
    assert s.index[7 := to] == map[7 := to];
  }

  lemma RaceMoves(n: nat)
    requires n < 2
    ensures RaceStep(n)
  {
    hide *;
    var x := if n == 0 then 20 else 40;
    RaceTyped(n);
    RaceFields(n, x);
    RowTowers();
    MoveStarts(Race(n), n, n, n + 1, x);
    StepIntro(n);
  }

  lemma RaceFields(n: nat, x: int)
    requires n < 2 && x == if n == 0 then 20 else 40
    ensures var s := Race(n);
      && n < |s.calls| && s.calls[n] == Idle && OnMap(s, x, 0) && s.width == ROW
      && s.index == map[7 := n] && s.types == map[7 := Player]
      && RaceTurn(n) == Turn(n, StartMove(7, x, 0))
      && Race(n + 1) == SetCall(s.(index := map[7 := n + 1]), n, Take(n, n + 1, x))
  {
    if n == 0 {
      OneEntity(map[7 := 0], InTower0(), 0, Idle, Idle);
      OneEntity(map[7 := 1], InTower0(), 0, Take(0, 1, 20), Idle);
    } else {
      OneEntity(map[7 := 1], InTower0(), 0, Take(0, 1, 20), Idle);
      OneEntity(map[7 := 2], InTower0(), 0, Take(0, 1, 20), Take(1, 2, 40));
    }
  }

  lemma StepIntro(n: nat)
    requires n < 6 && WellTyped(Race(n)) && RaceTurn(n).call < |Race(n).calls|
    requires StartsRising(Race(n), RaceTurn(n).call, RaceTurn(n).action)
    requires Next(Race(n), RaceTurn(n).call, RaceTurn(n).action) == Race(n + 1)
    ensures RaceStep(n)
  {
    hide Race, RaceTurn, WellTyped, StartsRising, Next;
  }

  lemma OneEntity(index: map<EntityID, int>, slots: map<Key, Ref>, x: int, c: Call, d: Call)
    requires index.Keys == {7}
    ensures Example(index, slots, x, c, d).types == map[7 := Player]
  {
    assert forall id :: id in index <==> id == 7;
  }

  ghost predicate RaceStep(n: nat)
    requires n < 6
  {
    var s, t := Race(n), RaceTurn(n);
    && WellTyped(s) && t.call < |s.calls| && StartsRising(s, t.call, t.action) && Next(s, t.call, t.action) == Race(n + 1)
  }

  lemma RaceTakes(n: nat)
    requires 2 <= n < 6
    ensures RaceStep(n)
  {
    RaceTyped(n);
    hide TowerOf, WellTyped;
    assert InTower0() - {Key(1, Player, 7)} == InTower0();
    assert InTower0() - {Key(0, Player, 7)} == map[];
  }

  lemma {:induction false} RaceRuns(n: nat)
    requires n <= 6
    ensures WellTyped(Race(n)) && Scheduled(Race(n), RaceTurns(n)) && NoneFalls(Race(n), RaceTurns(n))
    ensures After(Race(n), RaceTurns(n)) == Race(6)
    decreases 6 - n
  {
    RaceTyped(n);
    if n < 6 {
      RaceRuns(n + 1);
      if n < 2 {
        RaceMoves(n);
      } else {
        RaceTakes(n);
      }
      assert RaceTurns(n) == [RaceTurn(n)] + RaceTurns(n + 1);
      var t := RaceTurn(n);
      assert t == Turn(t.call, t.action);
      hide Race, RaceTurn, RaceTurns, NoneFalls, After, WellTyped, StartsRising, Next;
      RunStep(Race(n), t.call, t.action, Race(n + 1), RaceTurns(n + 1));
    } else {
      hide Race;
      EndOfRun(Race(6));
    }
  }

  lemma EndOfRun(s: State)
    requires WellTyped(s)
    ensures Scheduled(s, []) && NoneFalls(s, []) && After(s, []) == s
  {
  }

  /**
    From a new grid: two concurrent moves of one entity, neither of them falling, both return, and
    then its index names tower 2 while the object is in tower 1.
   */
  lemma RacingMovesPart()
    ensures var s := Example(map[], map[], 0, Idle, Idle);
      var all := [Turn(0, StartAdd(0))] + ([Turn(0, Continue)] + ([Turn(0, Continue)] + RaceTurns(0)));
      && WellTyped(s) && Initial(s) && Scheduled(s, all) && NoneFalls(s, all) && Parted(After(s, all))
  {
    RaceRuns(0);
    assert Race(0) == Example(map[7 := 0], InTower0(), 0, Idle, Idle);
    RaceParts();
    hide *;
    Adding(RaceTurns(0));
  }

  lemma RaceParts()
    ensures Parted(Race(6))
  {
    assert Key(1, Player, 7) in Race(6).slots;
  }
}
