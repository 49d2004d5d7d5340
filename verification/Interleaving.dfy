/**
  Concurrent AddEntity and MoveEntity calls.  A step is one critical section
  or one unlocked access of a call; steps of different calls interleave freely.
  Entities are objects reached by reference, so that unlocked writes can race.
 */
module Interleaving {
  import opened Towers

  type Ref = int

  datatype Object = Object(id: EntityID, typ: EntityType, x: int, y: int)

  /** Where a tower map keeps an entity. */
  datatype Key = Key(tower: int, typ: EntityType, id: EntityID)

  /** What is left of a call in flight. */
  datatype Call =
    | Idle
    | AddPending(ref: Ref, id: EntityID, typ: EntityType, tower: int)
    | AddInsert(ref: Ref, id: EntityID, typ: EntityType, tower: int)
    | MoveWithin(id: EntityID, typ: EntityType, tower: int, x: int, y: int)
    | MoveTake(id: EntityID, typ: EntityType, first: int, second: int, x: int, y: int)
    | MoveWrite(ref: Ref, id: EntityID, typ: EntityType, second: int, x: int, y: int)
    | MoveInsert(ref: Ref, id: EntityID, typ: EntityType, second: int, x: int, y: int)

  datatype State = State(
    width: nat,
    height: nat,
    index: map<EntityID, int>,
    types: map<EntityID, EntityType>,
    slots: map<Key, Ref>,
    objects: map<Ref, Object>,
    calls: seq<Call>)

  /** What the scheduler picks for a call: how an idle one starts, or that one in flight goes on. */
  datatype Action = StartAdd(ref: Ref) | StartMove(id: EntityID, x: int, y: int) | Continue

  predicate OnMap(s: State, x: int, y: int) {
    0 <= x < s.width && 0 <= y < s.height
  }

  function SetCall(s: State, i: nat, c: Call): State
    requires i < |s.calls|
  {
    s.(calls := s.calls[i := c])
  }

  function WriteTo(s: State, r: Ref, x: int, y: int): State
    requires r in s.objects
  {
    s.(objects := s.objects[r := s.objects[r].(x := x, y := y)])
  }

  /** What one step of a call does to the shared state; an action that does not fit does nothing. */
  function Effect(s: State, c: Call, a: Action): State
    requires WellTyped(s) && CallTyped(s.objects, c)
  {
    match c
    // index lock
    case Idle =>
      if a.StartMove? && OnMap(s, a.x, a.y) && a.id in s.index then s.(index := s.index[a.id := TowerOf(s.width, a.x, a.y)])
      else s
    // index lock
    case AddPending(r, id, typ, t) =>
      if id in s.index then s else s.(index := s.index[id := t], types := s.types[id := typ])
    // tower lock
    case AddInsert(r, id, typ, t) => s.(slots := s.slots[Key(t, typ, id) := r])
    // tower lock
    case MoveWithin(id, typ, t, x, y) =>
      var k := Key(t, typ, id);
      if k in s.slots then WriteTo(s, s.slots[k], x, y) else s
    // lock of the lower tower
    case MoveTake(id, typ, first, second, x, y) => s.(slots := s.slots - {Key(first, typ, id)})
    // no lock
    case MoveWrite(r, id, typ, second, x, y) => WriteTo(s, r, x, y)
    // lock of the higher tower
    case MoveInsert(r, id, typ, second, x, y) =>
      var k := Key(second, typ, id);
      if k in s.slots then WriteTo(s, s.slots[k], x, y) else s.(slots := s.slots[k := r])
  }

  /** What is left of the call after that step. */
  function Rest(s: State, c: Call, a: Action): Call
    requires WellTyped(s)
  {
    match c
    case Idle =>
      (match a
       // the entity's fields are read before any lock is taken
       case StartAdd(r) =>
         if r in s.objects && OnMap(s, s.objects[r].x, s.objects[r].y) then
           var o := s.objects[r];
           AddPending(r, o.id, o.typ, TowerOf(s.width, o.x, o.y))
         else Idle
       case StartMove(id, x, y) =>
         if !OnMap(s, x, y) || id !in s.index then Idle
         else
           var from, to, typ := s.index[id], TowerOf(s.width, x, y), s.types[id];
           if to == from then MoveWithin(id, typ, from, x, y)
           else MoveTake(id, typ, if from > to then to else from, if from > to then from else to, x, y)
       case Continue => Idle)
    case AddPending(r, id, typ, t) => if id in s.index then Idle else AddInsert(r, id, typ, t)
    case MoveTake(id, typ, first, second, x, y) =>
      var k := Key(first, typ, id);
      if k in s.slots then MoveWrite(s.slots[k], id, typ, second, x, y) else Idle
    case MoveWrite(r, id, typ, second, x, y) => MoveInsert(r, id, typ, second, x, y)
    case _ => Idle
  }

  /** One step of call `i`. */
  function Next(s: State, i: nat, a: Action): State
    requires WellTyped(s) && i < |s.calls|
  {
    var c := s.calls[i];
    assert CallTyped(s.objects, c);
    SetCall(Effect(s, c, a), i, Rest(s, c, a))
  }

  /** The maps differ at `k` at most. */
  ghost predicate SameBut<K, V>(a: map<K, V>, b: map<K, V>, k: K) {
    a - {k} == b - {k}
  }

  ghost predicate TouchesOne(s: State, n: State) {
    && ((n.index == s.index && n.types == s.types) || (n.slots == s.slots && n.objects == s.objects))
    && (n.slots == s.slots || n.objects == s.objects)
    && (n.slots == s.slots || exists k :: SameBut(n.slots, s.slots, k))
    && (n.objects == s.objects || exists r :: SameBut(n.objects, s.objects, r))
  }

  lemma WriteTouches(s: State, r: Ref, x: int, y: int)
    requires r in s.objects
    ensures TouchesOne(s, WriteTo(s, r, x, y))
  {
    assert SameBut(WriteTo(s, r, x, y).objects, s.objects, r);
  }

  lemma SlotTouches(s: State, k: Key, r: Ref)
    ensures TouchesOne(s, s.(slots := s.slots[k := r])) && TouchesOne(s, s.(slots := s.slots - {k}))
  {
    assert SameBut(s.slots[k := r], s.slots, k);
    assert SameBut(s.slots - {k}, s.slots, k);
  }

  lemma EffectTouchesOne(s: State, c: Call, a: Action)
    requires WellTyped(s) && CallTyped(s.objects, c)
    ensures TouchesOne(s, Effect(s, c, a))
  {
    hide TouchesOne, TowerOf;
    assert TouchesOne(s, s) by {
      IndexTouches(s, s.index, s.types);
    }
    match c
    case Idle =>
      if a.StartMove? {
        IndexTouches(s, s.index[a.id := TowerOf(s.width, a.x, a.y)], s.types);
      }
    case AddPending(r, id, typ, t) =>
      IndexTouches(s, s.index[id := t], s.types[id := typ]);
    case AddInsert(r, id, typ, t) =>
      SlotTouches(s, Key(t, typ, id), r);
    case MoveWithin(id, typ, t, x, y) =>
      var k := Key(t, typ, id);
      if k in s.slots {
        WriteTouches(s, s.slots[k], x, y);
      }
    case MoveTake(id, typ, first, second, x, y) =>
      SlotTouches(s, Key(first, typ, id), 0);
    case MoveWrite(r, id, typ, second, x, y) =>
      WriteTouches(s, r, x, y);
    case MoveInsert(r, id, typ, second, x, y) =>
      var k := Key(second, typ, id);
      SlotTouches(s, k, r);
      if k in s.slots {
        WriteTouches(s, s.slots[k], x, y);
      }
  }

  lemma IndexTouches(s: State, index: map<EntityID, int>, types: map<EntityID, EntityType>)
    ensures TouchesOne(s, s.(index := index, types := types))
  {
  }

  /** A step works on the index, or on one entry of one tower, or on one object, never on two of these. */
  lemma StepTouchesOne(s: State, i: nat, a: Action)
    requires WellTyped(s) && i < |s.calls|
    ensures var n := Next(s, i, a);
      TouchesOne(s, n) && |n.calls| == |s.calls| && forall j :: 0 <= j < |s.calls| && j != i ==> n.calls[j] == s.calls[j]
  {
    EffectTouchesOne(s, s.calls[i], a);
    hide Effect, Rest;
    EffectKeepsCalls(s, s.calls[i], a);
  }

  lemma EffectKeepsCalls(s: State, c: Call, a: Action)
    requires WellTyped(s) && CallTyped(s.objects, c)
    ensures Effect(s, c, a).calls == s.calls
  {
    hide TowerOf;
  }

  // ----- who holds an entity -----

  datatype Holder = InTower(tower: int, typ: EntityType) | InCall(i: nat)

  predicate Carries(c: Call, id: EntityID) {
    (c.AddInsert? || c.MoveWrite? || c.MoveInsert?) && c.id == id
  }

  ghost predicate Has(s: State, h: Holder, id: EntityID) {
    match h
    case InTower(t, typ) => Key(t, typ, id) in s.slots
    case InCall(i) => i < |s.calls| && Carries(s.calls[i], id)
  }

  predicate LeadsTo(objects: map<Ref, Object>, r: Ref, id: EntityID) {
    r in objects && objects[r].id == id
  }

  predicate CallTyped(objects: map<Ref, Object>, c: Call) {
    c.AddPending? || c.AddInsert? || c.MoveWrite? || c.MoveInsert? ==> LeadsTo(objects, c.ref, c.id)
  }

  /** References lead to objects that carry the right identifier. */
  ghost predicate WellTyped(s: State) {
    && s.types.Keys == s.index.Keys
    && (forall k :: k in s.slots ==> LeadsTo(s.objects, s.slots[k], k.id))
    && (forall i :: 0 <= i < |s.calls| ==> CallTyped(s.objects, s.calls[i]))
  }

  /** Every tracked entity is in exactly one tower map or one call in flight, and nothing else is. */
  ghost predicate HeldOnce(s: State) {
    && (forall id :: id in s.index ==> exists h :: Has(s, h, id))
    && (forall h, id :: Has(s, h, id) ==> id in s.index)
    && (forall h, k, id :: Has(s, h, id) && Has(s, k, id) ==> h == k)
  }

  /** No entity changes hands. */
  lemma SameHolders(s: State, s': State)
    requires HeldOnce(s) && s'.index.Keys == s.index.Keys
    requires forall h, id :: Has(s', h, id) <==> Has(s, h, id)
    ensures HeldOnce(s')
  {
    forall id | id in s'.index ensures exists h :: Has(s', h, id) {
      var h :| Has(s, h, id);
      assert Has(s', h, id);
    }
  }

  /** Entity `id` passes from holder `a` to holder `b`. */
  lemma HandOver(s: State, s': State, a: Holder, b: Holder, id: EntityID)
    requires HeldOnce(s) && s'.index.Keys == s.index.Keys && Has(s, a, id)
    requires forall h, i {:trigger Has(s', h, i)} ::
               Has(s', h, i) <==> (h == b && i == id) || (Has(s, h, i) && !(h == a && i == id))
    ensures HeldOnce(s')
  {
    forall i | i in s'.index ensures exists h :: Has(s', h, i) {
      var h :| Has(s, h, i);
      assert Has(s', if i == id then b else h, i);
    }
    forall h, k, i | Has(s', h, i) && Has(s', k, i) ensures h == k {
      if i == id {
        assert Has(s, h, i) ==> h == a;
        assert Has(s, k, i) ==> k == a;
      }
    }
  }

  /** A new entity appears in the hands of `b`. */
  lemma TakeUp(s: State, s': State, b: Holder, id: EntityID)
    requires HeldOnce(s) && id !in s.index && s'.index.Keys == s.index.Keys + {id}
    requires forall h, i {:trigger Has(s', h, i)} :: Has(s', h, i) <==> (h == b && i == id) || Has(s, h, i)
    ensures HeldOnce(s')
  {
    forall i | i in s'.index ensures exists h :: Has(s', h, i) {
      if i == id {
        assert Has(s', b, i);
      } else {
        var h :| Has(s, h, i);
        assert Has(s', h, i);
      }
    }
  }

  // ----- every step -----

  lemma SetCallTyped(s: State, i: nat, c: Call)
    requires WellTyped(s) && i < |s.calls| && CallTyped(s.objects, c)
    ensures WellTyped(SetCall(s, i, c))
  {
  }

  lemma WriteTyped(s: State, r: Ref, x: int, y: int)
    requires WellTyped(s) && r in s.objects
    ensures WellTyped(WriteTo(s, r, x, y))
    ensures forall q, id :: LeadsTo(s.objects, q, id) <==> LeadsTo(WriteTo(s, r, x, y).objects, q, id)
  {
    assert forall q, id :: LeadsTo(s.objects, q, id) <==> LeadsTo(WriteTo(s, r, x, y).objects, q, id);
  }

  lemma NextWellTyped(s: State, i: nat, a: Action)
    requires WellTyped(s) && i < |s.calls|
    ensures WellTyped(Next(s, i, a)) && |Next(s, i, a).calls| == |s.calls|
  {
    assert CallTyped(s.objects, s.calls[i]);
    EffectTyped(s, s.calls[i], a);
    SetCallTyped(Effect(s, s.calls[i], a), i, Rest(s, s.calls[i], a));
  }

  lemma EffectTyped(s: State, c: Call, a: Action)
    requires WellTyped(s) && CallTyped(s.objects, c)
    ensures WellTyped(Effect(s, c, a)) && Effect(s, c, a).calls == s.calls
    ensures CallTyped(Effect(s, c, a).objects, Rest(s, c, a))
  {
    hide TowerOf, OnMap;
    match c
    case MoveWithin(id, typ, t, x, y) =>
      if Key(t, typ, id) in s.slots {
        WriteTyped(s, s.slots[Key(t, typ, id)], x, y);
      }
    case MoveWrite(r, id, typ, second, x, y) => WriteTyped(s, r, x, y);
    case MoveInsert(r, id, typ, second, x, y) =>
      if Key(second, typ, id) in s.slots {
        WriteTyped(s, s.slots[Key(second, typ, id)], x, y);
      }
    case _ =>
  }

  lemma NextHeldOnce(s: State, i: nat, a: Action)
    requires WellTyped(s) && HeldOnce(s) && i < |s.calls|
    ensures HeldOnce(Next(s, i, a))
  {
    hide TowerOf, OnMap, HeldOnce, WellTyped;
    match s.calls[i]
    case AddPending(r, id, typ, t) =>
      if id in s.index {
        SameHolders(s, Next(s, i, a));
      } else {
        TakeUp(s, Next(s, i, a), InCall(i), id);
      }
    case AddInsert(r, id, typ, t) => InsertKeepsOne(s, i, Key(t, typ, id), r);
    case MoveTake(id, typ, first, second, x, y) => TakeKeepsOne(s, i, a);
    case MoveWrite(r, id, typ, second, x, y) => SameHolders(s, Next(s, i, a));
    case MoveInsert(r, id, typ, second, x, y) =>
      NoneInserted(s, i);
      InsertKeepsOne(s, i, Key(second, typ, id), r);
    case _ => QuietStepKeepsOne(s, i, a);
  }

  lemma QuietStepKeepsOne(s: State, i: nat, a: Action)
    requires WellTyped(s) && HeldOnce(s) && i < |s.calls| && (s.calls[i].Idle? || s.calls[i].MoveWithin?)
    ensures HeldOnce(Next(s, i, a))
  {
    hide TowerOf, OnMap, HeldOnce, WellTyped;
    SameHolders(s, Next(s, i, a));
  }

  lemma InsertKeepsOne(s: State, i: nat, k: Key, r: Ref)
    requires HeldOnce(s) && i < |s.calls| && Carries(s.calls[i], k.id) && s.calls[i].ref == r
    requires k !in s.slots || s.calls[i].AddInsert?
    ensures HeldOnce(SetCall(s.(slots := s.slots[k := r]), i, Idle))
  {
    hide HeldOnce;
    HandOver(s, SetCall(s.(slots := s.slots[k := r]), i, Idle), InCall(i), InTower(k.tower, k.typ), k.id);
  }

  lemma TakeKeepsOne(s: State, i: nat, a: Action)
    requires WellTyped(s) && HeldOnce(s) && i < |s.calls| && s.calls[i].MoveTake?
    ensures HeldOnce(Next(s, i, a))
  {
    hide HeldOnce, WellTyped;
    var c := s.calls[i];
    if Key(c.first, c.typ, c.id) in s.slots {
      HandOver(s, Next(s, i, a), InTower(c.first, c.typ), InCall(i), c.id);
    } else {
      SameHolders(s, Next(s, i, a));
    }
  }

  /** The branch for an entity "already inserted" by a concurrent mover cannot be taken. */
  lemma NoneInserted(s: State, i: nat)
    requires HeldOnce(s) && i < |s.calls| && (s.calls[i].MoveInsert? || s.calls[i].AddInsert?)
    ensures forall t, typ :: Key(t, typ, s.calls[i].id) !in s.slots
  {
    var id := s.calls[i].id;
    assert Has(s, InCall(i), id);
    forall t, typ ensures Key(t, typ, id) !in s.slots {
      assert !Has(s, InTower(t, typ), id);
    }
  }

  // ----- every interleaving -----

  datatype Turn = Turn(call: nat, action: Action)

  ghost predicate Scheduled(s: State, turns: seq<Turn>) {
    forall t :: t in turns ==> t.call < |s.calls|
  }

  /** The state after the given turns. */
  ghost function After(s: State, turns: seq<Turn>): (s': State)
    requires WellTyped(s) && Scheduled(s, turns)
    ensures WellTyped(s') && |s'.calls| == |s.calls|
    decreases |turns|
  {
    if turns == [] then s
    else
      assert turns[0] in turns;
      NextWellTyped(s, turns[0].call, turns[0].action);
      After(Next(s, turns[0].call, turns[0].action), turns[1..])
  }

  /** A grid nobody has called yet. */
  ghost predicate Initial(s: State) {
    && s.index == map[] && s.types == map[] && s.slots == map[]
    && forall i :: 0 <= i < |s.calls| ==> s.calls[i] == Idle
  }

  lemma {:induction false} HeldOnceThroughout(s: State, turns: seq<Turn>)
    requires WellTyped(s) && HeldOnce(s) && Scheduled(s, turns)
    ensures HeldOnce(After(s, turns))
    decreases |turns|
  {
    if turns != [] {
      assert turns[0] in turns;
      NextWellTyped(s, turns[0].call, turns[0].action);
      NextHeldOnce(s, turns[0].call, turns[0].action);
      HeldOnceThroughout(Next(s, turns[0].call, turns[0].action), turns[1..]);
    }
  }

  /** In every interleaving of adds and moves each tracked entity has exactly one holder. */
  lemma AlwaysHeldOnce(s: State, turns: seq<Turn>)
    requires Initial(s) && Scheduled(s, turns)
    ensures WellTyped(s) && HeldOnce(After(s, turns))
  {
    assert forall h, id :: !Has(s, h, id);
    HeldOnceThroughout(s, turns);
  }

  // ----- unlocked writes -----

  ghost predicate Touches(s: State, i: nat, a: Action, r: Ref)
    requires i < |s.calls|
  {
    CallTouches(s, s.calls[i], a, r)
  }

  lemma WritesCommute(s: State, r: Ref, x: int, y: int, q: Ref, u: int, v: int)
    requires r in s.objects && q in s.objects && q != r
    ensures WriteTo(WriteTo(s, r, x, y), q, u, v) == WriteTo(WriteTo(s, q, u, v), r, x, y)
  {
    var a, b := s.objects[r].(x := x, y := y), s.objects[q].(x := u, y := v);
    assert s.objects[r := a][q := b] == s.objects[q := b][r := a];
  }

  /** The coordinates of object `r` are read or written by the next step of call `c`. */
  ghost predicate CallTouches(s: State, c: Call, a: Action, r: Ref) {
    match c
    case Idle => a == StartAdd(r)
    case MoveWithin(id, typ, t, x, y) => Key(t, typ, id) in s.slots && s.slots[Key(t, typ, id)] == r
    case MoveWrite(q, id, typ, second, x, y) => q == r
    case MoveInsert(q, id, typ, second, x, y) => Key(second, typ, id) in s.slots && s.slots[Key(second, typ, id)] == r
    case _ => false
  }

  lemma EffectUntouched(s: State, c: Call, a: Action, r: Ref, x: int, y: int)
    requires WellTyped(s) && CallTyped(s.objects, c) && r in s.objects && !CallTouches(s, c, a, r)
    requires WellTyped(WriteTo(s, r, x, y)) && CallTyped(WriteTo(s, r, x, y).objects, c)
    ensures r in Effect(s, c, a).objects && Effect(s, c, a).objects[r] == s.objects[r]
    ensures Effect(WriteTo(s, r, x, y), c, a) == WriteTo(Effect(s, c, a), r, x, y)
  {
    hide TowerOf;
    match c
    case MoveWithin(id, typ, t, u, v) =>
      if Key(t, typ, id) in s.slots {
        SlotTyped(s, Key(t, typ, id));
        WritesCommute(s, r, x, y, s.slots[Key(t, typ, id)], u, v);
      }
    case MoveWrite(q, id, typ, second, u, v) => WritesCommute(s, r, x, y, q, u, v);
    case MoveInsert(q, id, typ, second, u, v) =>
      if Key(second, typ, id) in s.slots {
        SlotTyped(s, Key(second, typ, id));
        WritesCommute(s, r, x, y, s.slots[Key(second, typ, id)], u, v);
      }
    case _ =>
  }

  /** Steps that do not touch an object leave it as it was, and do not depend on its coordinates. */
  lemma UntouchedUnaffected(s: State, i: nat, a: Action, r: Ref, x: int, y: int)
    requires WellTyped(s) && i < |s.calls| && r in s.objects && !Touches(s, i, a, r)
    ensures r in Next(s, i, a).objects && Next(s, i, a).objects[r] == s.objects[r]
    ensures WellTyped(WriteTo(s, r, x, y))
    ensures Next(WriteTo(s, r, x, y), i, a) == WriteTo(Next(s, i, a), r, x, y)
  {
    WriteTyped(s, r, x, y);
    var c := s.calls[i];
    assert CallTyped(s.objects, c);
    EffectUntouched(s, c, a, r, x, y);
    hide TowerOf, WellTyped, Effect;
  }

  lemma SlotTyped(s: State, k: Key)
    requires WellTyped(s) && k in s.slots
    ensures LeadsTo(s.objects, s.slots[k], k.id)
  {
  }

  /**
    While a move writes coordinates without a lock, no tower map leads to its entity, and no other
    call touches it next, unless a caller hands the same object to AddEntity again.
   */
  lemma UnlockedWriteIsAlone(s: State, i: nat, j: nat, a: Action)
    requires WellTyped(s) && HeldOnce(s) && i < |s.calls| && j < |s.calls| && i != j
    requires s.calls[i].MoveWrite?
    ensures forall k :: k in s.slots ==> s.slots[k] != s.calls[i].ref
    ensures Touches(s, j, a, s.calls[i].ref) ==> s.calls[j].Idle? && a == StartAdd(s.calls[i].ref)
  {
    var r, id := s.calls[i].ref, s.calls[i].id;
    assert CallTyped(s.objects, s.calls[i]);
    assert Has(s, InCall(i), id);
    forall k | k in s.slots ensures s.slots[k] != r {
      assert LeadsTo(s.objects, s.slots[k], k.id);
      assert k.id == id ==> Has(s, InTower(k.tower, k.typ), id);
    }
    if s.calls[j].MoveWrite? && s.calls[j].ref == r {
      assert CallTyped(s.objects, s.calls[j]);
      assert Has(s, InCall(j), id);
    }
  }

  /** So that write commutes with the next step of any other call that does not re-add the object. */
  lemma UnlockedWriteCommutes(s: State, i: nat, j: nat, a: Action, b: Action)
    requires WellTyped(s) && HeldOnce(s) && i < |s.calls| && j < |s.calls| && i != j
    requires s.calls[i].MoveWrite? && !(s.calls[j].Idle? && a == StartAdd(s.calls[i].ref))
    ensures WellTyped(Next(s, i, b)) && WellTyped(Next(s, j, a))
    ensures |Next(s, i, b).calls| == |s.calls| == |Next(s, j, a).calls|
    ensures Next(Next(s, i, b), j, a) == Next(Next(s, j, a), i, b)
  {
    NextWellTyped(s, i, b);
    NextWellTyped(s, j, a);
    UnlockedWriteIsAlone(s, i, j, a);
    var c := s.calls[i];
    assert CallTyped(s.objects, c);
    UntouchedUnaffected(s, j, a, c.ref, c.x, c.y);
    OtherCallUnread(WriteTo(s, c.ref, c.x, c.y), i, j, MoveInsert(c.ref, c.id, c.typ, c.second, c.x, c.y), a);
  }

  lemma OtherCallsIgnored(s: State, i: nat, c: Call, d: Call, a: Action)
    requires WellTyped(s) && i < |s.calls| && WellTyped(SetCall(s, i, c)) && CallTyped(s.objects, d)
    ensures Rest(SetCall(s, i, c), d, a) == Rest(s, d, a)
    ensures Effect(s, d, a).calls == s.calls
    ensures Effect(SetCall(s, i, c), d, a) == SetCall(Effect(s, d, a), i, c)
  {
    hide TowerOf;
  }

  /** What a call does next does not depend on the other calls. */
  lemma OtherCallUnread(s: State, i: nat, j: nat, c: Call, a: Action)
    requires WellTyped(s) && i < |s.calls| && j < |s.calls| && i != j && CallTyped(s.objects, c)
    ensures WellTyped(SetCall(s, i, c)) && |Next(s, j, a).calls| == |s.calls|
    ensures Next(SetCall(s, i, c), j, a) == SetCall(Next(s, j, a), i, c)
    ensures Next(s, j, a).calls[i] == s.calls[i]
  {
    SetCallTyped(s, i, c);
    var d := s.calls[j];
    assert CallTyped(s.objects, d);
    hide WellTyped;
    OtherCallsIgnored(s, i, c, d, a);
    var e := Rest(s, d, a);
    hide Effect, Rest;
    assert s.calls[i := c][j := e] == s.calls[j := e][i := c];
  }

  // ----- nothing is lost -----

  /** Once no call is in flight, the tower maps hold every tracked entity once and nothing else. */
  lemma QuietIsComplete(s: State)
    requires WellTyped(s) && HeldOnce(s) && forall i :: 0 <= i < |s.calls| ==> s.calls[i].Idle? || s.calls[i].AddPending?
    ensures forall id :: id in s.index <==> exists t, typ :: Key(t, typ, id) in s.slots
    ensures |s.slots| == |s.index|
  {
    forall id | id in s.index ensures exists t, typ :: Key(t, typ, id) in s.slots {
      var h :| Has(s, h, id);
      assert h.InTower?;
      assert Key(h.tower, h.typ, id) in s.slots;
    }
    forall k | k in s.slots ensures k.id in s.index {
      assert Has(s, InTower(k.tower, k.typ), k.id);
    }
    forall k, l | k in s.slots && l in s.slots && k.id == l.id ensures k == l {
      assert Has(s, InTower(k.tower, k.typ), k.id) && Has(s, InTower(l.tower, l.typ), k.id);
    }
    SameSize(s.slots.Keys, s.index.Keys);
    assert |s.slots| == |s.slots.Keys| && |s.index| == |s.index.Keys|;
  }

  lemma {:induction false} SameSize(keys: set<Key>, ids: set<EntityID>)
    requires forall k, l :: k in keys && l in keys && k.id == l.id ==> k == l
    requires forall id :: id in ids <==> exists k :: k in keys && k.id == id
    ensures |keys| == |ids|
  {
    if keys == {} {
      forall id ensures id !in ids {
      }
      assert ids == {};
    } else {
      var k :| k in keys;
      assert k.id in ids;
      forall id ensures id in ids - {k.id} <==> exists l :: l in keys - {k} && l.id == id {
        if id in ids - {k.id} {
          var l :| l in keys && l.id == id;
          assert l in keys - {k};
        }
      }
      SameSize(keys - {k}, ids - {k.id});
    }
  }
}
