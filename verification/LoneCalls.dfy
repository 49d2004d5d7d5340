/**
  A call that runs without interruption does in its steps what the operation
  on values does at once: the stepwise model and the sequential one agree.
 */
module LoneCalls {
  import opened Towers
  import opened Interleaving

  ghost predicate SlotReflects(s: State, v: View, t: int, typ: EntityType, id: EntityID) {
    && (Key(t, typ, id) in s.slots <==> Holds(v, t, typ, id))
    && (Holds(v, t, typ, id) ==>
          && s.slots[Key(t, typ, id)] in s.objects
          && var o := s.objects[s.slots[Key(t, typ, id)]];
          Slot(v, t, typ)[id] == Pos(o.x, o.y))
  }

  /** The state holds, object by object, what the value state says. */
  ghost predicate Reflects(s: State, v: View) {
    && s.width == v.width && s.height == v.height && s.index == v.index && s.types == v.types
    && forall t, typ, id :: SlotReflects(s, v, t, typ, id)
  }

  /** Different tower maps lead to different objects. */
  ghost predicate Unshared(s: State) {
    forall k, l :: k in s.slots && l in s.slots && k != l ==> s.slots[k] != s.slots[l]
  }

  lemma HeldOnceUnshared(s: State)
    requires WellTyped(s) && HeldOnce(s)
    ensures Unshared(s)
  {
    forall k, l | k in s.slots && l in s.slots && k != l ensures s.slots[k] != s.slots[l] {
      assert LeadsTo(s.objects, s.slots[k], k.id) && LeadsTo(s.objects, s.slots[l], l.id);
      if k.id == l.id {
        assert Has(s, InTower(k.tower, k.typ), k.id) && Has(s, InTower(l.tower, l.typ), k.id);
      }
    }
  }

  // ----- single accesses -----

  lemma IndexReflects(s: State, v: View, index: map<EntityID, int>, types: map<EntityID, EntityType>)
    requires Reflects(s, v)
    ensures Reflects(s.(index := index, types := types), v.(index := index, types := types))
  {
    hide Slot;
    var s', v' := s.(index := index, types := types), v.(index := index, types := types);
    forall t, typ, id ensures SlotReflects(s', v', t, typ, id) {
      assert SlotReflects(s, v, t, typ, id);
      assert 0 <= t < |v.towers| ==> Slot(v', t, typ) == Slot(v, t, typ) by {
        SameSlot(v, v', t, typ);
      }
    }
  }

  lemma SameSlot(v: View, w: View, t: int, typ: EntityType)
    requires v.towers == w.towers
    ensures 0 <= t < |v.towers| ==> Slot(v, t, typ) == Slot(w, t, typ)
  {
  }

  lemma CallReflects(s: State, v: View, i: nat, c: Call)
    requires Reflects(s, v) && i < |s.calls|
    ensures Reflects(SetCall(s, i, c), v)
  {
    hide Slot;
    forall t, typ, id ensures SlotReflects(SetCall(s, i, c), v, t, typ, id) {
      assert SlotReflects(s, v, t, typ, id);
    }
  }

  lemma InsertReflects(s: State, v: View, t: int, typ: EntityType, id: EntityID, r: Ref)
    requires Reflects(s, v) && 0 <= t < |v.towers| && r in s.objects
    ensures Reflects(s.(slots := s.slots[Key(t, typ, id) := r]),
                     Put(v, t, typ, Slot(v, t, typ)[id := Pos(s.objects[r].x, s.objects[r].y)]))
  {
    var s' := s.(slots := s.slots[Key(t, typ, id) := r]);
    var m := Slot(v, t, typ)[id := Pos(s.objects[r].x, s.objects[r].y)];
    PutSlot(v, t, typ, m);
    hide Put, Slot;
    forall u, ty, i ensures SlotReflects(s', Put(v, t, typ, m), u, ty, i) {
      assert SlotReflects(s, v, u, ty, i);
    }
  }

  lemma TakeReflects(s: State, v: View, t: int, typ: EntityType, id: EntityID)
    requires Reflects(s, v) && 0 <= t < |v.towers|
    ensures Reflects(s.(slots := s.slots - {Key(t, typ, id)}), Put(v, t, typ, Slot(v, t, typ) - {id}))
  {
    var s' := s.(slots := s.slots - {Key(t, typ, id)});
    var m := Slot(v, t, typ) - {id};
    PutSlot(v, t, typ, m);
    hide Put, Slot;
    forall u, ty, i ensures SlotReflects(s', Put(v, t, typ, m), u, ty, i) {
      assert SlotReflects(s, v, u, ty, i);
    }
  }

  lemma LooseReflects(s: State, v: View, r: Ref, x: int, y: int)
    requires Reflects(s, v) && r in s.objects && forall k :: k in s.slots ==> s.slots[k] != r
    ensures Reflects(WriteTo(s, r, x, y), v)
  {
    hide Slot;
    forall t, typ, id ensures SlotReflects(WriteTo(s, r, x, y), v, t, typ, id) {
      assert SlotReflects(s, v, t, typ, id);
    }
  }

  lemma WriteReflects(s: State, v: View, t: int, typ: EntityType, id: EntityID, x: int, y: int)
    requires Reflects(s, v) && Unshared(s) && 0 <= t < |v.towers|
    requires Key(t, typ, id) in s.slots && s.slots[Key(t, typ, id)] in s.objects
    ensures Reflects(WriteTo(s, s.slots[Key(t, typ, id)], x, y), Put(v, t, typ, Slot(v, t, typ)[id := Pos(x, y)]))
  {
    var k := Key(t, typ, id);
    var s' := WriteTo(s, s.slots[k], x, y);
    var m := Slot(v, t, typ)[id := Pos(x, y)];
    assert SlotReflects(s, v, t, typ, id);
    PutSlot(v, t, typ, m);
    hide Put, Slot;
    forall u, ty, i ensures SlotReflects(s', Put(v, t, typ, m), u, ty, i) {
      assert SlotReflects(s, v, u, ty, i);
      assert Key(u, ty, i) in s.slots && Key(u, ty, i) != k ==> s.slots[Key(u, ty, i)] != s.slots[k];
    }
  }

  // ----- whole calls -----

  /** The next step of call `i` and the invariants it keeps. */
  ghost function Go(s: State, i: nat, a: Action): (s': State)
    requires WellTyped(s) && HeldOnce(s) && i < |s.calls|
    ensures WellTyped(s') && HeldOnce(s') && |s'.calls| == |s.calls|
  {
    NextWellTyped(s, i, a);
    NextHeldOnce(s, i, a);
    Next(s, i, a)
  }

  /** Nothing more happens to a finished call that is told to continue. */
  lemma IdleStays(s: State, i: nat)
    requires WellTyped(s) && HeldOnce(s) && i < |s.calls| && s.calls[i] == Idle
    ensures Go(s, i, Continue) == s
  {
    assert s.calls[i := Idle] == s.calls;
  }

  lemma SameKey(s: State, v: View, t: int, typ: EntityType, id: EntityID)
    requires Reflects(s, v) && 0 <= t < |v.towers|
    ensures Key(t, typ, id) in s.slots <==> id in Slot(v, t, typ)
  {
    assert SlotReflects(s, v, t, typ, id);
  }

  /** One call of AddEntity, undisturbed, in its three steps. */
  lemma LoneAdd(s: State, v: View, i: nat, r: Ref)
    requires WellTyped(s) && HeldOnce(s) && Reflects(s, v) && WellFormed(v)
    requires i < |s.calls| && s.calls[i] == Idle && r in s.objects
    ensures var o := s.objects[r];
      var s' := Go(Go(Go(s, i, StartAdd(r)), i, Continue), i, Continue);
      s'.calls[i] == Idle && Reflects(s', Add(v, o.id, o.typ, o.x, o.y).0)
  {
    var o := s.objects[r];
    var s1 := Go(s, i, StartAdd(r));
    var s2 := Go(s1, i, Continue);
    hide WellTyped, HeldOnce, Reflects, Put, Slot, TowerOf;
    if !OnMap(s, o.x, o.y) {
      StartRefused(s, v, i, StartAdd(r));
      IdleStays(s, i);
    } else {
      AddStarts(s, v, i, r);
      AddClaims(s, s1, v, i, r);
      if o.id in s.index {
        IdleStays(s2, i);
      } else {
        AddEnters(s, s2, v, i, r);
      }
    }
  }

  lemma StartRefused(s: State, v: View, i: nat, a: Action)
    requires WellTyped(s) && HeldOnce(s) && Reflects(s, v) && WellFormed(v)
    requires i < |s.calls| && s.calls[i] == Idle
    requires match a
      case StartAdd(r) => r in s.objects && !OnMap(s, s.objects[r].x, s.objects[r].y)
      case StartMove(id, x, y) => !OnMap(s, x, y) || id !in s.index
      case Continue => true
    ensures Go(s, i, a) == s
    ensures match a
      case StartAdd(r) => var o := s.objects[r]; Add(v, o.id, o.typ, o.x, o.y).0 == v
      case StartMove(id, x, y) => Move(v, id, x, y).0 == v
      case Continue => true
  {
    assert s.calls[i := Idle] == s.calls;
  }

  lemma AddStarts(s: State, v: View, i: nat, r: Ref)
    requires WellTyped(s) && HeldOnce(s) && Reflects(s, v)
    requires i < |s.calls| && s.calls[i] == Idle && r in s.objects && OnMap(s, s.objects[r].x, s.objects[r].y)
    ensures var o := s.objects[r];
      Go(s, i, StartAdd(r)) == SetCall(s, i, AddPending(r, o.id, o.typ, TowerOf(s.width, o.x, o.y)))
  {
  }

  lemma AddClaims(s: State, s1: State, v: View, i: nat, r: Ref)
    requires WellTyped(s) && Reflects(s, v) && WellFormed(v) && i < |s.calls| && r in s.objects
    requires OnMap(s, s.objects[r].x, s.objects[r].y) && WellTyped(s1) && HeldOnce(s1)
    requires var o := s.objects[r]; s1 == SetCall(s, i, AddPending(r, o.id, o.typ, TowerOf(s.width, o.x, o.y)))
    ensures var o, s2 := s.objects[r], Go(s1, i, Continue);
      var t := TowerOf(s.width, o.x, o.y);
      if o.id in s.index then s2.calls[i] == Idle && Reflects(s2, v) && Add(v, o.id, o.typ, o.x, o.y).0 == v
      else
        && s2.calls[i] == AddInsert(r, o.id, o.typ, t) && s2.objects == s.objects && s2.width == s.width
        && Reflects(s2, v.(index := v.index[o.id := t], types := v.types[o.id := o.typ]))
  {
    hide TowerOf, HeldOnce, Slot;
    var o := s.objects[r];
    CallReflects(s, v, i, s1.calls[i]);
    if o.id in s.index {
      CallReflects(s1, v, i, Idle);
    } else {
      var t := TowerOf(s.width, o.x, o.y);
      IndexReflects(s1, v, v.index[o.id := t], v.types[o.id := o.typ]);
      CallReflects(s1.(index := v.index[o.id := t], types := v.types[o.id := o.typ]),
                   v.(index := v.index[o.id := t], types := v.types[o.id := o.typ]), i, AddInsert(r, o.id, o.typ, t));
    }
  }

  lemma AddEnters(s: State, s2: State, v: View, i: nat, r: Ref)
    requires r in s.objects && WellFormed(v) && s.width == v.width && s.height == v.height && s.index == v.index
    requires OnMap(s, s.objects[r].x, s.objects[r].y) && s.objects[r].id !in s.index
    requires WellTyped(s2) && HeldOnce(s2) && i < |s2.calls| && s2.objects == s.objects
    requires var o := s.objects[r];
      var t := TowerOf(s.width, o.x, o.y);
      s2.calls[i] == AddInsert(r, o.id, o.typ, t) && Reflects(s2, v.(index := v.index[o.id := t], types := v.types[o.id := o.typ]))
    ensures var o, s3 := s.objects[r], Go(s2, i, Continue);
      s3.calls[i] == Idle && Reflects(s3, Add(v, o.id, o.typ, o.x, o.y).0)
  {
    var o := s.objects[r];
    TowerOfRange(v.width, v.height, o.x, o.y);
    var t := TowerOf(s.width, o.x, o.y);
    hide TowerOf, Across, HeldOnce, Slot, Put;
    var w := v.(index := v.index[o.id := t], types := v.types[o.id := o.typ]);
    InsertReflects(s2, w, t, o.typ, o.id, r);
    CallReflects(s2.(slots := s2.slots[Key(t, o.typ, o.id) := r]),
                 Put(w, t, o.typ, Slot(w, t, o.typ)[o.id := Pos(o.x, o.y)]), i, Idle);
  }

  /** One call of MoveEntity, undisturbed, in its up to four steps. */
  lemma LoneMove(s: State, v: View, i: nat, id: EntityID, x: int, y: int)
    requires WellTyped(s) && HeldOnce(s) && Reflects(s, v) && WellFormed(v)
    requires i < |s.calls| && s.calls[i] == Idle
    ensures var s' := Go(Go(Go(Go(s, i, StartMove(id, x, y)), i, Continue), i, Continue), i, Continue);
      s'.calls[i] == Idle && Reflects(s', Move(v, id, x, y).0)
  {
    var s1 := Go(s, i, StartMove(id, x, y));
    var s2 := Go(s1, i, Continue);
    hide WellTyped, HeldOnce, Reflects, Put, Slot, TowerOf, Move;
    if !OnMap(s, x, y) || id !in s.index {
      StartRefused(s, v, i, StartMove(id, x, y));
      IdleStays(s, i);
    } else if TowerOf(s.width, x, y) == s.index[id] {
      WithinStarts(s, v, i, id, x, y);
      WithinEnds(s, s1, v, i, id, x, y);
      IdleStays(s2, i);
    } else {
      CrossStarts(s, v, i, id, x, y);
      CrossTakes(s, s1, v, i, id, x, y);
      if s2.calls[i] == Idle {
        IdleStays(s2, i);
      } else {
        CrossEnds(s2, v, i, id, x, y);
      }
    }
  }

  lemma WithinStarts(s: State, v: View, i: nat, id: EntityID, x: int, y: int)
    requires WellTyped(s) && HeldOnce(s) && Reflects(s, v) && i < |s.calls| && s.calls[i] == Idle
    requires OnMap(s, x, y) && id in s.index && TowerOf(s.width, x, y) == s.index[id]
    ensures Go(s, i, StartMove(id, x, y)) == SetCall(s, i, MoveWithin(id, s.types[id], s.index[id], x, y))
  {
    hide TowerOf, HeldOnce;
    assert s.index[id := s.index[id]] == s.index;
  }

  lemma WithinEnds(s: State, s1: State, v: View, i: nat, id: EntityID, x: int, y: int)
    requires WellTyped(s1) && HeldOnce(s1) && Reflects(s, v) && WellFormed(v) && i < |s.calls|
    requires OnMap(s, x, y) && id in s.index && TowerOf(s.width, x, y) == s.index[id]
    requires s1 == SetCall(s, i, MoveWithin(id, v.types[id], s.index[id], x, y))
    ensures var s2 := Go(s1, i, Continue); s2.calls[i] == Idle && Reflects(s2, Move(v, id, x, y).0)
  {
    var t, typ := s.index[id], v.types[id];
    HeldOnceUnshared(s1);
    CallReflects(s, v, i, s1.calls[i]);
    SameKey(s1, v, t, typ, id);
    hide TowerOf, HeldOnce, Slot, Put, Reflects, Unshared;
    var k := Key(t, typ, id);
    if k in s1.slots {
      assert LeadsTo(s1.objects, s1.slots[k], id);
      WriteReflects(s1, v, t, typ, id, x, y);
      CallReflects(WriteTo(s1, s1.slots[k], x, y), Put(v, t, typ, Slot(v, t, typ)[id := Pos(x, y)]), i, Idle);
    } else {
      CallReflects(s1, v, i, Idle);
    }
  }

  /** The two towers of a move in the order they are locked. */
  function LowTower(a: int, b: int): int {
    if a > b then b else a
  }

  function HighTower(a: int, b: int): int {
    if a > b then a else b
  }

  lemma CrossStarts(s: State, v: View, i: nat, id: EntityID, x: int, y: int)
    requires WellTyped(s) && HeldOnce(s) && Reflects(s, v) && i < |s.calls| && s.calls[i] == Idle
    requires OnMap(s, x, y) && id in s.index && TowerOf(s.width, x, y) != s.index[id]
    ensures var from, to := s.index[id], TowerOf(s.width, x, y);
      var s1 := Go(s, i, StartMove(id, x, y));
      && s1.calls[i] == MoveTake(id, s.types[id], LowTower(from, to), HighTower(from, to), x, y)
      && Reflects(s1, v.(index := v.index[id := to]))
  {
    hide TowerOf, HeldOnce, Slot;
    var from, to := s.index[id], TowerOf(s.width, x, y);
    IndexReflects(s, v, v.index[id := to], v.types);
    CallReflects(s.(index := v.index[id := to], types := v.types), v.(index := v.index[id := to], types := v.types), i,
                 MoveTake(id, s.types[id], LowTower(from, to), HighTower(from, to), x, y));
  }

  lemma CrossTakes(s: State, s1: State, v: View, i: nat, id: EntityID, x: int, y: int)
    requires WellTyped(s1) && HeldOnce(s1) && WellFormed(v) && i < |s1.calls|
    requires s.width == v.width && s.height == v.height && s.index == v.index && s.types == v.types
    requires OnMap(s, x, y) && id in s.index && TowerOf(s.width, x, y) != s.index[id]
    requires var from, to := s.index[id], TowerOf(s.width, x, y);
      && s1.calls[i] == MoveTake(id, s.types[id], LowTower(from, to), HighTower(from, to), x, y)
      && Reflects(s1, v.(index := v.index[id := to]))
    ensures var from, to, typ := v.index[id], TowerOf(v.width, x, y), v.types[id];
      var s2 := Go(s1, i, Continue);
      var w, first := v.(index := v.index[id := to]), LowTower(from, to);
      && 0 <= first < |v.towers| && 0 <= HighTower(from, to) < |v.towers|
      && if id !in Slot(w, first, typ) then s2.calls[i] == Idle && Reflects(s2, Move(v, id, x, y).0)
         else
           && s2.calls[i].MoveWrite?
           && s2.calls[i] == MoveWrite(s2.calls[i].ref, id, typ, HighTower(from, to), x, y)
           && Reflects(s2, Put(w, first, typ, Slot(w, first, typ) - {id}))
  {
    TowerOfRange(v.width, v.height, x, y);
    var from, to, typ := v.index[id], TowerOf(v.width, x, y), v.types[id];
    var w, first := v.(index := v.index[id := to]), LowTower(from, to);
    SameKey(s1, w, first, typ, id);
    hide TowerOf, Across, HeldOnce, Slot, Put, Reflects;
    var k := Key(first, typ, id);
    if k in s1.slots {
      TakeReflects(s1, w, first, typ, id);
      CallReflects(s1.(slots := s1.slots - {k}), Put(w, first, typ, Slot(w, first, typ) - {id}), i,
                   MoveWrite(s1.slots[k], id, typ, HighTower(from, to), x, y));
    } else {
      assert s1.slots - {k} == s1.slots;
      CallReflects(s1, w, i, Idle);
    }
  }

  lemma CrossEnds(s2: State, v: View, i: nat, id: EntityID, x: int, y: int)
    requires WellTyped(s2) && HeldOnce(s2) && WellFormed(v) && i < |s2.calls| && s2.calls[i].MoveWrite?
    requires InMap(v, x, y) && id in v.index && TowerOf(v.width, x, y) != v.index[id]
    requires var from, to, typ := v.index[id], TowerOf(v.width, x, y), v.types[id];
      var w, first := v.(index := v.index[id := to]), LowTower(from, to);
      && 0 <= first < |v.towers| && 0 <= HighTower(from, to) < |v.towers|
      && id in Slot(w, first, typ)
      && s2.calls[i] == MoveWrite(s2.calls[i].ref, id, typ, HighTower(from, to), x, y)
      && Reflects(s2, Put(w, first, typ, Slot(w, first, typ) - {id}))
    ensures var s4 := Go(Go(s2, i, Continue), i, Continue);
      s4.calls[i] == Idle && Reflects(s4, Move(v, id, x, y).0)
  {
    var from, to, typ := v.index[id], TowerOf(v.width, x, y), v.types[id];
    var w, first, second := v.(index := v.index[id := to]), LowTower(from, to), HighTower(from, to);
    var u := Put(w, first, typ, Slot(w, first, typ) - {id});
    assert |u.towers| == |v.towers|;
    var r := s2.calls[i].ref;
    HolderAlone(s2, i, r, id);
    hide TowerOf, Across, HeldOnce, Slot, Put, Reflects;
    LooseReflects(s2, u, r, x, y);
    CallReflects(WriteTo(s2, r, x, y), u, i, MoveInsert(r, id, typ, second, x, y));
    var s3 := Go(s2, i, Continue);
    assert s3 == SetCall(WriteTo(s2, r, x, y), i, MoveInsert(r, id, typ, second, x, y));
    NoneInserted(s3, i);
    InsertReflects(s3, u, second, typ, id, r);
    CallReflects(s3.(slots := s3.slots[Key(second, typ, id) := r]),
                 Put(u, second, typ, Slot(u, second, typ)[id := Pos(x, y)]), i, Idle);
  }

  lemma HolderAlone(s: State, i: nat, r: Ref, id: EntityID)
    requires WellTyped(s) && HeldOnce(s) && i < |s.calls| && s.calls[i].MoveWrite? && s.calls[i].ref == r && s.calls[i].id == id
    ensures r in s.objects && forall k :: k in s.slots ==> s.slots[k] != r
  {
    assert CallTyped(s.objects, s.calls[i]);
    assert Has(s, InCall(i), id);
    forall k | k in s.slots ensures s.slots[k] != r {
      assert LeadsTo(s.objects, s.slots[k], k.id);
      assert k.id == id ==> Has(s, InTower(k.tower, k.typ), id);
    }
  }
}
