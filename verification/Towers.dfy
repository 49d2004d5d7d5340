/**
  The tower grid on values: two index maps, one triple of entity maps per
  tower, and what each operation does to them under its locks.
 */
module Towers {
  import opened Arithmetic

  const TOWER_SIZE := 18

  /** Identifiers are only ever compared, so their 32-bit width plays no part. */
  type EntityID = int

  datatype EntityType = Player | Npc | Mob

  datatype Pos = Pos(x: int, y: int)

  /** One tower: a map per entity type. */
  datatype Tower<V> = Tower(players: map<EntityID, V>, npcs: map<EntityID, V>, mobs: map<EntityID, V>) {
    function Of(typ: EntityType): map<EntityID, V> {
      match typ
      case Player => players
      case Npc => npcs
      case Mob => mobs
    }

    function With(typ: EntityType, m: map<EntityID, V>): Tower<V> {
      match typ
      case Player => this.(players := m)
      case Npc => this.(npcs := m)
      case Mob => this.(mobs := m)
    }

    function Count(): nat {
      |players| + |npcs| + |mobs|
    }
  }

  /** A map of cells cut into towers, and who the grid believes is where. */
  datatype View = View(
    width: nat,
    height: nat,
    index: map<EntityID, int>,
    types: map<EntityID, EntityType>,
    towers: seq<Tower<Pos>>)

  datatype Outcome = Done | Exists | Missing | OutOfBounds

  lemma Member<T>(s: set<T>) returns (x: T)
    requires s != {}
    ensures x in s
  {
    x :| x in s;
  }

  /** Map iteration yields the keys in no particular order. */
  method AnyOf(ids: set<EntityID>) returns (id: EntityID)
    requires ids != {}
    ensures id in ids
  {
    ghost var some := Member(ids);
    id :| id in ids;
  }

  // ----- geometry -----

  function Across(cells: nat): nat {
    (cells + TOWER_SIZE - 1) / TOWER_SIZE
  }

  predicate InMap(v: View, x: int, y: int) {
    0 <= x < v.width && 0 <= y < v.height
  }

  function TowerOf(width: nat, x: int, y: int): int {
    TowerAt(width, x / TOWER_SIZE, y / TOWER_SIZE)
  }

  function Row(width: nat, t: int): int
    requires width > 0
  {
    t / Across(width)
  }

  function Col(width: nat, t: int): int
    requires width > 0
  {
    t % Across(width)
  }

  /** Cells of the map fall in towers of the grid, and the tower gives back its row and column. */
  lemma TowerOfRange(width: nat, height: nat, x: int, y: int)
    requires 0 <= x < width && 0 <= y < height
    ensures 0 <= TowerOf(width, x, y) < Across(width) * Across(height)
    ensures 0 <= x / TOWER_SIZE < Across(width) && 0 <= y / TOWER_SIZE < Across(height)
    ensures Row(width, TowerOf(width, x, y)) == y / TOWER_SIZE
    ensures Col(width, TowerOf(width, x, y)) == x / TOWER_SIZE
  {
    RowMajor(Across(width), Across(height), x / TOWER_SIZE, y / TOWER_SIZE);
  }

  /** Towers and (row, column) pairs correspond one to one. */
  lemma Tiles(width: nat, height: nat)
    requires width > 0
    ensures forall t {:trigger Row(width, t)} {:trigger Col(width, t)} :: 0 <= t < Across(width) * Across(height) ==>
              0 <= Row(width, t) < Across(height) && 0 <= Col(width, t) < Across(width)
    ensures forall t, u {:trigger Row(width, t), Row(width, u)} ::
              Row(width, t) == Row(width, u) && Col(width, t) == Col(width, u) ==> t == u
  {
    forall t | 0 <= t < Across(width) * Across(height)
      ensures 0 <= Row(width, t) < Across(height) && 0 <= Col(width, t) < Across(width)
    {
      RowColumn(t, Across(width), Across(height));
    }
    forall t, u | Row(width, t) == Row(width, u) && Col(width, t) == Col(width, u) ensures t == u {
      assert t == Across(width) * (t / Across(width)) + t % Across(width);
      assert u == Across(width) * (u / Across(width)) + u % Across(width);
    }
  }

  function TowerAt(width: nat, c: int, r: int): int {
    r * Across(width) + c
  }

  lemma TileAt(width: nat, height: nat, c: int, r: int)
    requires width > 0 && 0 <= c < Across(width) && 0 <= r < Across(height)
    ensures var t := TowerAt(width, c, r);
      0 <= t < Across(width) * Across(height) && Row(width, t) == r && Col(width, t) == c
  {
    RowMajor(Across(width), Across(height), c, r);
  }

  function Distance(a: Pos, x: int, y: int): nat {
    var dx, dy := if a.x >= x then a.x - x else x - a.x, if a.y >= y then a.y - y else y - a.y;
    if dx >= dy then dx else dy
  }

  // ----- states -----

  /** What the code itself relies on when it indexes towers and types. */
  ghost predicate WellFormed(v: View) {
    && v.width > 0 && v.height > 0
    && |v.towers| == Across(v.width) * Across(v.height)
    && v.types.Keys == v.index.Keys
    && forall id :: id in v.index ==> 0 <= v.index[id] < |v.towers|
  }

  function Slot(v: View, t: int, typ: EntityType): map<EntityID, Pos>
    requires 0 <= t < |v.towers|
  {
    v.towers[t].Of(typ)
  }

  ghost predicate Holds(v: View, t: int, typ: EntityType, id: EntityID) {
    0 <= t < |v.towers| && id in Slot(v, t, typ)
  }

  /** The indexed entity is in the tower map the indexes name, at a cell of that tower. */
  ghost predicate Indexed(v: View, id: EntityID)
    requires WellFormed(v) && id in v.index
  {
    && Holds(v, v.index[id], v.types[id], id)
    && var p := Slot(v, v.index[id], v.types[id])[id];
       InMap(v, p.x, p.y) && TowerOf(v.width, p.x, p.y) == v.index[id]
  }

  /** Indexes and towers agree, both ways, and every entity is in the tower of its cell. */
  ghost predicate Consistent(v: View) {
    && WellFormed(v)
    && (forall id :: id in v.index ==> Indexed(v, id))
    && (forall t, typ, id :: Holds(v, t, typ, id) ==> id in v.index && v.index[id] == t && v.types[id] == typ)
  }

  datatype Located = Nowhere | At(pos: Pos, tower: int)

  /** Where the two indexes lead. */
  ghost function Location(v: View, id: EntityID): Located
    requires WellFormed(v)
  {
    if id in v.index && Holds(v, v.index[id], v.types[id], id)
    then At(Slot(v, v.index[id], v.types[id])[id], v.index[id])
    else Nowhere
  }

  // ----- operations -----

  ghost function Put(v: View, t: int, typ: EntityType, m: map<EntityID, Pos>): View
    requires 0 <= t < |v.towers|
  {
    v.(towers := v.towers[t := v.towers[t].With(typ, m)])
  }

  /** Replacing one entity map leaves every other one alone. */
  lemma TowersPut<V>(ts: seq<Tower<V>>, t: int, typ: EntityType, m: map<EntityID, V>)
    requires 0 <= t < |ts|
    ensures var us := ts[t := ts[t].With(typ, m)];
      forall t2, typ2 {:trigger us[t2].Of(typ2)} :: 0 <= t2 < |ts| ==>
        us[t2].Of(typ2) == if t2 == t && typ2 == typ then m else ts[t2].Of(typ2)
  {
  }

  lemma PutSlot(v: View, t: int, typ: EntityType, m: map<EntityID, Pos>)
    requires 0 <= t < |v.towers|
    ensures var w := Put(v, t, typ, m);
      && w == v.(towers := w.towers) && |w.towers| == |v.towers|
      && forall t2, typ2 {:trigger Slot(w, t2, typ2)} {:trigger Slot(v, t2, typ2)} :: 0 <= t2 < |v.towers| ==>
           Slot(w, t2, typ2) == if t2 == t && typ2 == typ then m else Slot(v, t2, typ2)
  {
  }

  lemma PutTwice(v: View, t: int, typ: EntityType, m: map<EntityID, Pos>, n: map<EntityID, Pos>)
    requires 0 <= t < |v.towers|
    ensures Put(Put(v, t, typ, m), t, typ, n) == Put(v, t, typ, n)
  {
  }

  ghost function Add(v: View, id: EntityID, typ: EntityType, x: int, y: int): (View, Outcome)
    requires WellFormed(v)
  {
    if !InMap(v, x, y) then (v, OutOfBounds)
    else if id in v.index then (v, Exists)
    else
      var t := TowerOf(v.width, x, y);
      TowerOfRange(v.width, v.height, x, y);
      var w := v.(index := v.index[id := t], types := v.types[id := typ]);
      (Put(w, t, typ, Slot(w, t, typ)[id := Pos(x, y)]), Done)
  }

  ghost function Remove(v: View, id: EntityID): (View, Outcome)
    requires WellFormed(v)
  {
    if id !in v.index then (v, Missing)
    else
      var t, typ := v.index[id], v.types[id];
      var w := v.(index := v.index - {id}, types := v.types - {id});
      (Put(w, t, typ, Slot(w, t, typ) - {id}), Done)
  }

  /**
    A move within one tower rewrites the coordinates.  Otherwise the index is advanced, and then
    the tower with the LOWER number is taken for the source: the entity is deleted there and, if
    it was there, inserted in the tower with the higher number.
   */
  ghost function Move(v: View, id: EntityID, x: int, y: int): (View, Outcome)
    requires WellFormed(v)
  {
    if !InMap(v, x, y) then (v, OutOfBounds)
    else if id !in v.index then (v, Missing)
    else
      var from, to, typ := v.index[id], TowerOf(v.width, x, y), v.types[id];
      TowerOfRange(v.width, v.height, x, y);
      if to == from then
        var m := Slot(v, from, typ);
        (if id in m then Put(v, from, typ, m[id := Pos(x, y)]) else v, Done)
      else
        var w := v.(index := v.index[id := to]);
        var first, second := if from > to then to else from, if from > to then from else to;
        var src := Slot(w, first, typ);
        if id !in src then (w, Done)
        else
          var u := Put(w, first, typ, src - {id});
          (Put(u, second, typ, Slot(u, second, typ)[id := Pos(x, y)]), Done)
  }

  /** The move goes to a tower with a lower number than the one the entity is in. */
  ghost predicate Falls(v: View, id: EntityID, x: int, y: int) {
    InMap(v, x, y) && id in v.index && TowerOf(v.width, x, y) < v.index[id]
  }

  // ----- one operation on a consistent grid -----

  lemma AddConsistent(v: View, id: EntityID, typ: EntityType, x: int, y: int)
    requires Consistent(v)
    ensures Consistent(Add(v, id, typ, x, y).0)
  {
    if InMap(v, x, y) && id !in v.index {
      var w, t := Add(v, id, typ, x, y).0, TowerOf(v.width, x, y);
      TowerOfRange(v.width, v.height, x, y);
      assert w == Put(v.(index := w.index, types := w.types), t, typ, Slot(v, t, typ)[id := Pos(x, y)]);
      PutSlot(v.(index := w.index, types := w.types), t, typ, Slot(v, t, typ)[id := Pos(x, y)]);
      hide TowerOf, Across, Put;
      assert forall t, ty :: 0 <= t < |v.towers| ==> Slot(v.(index := w.index, types := w.types), t, ty) == Slot(v, t, ty);
      hide Slot;
      forall i | i in w.index ensures Indexed(w, i) {
        assert i != id ==> Indexed(v, i);
      }
      forall t, ty, i | Holds(w, t, ty, i) ensures i in w.index && w.index[i] == t && w.types[i] == ty {
        assert i != id ==> Holds(v, t, ty, i);
        assert !Holds(v, t, ty, id);
      }
    }
  }

  lemma RemoveConsistent(v: View, id: EntityID)
    requires Consistent(v)
    ensures Consistent(Remove(v, id).0)
  {
    if id in v.index {
      var w, t, typ := Remove(v, id).0, v.index[id], v.types[id];
      PutSlot(v.(index := w.index, types := w.types), t, typ, Slot(v, t, typ) - {id});
      hide TowerOf, Across, Put;
      assert forall t, ty :: 0 <= t < |v.towers| ==> Slot(v.(index := w.index, types := w.types), t, ty) == Slot(v, t, ty);
      hide Slot;
      forall i | i in w.index ensures Indexed(w, i) {
        assert Indexed(v, i);
      }
      forall t, ty, i | Holds(w, t, ty, i) ensures i in w.index && w.index[i] == t && w.types[i] == ty {
        assert Holds(v, t, ty, i);
      }
    }
  }

  /** A move to the same or a higher tower does what removing and adding the entity again would. */
  lemma RisingMoveReinserts(v: View, id: EntityID, x: int, y: int)
    requires Consistent(v) && !Falls(v, id, x, y) && InMap(v, x, y) && id in v.index
    ensures Move(v, id, x, y) == Add(Remove(v, id).0, id, v.types[id], x, y)
  {
    assert Indexed(v, id);
    TowerOfRange(v.width, v.height, x, y);
    var from, to, typ := v.index[id], TowerOf(v.width, x, y), v.types[id];
    var m, p := Slot(v, from, typ), Pos(x, y);
    assert (v.index - {id})[id := to] == v.index[id := to] && (v.types - {id})[id := typ] == v.types;
    hide TowerOf, Across, Consistent;
    var moved := v.(index := v.index[id := to]);
    var gone := Put(moved, from, typ, m - {id});
    assert Slot(moved, from, typ) == m;
    assert Add(Remove(v, id).0, id, typ, x, y) == (Put(gone, to, typ, Slot(gone, to, typ)[id := p]), Done);
    if from == to {
      assert moved == v;
      PutSlot(v, from, typ, m - {id});
      PutTwice(v, from, typ, m - {id}, m[id := p]);
      assert (m - {id})[id := p] == m[id := p];
    }
  }

  lemma RisingMoveConsistent(v: View, id: EntityID, x: int, y: int)
    requires Consistent(v) && !Falls(v, id, x, y)
    ensures Consistent(Move(v, id, x, y).0)
  {
    if InMap(v, x, y) && id in v.index {
      RisingMoveReinserts(v, id, x, y);
      RemoveConsistent(v, id);
      AddConsistent(Remove(v, id).0, id, v.types[id], x, y);
    }
  }

  /** A move to a lower tower only advances the index: towers and coordinates stay as they were. */
  lemma FallingMoveExact(v: View, id: EntityID, x: int, y: int)
    requires Consistent(v) && Falls(v, id, x, y)
    ensures Move(v, id, x, y) == (v.(index := v.index[id := TowerOf(v.width, x, y)]), Done)
  {
    TowerOfRange(v.width, v.height, x, y);
    assert !Holds(v, TowerOf(v.width, x, y), v.types[id], id);
  }

  /** So a move keeps a consistent grid consistent exactly when it does not fall. */
  lemma MoveConsistentIff(v: View, id: EntityID, x: int, y: int)
    requires Consistent(v)
    ensures Consistent(Move(v, id, x, y).0) <==> !Falls(v, id, x, y)
  {
    if Falls(v, id, x, y) {
      FallingMoveExact(v, id, x, y);
      var w := Move(v, id, x, y).0;
      if Consistent(w) {
        assert Indexed(w, id);
        assert Holds(v, TowerOf(v.width, x, y), v.types[id], id);
      }
    } else {
      RisingMoveConsistent(v, id, x, y);
    }
  }

  // ----- whole runs -----

  datatype Op =
    | OpAdd(id: EntityID, typ: EntityType, x: int, y: int)
    | OpRemove(id: EntityID)
    | OpMove(id: EntityID, x: int, y: int)

  ghost function Apply(v: View, op: Op): View
    requires WellFormed(v)
    ensures WellFormed(Apply(v, op))
  {
    match op
    case OpAdd(id, typ, x, y) => AddWellFormed(v, id, typ, x, y); Add(v, id, typ, x, y).0
    case OpRemove(id) => Remove(v, id).0
    case OpMove(id, x, y) => MoveWellFormed(v, id, x, y); Move(v, id, x, y).0
  }

  lemma AddWellFormed(v: View, id: EntityID, typ: EntityType, x: int, y: int)
    requires WellFormed(v)
    ensures WellFormed(Add(v, id, typ, x, y).0)
  {
    if InMap(v, x, y) {
      TowerOfRange(v.width, v.height, x, y);
    }
  }

  lemma MoveWellFormed(v: View, id: EntityID, x: int, y: int)
    requires WellFormed(v)
    ensures WellFormed(Move(v, id, x, y).0)
  {
    if InMap(v, x, y) {
      TowerOfRange(v.width, v.height, x, y);
    }
    hide TowerOf, Across;
  }

  ghost predicate FallingOp(v: View, op: Op) {
    op.OpMove? && Falls(v, op.id, op.x, op.y)
  }

  /** The grid is consistent before and after every operation of the run. */
  ghost predicate AlwaysConsistent(v: View, ops: seq<Op>)
    requires WellFormed(v)
    decreases |ops|
  {
    Consistent(v) && (ops == [] || AlwaysConsistent(Apply(v, ops[0]), ops[1..]))
  }

  /** No move of the run goes to a lower tower than the index names at that moment. */
  ghost predicate NeverFalls(v: View, ops: seq<Op>)
    requires WellFormed(v)
    decreases |ops|
  {
    ops == [] || (!FallingOp(v, ops[0]) && NeverFalls(Apply(v, ops[0]), ops[1..]))
  }

  lemma ApplyConsistentIff(v: View, op: Op)
    requires Consistent(v)
    ensures Consistent(Apply(v, op)) <==> !FallingOp(v, op)
  {
    match op
    case OpAdd(id, typ, x, y) => AddConsistent(v, id, typ, x, y);
    case OpRemove(id) => RemoveConsistent(v, id);
    case OpMove(id, x, y) => MoveConsistentIff(v, id, x, y);
  }

  /** Over every run of adds, removes and moves: consistent throughout exactly when no move falls. */
  lemma {:induction false} RunConsistentIff(v: View, ops: seq<Op>)
    requires Consistent(v)
    ensures AlwaysConsistent(v, ops) <==> NeverFalls(v, ops)
    decreases |ops|
  {
    if ops != [] {
      ApplyConsistentIff(v, ops[0]);
      if !FallingOp(v, ops[0]) {
        RunConsistentIff(Apply(v, ops[0]), ops[1..]);
      }
    }
  }

  ghost predicate Fresh(v: View) {
    && v.width > 0 && v.height > 0 && v.index == map[] && v.types == map[]
    && |v.towers| == Across(v.width) * Across(v.height)
    && forall t :: 0 <= t < |v.towers| ==> v.towers[t] == Tower(map[], map[], map[])
  }

  lemma FreshConsistent(v: View)
    requires Fresh(v)
    ensures Consistent(v)
  {
  }

  // ----- agreement with a plain table of positions -----

  /** The grid seen as one table: every tracked entity with its position. */
  ghost function Table(v: View): map<EntityID, Pos>
    requires Consistent(v)
  {
    map id | id in v.index :: (assert Indexed(v, id); Slot(v, v.index[id], v.types[id])[id])
  }

  lemma TableAdd(v: View, id: EntityID, typ: EntityType, x: int, y: int)
    requires Consistent(v) && InMap(v, x, y) && id !in v.index
    ensures Consistent(Add(v, id, typ, x, y).0)
    ensures Table(Add(v, id, typ, x, y).0) == Table(v)[id := Pos(x, y)]
    ensures Location(Add(v, id, typ, x, y).0, id) == At(Pos(x, y), TowerOf(v.width, x, y))
  {
    AddConsistent(v, id, typ, x, y);
    TowerOfRange(v.width, v.height, x, y);
    var w := Add(v, id, typ, x, y).0;
    hide TowerOf, Across;
    forall i | i in v.index ensures Table(w)[i] == Table(v)[id := Pos(x, y)][i] {
      assert Indexed(v, i);
    }
  }

  lemma TableRemove(v: View, id: EntityID)
    requires Consistent(v) && id in v.index
    ensures Consistent(Remove(v, id).0)
    ensures Table(Remove(v, id).0) == Table(v) - {id}
  {
    RemoveConsistent(v, id);
    var w := Remove(v, id).0;
    hide TowerOf, Across;
    forall i | i in w.index ensures Table(w)[i] == Table(v)[i] {
      assert Indexed(v, i);
    }
  }

  /** A move that does not fall changes one position in the table and nothing else. */
  lemma TableMove(v: View, id: EntityID, x: int, y: int)
    requires Consistent(v) && InMap(v, x, y) && id in v.index && !Falls(v, id, x, y)
    ensures Consistent(Move(v, id, x, y).0)
    ensures Table(Move(v, id, x, y).0) == Table(v)[id := Pos(x, y)]
    ensures Location(Move(v, id, x, y).0, id) == At(Pos(x, y), TowerOf(v.width, x, y))
  {
    hide TowerOf, Across, Slot, Table, Move;
    RisingMoveConsistent(v, id, x, y);
    RisingMoveReinserts(v, id, x, y);
    TableRemove(v, id);
    var r, w := Remove(v, id).0, Move(v, id, x, y).0;
    assert Table(r) == Table(v) - {id};
    TableAdd(r, id, v.types[id], x, y);
    assert Table(w) == (Table(v) - {id})[id := Pos(x, y)];
  }

  /** What an operation does to a plain table of positions on a map of the given size. */
  function Tabulate(table: map<EntityID, Pos>, width: nat, height: nat, op: Op): map<EntityID, Pos> {
    match op
    case OpAdd(id, _, x, y) =>
      if 0 <= x < width && 0 <= y < height && id !in table then table[id := Pos(x, y)] else table
    case OpRemove(id) => table - {id}
    case OpMove(id, x, y) =>
      if 0 <= x < width && 0 <= y < height && id in table then table[id := Pos(x, y)] else table
  }

  function TabulateAll(table: map<EntityID, Pos>, width: nat, height: nat, ops: seq<Op>): map<EntityID, Pos>
    decreases |ops|
  {
    if ops == [] then table else TabulateAll(Tabulate(table, width, height, ops[0]), width, height, ops[1..])
  }

  ghost function ApplyAll(v: View, ops: seq<Op>): (w: View)
    requires WellFormed(v)
    ensures WellFormed(w)
    decreases |ops|
  {
    if ops == [] then v else ApplyAll(Apply(v, ops[0]), ops[1..])
  }

  lemma TableStep(v: View, op: Op)
    requires Consistent(v) && !FallingOp(v, op)
    ensures Consistent(Apply(v, op)) && Apply(v, op).width == v.width && Apply(v, op).height == v.height
    ensures Table(Apply(v, op)) == Tabulate(Table(v), v.width, v.height, op)
  {
    ApplyConsistentIff(v, op);
    assert Table(v).Keys == v.index.Keys;
    hide Consistent, TowerOf, Across, Table, Put, Slot;
    match op
    case OpAdd(id, typ, x, y) =>
      if InMap(v, x, y) && id !in v.index {
        TableAdd(v, id, typ, x, y);
      }
    case OpRemove(id) =>
      if id in v.index {
        TableRemove(v, id);
      } else {
        assert Table(v) - {id} == Table(v);
      }
    case OpMove(id, x, y) =>
      if InMap(v, x, y) && id in v.index {
        TableMove(v, id, x, y);
      }
  }

  /** After every run without falling moves the grid holds the table that the operations make one by one. */
  lemma {:induction false} TableAfterRun(v: View, ops: seq<Op>)
    requires Consistent(v) && NeverFalls(v, ops)
    ensures Consistent(ApplyAll(v, ops))
    ensures Table(ApplyAll(v, ops)) == TabulateAll(Table(v), v.width, v.height, ops)
    decreases |ops|
  {
    if ops != [] {
      TableStep(v, ops[0]);
      hide Consistent, Apply, Tabulate, Table, FallingOp;
      TableAfterRun(Apply(v, ops[0]), ops[1..]);
    }
  }

  /** After a falling move the entity cannot be located, and removing it leaves it in its old tower. */
  lemma FallingMoveLosesEntity(v: View, id: EntityID, x: int, y: int)
    requires Consistent(v) && Falls(v, id, x, y)
    ensures var w := Move(v, id, x, y).0;
      && WellFormed(w) && w.towers == v.towers
      && Location(w, id) == Nowhere
      && Holds(w, v.index[id], v.types[id], id)
      && Slot(w, v.index[id], v.types[id])[id] == Table(v)[id]
      && var u := Remove(w, id).0;
      && Holds(u, v.index[id], v.types[id], id) && id !in u.index && u.towers == v.towers
  {
    FallingMoveExact(v, id, x, y);
    TowerOfRange(v.width, v.height, x, y);
    assert Indexed(v, id);
    var to := TowerOf(v.width, x, y);
    assert !Holds(v, to, v.types[id], id);
    var w := Move(v, id, x, y).0;
    assert Slot(w, to, v.types[id]) - {id} == Slot(w, to, v.types[id]);
    SamePut(w, to, v.types[id]);
  }

  ghost function MoveThenRemove(v: View, id: EntityID, x: int, y: int): (u: View)
    requires WellFormed(v)
    ensures WellFormed(u)
  {
    MoveWellFormed(v, id, x, y);
    Remove(Move(v, id, x, y).0, id).0
  }

  /**
    And every query whose radius reaches its old position, from anywhere on the map, visits that
    tower and has that position in its square.
   */
  lemma FallenStillVisible(v: View, id: EntityID, x: int, y: int, qx: int, qy: int, radius: nat)
    requires Consistent(v) && Falls(v, id, x, y)
    requires InMap(v, qx, qy) && Distance(Table(v)[id], qx, qy) <= radius
    ensures var u, p, t := MoveThenRemove(v, id, x, y), Table(v)[id], v.index[id];
      && id !in u.index
      && Holds(u, t, v.types[id], id) && Slot(u, t, v.types[id])[id] == p
      && Visited(u, qx, qy, radius, t)
      && InBox(p, Clamp(qx - radius, 0, v.width - 1), Clamp(qy - radius, 0, v.height - 1),
               Clamp(qx + radius, 0, v.width - 1), Clamp(qy + radius, 0, v.height - 1))
  {
    FallingMoveLosesEntity(v, id, x, y);
    var p := Table(v)[id];
    assert Indexed(v, id);
    hide TowerOf, Across, Row, Col;
    BoxIsBall(v, qx, qy, radius, p);
  }

  lemma SamePut(v: View, t: int, typ: EntityType)
    requires 0 <= t < |v.towers|
    ensures Put(v, t, typ, Slot(v, t, typ)) == v
  {
    assert v.towers[t].With(typ, v.towers[t].Of(typ)) == v.towers[t];
  }

  // ----- queries and counts -----

  /** The answer a scan of all tracked entities would give. */
  ghost function Near(v: View, x: int, y: int, radius: int): set<EntityID>
    requires Consistent(v)
  {
    set id | id in Table(v) && Distance(Table(v)[id], x, y) <= radius
  }

  function Clamp(a: int, low: int, high: int): int {
    if a < low then low else if a > high then high else a
  }

  predicate InBox(p: Pos, x0: int, y0: int, x1: int, y1: int) {
    x0 <= p.x <= x1 && y0 <= p.y <= y1
  }

  /** The towers a query visits: those meeting the clipped square around (x, y). */
  predicate Visited(v: View, x: int, y: int, radius: int, t: int)
    requires v.width > 0
  {
    && 0 <= t < |v.towers|
    && Clamp(x - radius, 0, v.width - 1) / TOWER_SIZE <= Col(v.width, t) <= Clamp(x + radius, 0, v.width - 1) / TOWER_SIZE
    && Clamp(y - radius, 0, v.height - 1) / TOWER_SIZE <= Row(v.width, t) <= Clamp(y + radius, 0, v.height - 1) / TOWER_SIZE
  }

  /** On the map the clipped square is the Chebyshev ball, and its cells lie in visited towers. */
  lemma BoxIsBall(v: View, x: int, y: int, radius: int, p: Pos)
    requires WellFormed(v) && InMap(v, x, y) && radius >= 0 && InMap(v, p.x, p.y)
    ensures InBox(p, Clamp(x - radius, 0, v.width - 1), Clamp(y - radius, 0, v.height - 1),
                  Clamp(x + radius, 0, v.width - 1), Clamp(y + radius, 0, v.height - 1))
       <==> Distance(p, x, y) <= radius
    ensures Distance(p, x, y) <= radius ==> Visited(v, x, y, radius, TowerOf(v.width, p.x, p.y))
  {
    TowerOfRange(v.width, v.height, p.x, p.y);
  }

  /** Tower `t` of `n` is at most one row and one column away from tile (tx, ty). */
  predicate Around(width: nat, n: int, tx: int, ty: int, t: int)
    requires width > 0
  {
    0 <= t < n && -1 <= Col(width, t) - tx <= 1 && -1 <= Row(width, t) - ty <= 1
  }

  predicate NineGrid(v: View, x: int, y: int, t: int)
    requires v.width > 0
  {
    Around(v.width, |v.towers|, x / TOWER_SIZE, y / TOWER_SIZE, t)
  }

  /** `nine` lists the towers of the nine-grid, each once. */
  ghost predicate NineList(v: View, x: int, y: int, nine: seq<int>)
    requires v.width > 0
  {
    && (forall i :: 0 <= i < |nine| ==> 0 <= nine[i] < |v.towers|)
    && (forall i, j :: 0 <= i < j < |nine| ==> nine[i] != nine[j])
    && (forall t :: t in nine <==> NineGrid(v, x, y, t))
  }

  ghost function IdsIn(v: View, ts: set<int>): set<EntityID> {
    set id | id in v.index && v.index[id] in ts
  }

  ghost function CountOver(v: View, ts: seq<int>): nat
    requires forall i :: 0 <= i < |ts| ==> 0 <= ts[i] < |v.towers|
  {
    if ts == [] then 0 else CountOver(v, ts[..|ts| - 1]) + v.towers[ts[|ts| - 1]].Count()
  }

  ghost function IdsOf(v: View, t: int, typ: EntityType): set<EntityID>
    requires v.index.Keys == v.types.Keys
  {
    set id | id in v.index && v.index[id] == t && v.types[id] == typ
  }

  /** A tower map holds exactly the entities the two indexes assign to it. */
  lemma SlotIds(v: View, t: int, typ: EntityType)
    requires Consistent(v) && 0 <= t < |v.towers|
    ensures Slot(v, t, typ).Keys == IdsOf(v, t, typ)
  {
    hide TowerOf, Across, Slot;
    forall id ensures id in Slot(v, t, typ) <==> id in IdsOf(v, t, typ) {
      if id in Slot(v, t, typ) {
        assert Holds(v, t, typ, id);
      }
      if id in IdsOf(v, t, typ) {
        assert Indexed(v, id);
      }
    }
  }

  lemma TowerCount(v: View, t: int)
    requires Consistent(v) && 0 <= t < |v.towers|
    ensures v.towers[t].Count() == |IdsIn(v, {t})|
  {
    SlotIds(v, t, Player);
    SlotIds(v, t, Npc);
    SlotIds(v, t, Mob);
    var p, n, m := IdsOf(v, t, Player), IdsOf(v, t, Npc), IdsOf(v, t, Mob);
    assert v.towers[t].Count() == |Slot(v, t, Player).Keys| + |Slot(v, t, Npc).Keys| + |Slot(v, t, Mob).Keys|;
    hide Consistent, Slot, Tower.Count;
    assert IdsIn(v, {t}) == p + n + m by {
      forall id | id in IdsIn(v, {t}) ensures id in p + n + m {
        assert v.types[id] == Player || v.types[id] == Npc || v.types[id] == Mob;
      }
    }
    assert p !! n && p + n !! m;
  }

  /** Summing tower sizes over distinct towers counts exactly the entities indexed there. */
  lemma {:induction false} CountOverIds(v: View, ts: seq<int>)
    requires Consistent(v)
    requires forall i :: 0 <= i < |ts| ==> 0 <= ts[i] < |v.towers|
    requires forall i, j :: 0 <= i < j < |ts| ==> ts[i] != ts[j]
    ensures CountOver(v, ts) == |IdsIn(v, set t | t in ts)|
  {
    if ts == [] {
      assert IdsIn(v, set t | t in ts) == {};
    } else {
      var init, last := ts[..|ts| - 1], ts[|ts| - 1];
      CountOverIds(v, init);
      TowerCount(v, last);
      hide Consistent;
      IdsInSplit(v, ts);
    }
  }

  lemma IdsInSplit(v: View, ts: seq<int>)
    requires ts != [] && forall i, j :: 0 <= i < j < |ts| ==> ts[i] != ts[j]
    ensures var init, last := ts[..|ts| - 1], ts[|ts| - 1];
      |IdsIn(v, set t | t in ts)| == |IdsIn(v, set t | t in init)| + |IdsIn(v, {last})|
  {
    var init, last := ts[..|ts| - 1], ts[|ts| - 1];
    assert last !in init;
    assert forall t :: t in ts <==> t in init || t == last;
    var a, b := IdsIn(v, set t | t in init), IdsIn(v, {last});
    assert IdsIn(v, set t | t in ts) == a + b;
    assert a !! b;
  }

  /** The number of tracked entities is the sum of all tower sizes. */
  lemma EntityCountIsSum(v: View)
    requires Consistent(v)
    ensures CountOver(v, seq(|v.towers|, i => i)) == |v.index|
  {
    var all := seq(|v.towers|, i => i);
    CountOverIds(v, all);
    forall id | id in v.index ensures id in IdsIn(v, set t | t in all) {
      assert all[v.index[id]] == v.index[id];
    }
    assert IdsIn(v, set t | t in all) == v.index.Keys;
  }

  /** Every entity within 18 cells is in one of the nine towers around. */
  lemma NearInNineGrid(v: View, x: int, y: int, radius: int, id: EntityID)
    requires Consistent(v) && InMap(v, x, y) && radius <= TOWER_SIZE && id in Near(v, x, y, radius)
    ensures id in v.index && NineGrid(v, x, y, v.index[id])
  {
    assert Indexed(v, id);
    var p := Table(v)[id];
    TowerOfRange(v.width, v.height, p.x, p.y);
  }

  /** A query of radius at most 18 returns no more entities than the nine towers hold. */
  lemma NearBounded(v: View, x: int, y: int, radius: int, nine: seq<int>)
    requires Consistent(v) && InMap(v, x, y) && radius <= TOWER_SIZE
    requires NineList(v, x, y, nine)
    ensures |Near(v, x, y, radius)| <= CountOver(v, nine)
  {
    CountOverIds(v, nine);
    var ids := IdsIn(v, set t | t in nine);
    forall id | id in Near(v, x, y, radius) ensures id in ids {
      NearInNineGrid(v, x, y, radius, id);
    }
    SubsetSize(Near(v, x, y, radius), ids);
  }

  // ----- in numbers -----

  /** There are as many columns of 18 cells as cover the map, and no more. */
  lemma AcrossCovers(cells: nat)
    ensures 18 * Across(cells) >= cells && (cells > 0 ==> 18 * (Across(cells) - 1) < cells)
  {
  }

  /** Two cells are in one tower exactly when they are in one 18 x 18 tile; towers are numbered row by row. */
  lemma TowersAreTiles(width: nat, height: nat, x: int, y: int, u: int, v: int)
    requires 0 <= x < width && 0 <= y < height && 0 <= u < width && 0 <= v < height
    ensures TowerOf(width, x, y) == TowerOf(width, u, v) <==> x / 18 == u / 18 && y / 18 == v / 18
    ensures TowerOf(width, x, y) < TowerOf(width, u, v) <==> y / 18 < v / 18 || (y / 18 == v / 18 && x / 18 < u / 18)
    ensures TowerOf(width, 0, 0) == 0 && (x >= 18 ==> TowerOf(width, x, y) == TowerOf(width, x - 18, y) + 1)
  {
    TowerOfRange(width, height, x, y);
    TowerOfRange(width, height, u, v);
    RowsApart(Across(width), x / 18, y / 18, u / 18, v / 18);
    if x >= 18 {
      assert (x - 18) / 18 == x / 18 - 1;
    }
  }

  lemma RowsApart(w: nat, c: int, r: int, d: int, q: int)
    requires 0 <= c < w && 0 <= d < w
    ensures r < q ==> r * w + c < q * w + d
    ensures q < r ==> q * w + d < r * w + c
  {
    if r < q {
      MulMonotone(w, r + 1, q);
      assert (r + 1) * w == r * w + w;
    }
    if q < r {
      MulMonotone(w, q + 1, r);
      assert (q + 1) * w == q * w + w;
    }
  }

  /** The identifiers of a table whose positions differ from (x, y) by at most `radius` on either axis. */
  function Within(table: map<EntityID, Pos>, x: int, y: int, radius: int): set<EntityID> {
    set id | id in table && -radius <= table[id].x - x <= radius && -radius <= table[id].y - y <= radius
  }

  /** The identifiers whose 18 x 18 tile is that of (x, y) or one of the eight around it. */
  function InNineTiles(table: map<EntityID, Pos>, x: int, y: int): set<EntityID> {
    set id | id in table && -1 <= table[id].x / 18 - x / 18 <= 1 && -1 <= table[id].y / 18 - y / 18 <= 1
  }

  lemma NearIsWithin(v: View, x: int, y: int, radius: int)
    requires Consistent(v)
    ensures Near(v, x, y, radius) == Within(Table(v), x, y, radius)
  {
    hide Consistent, Table;
    assert forall p :: Distance(p, x, y) <= radius <==> -radius <= p.x - x <= radius && -radius <= p.y - y <= radius;
  }

  /** The sizes of the nine towers add up to the entities in the nine tiles. */
  lemma NineIsTiles(v: View, x: int, y: int, nine: seq<int>)
    requires Consistent(v) && InMap(v, x, y) && NineList(v, x, y, nine)
    ensures CountOver(v, nine) == |InNineTiles(Table(v), x, y)|
  {
    CountOverIds(v, nine);
    var ids := IdsIn(v, set t | t in nine);
    forall id | id in v.index ensures v.index[id] in nine <==> id in InNineTiles(Table(v), x, y) {
      assert Indexed(v, id);
      var p := Table(v)[id];
      TowerOfRange(v.width, v.height, p.x, p.y);
    }
    hide Consistent;
    assert ids == InNineTiles(Table(v), x, y);
  }

  /** The radius of the squeezed view: 15 up to 100 entities around, 8 up to 500, 5 above. */
  lemma SqueezeTiers(count: int)
    ensures count <= 100 ==> SqueezeRadius(count) == 15
    ensures 100 < count <= 500 ==> SqueezeRadius(count) == 8
    ensures count > 500 ==> SqueezeRadius(count) == 5
  {
  }

  // ----- outcomes -----

  /** Each operation reports which of its conditions failed, in the order of the checks, and then changes nothing. */
  lemma Outcomes(v: View, id: EntityID, typ: EntityType, x: int, y: int)
    requires WellFormed(v)
    ensures var onMap := 0 <= x < v.width && 0 <= y < v.height;
      && Add(v, id, typ, x, y).1 == (if !onMap then OutOfBounds else if id in v.index then Exists else Done)
      && Move(v, id, x, y).1 == (if !onMap then OutOfBounds else if id !in v.index then Missing else Done)
      && Remove(v, id).1 == (if id !in v.index then Missing else Done)
    ensures Add(v, id, typ, x, y).1 != Done ==> Add(v, id, typ, x, y).0 == v
    ensures Move(v, id, x, y).1 != Done ==> Move(v, id, x, y).0 == v
    ensures Remove(v, id).1 != Done ==> Remove(v, id).0 == v
  {
    hide TowerOf, Across, Put, Slot;
  }

  // ----- squeezing -----

  const DEFAULT_BROADCAST_RADIUS := 15

  function SqueezeRadius(count: int): int {
    if count <= 100 then 15 else if count <= 500 then 8 else 5
  }

  /** The squeezed view never shows more than the standard one, and shrinks as the crowd grows. */
  lemma SqueezedIsSmaller(v: View, x: int, y: int, count: int, more: int)
    requires Consistent(v) && count <= more
    ensures Near(v, x, y, SqueezeRadius(count)) <= Near(v, x, y, DEFAULT_BROADCAST_RADIUS)
    ensures Near(v, x, y, SqueezeRadius(more)) <= Near(v, x, y, SqueezeRadius(count))
  {
  }
}
