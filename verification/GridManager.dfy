/**
  The grid manager over entity objects.  `view` is the value state its fields
  stand for; each method carries out one operation of that state.
 */
module Aoi {
  import opened Arithmetic
  import opened Towers

  class Entity {
    const id: EntityID
    const typ: EntityType
    var x: int
    var y: int

    constructor (id: EntityID, typ: EntityType, x: int, y: int)
      ensures this.id == id && this.typ == typ && this.x == x && this.y == y
    {
      this.id, this.typ, this.x, this.y := id, typ, x, y;
    }
  }

  /** The list holds exactly the members of the set, each once. */
  ghost predicate Listed(list: seq<int>, members: iset<int>) {
    && (forall i, j :: 0 <= i < j < |list| ==> list[i] != list[j])
    && (forall t :: t in list <==> t in members)
  }

  /** The towers around (tx, ty) the double loop has been at before offsets (dy, dx). */
  ghost function Scanned(width: nat, height: nat, tx: int, ty: int, dy: int, dx: int): iset<int>
    requires width > 0
  {
    iset t | Around(width, Across(width) * Across(height), tx, ty, t)
             && (Row(width, t) - ty < dy || (Row(width, t) - ty == dy && Col(width, t) - tx < dx))
  }

  lemma ScanStarts(width: nat, height: nat, tx: int, ty: int)
    requires width > 0
    ensures Listed([], Scanned(width, height, tx, ty, -1, -1))
  {
    hide Across, Row, Col;
  }

  lemma ScanRow(width: nat, height: nat, tx: int, ty: int, dy: int)
    requires width > 0
    ensures Scanned(width, height, tx, ty, dy, 2) == Scanned(width, height, tx, ty, dy + 1, -1)
  {
    hide Across, Row, Col;
  }

  lemma ScanEnds(width: nat, height: nat, tx: int, ty: int)
    requires width > 0
    ensures Scanned(width, height, tx, ty, 2, -1) == iset t | Around(width, Across(width) * Across(height), tx, ty, t)
  {
    hide Across, Row, Col;
  }

  /** One turn of the double loop adds the tower at its offsets, if the grid has one there. */
  lemma ScanStep(width: nat, height: nat, tx: int, ty: int, dy: int, dx: int, out: seq<int>)
    requires width > 0 && -1 <= dy <= 1 && -1 <= dx <= 1
    requires Listed(out, Scanned(width, height, tx, ty, dy, dx))
    ensures Listed(
      if 0 <= tx + dx < Across(width) && 0 <= ty + dy < Across(height) then out + [TowerAt(width, tx + dx, ty + dy)] else out,
      Scanned(width, height, tx, ty, dy, dx + 1))
  {
    var n, a, b := Across(width) * Across(height), Scanned(width, height, tx, ty, dy, dx), Scanned(width, height, tx, ty, dy, dx + 1);
    Tiles(width, height);
    if 0 <= tx + dx < Across(width) && 0 <= ty + dy < Across(height) {
      TileAt(width, height, tx + dx, ty + dy);
      hide Across, Row, Col, TowerAt;
      var t := TowerAt(width, tx + dx, ty + dy);
      assert b == a + iset{t};
      assert t !in a;
    } else {
      hide Across, Row, Col;
      assert a == b;
    }
  }

  lemma ListedIsNine(v: View, x: int, y: int, out: seq<int>)
    requires WellFormed(v)
    requires Listed(out, iset t | Around(v.width, Across(v.width) * Across(v.height), x / TOWER_SIZE, y / TOWER_SIZE, t))
    ensures NineList(v, x, y, out)
  {
    hide Across, Row, Col;
    forall i | 0 <= i < |out| ensures 0 <= out[i] < |v.towers| {
      assert out[i] in out;
    }
  }

  /** The entity maps of the visited towers the query loop has been through before tile (tx, ty). */
  ghost function Swept(v: View, x: int, y: int, radius: int, tx: int, ty: int): iset<(int, EntityType)>
    requires v.width > 0
  {
    iset t, typ | Visited(v, x, y, radius, t)
                  && (Row(v.width, t) < ty || (Row(v.width, t) == ty && Col(v.width, t) < tx)) :: (t, typ)
  }

  ghost function AllVisited(v: View, x: int, y: int, radius: int): iset<(int, EntityType)>
    requires v.width > 0
  {
    iset t, typ | Visited(v, x, y, radius, t) :: (t, typ)
  }

  datatype Box = Box(x0: int, y0: int, x1: int, y1: int)

  predicate InBBox(e: Entity, b: Box)
    reads e
  {
    InBox(Pos(e.x, e.y), b.x0, b.y0, b.x1, b.y1)
  }

  /** The square around (x, y), clipped to the map. */
  function ClampRadiusBBox(x: int, y: int, radius: int, width: nat, height: nat): Box {
    var x0, y0, x1, y1 := x - radius, y - radius, x + radius, y + radius;
    Box(if x0 < 0 then 0 else x0, if y0 < 0 then 0 else y0,
        if x1 >= width then width - 1 else x1, if y1 >= height then height - 1 else y1)
  }

  /** First and last tile column and row a query visits. */
  ghost function Tiles4(v: View, x: int, y: int, radius: int): Box {
    var b := ClampRadiusBBox(x, y, radius, v.width, v.height);
    Box(b.x0 / TOWER_SIZE, b.y0 / TOWER_SIZE, b.x1 / TOWER_SIZE, b.y1 / TOWER_SIZE)
  }

  lemma VisitedTiles(v: View, x: int, y: int, radius: int, t: int)
    requires WellFormed(v) && InMap(v, x, y) && radius >= 0
    ensures var q := Tiles4(v, x, y, radius);
      && 0 <= q.x0 <= q.x1 < Across(v.width) && 0 <= q.y0 <= q.y1 < Across(v.height)
      && (Visited(v, x, y, radius, t) <==>
            0 <= t < |v.towers| && q.x0 <= Col(v.width, t) <= q.x1 && q.y0 <= Row(v.width, t) <= q.y1)
  {
    hide Row, Col;
  }

  lemma SweepStarts(v: View, x: int, y: int, radius: int)
    requires WellFormed(v) && InMap(v, x, y) && radius >= 0
    ensures var q := Tiles4(v, x, y, radius);
      && 0 <= q.x0 <= q.x1 < Across(v.width) && 0 <= q.y0 <= q.y1 < Across(v.height)
      && Swept(v, x, y, radius, q.x0, q.y0) == iset{}
  {
    hide Row, Col, Across, Visited, Tiles4;
    var a := Swept(v, x, y, radius, Tiles4(v, x, y, radius).x0, Tiles4(v, x, y, radius).y0);
    forall t, typ: EntityType ensures (t, typ) !in a {
      VisitedTiles(v, x, y, radius, t);
    }
    VisitedTiles(v, x, y, radius, 0);
  }

  /** The inner loop adds the three maps of one tower, which were not visited before. */
  lemma SweepStep(v: View, x: int, y: int, radius: int, tx: int, ty: int)
    requires WellFormed(v) && InMap(v, x, y) && radius >= 0
    requires var q := Tiles4(v, x, y, radius); q.x0 <= tx <= q.x1 && q.y0 <= ty <= q.y1
    ensures var t := TowerAt(v.width, tx, ty);
      && 0 <= t < |v.towers|
      && (forall s :: s in Swept(v, x, y, radius, tx, ty) ==> 0 <= s.0 < |v.towers| && s.0 != t)
      && Swept(v, x, y, radius, tx + 1, ty) == Swept(v, x, y, radius, tx, ty) + iset{(t, Player), (t, Npc), (t, Mob)}
  {
    VisitedTiles(v, x, y, radius, TowerAt(v.width, tx, ty));
    TileAt(v.width, v.height, tx, ty);
    Tiles(v.width, v.height);
    hide Row, Col, Across, Tiles4, TowerAt, Visited;
    var t := TowerAt(v.width, tx, ty);
    var a, b := Swept(v, x, y, radius, tx, ty), Swept(v, x, y, radius, tx + 1, ty);
    forall u, typ: EntityType
      ensures (u, typ) in b <==> (u, typ) in a + iset{(t, Player), (t, Npc), (t, Mob)}
    {
      VisitedTiles(v, x, y, radius, u);
      assert typ == Player || typ == Npc || typ == Mob;
    }
  }

  lemma SweepRow(v: View, x: int, y: int, radius: int, ty: int)
    requires WellFormed(v) && InMap(v, x, y) && radius >= 0
    ensures var q := Tiles4(v, x, y, radius);
      Swept(v, x, y, radius, q.x1 + 1, ty) == Swept(v, x, y, radius, q.x0, ty + 1)
  {
    hide Row, Col, Across, Tiles4, Visited;
    var q := Tiles4(v, x, y, radius);
    var a, b := Swept(v, x, y, radius, q.x1 + 1, ty), Swept(v, x, y, radius, q.x0, ty + 1);
    forall u, typ: EntityType ensures (u, typ) in b <==> (u, typ) in a {
      VisitedTiles(v, x, y, radius, u);
    }
  }

  lemma SweepEnds(v: View, x: int, y: int, radius: int)
    requires WellFormed(v) && InMap(v, x, y) && radius >= 0
    ensures var q := Tiles4(v, x, y, radius);
      Swept(v, x, y, radius, q.x0, q.y1 + 1) == AllVisited(v, x, y, radius)
  {
    hide Row, Col, Across, Tiles4, Visited;
    var q := Tiles4(v, x, y, radius);
    var a, b := Swept(v, x, y, radius, q.x0, q.y1 + 1), AllVisited(v, x, y, radius);
    forall u, typ: EntityType ensures (u, typ) in b <==> (u, typ) in a {
      VisitedTiles(v, x, y, radius, u);
    }
  }

  datatype AddResult = Added | NilEntity | AlreadyExists | AddOutOfBounds

  /** No object sits in two towers under the same type and identifier. */
  ghost predicate Separate(ts: seq<Tower<Entity>>) {
    forall t, u, typ, id {:trigger ts[t].Of(typ)[id], ts[u].Of(typ)[id]} ::
      0 <= t < |ts| && 0 <= u < |ts| && t != u && id in ts[t].Of(typ) && id in ts[u].Of(typ) ==>
        ts[t].Of(typ)[id] != ts[u].Of(typ)[id]
  }

  lemma SeparatePut(ts: seq<Tower<Entity>>, t: int, e: Entity)
    requires Separate(ts) && 0 <= t < |ts|
    requires forall u :: 0 <= u < |ts| && e.id in ts[u].Of(e.typ) ==> ts[u].Of(e.typ)[e.id] != e
    ensures Separate(ts[t := ts[t].With(e.typ, ts[t].Of(e.typ)[e.id := e])])
  {
    TowersPut(ts, t, e.typ, ts[t].Of(e.typ)[e.id := e]);
    hide Tower.Of, Tower.With;
  }

  lemma SeparateDelete(ts: seq<Tower<Entity>>, t: int, typ: EntityType, id: EntityID)
    requires Separate(ts) && 0 <= t < |ts|
    ensures Separate(ts[t := ts[t].With(typ, ts[t].Of(typ) - {id})])
  {
    TowersPut(ts, t, typ, ts[t].Of(typ) - {id});
    hide Tower.Of, Tower.With;
  }

  class GridManager {
    const width: nat
    const height: nat
    const gridWidth: nat
    const gridHeight: nat
    var towers: seq<Tower<Entity>>
    var entityTower: map<EntityID, int>
    var entityType: map<EntityID, EntityType>

    ghost var view: View
    ghost var repr: set<Entity>

    /** The entity object a tower map holds is the one its slot of `view` describes. */
    ghost predicate Shows(t: int, typ: EntityType, id: EntityID)
      requires |view.towers| == |towers| && 0 <= t < |towers| && id in towers[t].Of(typ)
      reads this, repr
    {
      var e := towers[t].Of(typ)[id];
      e in repr && e.id == id && e.typ == typ && id in Slot(view, t, typ) && Slot(view, t, typ)[id] == Pos(e.x, e.y)
    }

    /** The tower maps hold what the slots of `view` describe, and no object sits in two slots. */
    ghost predicate Linked()
      reads this, repr
    {
      && |view.towers| == |towers|
      && (forall t, typ, id {:trigger id in Slot(view, t, typ)} ::
            0 <= t < |towers| && id in Slot(view, t, typ) ==> id in towers[t].Of(typ))
      && (forall t, typ, id {:trigger Shows(t, typ, id)} {:trigger id in towers[t].Of(typ)} ::
            0 <= t < |towers| && id in towers[t].Of(typ) ==> Shows(t, typ, id))
      && Separate(towers)
    }

    ghost predicate Valid()
      reads this, repr
    {
      && WellFormed(view)
      && view.width == width && view.height == height && gridWidth == Across(width) && gridHeight == Across(height)
      && view.index == entityTower && view.types == entityType
      && Linked()
    }

    /** The indexes have changed; the towers have not. */
    ghost method Reindex()
      requires Linked()
      modifies this`view
      ensures Linked() && view == old(view).(index := entityTower, types := entityType)
    {
      view := view.(index := entityTower, types := entityType);
      assert forall t, typ :: 0 <= t < |towers| ==> Slot(view, t, typ) == Slot(old(view), t, typ);
      hide Slot;
      forall t, typ, id | 0 <= t < |towers| && id in towers[t].Of(typ) ensures Shows(t, typ, id) {
        assert old(Shows(t, typ, id));
      }
    }

    /** Put an entity into one of the maps of a tower. */
    method InsertIn(t: int, e: Entity)
      requires Linked() && 0 <= t < |towers| && !Held(e)
      modifies this`towers, this`view, this`repr
      ensures Linked() && repr == old(repr) + {e}
      ensures view == Put(old(view), t, e.typ, Slot(old(view), t, e.typ)[e.id := Pos(e.x, e.y)])
    {
      var m := towers[t].Of(e.typ)[e.id := e];
      TowersPut(towers, t, e.typ, m);
      SeparatePut(towers, t, e);
      PutSlot(view, t, e.typ, Slot(view, t, e.typ)[e.id := Pos(e.x, e.y)]);
      hide Tower.Of, Tower.With, Slot, Put, Separate;
      towers := towers[t := towers[t].With(e.typ, m)];
      view := Put(view, t, e.typ, Slot(view, t, e.typ)[e.id := Pos(e.x, e.y)]);
      repr := repr + {e};
      forall u, typ, id | 0 <= u < |towers| && id in towers[u].Of(typ) ensures Shows(u, typ, id) {
        if !(u == t && typ == e.typ && id == e.id) {
          assert id in old(towers)[u].Of(typ) && old(Shows(u, typ, id));
        }
      }
    }

    /** Take an entity out of one of the maps of a tower; nothing happens when it is not there. */
    method DeleteFrom(t: int, typ: EntityType, id: EntityID)
      requires Linked() && 0 <= t < |towers|
      modifies this`towers, this`view
      ensures Linked()
      ensures view == Put(old(view), t, typ, Slot(old(view), t, typ) - {id})
      ensures towers == old(towers)[t := old(towers)[t].With(typ, old(towers)[t].Of(typ) - {id})]
    {
      var m := towers[t].Of(typ) - {id};
      TowersPut(towers, t, typ, m);
      SeparateDelete(towers, t, typ, id);
      PutSlot(view, t, typ, Slot(view, t, typ) - {id});
      hide Tower.Of, Tower.With, Slot, Put, Separate;
      towers := towers[t := towers[t].With(typ, m)];
      view := Put(view, t, typ, Slot(view, t, typ) - {id});
      forall u, ty, i | 0 <= u < |towers| && i in towers[u].Of(ty) ensures Shows(u, ty, i) {
        assert i in old(towers)[u].Of(ty) && old(Shows(u, ty, i));
      }
    }

    /** The object is in some tower map. */
    ghost predicate Held(e: Entity)
      reads this
    {
      exists t, typ :: 0 <= t < |towers| && e.id in towers[t].Of(typ) && towers[t].Of(typ)[e.id] == e
    }

    constructor (width: nat, height: nat)
      requires width > 0 && height > 0
      ensures Valid() && Fresh(view) && view.width == width && view.height == height && repr == {}
    {
      this.width, this.height := width, height;
      gridWidth, gridHeight := Across(width), Across(height);
      var n := Across(width) * Across(height);
      towers := seq(n, _ => Tower(map[], map[], map[]));
      entityTower, entityType := map[], map[];
      view := View(width, height, map[], map[], seq(n, _ => Tower(map[], map[], map[])));
      repr := {};
    }

    /** In a consistent grid an entity that is not tracked is in no tower. */
    lemma UntrackedNotHeld(e: Entity)
      requires Valid() && Consistent(view) && e.id !in entityTower
      ensures !Held(e)
    {
      hide Tower.Of, Slot;
      assert forall t, typ :: Holds(view, t, typ, e.id) ==> e.id in view.index;
      forall t, typ | 0 <= t < |towers| ensures e.id !in towers[t].Of(typ) {
        assert !Holds(view, t, typ, e.id);
        assert e.id in towers[t].Of(typ) ==> Shows(t, typ, e.id);
      }
    }

    method TowerID(x: int, y: int) returns (tid: int)
      requires Valid()
      ensures tid == if InMap(view, x, y) then TowerOf(width, x, y) else -1
      ensures InMap(view, x, y) ==> 0 <= tid < |towers|
    {
      if !(0 <= x < width && 0 <= y < height) {
        return -1;
      }
      TowerOfRange(width, height, x, y);
      return (y / TOWER_SIZE) * gridWidth + x / TOWER_SIZE;
    }

    method AddEntity(e: Entity?) returns (r: AddResult)
      requires Valid()
      requires e != null && e.id !in entityTower ==> !Held(e)
      modifies this
      ensures Valid() && (e != null && r.Added? ==> repr == old(repr) + {e})
      ensures r.NilEntity? <==> e == null
      ensures e == null ==> view == old(view)
      ensures e != null ==>
        var (v, outcome) := Add(old(view), e.id, e.typ, e.x, e.y);
        && view == v
        && r == (match outcome case OutOfBounds => AddOutOfBounds case Exists => AlreadyExists case _ => Added)
    {
      hide Tower.Of, Tower.With, Slot, TowerOf, Across;
      if e == null {
        return NilEntity;
      }
      if !(0 <= e.x < width && 0 <= e.y < height) {
        return AddOutOfBounds;
      }
      var id := e.id;
      var tid := TowerID(e.x, e.y);
      if id in entityTower {
        return AlreadyExists;
      }
      entityTower := entityTower[id := tid];
      entityType := entityType[id := e.typ];
      Reindex();
      InsertIn(tid, e);
      return Added;
    }

    method RemoveEntity(id: EntityID) returns (found: bool)
      requires Valid()
      modifies this
      ensures Valid() && repr == old(repr)
      ensures (view, if found then Done else Missing) == Remove(old(view), id)
    {
      hide Tower.Of, Tower.With, Slot, TowerOf, Across;
      if id !in entityTower {
        return false;
      }
      var tid, typ := entityTower[id], entityType[id];
      entityTower := entityTower - {id};
      entityType := entityType - {id};
      Reindex();
      DeleteFrom(tid, typ, id);
      return true;
    }

    /** Rewrite the coordinates of the entity a tower map holds. */
    method Relocate(t: int, typ: EntityType, id: EntityID, newX: int, newY: int)
      requires Linked() && 0 <= t < |towers| && id in towers[t].Of(typ)
      modifies this`view, repr
      ensures Linked() && repr == old(repr)
      ensures view == Put(old(view), t, typ, Slot(old(view), t, typ)[id := Pos(newX, newY)])
      ensures towers == old(towers)
    {
      var e := towers[t].Of(typ)[id];
      assert Shows(t, typ, id);
      PutSlot(view, t, typ, Slot(view, t, typ)[id := Pos(newX, newY)]);
      hide Tower.Of, Tower.With, Slot, Put, Separate;
      e.x := newX;
      e.y := newY;
      view := Put(view, t, typ, Slot(view, t, typ)[id := Pos(newX, newY)]);
      forall u, ty, i | 0 <= u < |towers| && i in towers[u].Of(ty) ensures Shows(u, ty, i) {
        assert old(Shows(u, ty, i));
      }
    }

    /**
      As written: for a move to a lower tower `first` is the destination, so the entity is looked
      up where it is not.
     */
    method MoveEntity(id: EntityID, newX: int, newY: int) returns (r: Outcome)
      requires Valid()
      modifies this, repr
      ensures Valid() && repr == old(repr)
      ensures (view, r) == Move(old(view), id, newX, newY)
    {
      hide Tower.Of, Tower.With, Slot, TowerOf, Across;
      if !(0 <= newX < width && 0 <= newY < height) {
        return OutOfBounds;
      }
      if id !in entityTower {
        return Missing;
      }
      var oldTID, typ := entityTower[id], entityType[id];
      var newTID := TowerID(newX, newY);
      if newTID == oldTID {
        if id in towers[oldTID].Of(typ) {
          Relocate(oldTID, typ, id, newX, newY);
        }
        return Done;
      }
      entityTower := entityTower[id := newTID];
      Reindex();
      var first, second := oldTID, newTID;
      if first > second {
        first, second := second, first;
      }
      if id !in towers[first].Of(typ) {
        return Done;
      }
      Transfer(first, second, typ, id, newX, newY);
      return Done;
    }

    /** Take the entity out of `first`, rewrite its coordinates, and enter it in `second`. */
    method Transfer(first: int, second: int, typ: EntityType, id: EntityID, newX: int, newY: int)
      requires Linked() && 0 <= first < |towers| && 0 <= second < |towers| && first != second
      requires id in towers[first].Of(typ)
      modifies this`towers, this`view, this`repr, repr
      ensures Linked() && repr == old(repr)
      ensures var u := Put(old(view), first, typ, Slot(old(view), first, typ) - {id});
        view == Put(u, second, typ, Slot(u, second, typ)[id := Pos(newX, newY)])
    {
      var e := towers[first].Of(typ)[id];
      assert Shows(first, typ, id);
      TowersPut(towers, first, typ, towers[first].Of(typ) - {id});
      DeleteFrom(first, typ, id);
      hide Tower.Of, Tower.With, Slot, Put, Separate;
      assert !Held(e);
      MoveLoose(e, newX, newY);
      if id in towers[second].Of(typ) {
        Relocate(second, typ, id, newX, newY);
      } else {
        InsertIn(second, e);
      }
    }

    /** Write the coordinates of an entity no tower map holds. */
    method MoveLoose(e: Entity, newX: int, newY: int)
      requires Linked() && !Held(e)
      modifies e
      ensures Linked() && e.x == newX && e.y == newY
    {
      hide Tower.Of, Slot;
      e.x := newX;
      e.y := newY;
      forall u, ty, i | 0 <= u < |towers| && i in towers[u].Of(ty) ensures Shows(u, ty, i) {
        assert old(Shows(u, ty, i));
      }
    }

    // ----- reading -----

    ghost predicate InTower(t: int, e: Entity)
      reads this
    {
      0 <= t < |towers| && e.id in towers[t].Of(e.typ) && towers[t].Of(e.typ)[e.id] == e
    }

    /** The object both indexes lead to. */
    ghost predicate Tracked(e: Entity)
      reads this
    {
      e.id in entityTower && InTower(entityTower[e.id], e)
    }

    method EntityLocation(id: EntityID) returns (x: int, y: int, tower: int, ok: bool)
      requires Valid()
      ensures Location(view, id) == if ok then At(Pos(x, y), tower) else Nowhere
    {
      if id !in entityTower {
        return 0, 0, 0, false;
      }
      var tid, typ := entityTower[id], entityType[id];
      hide Tower.Of, Slot;
      if id !in towers[tid].Of(typ) {
        return 0, 0, 0, false;
      }
      assert Shows(tid, typ, id);
      var e := towers[tid].Of(typ)[id];
      return e.x, e.y, tid, true;
    }

    method EntityCount() returns (n: nat)
      requires Valid()
      ensures n == |view.index|
      ensures Consistent(view) ==> n == CountOver(view, seq(|view.towers|, i => i))
    {
      n := |entityTower|;
      if Consistent(view) {
        EntityCountIsSum(view);
      }
    }

    lemma SameKeys(t: int, typ: EntityType)
      requires Linked() && 0 <= t < |towers|
      ensures towers[t].Of(typ).Keys == Slot(view, t, typ).Keys
    {
      hide Tower.Of, Slot;
      forall id ensures id in towers[t].Of(typ) <==> id in Slot(view, t, typ) {
        assert id in towers[t].Of(typ) ==> Shows(t, typ, id);
      }
    }

    method TowerEntityCount(t: int) returns (n: nat)
      requires Valid()
      ensures n == if 0 <= t < |view.towers| then view.towers[t].Count() else 0
    {
      if t < 0 || t >= |towers| {
        return 0;
      }
      SameKeys(t, Player);
      SameKeys(t, Npc);
      SameKeys(t, Mob);
      var tower := towers[t];
      n := |tower.players| + |tower.npcs| + |tower.mobs|;
      assert |tower.players| == |tower.Of(Player).Keys| == |Slot(view, t, Player).Keys|;
      assert |tower.npcs| == |tower.Of(Npc).Keys| == |Slot(view, t, Npc).Keys|;
      assert |tower.mobs| == |tower.Of(Mob).Keys| == |Slot(view, t, Mob).Keys|;
    }

    method Get9GridTowers(x: int, y: int) returns (out: seq<int>)
      requires Valid()
      ensures !InMap(view, x, y) ==> out == []
      ensures InMap(view, x, y) ==> NineList(view, x, y, out)
    {
      out := [];
      if !(0 <= x < width && 0 <= y < height) {
        return;
      }
      hide Row, Col, Across;
      out := Surrounding(width, height, x / TOWER_SIZE, y / TOWER_SIZE);
      ListedIsNine(view, x, y, out);
    }

    /** The double loop over the offsets -1, 0, 1. */
    static method Surrounding(width: nat, height: nat, tx: int, ty: int) returns (out: seq<int>)
      requires width > 0
      ensures Listed(out, iset t | Around(width, Across(width) * Across(height), tx, ty, t))
    {
      var gw, gh := Across(width), Across(height);
      hide Across, Listed;
      out := [];
      assert Listed(out, Scanned(width, height, tx, ty, -1, -1)) by {
        ScanStarts(width, height, tx, ty);
      }
      for dy := -1 to 2
        invariant Listed(out, Scanned(width, height, tx, ty, dy, -1))
      {
        for dx := -1 to 2
          invariant Listed(out, Scanned(width, height, tx, ty, dy, dx))
        {
          ScanStep(width, height, tx, ty, dy, dx, out);
          if 0 <= tx + dx < gw && 0 <= ty + dy < gh {
            out := out + [TowerAt(width, tx + dx, ty + dy)];
          }
        }
        ScanRow(width, height, tx, ty, dy);
      }
      ScanEnds(width, height, tx, ty);
    }

    method Count9Grid(x: int, y: int) returns (n: nat, ghost nine: seq<int>)
      requires Valid()
      ensures !InMap(view, x, y) ==> n == 0
      ensures InMap(view, x, y) ==> NineList(view, x, y, nine) && n == CountOver(view, nine)
      ensures InMap(view, x, y) && Consistent(view) ==> n == |InNineTiles(Table(view), x, y)|
    {
      var list := Get9GridTowers(x, y);
      nine := list;
      n := 0;
      for i := 0 to |list|
        invariant InMap(view, x, y) ==> n == CountOver(view, list[..i])
        invariant !InMap(view, x, y) ==> n == 0
      {
        var c := TowerEntityCount(list[i]);
        assert list[..i + 1][..i] == list[..i];
        n := n + c;
      }
      assert list[..|list|] == list;
      if InMap(view, x, y) && Consistent(view) {
        NineIsTiles(view, x, y, nine);
      }
    }

    // ----- queries -----

    ghost predicate HeldIn(slots: iset<(int, EntityType)>, e: Entity)
      reads this
    {
      exists t :: (t, e.typ) in slots && InTower(t, e)
    }

    /** `out` lists, each once, the objects of these entity maps that lie in the box. */
    ghost predicate Gathered(out: seq<Entity>, slots: iset<(int, EntityType)>, b: Box)
      reads this, repr
    {
      && (forall i, j :: 0 <= i < j < |out| ==> out[i] != out[j])
      && (forall e :: e in out ==> e in repr)
      && (forall e :: e in repr ==> (e in out <==> HeldIn(slots, e) && InBBox(e, b)))
    }

    /** Append the entities of one map that lie in the box, in whatever order the map yields them. */
    method CollectMap(t: int, typ: EntityType, b: Box, ghost slots: iset<(int, EntityType)>,
        dst: seq<Entity>) returns (out: seq<Entity>)
      requires Linked() && 0 <= t < |towers| && (t, typ) !in slots
      requires forall s :: s in slots ==> 0 <= s.0 < |towers|
      requires Gathered(dst, slots, b)
      ensures Gathered(out, slots + iset{(t, typ)}, b)
    {
      out := dst;
      var m := towers[t].Of(typ);
      var left := m.Keys;
      assert forall e :: e in dst ==> !(e.typ == typ && InTower(t, e));
      while left != {}
        invariant left <= m.Keys
        invariant forall i, j :: 0 <= i < j < |out| ==> out[i] != out[j]
        invariant forall e :: e in out ==> e in repr
        invariant forall e :: e in repr ==>
                    (e in out <==> e in dst || (e.typ == typ && e.id in m && e.id !in left && m[e.id] == e && InBBox(e, b)))
        decreases |left|
      {
        var id := AnyOf(left);
        left := left - {id};
        assert Shows(t, typ, id);
        var e := m[id];
        if InBBox(e, b) {
          out := out + [e];
        }
      }
      forall e | e in repr ensures HeldIn(slots + iset{(t, typ)}, e) <==> HeldIn(slots, e) || (e.typ == typ && InTower(t, e)) {
        if e.typ == typ && InTower(t, e) {
          assert (t, e.typ) in slots + iset{(t, typ)};
        }
      }
    }

    method CollectTowerEntities(t: int, b: Box, ghost slots: iset<(int, EntityType)>, dst: seq<Entity>)
        returns (out: seq<Entity>)
      requires Linked() && 0 <= t < |towers|
      requires forall s :: s in slots ==> 0 <= s.0 < |towers| && s.0 != t
      requires Gathered(dst, slots, b)
      ensures Gathered(out, slots + iset{(t, Player), (t, Npc), (t, Mob)}, b)
    {
      hide Gathered, Tower.Of;
      out := CollectMap(t, Player, b, slots, dst);
      out := CollectMap(t, Npc, b, slots + iset{(t, Player)}, out);
      out := CollectMap(t, Mob, b, slots + iset{(t, Player)} + iset{(t, Npc)}, out);
      assert slots + iset{(t, Player)} + iset{(t, Npc)} + iset{(t, Mob)} == slots + iset{(t, Player), (t, Npc), (t, Mob)};
    }

    method QueryWithin(x: int, y: int, radius: int) returns (out: seq<Entity>)
      requires Valid()
      ensures !InMap(view, x, y) || radius < 0 ==> out == []
      ensures InMap(view, x, y) && radius >= 0 ==>
                Gathered(out, AllVisited(view, x, y, radius), ClampRadiusBBox(x, y, radius, width, height))
      ensures InMap(view, x, y) && radius >= 0 && Consistent(view) ==>
                Scan(out, x, y, radius) && Returns(out, Within(Table(view), x, y, radius))
    {
      out := [];
      if !(0 <= x < width && 0 <= y < height) || radius < 0 {
        return;
      }
      var b := ClampRadiusBBox(x, y, radius, width, height);
      var tx0, ty0, tx1, ty1 := b.x0 / TOWER_SIZE, b.y0 / TOWER_SIZE, b.x1 / TOWER_SIZE, b.y1 / TOWER_SIZE;
      SweepStarts(view, x, y, radius);
      assert Box(tx0, ty0, tx1, ty1) == Tiles4(view, x, y, radius);
      hide Gathered, Swept, AllVisited, Tower.Of, Across, TowerAt, Tiles4, ClampRadiusBBox;
      assert Gathered(out, iset{}, b) by { GatheredNothing(b); }
      var ty := ty0;
      while ty <= ty1
        invariant ty0 <= ty <= ty1 + 1
        invariant Gathered(out, Swept(view, x, y, radius, tx0, ty), b)
      {
        out := QueryRow(x, y, radius, ty, tx0, tx1, b, out);
        ty := ty + 1;
      }
      SweepEnds(view, x, y, radius);
      if Consistent(view) {
        GatheredIsScan(out, x, y, radius);
        ScanReturns(out, x, y, radius);
      }
    }

    /** The inner loop of the query: one row of towers. */
    method QueryRow(x: int, y: int, radius: int, ty: int, tx0: int, tx1: int, b: Box, dst: seq<Entity>)
        returns (out: seq<Entity>)
      requires Valid() && InMap(view, x, y) && radius >= 0
      requires var q := Tiles4(view, x, y, radius); q.x0 == tx0 && q.x1 == tx1 && q.x0 <= q.x1 && q.y0 <= ty <= q.y1
      requires Gathered(dst, Swept(view, x, y, radius, tx0, ty), b)
      ensures Gathered(out, Swept(view, x, y, radius, tx0, ty + 1), b)
    {
      hide Gathered, Swept, Tower.Of, Across, TowerAt, Tiles4;
      out := dst;
      var tx := tx0;
      while tx <= tx1
        invariant tx0 <= tx <= tx1 + 1
        invariant Gathered(out, Swept(view, x, y, radius, tx, ty), b)
      {
        SweepStep(view, x, y, radius, tx, ty);
        out := CollectTowerEntities(TowerAt(width, tx, ty), b, Swept(view, x, y, radius, tx, ty), out);
        tx := tx + 1;
      }
      SweepRow(view, x, y, radius, ty);
    }

    lemma GatheredNothing(b: Box)
      ensures Gathered([], iset{}, b)
    {
    }

    /**
      The list is what a scan of all tracked entities would give: each entity within Chebyshev
      distance `radius` once, as the object the indexes lead to, and no other.
     */
    ghost predicate Scan(out: seq<Entity>, x: int, y: int, radius: int)
      requires Valid() && Consistent(view)
      reads this, repr
    {
      && (forall i, j :: 0 <= i < j < |out| ==> out[i] != out[j])
      && (forall e :: e in out ==> Tracked(e) && e.id in Table(view) && Table(view)[e.id] == Pos(e.x, e.y))
      && (set e | e in out :: e.id) == Near(view, x, y, radius)
      && |out| == |Near(view, x, y, radius)|
    }

    /** The list has one object for each of the identifiers and no other. */
    ghost predicate Returns(out: seq<Entity>, ids: set<EntityID>) {
      (set e | e in out :: e.id) == ids && |out| == |ids|
    }

    lemma ScanReturns(out: seq<Entity>, x: int, y: int, radius: int)
      requires Valid() && Consistent(view) && Scan(out, x, y, radius)
      ensures Returns(out, Within(Table(view), x, y, radius))
    {
      NearIsWithin(view, x, y, radius);
    }

    /** What the two indexes lead to, and what any tower holds, is the same thing in a consistent grid. */
    lemma HeldIsTracked(t: int, e: Entity)
      requires Valid() && Consistent(view) && InTower(t, e)
      ensures Tracked(e) && entityTower[e.id] == t && e.id in Table(view) && Table(view)[e.id] == Pos(e.x, e.y)
      ensures e in repr && InMap(view, e.x, e.y) && TowerOf(width, e.x, e.y) == t
    {
      hide TowerOf, Across;
      assert Shows(t, e.typ, e.id);
      assert Holds(view, t, e.typ, e.id);
      assert Indexed(view, e.id);
    }

    lemma ObjectOf(id: EntityID) returns (e: Entity)
      requires Valid() && Consistent(view) && id in view.index
      ensures e.id == id && InTower(view.index[id], e) && e in repr
    {
      hide TowerOf, Across;
      assert Indexed(view, id);
      assert id in Slot(view, view.index[id], view.types[id]);
      e := towers[view.index[id]].Of(view.types[id])[id];
      assert Shows(view.index[id], view.types[id], id);
    }

    lemma GatheredIsScan(out: seq<Entity>, x: int, y: int, radius: int)
      requires Valid() && Consistent(view) && InMap(view, x, y) && radius >= 0
      requires Gathered(out, AllVisited(view, x, y, radius), ClampRadiusBBox(x, y, radius, width, height))
      ensures Scan(out, x, y, radius)
    {
      assert forall i, j :: 0 <= i < j < |out| ==> out[i] != out[j];
      hide Gathered, HeldIn, Consistent, Tracked, Table, WellFormed, Linked, Near, AllVisited, ClampRadiusBBox;
      forall e | e in out
        ensures Tracked(e) && e.id in Table(view) && Table(view)[e.id] == Pos(e.x, e.y) && e.id in Near(view, x, y, radius)
      {
        GatheredIsNear(out, x, y, radius, e);
      }
      var ids := set e | e in out :: e.id;
      forall id | id in Near(view, x, y, radius) ensures id in ids {
        var e := NearIsGathered(out, x, y, radius, id);
      }
      assert ids == Near(view, x, y, radius);
      OneEach(out);
    }

    lemma GatheredIsNear(out: seq<Entity>, x: int, y: int, radius: int, e: Entity)
      requires Valid() && Consistent(view) && InMap(view, x, y) && radius >= 0
      requires Gathered(out, AllVisited(view, x, y, radius), ClampRadiusBBox(x, y, radius, width, height)) && e in out
      ensures Tracked(e) && e.id in Table(view) && Table(view)[e.id] == Pos(e.x, e.y) && e.id in Near(view, x, y, radius)
    {
      var slots := AllVisited(view, x, y, radius);
      ClampIsBox(x, y, radius, width, height);
      hide TowerOf, Across, Visited, InBox, ClampRadiusBBox, Distance, Clamp;
      assert e in repr && HeldIn(slots, e);
      var t :| (t, e.typ) in slots && InTower(t, e);
      HeldIsTracked(t, e);
      BoxIsBall(view, x, y, radius, Pos(e.x, e.y));
    }

    lemma NearIsGathered(out: seq<Entity>, x: int, y: int, radius: int, id: EntityID) returns (e: Entity)
      requires Valid() && Consistent(view) && InMap(view, x, y) && radius >= 0 && id in Near(view, x, y, radius)
      requires Gathered(out, AllVisited(view, x, y, radius), ClampRadiusBBox(x, y, radius, width, height))
      ensures e.id == id && e in out
    {
      var slots := AllVisited(view, x, y, radius);
      ClampIsBox(x, y, radius, width, height);
      hide TowerOf, Across, Visited, InBox, ClampRadiusBBox, Distance, Clamp;
      e := ObjectOf(id);
      HeldIsTracked(view.index[id], e);
      BoxIsBall(view, x, y, radius, Pos(e.x, e.y));
      assert (view.index[id], e.typ) in slots;
      assert HeldIn(slots, e);
    }

    /** Distinct tracked objects have distinct identifiers. */
    lemma {:induction false} OneEach(out: seq<Entity>)
      requires forall i, j :: 0 <= i < j < |out| ==> out[i] != out[j]
      requires forall e :: e in out ==> Tracked(e)
      requires Valid() && Consistent(view)
      ensures |set e | e in out :: e.id| == |out|
    {
      hide Consistent, WellFormed, Linked;
      if out != [] {
        var init, last := out[..|out| - 1], out[|out| - 1];
        OneEach(init);
        assert last !in init;
        assert last in out;
        forall e | e in init ensures e.id != last.id {
          assert e in out;
          if e.id == last.id {
            SameObject(e, last);
          }
        }
        assert (set e | e in out :: e.id) == (set e | e in init :: e.id) + {last.id};
      } else {
        assert (set e | e in out :: e.id) == {};
      }
    }

    lemma SameObject(a: Entity, b: Entity)
      requires Valid() && Consistent(view) && Tracked(a) && Tracked(b) && a.id == b.id
      ensures a == b
    {
      assert Holds(view, entityTower[a.id], a.typ, a.id) by { assert Shows(entityTower[a.id], a.typ, a.id); }
      assert Holds(view, entityTower[b.id], b.typ, b.id) by { assert Shows(entityTower[b.id], b.typ, b.id); }
    }

    method QueryVisible(x: int, y: int) returns (out: seq<Entity>)
      requires Valid()
      ensures !InMap(view, x, y) ==> out == []
      ensures InMap(view, x, y) && Consistent(view) ==>
        && Scan(out, x, y, DEFAULT_BROADCAST_RADIUS)
        && Returns(out, Within(Table(view), x, y, 15))
        && forall nine :: NineList(view, x, y, nine) ==> |out| <= CountOver(view, nine)
    {
      hide Scan, Gathered;
      out := QueryWithin(x, y, DEFAULT_BROADCAST_RADIUS);
      if InMap(view, x, y) && Consistent(view) {
        ScanSize(out, x, y, DEFAULT_BROADCAST_RADIUS);
        forall nine | NineList(view, x, y, nine) ensures |out| <= CountOver(view, nine) {
          NearBounded(view, x, y, DEFAULT_BROADCAST_RADIUS, nine);
        }
      }
    }

    lemma ScanSize(out: seq<Entity>, x: int, y: int, radius: int)
      requires Valid() && Consistent(view) && Scan(out, x, y, radius)
      ensures |out| == |Near(view, x, y, radius)|
    {
    }

    method QueryVisibleSqueezed(x: int, y: int) returns (out: seq<Entity>, ghost count: nat)
      requires Valid()
      ensures !InMap(view, x, y) ==> out == []
      ensures InMap(view, x, y) && Consistent(view) ==>
        && Scan(out, x, y, SqueezeRadius(count))
        && exists nine :: NineList(view, x, y, nine) && count == CountOver(view, nine)
      ensures InMap(view, x, y) && Consistent(view) ==>
        var crowd := |InNineTiles(Table(view), x, y)|;
        && count == crowd
        && Returns(out, Within(Table(view), x, y, if crowd <= 100 then 15 else if crowd <= 500 then 8 else 5))
        && (set e | e in out :: e.id) <= Within(Table(view), x, y, 15)
    {
      hide Gathered;
      var n, nine := Count9Grid(x, y);
      count := n;
      out := QueryWithin(x, y, SqueezeRadius(n));
      if InMap(view, x, y) && Consistent(view) {
        SqueezeTiers(n);
        hide SqueezeRadius, Scan, Consistent, Table;
      }
    }
  }

  /** Clipping step by step is clamping to the map. */
  lemma ClampIsBox(x: int, y: int, radius: int, width: nat, height: nat)
    requires 0 <= x < width && 0 <= y < height && radius >= 0
    ensures ClampRadiusBBox(x, y, radius, width, height) ==
      Box(Clamp(x - radius, 0, width - 1), Clamp(y - radius, 0, height - 1),
          Clamp(x + radius, 0, width - 1), Clamp(y + radius, 0, height - 1))
  {
  }
}
