/** The upsert marshaller: what it has sent, and the edit ops that bring the backend up to date. */
module SketchMarshal {
  import opened Wrappers
  import opened SketchModel

  // ── The id map ─────────────────────────────────────────────────────────────

  /** A synthesised point's key: the entity it belongs to and its position on it. */
  type PointKey = (FrontId, Position)

  datatype IdMap = IdMap(
    entity: map<FrontId, Uuid>,
    point: map<PointKey, Uuid>,
    constraint: map<FrontId, Uuid>,
    value: map<FrontId, Option<real>>,
    minted: Uuid)

  const EMPTY_ID_MAP := IdMap(map[], map[], map[], map[], 0)

  function PositionName(p: Position): string {
    match p
    case Start => "Start"
    case End => "End"
    case Center => "Center"
    case Midpoint => "Midpoint"
  }

  function KeyString(k: PointKey): string {
    k.0 + "." + PositionName(k.1)
  }

  /** The names of the positions, as the keys carry them. */
  lemma KeyExactly(id: FrontId)
    ensures KeyString((id, Start)) == id + ".Start" && KeyString((id, End)) == id + ".End"
    ensures KeyString((id, Center)) == id + ".Center" && KeyString((id, Midpoint)) == id + ".Midpoint"
  {
  }

  predicate StartsWith(s: string, prefix: string) {
    |prefix| <= |s| && s[..|prefix|] == prefix
  }

  /** Whether removing the entity `owner` drops the points of `id`. */
  predicate Owned(id: FrontId, owner: FrontId) {
    id == owner || StartsWith(id, owner + ".")
  }

  /** The key prefix test on strings, read on keys: it also catches ids that extend `owner` with a dot. */
  lemma OwnedIsPrefixTest(k: PointKey, owner: FrontId)
    ensures StartsWith(KeyString(k), owner + ".") <==> Owned(k.0, owner)
  {
    var s, n := KeyString(k), |owner| + 1;
    var dotted := owner + ".";
    if |k.0| < |owner| {
      if n <= |s| {
        assert s[|owner|] == PositionName(k.1)[|owner| - |k.0| - 1];
        assert s[..n][|owner|] != '.' && dotted[|owner|] == '.';
      }
    } else if |k.0| == |owner| {
      assert s[..n] == k.0 + ".";
      assert (k.0 + ".")[..|owner|] == k.0 && dotted[..|owner|] == owner;
    } else {
      assert s[..n] == k.0[..n];
    }
  }

  function DropPoints(point: map<PointKey, Uuid>, owner: FrontId): map<PointKey, Uuid> {
    map k | k in point && !Owned(k.0, owner) :: point[k]
  }

  // ── Entities to ops ────────────────────────────────────────────────────────

  function Minus(p: Pt, q: Pt): Pt {
    (p.0 - q.0, p.1 - q.1)
  }

  function DirectionOf(p: Option<Pt>, center: Pt): Direction {
    match p
    case None => None
    case Some(p) => Some(Minus(p, center))
  }

  function AddEntityOps(m: IdMap, e: SketchEntity): (IdMap, seq<Op>) {
    if !Mappable(e) then (m, [])
    else
      match e.kind
      case PointKind =>
        var id := m.minted;
        (m.(entity := m.entity[e.id := id], point := m.point[(e.id, Start) := id][(e.id, Center) := id],
            minted := id + 1),
         [AddEntity(id, WirePoint(e.p0.value, e.construction))])
      case LineKind =>
        var start, end, id := m.minted, m.minted + 1, m.minted + 2;
        (m.(entity := m.entity[e.id := id], point := m.point[(e.id, Start) := start][(e.id, End) := end],
            minted := id + 1),
         [AddEntity(start, WirePoint(e.p0.value, e.construction)),
          AddEntity(end, WirePoint(e.p1.value, e.construction)),
          AddEntity(id, WireLine(start, end, e.construction))])
      case CircleKind =>
        var center, id := m.minted, m.minted + 1;
        (m.(entity := m.entity[e.id := id], point := m.point[(e.id, Center) := center], minted := id + 1),
         [AddEntity(center, WirePoint(e.center.value, e.construction)),
          AddEntity(id, WireCircle(center, e.radius.value, e.construction))])
      case ArcKind =>
        var center, id := m.minted, m.minted + 1;
        var c := e.center.value;
        (m.(entity := m.entity[e.id := id], point := m.point[(e.id, Center) := center], minted := id + 1),
         [AddEntity(center, WirePoint(c, e.construction)),
          AddEntity(id, WireArc(center, e.radius.value, DirectionOf(e.start, c), DirectionOf(e.end, c),
            e.construction))])
  }

  // ── Constraints to ops ─────────────────────────────────────────────────────

  function Find<K, V>(m: map<K, V>, k: K): Option<V> {
    if k in m then Some(m[k]) else None
  }

  /** How many entities a constraint of this kind names, for the kinds that can be expressed. */
  function Arity(kind: ConstraintKind): Option<nat> {
    match kind
    case Horizontal => Some(1)
    case Vertical => Some(1)
    case Radius => Some(1)
    case Diameter => Some(1)
    case Coincident => Some(2)
    case MidpointOf => Some(2)
    case Parallel => Some(2)
    case Perpendicular => Some(2)
    case Equal => Some(2)
    case Distance => Some(2)
    case HorizontalDistance => Some(2)
    case VerticalDistance => Some(2)
    case Angle => Some(2)
    case _ => None
  }

  /** Whether the `i`-th reference of this kind honours a position selector. */
  predicate Positional(kind: ConstraintKind, i: nat) {
    || kind in {Coincident, Distance, HorizontalDistance, VerticalDistance}
    || (kind == MidpointOf && i == 0)
  }

  /** A reference with a selector is strictly a point; without one it is the entity itself. */
  function ResolveRef(m: IdMap, c: SketchConstraint, i: nat): Option<Uuid> {
    if i >= |c.entities| then None
    else if Positional(c.kind, i) && i < |c.positions| then Find(m.point, (c.entities[i], c.positions[i]))
    else Find(m.entity, c.entities[i])
  }

  function ToWire(m: IdMap, c: SketchConstraint): Option<WireConstraint> {
    var value := if IsDimensional(c.kind) then Some(c.value.GetOr(0.0)) else None;
    match Arity(c.kind)
    case None => None
    case Some(n) =>
      if n == 1 then
        match ResolveRef(m, c, 0)
        case Some(r) => Some(WireConstraint(c.kind, [r], value))
        case None => None
      else
        match (ResolveRef(m, c, 0), ResolveRef(m, c, 1))
        case (Some(r), Some(q)) => Some(WireConstraint(c.kind, [r, q], value))
        case _ => None
  }

  // ── The upsert, as a function of the map ───────────────────────────────────

  ghost predicate Enumerates(order: seq<FrontId>, keys: set<FrontId>) {
    && (forall i, j :: 0 <= i < j < |order| ==> order[i] != order[j])
    && (forall k :: k in order <==> k in keys)
  }

  function EntityIds(entities: seq<SketchEntity>): set<FrontId> {
    set i | 0 <= i < |entities| :: entities[i].id
  }

  function ConstraintIds(constraints: seq<SketchConstraint>): set<FrontId> {
    set i | 0 <= i < |constraints| :: constraints[i].id
  }

  function RemoveEntities(m: IdMap, order: seq<FrontId>, live: set<FrontId>): (r: (IdMap, seq<Op>))
    requires forall i :: 0 <= i < |order| ==> order[i] in m.entity
  {
    if order == [] then (m, [])
    else
      var (m1, ops) := RemoveEntities(m, order[..|order| - 1], live);
      var fid := order[|order| - 1];
      if fid in live then (m1, ops)
      else (m1.(entity := m1.entity - {fid}, point := DropPoints(m1.point, fid)), ops + [RemoveEntity(m.entity[fid])])
  }

  function RemoveConstraints(m: IdMap, order: seq<FrontId>, live: set<FrontId>): (r: (IdMap, seq<Op>))
    requires forall i :: 0 <= i < |order| ==> order[i] in m.constraint
  {
    if order == [] then (m, [])
    else
      var (m1, ops) := RemoveConstraints(m, order[..|order| - 1], live);
      var fid := order[|order| - 1];
      if fid in live then (m1, ops)
      else (m1.(constraint := m1.constraint - {fid}, value := m1.value - {fid}),
            ops + [RemoveConstraint(m.constraint[fid])])
  }

  function AddEntities(m: IdMap, entities: seq<SketchEntity>): (IdMap, seq<Op>) {
    if entities == [] then (m, [])
    else
      var (m1, ops) := AddEntities(m, entities[..|entities| - 1]);
      var e := entities[|entities| - 1];
      if e.id in m1.entity then (m1, ops)
      else
        var (m2, more) := AddEntityOps(m1, e);
        (m2, ops + more)
  }

  /** The dimension value last sent for a constraint. */
  function Tracked(value: map<FrontId, Option<real>>, id: FrontId): Option<real> {
    if id in value then value[id] else None
  }

  function UpsertConstraint(m: IdMap, c: SketchConstraint): (IdMap, seq<Op>) {
    if c.id !in m.constraint then
      var id := m.minted;
      var m1 := m.(minted := id + 1);
      match ToWire(m, c)
      case None => (m1, [])
      case Some(wire) =>
        (m1.(constraint := m.constraint[c.id := id], value := m.value[c.id := c.value]), [AddConstraint(id, wire)])
    else if IsDimensional(c.kind) && Tracked(m.value, c.id) != c.value then
      (m.(value := m.value[c.id := c.value]), [SetDimension(m.constraint[c.id], c.value.GetOr(0.0))])
    else (m, [])
  }

  function UpsertConstraints(m: IdMap, constraints: seq<SketchConstraint>): (IdMap, seq<Op>) {
    if constraints == [] then (m, [])
    else
      var (m1, ops) := UpsertConstraints(m, constraints[..|constraints| - 1]);
      var (m2, more) := UpsertConstraint(m1, constraints[|constraints| - 1]);
      (m2, ops + more)
  }

  /** The whole upsert; `es` and `cs` list the ids known before it, in the order they are visited. */
  ghost function Upsert(m: IdMap, next: Model, es: seq<FrontId>, cs: seq<FrontId>): (IdMap, seq<Op>)
    requires Enumerates(es, m.entity.Keys) && Enumerates(cs, m.constraint.Keys)
  {
    var (m1, ops1) := RemoveEntities(m, es, EntityIds(next.entities));
    RemoveEntitiesKeepConstraints(m, es, EntityIds(next.entities));
    var (m2, ops2) := RemoveConstraints(m1, cs, ConstraintIds(next.constraints));
    var (m3, ops3) := AddEntities(m2, next.entities);
    var (m4, ops4) := UpsertConstraints(m3, next.constraints);
    (m4, ops1 + ops2 + ops3 + ops4)
  }

  lemma {:induction false} RemoveEntitiesKeepConstraints(m: IdMap, order: seq<FrontId>, live: set<FrontId>)
    requires forall i :: 0 <= i < |order| ==> order[i] in m.entity
    ensures var m1 := RemoveEntities(m, order, live).0;
      m1.constraint == m.constraint && m1.value == m.value && m1.minted == m.minted
  {
    if order != [] {
      RemoveEntitiesKeepConstraints(m, order[..|order| - 1], live);
    }
  }

  // ── The marshaller, updating its map in place ──────────────────────────────

  method Enumerate(keys: set<FrontId>) returns (order: seq<FrontId>)
    ensures Enumerates(order, keys)
  {
    order := [];
    var rest := keys;
    while rest != {}
      invariant rest <= keys
      invariant Enumerates(order, keys - rest)
      decreases rest
    {
      var k :| k in rest;
      order := order + [k];
      rest := rest - {k};
    }
    assert keys - rest == keys;
  }

  class SketchIdMap {
    var entity: map<FrontId, Uuid>
    var point: map<PointKey, Uuid>
    var constraint: map<FrontId, Uuid>
    var constraintValue: map<FrontId, Option<real>>
    var minted: Uuid

    ghost function View(): IdMap
      reads this
    {
      IdMap(entity, point, constraint, constraintValue, minted)
    }

    constructor ()
      ensures View() == EMPTY_ID_MAP
    {
      entity, point, constraint, constraintValue, minted := map[], map[], map[], map[], 0;
    }

    method Mint() returns (id: Uuid)
      modifies this`minted
      ensures id == old(minted) && minted == old(minted) + 1
    {
      id := minted;
      minted := minted + 1;
    }

    method MintPoint(e: SketchEntity, position: Position, at: Pt) returns (id: Uuid, op: Op)
      modifies this`minted, this`point
      ensures id == old(minted) && minted == id + 1
      ensures point == old(point)[(e.id, position) := id]
      ensures op == AddEntity(id, WirePoint(at, e.construction))
    {
      id := Mint();
      point := point[(e.id, position) := id];
      op := AddEntity(id, WirePoint(at, e.construction));
    }

    method AddEntityInPlace(e: SketchEntity) returns (ops: seq<Op>)
      modifies this`entity, this`point, this`minted
      ensures (View(), ops) == AddEntityOps(old(View()), e)
    {
      if !Mappable(e) {
        return [];
      }
      match e.kind {
        case PointKind =>
          var id := Mint();
          entity := entity[e.id := id];
          point := point[(e.id, Start) := id];
          point := point[(e.id, Center) := id];
          ops := [AddEntity(id, WirePoint(e.p0.value, e.construction))];
        case LineKind =>
          var start, op0 := MintPoint(e, Start, e.p0.value);
          var end, op1 := MintPoint(e, End, e.p1.value);
          var id := Mint();
          entity := entity[e.id := id];
          ops := [op0, op1, AddEntity(id, WireLine(start, end, e.construction))];
        case CircleKind =>
          var center, op0 := MintPoint(e, Center, e.center.value);
          var id := Mint();
          entity := entity[e.id := id];
          ops := [op0, AddEntity(id, WireCircle(center, e.radius.value, e.construction))];
        case ArcKind =>
          var c := e.center.value;
          var center, op0 := MintPoint(e, Center, c);
          var id := Mint();
          entity := entity[e.id := id];
          ops := [op0, AddEntity(id,
            WireArc(center, e.radius.value, DirectionOf(e.start, c), DirectionOf(e.end, c), e.construction))];
      }
    }

    method UpsertConstraintInPlace(c: SketchConstraint) returns (ops: seq<Op>)
      modifies this`constraint, this`constraintValue, this`minted
      ensures (View(), ops) == UpsertConstraint(old(View()), c)
    {
      ops := [];
      if c.id !in constraint {
        var wire := ToWire(IdMap(entity, point, constraint, constraintValue, minted), c);
        var id := Mint();
        if wire.Some? {
          constraint := constraint[c.id := id];
          constraintValue := constraintValue[c.id := c.value];
          ops := [AddConstraint(id, wire.value)];
        }
      } else if IsDimensional(c.kind) && Tracked(constraintValue, c.id) != c.value {
        constraintValue := constraintValue[c.id := c.value];
        ops := [SetDimension(constraint[c.id], c.value.GetOr(0.0))];
      }
    }

    method RemoveEntitiesInPlace(live: set<FrontId>) returns (ops: seq<Op>, order: seq<FrontId>)
      modifies this`entity, this`point
      ensures Enumerates(order, old(entity).Keys)
      ensures (View(), ops) == RemoveEntities(old(View()), order, live)
    {
      order := Enumerate(entity.Keys);
      var copy := entity;
      ops := [];
      for i := 0 to |order|
        invariant (View(), ops) == RemoveEntities(old(View()), order[..i], live)
      {
        assert order[..i + 1][..i] == order[..i];
        var fid := order[i];
        if fid !in live {
          ops := ops + [RemoveEntity(copy[fid])];
          entity := entity - {fid};
          point := DropPoints(point, fid);
        }
      }
      assert order[..|order|] == order;
    }

    method RemoveConstraintsInPlace(live: set<FrontId>) returns (ops: seq<Op>, order: seq<FrontId>)
      modifies this`constraint, this`constraintValue
      ensures Enumerates(order, old(constraint).Keys)
      ensures (View(), ops) == RemoveConstraints(old(View()), order, live)
    {
      order := Enumerate(constraint.Keys);
      var copy := constraint;
      ops := [];
      for i := 0 to |order|
        invariant (View(), ops) == RemoveConstraints(old(View()), order[..i], live)
      {
        assert order[..i + 1][..i] == order[..i];
        var fid := order[i];
        if fid !in live {
          ops := ops + [RemoveConstraint(copy[fid])];
          constraint := constraint - {fid};
          constraintValue := constraintValue - {fid};
        }
      }
      assert order[..|order|] == order;
    }

    method AddEntitiesInPlace(entities: seq<SketchEntity>) returns (ops: seq<Op>)
      modifies this`entity, this`point, this`minted
      ensures (View(), ops) == AddEntities(old(View()), entities)
    {
      ops := [];
      for i := 0 to |entities|
        invariant (View(), ops) == AddEntities(old(View()), entities[..i])
      {
        assert entities[..i + 1][..i] == entities[..i];
        if entities[i].id !in entity {
          var more := AddEntityInPlace(entities[i]);
          ops := ops + more;
        }
      }
      assert entities[..|entities|] == entities;
    }

    method UpsertConstraintsInPlace(constraints: seq<SketchConstraint>) returns (ops: seq<Op>)
      modifies this`constraint, this`constraintValue, this`minted
      ensures (View(), ops) == UpsertConstraints(old(View()), constraints)
    {
      ops := [];
      for i := 0 to |constraints|
        invariant (View(), ops) == UpsertConstraints(old(View()), constraints[..i])
      {
        assert constraints[..i + 1][..i] == constraints[..i];
        var more := UpsertConstraintInPlace(constraints[i]);
        ops := ops + more;
      }
      assert constraints[..|constraints|] == constraints;
    }

    /** Brings the backend from what was last marshalled to `next`. */
    method MarshalUpsert(next: Model) returns (ops: seq<Op>, ghost es: seq<FrontId>, ghost cs: seq<FrontId>)
      modifies this
      ensures Enumerates(es, old(entity).Keys) && Enumerates(cs, old(constraint).Keys)
      ensures (View(), ops) == Upsert(old(View()), next, es, cs)
    {
      ghost var m := View();
      var ops1, order1 := RemoveEntitiesInPlace(EntityIds(next.entities));
      RemoveEntitiesKeepConstraints(m, order1, EntityIds(next.entities));
      var ops2, order2 := RemoveConstraintsInPlace(ConstraintIds(next.constraints));
      var ops3 := AddEntitiesInPlace(next.entities);
      var ops4 := UpsertConstraintsInPlace(next.constraints);
      ops, es, cs := ops1 + ops2 + ops3 + ops4, order1, order2;
    }
  }
}
