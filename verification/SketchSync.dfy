/** The marshaller as a simulation: replaying what it sends keeps the backend in step with the list. */
module SketchSync {
  import opened Wrappers
  import opened SketchModel
  import opened SketchMarshal
  import opened SketchSteps

  // ── The simulation ─────────────────────────────────────────────────────────

  /** The entities the backend knows after an upsert: those kept, as first sent, and those added. */
  ghost function NextEntities(es: Entities, next: Model): Entities {
    AddedEntities(Kept(es, EntityIds(next.entities)), next.entities)
  }

  /** The constraints it knows: those kept, at their new values, and those added. */
  ghost function NextConstraints(m': IdMap, cs: Constraints, next: Model): Constraints {
    ListedAll(m', Kept(cs, ConstraintIds(next.constraints)), next.constraints)
  }

  lemma PrunedInStep(m: IdMap, s: Sketch, m2: IdMap, s2: Sketch, es: Entities, cs: Constraints, next: Model)
    requires InStep(m, s, es, cs) && Compatible(es, cs, next)
    requires Pruned(m, s, m2, s2, EntityIds(next.entities), ConstraintIds(next.constraints))
    ensures InStep(m2, s2, Kept(es, EntityIds(next.entities)), Kept(cs, ConstraintIds(next.constraints)))
  {
    var live, liveC := EntityIds(next.entities), ConstraintIds(next.constraints);
    PrunedIds(m, s, m2, s2, live, liveC);
    PrunedEntities(m, s, m2, s2, es, live, liveC);
    PrunedConstraints(m, s, m2, s2, es, cs, next);
  }

  lemma RemovalsPrune(m: IdMap, s: Sketch, eo: seq<FrontId>, co: seq<FrontId>, live: set<FrontId>, liveC: set<FrontId>)
    returns (m2: IdMap, s2: Sketch)
    requires IdsDistinct(m) && RefsClosed(m, s)
    requires Enumerates(eo, m.entity.Keys) && Enumerates(co, m.constraint.Keys)
    requires forall i :: i in m.entity ==> m.entity[i] in s.entities
    requires m.value.Keys == m.constraint.Keys
    ensures var (m1, ops1) := RemoveEntities(m, eo, live);
      && m1.constraint == m.constraint
      && m2 == RemoveConstraints(m1, co, liveC).0
      && ApplyOps(s, ops1 + RemoveConstraints(m1, co, liveC).1) == Some(s2)
    ensures Pruned(m, s, m2, s2, live, liveC)
  {
    RemovalsMap(m, eo, co, live, liveC);
    RemovalsBackend(m, s, eo, co, live, liveC);
    m2 := RemoveConstraints(RemoveEntities(m, eo, live).0, co, liveC).0;
    var dropped := Dropped(s, Lost(m.entity, live));
    s2 := dropped.(constraints := dropped.constraints - Lost(m.constraint, liveC));
  }

  lemma UnlistedRemoved(
    m: IdMap, s: Sketch, es: Entities, cs: Constraints, next: Model, eo: seq<FrontId>, co: seq<FrontId>)
    returns (m2: IdMap, s2: Sketch)
    requires InStep(m, s, es, cs) && Compatible(es, cs, next)
    requires Enumerates(eo, m.entity.Keys) && Enumerates(co, m.constraint.Keys)
    ensures var (m1, ops1) := RemoveEntities(m, eo, EntityIds(next.entities));
      && m1.constraint == m.constraint
      && m2 == RemoveConstraints(m1, co, ConstraintIds(next.constraints)).0
      && ApplyOps(s, ops1 + RemoveConstraints(m1, co, ConstraintIds(next.constraints)).1) == Some(s2)
    ensures InStep(m2, s2, Kept(es, EntityIds(next.entities)), Kept(cs, ConstraintIds(next.constraints)))
  {
    m2, s2 := RemovalsPrune(m, s, eo, co, EntityIds(next.entities), ConstraintIds(next.constraints));
    PrunedInStep(m, s, m2, s2, es, cs, next);
  }

  /**
   One upsert keeps the backend in step: it accepts every op, each op referring only to what is
   there, and ends as the image of what `next` lists.
   */
  lemma UpsertInStep(
    m: IdMap, s: Sketch, es: Entities, cs: Constraints, next: Model, eo: seq<FrontId>, co: seq<FrontId>)
    returns (s': Sketch)
    requires InStep(m, s, es, cs) && Compatible(es, cs, next)
    requires Enumerates(eo, m.entity.Keys) && Enumerates(co, m.constraint.Keys)
    ensures var (m', ops) := Upsert(m, next, eo, co);
      && ApplyOps(s, ops) == Some(s')
      && InStep(m', s', NextEntities(es, next), NextConstraints(m', cs, next))
  {
    hide InStep, NamesStay, NoDottedRemoval;
    var live, liveC := EntityIds(next.entities), ConstraintIds(next.constraints);
    var m2, s2 := UnlistedRemoved(m, s, es, cs, next, eo, co);
    var (m1, ops1) := RemoveEntities(m, eo, live);
    var ops2 := RemoveConstraints(m1, co, liveC).1;
    var s3 := AdditionsInStep(m2, s2, Kept(es, live), Kept(cs, liveC), next.entities);
    var (m3, ops3) := AddEntities(m2, next.entities);
    ApplyConcat(s, ops1 + ops2, ops3);
    assert Revalues(Kept(cs, liveC), next.constraints);
    s' := ConstraintSteps(m3, s3, NextEntities(es, next), Kept(cs, liveC), next.constraints);
    UpsertsKeepImages(m3, next.constraints);
    var (m4, ops4) := UpsertConstraints(m3, next.constraints);
    ApplyConcat(s, ops1 + ops2 + ops3, ops4);
    ListedStable(m3, m4, Kept(cs, liveC), next.constraints);
  }

  lemma {:induction false} ListedStable(m: IdMap, m': IdMap, cs: Constraints, constraints: seq<SketchConstraint>)
    requires m'.entity == m.entity && m'.point == m.point
    ensures ListedAll(m, cs, constraints) == ListedAll(m', cs, constraints)
  {
    if constraints != [] {
      ListedStable(m, m', cs, constraints[..|constraints| - 1]);
      ToWireStable(m, m', constraints[|constraints| - 1]);
    }
  }

  // ── The conditions are necessary ───────────────────────────────────────────

  /** Adding entities leaves the points of an entity already in the map alone. */
  lemma {:induction false} KnownPointsStay(m: IdMap, entities: seq<SketchEntity>, k: PointKey)
    requires k.0 in m.entity
    ensures var m' := AddEntities(m, entities).0; k.0 in m'.entity && Find(m'.point, k) == Find(m.point, k)
  {
    if entities != [] {
      var n := |entities| - 1;
      KnownPointsStay(m, entities[..n], k);
    }
  }

  lemma UpsertImages(m: IdMap, next: Model, eo: seq<FrontId>, co: seq<FrontId>)
    requires Enumerates(eo, m.entity.Keys) && Enumerates(co, m.constraint.Keys)
    ensures var m1 := RemoveEntities(m, eo, EntityIds(next.entities)).0;
      m1.constraint == m.constraint &&
      var m2 := RemoveConstraints(m1, co, ConstraintIds(next.constraints)).0;
      && m2.entity == Kept(m.entity, EntityIds(next.entities))
      && m2.point == m1.point
      && Upsert(m, next, eo, co).0.entity == AddEntities(m2, next.entities).0.entity
      && Upsert(m, next, eo, co).0.point == AddEntities(m2, next.entities).0.point
  {
    RemovedMap(m, eo, EntityIds(next.entities));
    var m1 := RemoveEntities(m, eo, EntityIds(next.entities)).0;
    RemovedConstraintsMap(m1, co, ConstraintIds(next.constraints));
    var m2 := RemoveConstraints(m1, co, ConstraintIds(next.constraints)).0;
    UpsertsKeepImages(AddEntities(m2, next.entities).0, next.constraints);
  }

  /** The id extends a removed id with a dot. */
  ghost predicate DropsPointsOf(m: IdMap, live: set<FrontId>, id: FrontId) {
    exists g :: g in m.entity && g !in live && StartsWith(id, g + ".")
  }

  /**
   An entity that stays keeps the points it has exactly when its id extends no removed id with a dot.
   */
  lemma PointsKeptExactly(m: IdMap, next: Model, eo: seq<FrontId>, co: seq<FrontId>, k: PointKey)
    requires Enumerates(eo, m.entity.Keys) && Enumerates(co, m.constraint.Keys)
    requires k in m.point && k.0 in m.entity && k.0 in EntityIds(next.entities)
    ensures Find(Upsert(m, next, eo, co).0.point, k)
      == if DropsPointsOf(m, EntityIds(next.entities), k.0) then None else Some(m.point[k])
  {
    var live := EntityIds(next.entities);
    UpsertImages(m, next, eo, co);
    var m1 := RemoveEntities(m, eo, live).0;
    var m2 := RemoveConstraints(m1, co, ConstraintIds(next.constraints)).0;
    KnownPointsStay(m2, next.entities, k);
    RemovedPoints(m, eo, live);
    if g :| g in m.entity && g !in live && StartsWith(k.0, g + ".") {
      assert g in eo;
    }
  }

  lemma {:induction false} AddedKnown(es: Entities, entities: seq<SketchEntity>, id: FrontId)
    requires id in es
    ensures Find(AddedEntities(es, entities), id) == Some(es[id])
  {
    if entities != [] {
      AddedKnown(es, entities[..|entities| - 1], id);
    }
  }

  lemma NextListed(es: Entities, next: Model)
    ensures NextEntities(es, next).Keys <= EntityIds(next.entities)
  {
    forall id | id in NextEntities(es, next)
      ensures id in EntityIds(next.entities)
    {
      if id !in EntityIds(next.entities) {
        AddedOther(Kept(es, EntityIds(next.entities)), next.entities, id);
      }
    }
  }

  /** What is said of a constraint that stayed is its listed entry, up to its value. */
  lemma ListedStayed(m': IdMap, cs: Constraints, next: Model, i: nat)
    requires Revalues(cs, next.constraints)
    requires i < |next.constraints| && next.constraints[i].id in cs
    ensures var c, known := next.constraints[i], NextConstraints(m', cs, next);
      c.id in known && known[c.id].kind == c.kind && known[c.id].entities == c.entities
  {
    hide ToWire;
    var c, kept := next.constraints[i], Kept(cs, ConstraintIds(next.constraints));
    ListedKnown(m', kept, next.constraints, c.id);
    ListedFrom(m', kept, next.constraints, c.id);
  }

  /** Once in step again, a constraint that stayed names entities that stayed. */
  lemma NamesStayed(m': IdMap, s': Sketch, es: Entities, cs: Constraints, next: Model, i: nat)
    requires InStep(m', s', NextEntities(es, next), NextConstraints(m', cs, next)) && Revalues(cs, next.constraints)
    requires i < |next.constraints| && next.constraints[i].id in cs
    ensures NamesOnly(next.constraints[i], EntityIds(next.entities))
  {
    hide ToWire, EntitiesInStep, NextEntities, NextConstraints, IdsDistinct, BelowMinted, RefsClosed;
    var c := next.constraints[i];
    ListedStayed(m', cs, next, i);
    var d := NextConstraints(m', cs, next)[c.id];
    assert ConstraintInStep(m', s', d);
    ExpressibleIsWired(m', s', NextEntities(es, next), d);
    NextListed(es, next);
    forall j: nat | Arity(c.kind).Some? && j < Arity(c.kind).value
      ensures Names(c, j, EntityIds(next.entities))
    {
      assert RefKnown(NextEntities(es, next), d, j);
    }
  }

  lemma {:induction false} ListedKnown(m: IdMap, cs: Constraints, constraints: seq<SketchConstraint>, i: FrontId)
    requires i in cs
    ensures i in ListedAll(m, cs, constraints)
  {
    if constraints != [] {
      ListedKnown(m, cs, constraints[..|constraints| - 1], i);
    }
  }

  /** Once in step again, no entity that stayed had its points dropped. */
  lemma NoDotsWere(
    m: IdMap, s: Sketch, es: Entities, cs: Constraints, next: Model, eo: seq<FrontId>, co: seq<FrontId>, s': Sketch)
    requires InStep(m, s, es, cs)
    requires Enumerates(eo, m.entity.Keys) && Enumerates(co, m.constraint.Keys)
    requires EntitiesInStep(Upsert(m, next, eo, co).0, s', NextEntities(es, next))
    ensures NoDottedRemoval(es.Keys, EntityIds(next.entities))
  {
    var live := EntityIds(next.entities);
    forall i, gone | i in es && i in live && gone in es && gone !in live
      ensures !StartsWith(i, gone + ".")
    {
      var k := (i, if es[i].kind == PointKind || es[i].kind == LineKind then Start else Center);
      assert Imaged(m, s, es[i]) && k in m.point;
      PointsKeptExactly(m, next, eo, co, k);
      AddedKnown(Kept(es, live), next.entities, i);
      assert HasPosition(NextEntities(es, next)[i].kind, k.1);
    }
  }

  /**
   Among lists that change constraints only in value, those after which the two sides are in step
   again are exactly the compatible ones.
   */
  lemma InStepExactly(
    m: IdMap, s: Sketch, es: Entities, cs: Constraints, next: Model, eo: seq<FrontId>, co: seq<FrontId>)
    requires InStep(m, s, es, cs) && Revalues(cs, next.constraints)
    requires Enumerates(eo, m.entity.Keys) && Enumerates(co, m.constraint.Keys)
    ensures var (m', ops) := Upsert(m, next, eo, co);
      (ApplyOps(s, ops).Some?
        && InStep(m', ApplyOps(s, ops).value, NextEntities(es, next), NextConstraints(m', cs, next)))
      <==> Compatible(es, cs, next)
  {
    var (m', ops) := Upsert(m, next, eo, co);
    if Compatible(es, cs, next) {
      var s' := UpsertInStep(m, s, es, cs, next, eo, co);
    }
    if ApplyOps(s, ops).Some?
      && InStep(m', ApplyOps(s, ops).value, NextEntities(es, next), NextConstraints(m', cs, next)) {
      var s' := ApplyOps(s, ops).value;
      NoDotsWere(m, s, es, cs, next, eo, co, s');
      forall i | 0 <= i < |next.constraints| && next.constraints[i].id in cs
        ensures NamesOnly(next.constraints[i], EntityIds(next.entities))
      {
        NamesStayed(m', s', es, cs, next, i);
      }
    }
  }

  // ── One upsert as a step ─────────────────────────────────────────────────────────────

  datatype Lane = Lane(m: IdMap, s: Sketch, es: Entities, cs: Constraints)

  datatype Upsertion = Upsertion(next: Model, entityOrder: seq<FrontId>, constraintOrder: seq<FrontId>)

  const EMPTY_LANE := Lane(EMPTY_ID_MAP, Sketch(map[], map[]), map[], map[])

  /** What an upsert sends from `lane`. */
  ghost function Sent(lane: Lane, u: Upsertion): seq<Op>
    requires Admissible(lane, u)
  {
    Upsert(lane.m, u.next, u.entityOrder, u.constraintOrder).1
  }

  ghost predicate Admissible(lane: Lane, u: Upsertion) {
    && Compatible(lane.es, lane.cs, u.next)
    && Enumerates(u.entityOrder, lane.m.entity.Keys) && Enumerates(u.constraintOrder, lane.m.constraint.Keys)
  }

  ghost function Upserted(lane: Lane, u: Upsertion): Lane
    requires Admissible(lane, u)
  {
    var (m', ops) := Upsert(lane.m, u.next, u.entityOrder, u.constraintOrder);
    Lane(m', ApplyOps(lane.s, ops).GetOr(lane.s), NextEntities(lane.es, u.next), NextConstraints(m', lane.cs, u.next))
  }

  lemma EmptyInStep()
    ensures InStep(EMPTY_LANE.m, EMPTY_LANE.s, EMPTY_LANE.es, EMPTY_LANE.cs)
  {
  }

  // ── The backend is the expressible part of what was listed ─────────────────

  predicate UniqueEntities(entities: seq<SketchEntity>) {
    forall i, j :: 0 <= i < j < |entities| ==> entities[i].id != entities[j].id
  }

  /** An entity that stays is listed as it was first sent. */
  predicate Unmoved(es: Entities, entities: seq<SketchEntity>) {
    forall i :: 0 <= i < |entities| && entities[i].id in es ==> es[entities[i].id] == entities[i]
  }

  lemma {:induction false} AddedOther(es: Entities, entities: seq<SketchEntity>, id: FrontId)
    requires id !in EntityIds(entities)
    ensures Find(AddedEntities(es, entities), id) == Find(es, id)
  {
    if entities != [] {
      var n := |entities| - 1;
      assert EntityIds(entities) == EntityIds(entities[..n]) + {entities[n].id};
      AddedOther(es, entities[..n], id);
    }
  }

  /** An entity listed once is known after its turn just when it can be expressed. */
  lemma {:induction false} AddedListed(es: Entities, entities: seq<SketchEntity>, i: nat)
    requires UniqueEntities(entities) && i < |entities|
    requires entities[i].id in es ==> es[entities[i].id] == entities[i] && Mappable(entities[i])
    ensures Find(AddedEntities(es, entities), entities[i].id)
      == if Mappable(entities[i]) then Some(entities[i]) else None
  {
    var n := |entities| - 1;
    if i == n {
      assert entities[n].id !in EntityIds(entities[..n]);
      AddedOther(es, entities[..n], entities[n].id);
    } else {
      AddedListed(es, entities[..n], i);
      assert entities[i].id != entities[n].id;
    }
  }

  /** Whether the backend can be told of `c`: a kind it knows, over known entities that have the named positions. */
  ghost predicate Expressible(es: Entities, c: SketchConstraint) {
    && Arity(c.kind).Some?
    && forall i: nat :: i < Arity(c.kind).value ==> RefKnown(es, c, i)
  }

  ghost predicate RefKnown(es: Entities, c: SketchConstraint, i: nat) {
    && i < |c.entities| && c.entities[i] in es
    && (Positional(c.kind, i) && i < |c.positions| ==> HasPosition(es[c.entities[i]].kind, c.positions[i]))
  }

  lemma RefResolves(m: IdMap, s: Sketch, es: Entities, c: SketchConstraint, i: nat)
    requires EntitiesInStep(m, s, es)
    ensures ResolveRef(m, c, i).Some? <==> RefKnown(es, c, i)
  {
  }

  lemma ExpressibleIsWired(m: IdMap, s: Sketch, es: Entities, c: SketchConstraint)
    requires EntitiesInStep(m, s, es)
    ensures ToWire(m, c).Some? <==> Expressible(es, c)
  {
    hide EntitiesInStep, ResolveRef, RefKnown;
    forall i: nat
      ensures ResolveRef(m, c, i).Some? <==> RefKnown(es, c, i)
    {
      RefResolves(m, s, es, c, i);
    }
    assert Arity(c.kind).Some? ==> 1 <= Arity(c.kind).value <= 2;
    assert Expressible(es, c) ==> RefKnown(es, c, 0) && (Arity(c.kind).value == 2 ==> RefKnown(es, c, 1));
  }

  lemma {:induction false} ListedOnce(m: IdMap, cs: Constraints, constraints: seq<SketchConstraint>, i: nat)
    requires UniqueConstraints(constraints) && i < |constraints|
    ensures Find(ListedAll(m, cs, constraints), constraints[i].id)
      == if ToWire(m, constraints[i]).Some? then Some(constraints[i]) else Find(cs, constraints[i].id)
  {
    hide ToWire;
    var n := |constraints| - 1;
    if i == n {
      assert constraints[n].id !in ConstraintIds(constraints[..n]);
      ListedAllKeys(m, cs, constraints[..n], constraints[n].id);
    } else {
      ListedOnce(m, cs, constraints[..n], i);
      assert constraints[i].id != constraints[n].id;
    }
  }

  /**
   After an upsert that adds and removes entities and constraints and changes dimensions, the backend
   holds exactly the expressible part of what was listed: each mappable entity with its points at
   its coordinates, each expressible constraint over them with its value, and nothing else but points.
   */
  lemma BackendMatchesList(lane: Lane, u: Upsertion) returns (after: Lane)
    requires InStep(lane.m, lane.s, lane.es, lane.cs) && Admissible(lane, u)
    requires UniqueEntities(u.next.entities) && Unmoved(lane.es, u.next.entities)
    requires UniqueConstraints(u.next.constraints)
    ensures after == Upserted(lane, u) && ApplyOps(lane.s, Sent(lane, u)) == Some(after.s)
    ensures forall i :: 0 <= i < |u.next.entities| ==> EntityExact(after, u.next.entities[i])
    ensures forall i :: 0 <= i < |u.next.constraints| ==> ConstraintExact(after, u.next.constraints[i])
    ensures forall v :: v in after.s.entities && !after.s.entities[v].WirePoint? ==>
              exists i :: 0 <= i < |u.next.entities| && IsImageOf(after.m, v, u.next.entities[i])
    ensures forall v :: v in after.s.constraints ==>
              exists i :: 0 <= i < |u.next.constraints| && Carries(after.m, v, u.next.constraints[i])
  {
    after := Upserted(lane, u);
    var s' := UpsertInStep(lane.m, lane.s, lane.es, lane.cs, u.next, u.entityOrder, u.constraintOrder);
    assert s' == after.s;
    EntitiesExact(lane, u, after);
    ConstraintsExact(lane, u, after);
  }

  ghost predicate EntityExact(after: Lane, e: SketchEntity) {
    (e.id in after.m.entity <==> Mappable(e)) && (Mappable(e) ==> Imaged(after.m, after.s, e))
  }

  /** Reference `i` is the entity the constraint names there. */
  predicate IsEntity(m: IdMap, c: SketchConstraint, i: nat, u: Uuid) {
    i < |c.entities| && c.entities[i] in m.entity && m.entity[c.entities[i]] == u
  }

  /** Reference `i` is the point at the position the constraint names there, or the entity if it names none. */
  predicate IsPlace(m: IdMap, c: SketchConstraint, i: nat, u: Uuid) {
    if i < |c.positions|
    then i < |c.entities| && (c.entities[i], c.positions[i]) in m.point && m.point[(c.entities[i], c.positions[i])] == u
    else IsEntity(m, c, i, u)
  }

  /** The wire form, kind by kind: whether it is a point or an entity that each reference names, and the value. */
  predicate WiredAs(m: IdMap, c: SketchConstraint, w: WireConstraint) {
    && w.kind == c.kind
    && (match c.kind
        case Horizontal => |w.refs| == 1 && IsEntity(m, c, 0, w.refs[0])
        case Vertical => |w.refs| == 1 && IsEntity(m, c, 0, w.refs[0])
        case Radius => |w.refs| == 1 && IsEntity(m, c, 0, w.refs[0])
        case Diameter => |w.refs| == 1 && IsEntity(m, c, 0, w.refs[0])
        case Parallel => |w.refs| == 2 && IsEntity(m, c, 0, w.refs[0]) && IsEntity(m, c, 1, w.refs[1])
        case Perpendicular => |w.refs| == 2 && IsEntity(m, c, 0, w.refs[0]) && IsEntity(m, c, 1, w.refs[1])
        case Equal => |w.refs| == 2 && IsEntity(m, c, 0, w.refs[0]) && IsEntity(m, c, 1, w.refs[1])
        case Angle => |w.refs| == 2 && IsEntity(m, c, 0, w.refs[0]) && IsEntity(m, c, 1, w.refs[1])
        case MidpointOf => |w.refs| == 2 && IsPlace(m, c, 0, w.refs[0]) && IsEntity(m, c, 1, w.refs[1])
        case Coincident => |w.refs| == 2 && IsPlace(m, c, 0, w.refs[0]) && IsPlace(m, c, 1, w.refs[1])
        case Distance => |w.refs| == 2 && IsPlace(m, c, 0, w.refs[0]) && IsPlace(m, c, 1, w.refs[1])
        case HorizontalDistance => |w.refs| == 2 && IsPlace(m, c, 0, w.refs[0]) && IsPlace(m, c, 1, w.refs[1])
        case VerticalDistance => |w.refs| == 2 && IsPlace(m, c, 0, w.refs[0]) && IsPlace(m, c, 1, w.refs[1])
        case _ => false)
    && (match c.kind
        case Distance => IsValue(c, w.value)
        case HorizontalDistance => IsValue(c, w.value)
        case VerticalDistance => IsValue(c, w.value)
        case Angle => IsValue(c, w.value)
        case Radius => IsValue(c, w.value)
        case Diameter => IsValue(c, w.value)
        case _ => w.value == None)
  }

  /** A dimension without a value is sent as zero. */
  predicate IsValue(c: SketchConstraint, v: Option<real>) {
    v == if c.value.Some? then c.value else Some(0.0)
  }

  lemma PlaceResolves(m: IdMap, c: SketchConstraint, i: nat)
    ensures forall u: Uuid :: (if Positional(c.kind, i) then IsPlace(m, c, i, u) else IsEntity(m, c, i, u)) <==>
      i < |c.entities| && ResolveRef(m, c, i) == Some(u)
  {
  }

  lemma WiredExactly(m: IdMap, c: SketchConstraint)
    ensures forall w :: WiredAs(m, c, w) <==> ToWire(m, c) == Some(w)
  {
    hide ResolveRef, IsPlace, IsEntity;
    PlaceResolves(m, c, 0);
    PlaceResolves(m, c, 1);
    NoEntity(m, c, 0);
    NoEntity(m, c, 1);
    forall w
      ensures WiredAs(m, c, w) <==> ToWire(m, c) == Some(w)
    {
      assert |w.refs| == 1 ==> w.refs == [w.refs[0]];
      assert |w.refs| == 2 ==> w.refs == [w.refs[0], w.refs[1]];
    }
  }

  lemma NoEntity(m: IdMap, c: SketchConstraint, i: nat)
    ensures i >= |c.entities| ==> ResolveRef(m, c, i) == None
  {
  }

  /** Where position `p` of an entity lies, if it has that position. */
  predicate LiesAt(e: SketchEntity, p: Position, at: Pt) {
    match e.kind
    case PointKind => (p == Start || p == Center) && e.p0 == Some(at)
    case LineKind => (p == Start && e.p0 == Some(at)) || (p == End && e.p1 == Some(at))
    case CircleKind => p == Center && e.center == Some(at)
    case ArcKind => p == Center && e.center == Some(at)
  }

  /** In step, a reference to a position is a backend point at that position of the entity it names. */
  lemma PlaceIsThere(m: IdMap, s: Sketch, es: Entities, c: SketchConstraint, i: nat, u: Uuid)
    requires EntitiesInStep(m, s, es) && IsPlace(m, c, i, u) && i < |c.positions|
    ensures c.entities[i] in es
    ensures exists at ::
      && LiesAt(es[c.entities[i]], c.positions[i], at)
      && u in s.entities && s.entities[u] == WirePoint(at, es[c.entities[i]].construction)
  {
    var e, p := es[c.entities[i]], c.positions[i];
    assert Imaged(m, s, e) && HasPosition(e.kind, p);
    var at := match e.kind
      case PointKind => e.p0.value
      case LineKind => if p == Start then e.p0.value else e.p1.value
      case _ => e.center.value;
    assert LiesAt(e, p, at);
  }

  ghost predicate ConstraintExact(after: Lane, c: SketchConstraint) {
    && (c.id in after.m.constraint <==> Expressible(after.es, c))
    && (c.id in after.m.constraint <==> Expressible(after.es, c))
    && (c.id in after.m.constraint <==> exists w :: WiredAs(after.m, c, w))
    && (c.id in after.m.constraint ==>
          && after.m.constraint[c.id] in after.s.constraints
          && WiredAs(after.m, c, after.s.constraints[after.m.constraint[c.id]]))
  }

  ghost predicate IsImageOf(m: IdMap, v: Uuid, e: SketchEntity) {
    e.id in m.entity && m.entity[e.id] == v
  }

  ghost predicate Carries(m: IdMap, v: Uuid, c: SketchConstraint) {
    c.id in m.constraint && m.constraint[c.id] == v
  }

  lemma EntitiesExact(lane: Lane, u: Upsertion, after: Lane)
    requires EntitiesInStep(lane.m, lane.s, lane.es) && EntitiesInStep(after.m, after.s, after.es)
    requires after.es == NextEntities(lane.es, u.next)
    requires UniqueEntities(u.next.entities) && Unmoved(lane.es, u.next.entities)
    ensures forall i :: 0 <= i < |u.next.entities| ==> EntityExact(after, u.next.entities[i])
    ensures forall v :: v in after.s.entities && !after.s.entities[v].WirePoint? ==>
              exists i :: 0 <= i < |u.next.entities| && IsImageOf(after.m, v, u.next.entities[i])
  {
    var kept := Kept(lane.es, EntityIds(u.next.entities));
    forall i | 0 <= i < |u.next.entities|
      ensures EntityExact(after, u.next.entities[i])
    {
      var e := u.next.entities[i];
      assert e.id in kept ==> Imaged(lane.m, lane.s, lane.es[e.id]) && kept[e.id] == e;
      AddedListed(kept, u.next.entities, i);
      assert Mappable(e) ==> e.id in after.es && after.es[e.id] == e;
    }
    forall v | v in after.s.entities && !after.s.entities[v].WirePoint?
      ensures exists i :: 0 <= i < |u.next.entities| && IsImageOf(after.m, v, u.next.entities[i])
    {
      var id :| id in after.m.entity && after.m.entity[id] == v;
      if id !in EntityIds(u.next.entities) {
        AddedOther(kept, u.next.entities, id);
      }
      assert id in EntityIds(u.next.entities);
      var i :| 0 <= i < |u.next.entities| && u.next.entities[i].id == id;
      assert IsImageOf(after.m, v, u.next.entities[i]);
    }
  }

  lemma ConstraintsExact(lane: Lane, u: Upsertion, after: Lane)
    requires InStep(after.m, after.s, after.es, after.cs)
    requires Compatible(lane.es, lane.cs, u.next) && UniqueConstraints(u.next.constraints)
    requires after.cs == NextConstraints(after.m, lane.cs, u.next)
    ensures forall i :: 0 <= i < |u.next.constraints| ==> ConstraintExact(after, u.next.constraints[i])
    ensures forall v :: v in after.s.constraints ==>
              exists i :: 0 <= i < |u.next.constraints| && Carries(after.m, v, u.next.constraints[i])
  {
    var kept := Kept(lane.cs, ConstraintIds(u.next.constraints));
    forall i | 0 <= i < |u.next.constraints|
      ensures ConstraintExact(after, u.next.constraints[i])
    {
      OneConstraintExact(lane, u, after, i);
    }
    forall v | v in after.s.constraints
      ensures exists i :: 0 <= i < |u.next.constraints| && Carries(after.m, v, u.next.constraints[i])
    {
      var id :| id in after.m.constraint && after.m.constraint[id] == v;
      ListedAllKeys(after.m, kept, u.next.constraints, id);
      assert id in ConstraintIds(u.next.constraints);
      var i :| 0 <= i < |u.next.constraints| && u.next.constraints[i].id == id;
      assert Carries(after.m, v, u.next.constraints[i]);
    }
  }

  lemma OneConstraintExact(lane: Lane, u: Upsertion, after: Lane, i: nat)
    requires EntitiesInStep(after.m, after.s, after.es) && ConstraintsInStep(after.m, after.s, after.cs)
    requires Compatible(lane.es, lane.cs, u.next) && UniqueConstraints(u.next.constraints)
    requires after.cs == NextConstraints(after.m, lane.cs, u.next)
    requires i < |u.next.constraints|
    ensures ConstraintExact(after, u.next.constraints[i])
  {
    hide ToWire;
    var c := u.next.constraints[i];
    ListedOnce(after.m, Kept(lane.cs, ConstraintIds(u.next.constraints)), u.next.constraints, i);
    ExpressibleIsWired(after.m, after.s, after.es, c);
    WiredExactly(after.m, c);
    if c.id in after.cs {
      var d := after.cs[c.id];
      assert ConstraintInStep(after.m, after.s, d);
      if ToWire(after.m, c).None? {
        assert d.(value := c.value) == c;
        ToWireValue(after.m, d, c.value);
      }
    }
  }
}
