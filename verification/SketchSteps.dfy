/**
 The two sides of the sketch lane kept in step, phase by phase.

 What it means to be in step, and what each phase of an upsert does to the map and to the backend:
 removals, which prune both; additions, which bring in fresh ids and the images of entities; and the
 constraints' turn. A change of a few constraints or entities leaves the rest as it was, which is
 most of the work here. The whole upsert is in `SketchSync`.
 */
module SketchSteps {
  import opened Wrappers
  import opened SketchModel
  import opened SketchMarshal

  // ── What it means to be in step ────────────────────────────────────────────

  /** Entities and constraints by id, as the backend knows them. */
  type Entities = map<FrontId, SketchEntity>
  type Constraints = map<FrontId, SketchConstraint>

  predicate HasPoint(m: IdMap, s: Sketch, k: PointKey, at: Pt, construction: bool) {
    k in m.point && m.point[k] in s.entities && s.entities[m.point[k]] == WirePoint(at, construction)
  }

  /** The backend holds the image of `e`, with its own points at its coordinates. */
  predicate Imaged(m: IdMap, s: Sketch, e: SketchEntity) {
    && Mappable(e)
    && e.id in m.entity
    && m.entity[e.id] in s.entities
    && var image := s.entities[m.entity[e.id]];
    match e.kind
    case PointKind =>
      && HasPoint(m, s, (e.id, Start), e.p0.value, e.construction) && m.point[(e.id, Start)] == m.entity[e.id]
      && HasPoint(m, s, (e.id, Center), e.p0.value, e.construction) && m.point[(e.id, Center)] == m.entity[e.id]
    case LineKind =>
      && HasPoint(m, s, (e.id, Start), e.p0.value, e.construction)
      && HasPoint(m, s, (e.id, End), e.p1.value, e.construction)
      && image == WireLine(m.point[(e.id, Start)], m.point[(e.id, End)], e.construction)
    case CircleKind =>
      && HasPoint(m, s, (e.id, Center), e.center.value, e.construction)
      && image == WireCircle(m.point[(e.id, Center)], e.radius.value, e.construction)
    case ArcKind =>
      && HasPoint(m, s, (e.id, Center), e.center.value, e.construction)
      && image == WireArc(m.point[(e.id, Center)], e.radius.value,
                          DirectionOf(e.start, e.center.value), DirectionOf(e.end, e.center.value), e.construction)
  }

  predicate HasPosition(kind: EntityKind, p: Position) {
    match kind
    case PointKind => p == Start || p == Center
    case LineKind => p == Start || p == End
    case CircleKind => p == Center
    case ArcKind => p == Center
  }

  /** Minted ids are shared only between a point entity and its own two positions. */
  ghost predicate IdsDistinct(m: IdMap) {
    && (forall i, j :: i in m.entity && j in m.entity && i != j ==> m.entity[i] != m.entity[j])
    && (forall k, i :: k in m.point && i in m.entity && m.entity[i] == m.point[k] ==> i == k.0)
    && (forall k, l :: k in m.point && l in m.point && k != l && m.point[k] == m.point[l] ==>
          k.0 in m.entity && m.entity[k.0] == m.point[k])
    && (forall i, j :: i in m.constraint && j in m.constraint && i != j ==> m.constraint[i] != m.constraint[j])
  }

  ghost predicate BelowMinted(m: IdMap, s: Sketch) {
    && (forall u :: u in s.entities ==> u < m.minted)
    && (forall i :: i in m.constraint ==> m.constraint[i] < m.minted)
    && (forall u :: u in s.constraints ==> exists i :: i in m.constraint && m.constraint[i] == u)
  }

  /** References stay inside the sketch, and no entity refers to a mapped entity. */
  ghost predicate RefsClosed(m: IdMap, s: Sketch) {
    && (forall u, i :: u in s.entities && 0 <= i < |Refs(s.entities[u])| ==>
          Refs(s.entities[u])[i] in s.entities && Refs(s.entities[u])[i] !in m.entity.Values)
    && (forall u, i :: u in s.constraints && 0 <= i < |s.constraints[u].refs| ==>
      s.constraints[u].refs[i] in s.entities)
  }

  /** Every entity and point in the map is in the backend, and every point's entity is in the map. */
  ghost predicate MapLive(m: IdMap, s: Sketch) {
    && (forall i :: i in m.entity ==> m.entity[i] in s.entities)
    && (forall k :: k in m.point ==> m.point[k] in s.entities && k.0 in m.entity)
  }

  ghost predicate EntitiesInStep(m: IdMap, s: Sketch, es: Entities) {
    && m.entity.Keys == es.Keys
    && (forall i :: i in es ==> es[i].id == i && Imaged(m, s, es[i]))
    && (forall k :: k in m.point <==> k.0 in es && HasPosition(es[k.0].kind, k.1))
    && (forall u :: u in s.entities && !s.entities[u].WirePoint? ==> u in m.entity.Values)
  }

  ghost predicate ConstraintInStep(m: IdMap, s: Sketch, c: SketchConstraint) {
    && c.id in m.constraint && m.constraint[c.id] in s.constraints
    && ToWire(m, c) == Some(s.constraints[m.constraint[c.id]])
    && (IsDimensional(c.kind) ==> Tracked(m.value, c.id) == c.value)
  }

  ghost predicate ConstraintsInStep(m: IdMap, s: Sketch, cs: Constraints) {
    && m.constraint.Keys == cs.Keys && m.value.Keys == cs.Keys
    && (forall i :: i in cs ==> cs[i].id == i && ConstraintInStep(m, s, cs[i]))
  }

  /** The backend is exactly the image of `es` and `cs`, plus orphaned points. */
  ghost predicate InStep(m: IdMap, s: Sketch, es: Entities, cs: Constraints) {
    && IdsDistinct(m) && BelowMinted(m, s) && RefsClosed(m, s)
    && EntitiesInStep(m, s, es)
    && ConstraintsInStep(m, s, cs)
  }

  // ── Edits the simulation covers ────────────────────────────────────────────

  predicate UniqueConstraints(constraints: seq<SketchConstraint>) {
    forall i, j :: 0 <= i < j < |constraints| ==> constraints[i].id != constraints[j].id
  }

  ghost predicate Names(c: SketchConstraint, i: nat, ids: set<FrontId>) {
    i < |c.entities| && c.entities[i] in ids
  }

  /** The constraint names as many listed entities as its kind needs. */
  ghost predicate NamesOnly(c: SketchConstraint, ids: set<FrontId>) {
    Arity(c.kind).Some? ==> forall i: nat :: i < Arity(c.kind).value ==> Names(c, i, ids)
  }

  /** What is listed under one id differs only in value, from what was sent and from entry to entry. */
  predicate Revalues(cs: Constraints, constraints: seq<SketchConstraint>) {
    && (forall i :: 0 <= i < |constraints| && constraints[i].id in cs ==>
          cs[constraints[i].id].(value := constraints[i].value) == constraints[i])
    && (forall i, j :: 0 <= i < j < |constraints| && constraints[i].id == constraints[j].id ==>
          constraints[i].(value := constraints[j].value) == constraints[j])
  }

  /**
   A constraint that stays changes at most its value and names entities that stay, and no entity
   that stays has an id that extends a removed id with a dot.
   */
  ghost predicate Compatible(es: Entities, cs: Constraints, next: Model) {
    && Revalues(cs, next.constraints)
    && NamesStay(cs, next)
    && NoDottedRemoval(es.Keys, EntityIds(next.entities))
  }

  ghost predicate NamesStay(cs: Constraints, next: Model) {
    forall i :: 0 <= i < |next.constraints| && next.constraints[i].id in cs ==>
      NamesOnly(next.constraints[i], EntityIds(next.entities))
  }

  ghost predicate NoDottedRemoval(known: set<FrontId>, live: set<FrontId>) {
    forall i, gone :: i in known && i in live && gone in known && gone !in live ==> !StartsWith(i, gone + ".")
  }

  // ── Removals ───────────────────────────────────────────────────────────────

  ghost function Gone(m: IdMap, order: seq<FrontId>, live: set<FrontId>): set<Uuid>
    requires forall i :: 0 <= i < |order| ==> order[i] in m.entity
  {
    set i | 0 <= i < |order| && order[i] !in live :: m.entity[order[i]]
  }

  ghost function Dropped(s: Sketch, gone: set<Uuid>): Sketch {
    Sketch(s.entities - gone, map c | c in s.constraints && !Refers(s.constraints[c].refs, gone) :: s.constraints[c])
  }

  ghost predicate Untouched(order: seq<FrontId>, live: set<FrontId>, id: FrontId) {
    forall i :: 0 <= i < |order| && order[i] !in live ==> !Owned(id, order[i])
  }

  lemma {:induction false} RemovedMap(m: IdMap, order: seq<FrontId>, live: set<FrontId>)
    requires forall i :: 0 <= i < |order| ==> order[i] in m.entity
    ensures var m1 := RemoveEntities(m, order, live).0;
      && m1.entity == (map k | k in m.entity && (k in live || k !in order) :: m.entity[k])
      && m1.constraint == m.constraint && m1.value == m.value && m1.minted == m.minted
  {
    if order != [] {
      var init := order[..|order| - 1];
      RemovedMap(m, init, live);
      assert order == init + [order[|order| - 1]];
    }
  }

  lemma {:induction false} RemovedPoints(m: IdMap, order: seq<FrontId>, live: set<FrontId>)
    requires forall i :: 0 <= i < |order| ==> order[i] in m.entity
    ensures RemoveEntities(m, order, live).0.point == map k | k in m.point && Untouched(order, live, k.0) :: m.point[k]
  {
    if order != [] {
      var n := |order| - 1;
      RemovedPoints(m, order[..n], live);
      forall k | k in m.point
        ensures Untouched(order, live, k.0) <==>
          Untouched(order[..n], live, k.0) && (order[n] in live || !Owned(k.0, order[n]))
      {
        assert forall i :: 0 <= i < n ==> order[..n][i] == order[i];
      }
    }
  }

  lemma DropMore(s: Sketch, gone: set<Uuid>, u: Uuid)
    requires u in s.entities && u !in gone
    requires forall v, i :: v in s.entities && 0 <= i < |Refs(s.entities[v])| ==> Refs(s.entities[v])[i] != u
    ensures ApplyOp(Dropped(s, gone), RemoveEntity(u)) == Some(Dropped(s, gone + {u}))
  {
    var t := Dropped(s, gone);
    LoneCascade(t.entities, u);
    forall c | c in s.constraints
      ensures Refers(s.constraints[c].refs, gone + {u}) <==>
        Refers(s.constraints[c].refs, gone) || Refers(s.constraints[c].refs, {u})
    {
    }
    assert Removed(t, u).entities == Dropped(s, gone + {u}).entities;
    assert Removed(t, u).constraints == Dropped(s, gone + {u}).constraints;
  }

  lemma GoneMore(m: IdMap, order: seq<FrontId>, live: set<FrontId>)
    requires IdsDistinct(m) && order != []
    requires forall i :: 0 <= i < |order| ==> order[i] in m.entity
    requires forall i, j :: 0 <= i < j < |order| ==> order[i] != order[j]
    ensures var init, fid := order[..|order| - 1], order[|order| - 1];
      if fid in live then Gone(m, order, live) == Gone(m, init, live)
      else Gone(m, order, live) == Gone(m, init, live) + {m.entity[fid]} && m.entity[fid] !in Gone(m, init, live)
  {
    var init, fid := order[..|order| - 1], order[|order| - 1];
    forall i | 0 <= i < |init|
      ensures init[i] == order[i] && init[i] != fid && m.entity[init[i]] != m.entity[fid]
    {
    }
  }

  lemma {:induction false} RemovedBackend(m: IdMap, s: Sketch, order: seq<FrontId>, live: set<FrontId>)
    requires IdsDistinct(m) && RefsClosed(m, s)
    requires forall i :: 0 <= i < |order| ==> order[i] in m.entity && m.entity[order[i]] in s.entities
    requires forall i, j :: 0 <= i < j < |order| ==> order[i] != order[j]
    ensures ApplyOps(s, RemoveEntities(m, order, live).1) == Some(Dropped(s, Gone(m, order, live)))
  {
    hide ApplyOps, IdsDistinct;
    if order == [] {
      ApplyNone(s);
      assert Gone(m, order, live) == {};
      assert Dropped(s, {}) == s;
    } else {
      var init, fid := order[..|order| - 1], order[|order| - 1];
      RemovedBackend(m, s, init, live);
      GoneMore(m, order, live);
      if fid !in live {
        var u, gone, ops := m.entity[fid], Gone(m, init, live), RemoveEntities(m, init, live).1;
        DropMore(s, gone, u);
        ApplyConcat(s, ops, [RemoveEntity(u)]);
        ApplyOne(Dropped(s, gone), RemoveEntity(u));
      }
    }
  }

  lemma {:induction false} RemovedConstraintsMap(m: IdMap, order: seq<FrontId>, live: set<FrontId>)
    requires forall i :: 0 <= i < |order| ==> order[i] in m.constraint
    ensures RemoveConstraints(m, order, live).0
      == m.(constraint := map k | k in m.constraint && (k in live || k !in order) :: m.constraint[k],
            value := map k | k in m.value && (k in live || k !in order) :: m.value[k])
  {
    if order != [] {
      var init := order[..|order| - 1];
      RemovedConstraintsMap(m, init, live);
      assert order == init + [order[|order| - 1]];
    }
  }

  ghost function GoneConstraints(m: IdMap, order: seq<FrontId>, live: set<FrontId>): set<Uuid>
    requires forall i :: 0 <= i < |order| ==> order[i] in m.constraint
  {
    set i | 0 <= i < |order| && order[i] !in live :: m.constraint[order[i]]
  }

  lemma DropConstraint(s: Sketch, ops: seq<Op>, gone: set<Uuid>, u: Uuid)
    requires ApplyOps(s, ops) == Some(s.(constraints := s.constraints - gone))
    ensures ApplyOps(s, ops + [RemoveConstraint(u)]) == Some(s.(constraints := s.constraints - (gone + {u})))
  {
    ApplyConcat(s, ops, [RemoveConstraint(u)]);
    ApplyOne(s.(constraints := s.constraints - gone), RemoveConstraint(u));
    assert s.constraints - (gone + {u}) == (s.constraints - gone) - {u};
  }

  lemma {:induction false} RemovedConstraintsBackend(m: IdMap, s: Sketch, order: seq<FrontId>, live: set<FrontId>)
    requires forall i :: 0 <= i < |order| ==> order[i] in m.constraint
    ensures ApplyOps(s, RemoveConstraints(m, order, live).1)
      == Some(s.(constraints := s.constraints - GoneConstraints(m, order, live)))
  {
    hide ApplyOps;
    if order == [] {
      ApplyNone(s);
      assert GoneConstraints(m, order, live) == {};
      assert s.constraints - {} == s.constraints;
    } else {
      var init, fid := order[..|order| - 1], order[|order| - 1];
      RemovedConstraintsBackend(m, s, init, live);
      var gone := GoneConstraints(m, init, live);
      if fid in live {
        assert GoneConstraints(m, order, live) == gone;
      } else {
        assert GoneConstraints(m, order, live) == gone + {m.constraint[fid]};
        DropConstraint(s, RemoveConstraints(m, init, live).1, gone, m.constraint[fid]);
      }
    }
  }

  predicate SameAt(m: IdMap, m': IdMap, id: FrontId, p: Position) {
    Find(m.entity, id) == Find(m'.entity, id) && Find(m.point, (id, p)) == Find(m'.point, (id, p))
  }

  /** A constraint's wire form depends only on what the map says about the entities it names. */
  lemma ToWireStable(m: IdMap, m': IdMap, c: SketchConstraint)
    requires forall i, p :: 0 <= i < |c.entities| && Arity(c.kind).Some? && i < Arity(c.kind).value ==>
      SameAt(m, m', c.entities[i], p)
    ensures ToWire(m, c) == ToWire(m', c)
  {
    if Arity(c.kind).Some? {
      forall i: nat | i < Arity(c.kind).value
        ensures ResolveRef(m, c, i) == ResolveRef(m', c, i)
      {
        if i < |c.entities| {
          assert SameAt(m, m', c.entities[i], Start);
          if i < |c.positions| {
            assert SameAt(m, m', c.entities[i], c.positions[i]);
          }
        }
      }
    }
  }

  ghost function Kept<V>(known: map<FrontId, V>, live: set<FrontId>): map<FrontId, V> {
    map i | i in known && i in live :: known[i]
  }

  ghost function Lost(known: map<FrontId, Uuid>, live: set<FrontId>): set<Uuid> {
    set i | i in known && i !in live :: known[i]
  }

  /** The map and the backend once everything unlisted is gone from both. */
  ghost predicate Pruned(m: IdMap, s: Sketch, m': IdMap, s': Sketch, live: set<FrontId>, liveC: set<FrontId>) {
    && m'.entity == Kept(m.entity, live)
    && m'.point == (map k | k in m.point && (forall g :: g in m.entity && g !in live ==> !Owned(k.0, g)) :: m.point[k])
    && m'.constraint == Kept(m.constraint, liveC)
    && m'.value == Kept(m.value, liveC)
    && m'.minted == m.minted
    && s'.entities == s.entities - Lost(m.entity, live)
    && s'.constraints == (map c | c in s.constraints && !Refers(s.constraints[c].refs, Lost(m.entity, live))
                                  && c !in Lost(m.constraint, liveC) :: s.constraints[c])
  }

  lemma RemovalsMap(m: IdMap, eo: seq<FrontId>, co: seq<FrontId>, live: set<FrontId>, liveC: set<FrontId>)
    requires Enumerates(eo, m.entity.Keys) && Enumerates(co, m.constraint.Keys)
    requires m.value.Keys == m.constraint.Keys
    ensures var m1 := RemoveEntities(m, eo, live).0;
      m1.constraint == m.constraint &&
      RemoveConstraints(m1, co, liveC).0 == IdMap(
        Kept(m.entity, live),
        map k | k in m.point && (forall g :: g in m.entity && g !in live ==> !Owned(k.0, g)) :: m.point[k],
        Kept(m.constraint, liveC), Kept(m.value, liveC), m.minted)
  {
    hide Owned, RemoveEntities, RemoveConstraints;
    RemovedMap(m, eo, live);
    var m1 := RemoveEntities(m, eo, live).0;
    RemovedConstraintsMap(m1, co, liveC);
    RemovedPoints(m, eo, live);
    forall k | k in m.point
      ensures Untouched(eo, live, k.0) <==> (forall g :: g in m.entity && g !in live ==> !Owned(k.0, g))
    {
      if Untouched(eo, live, k.0) {
        forall g | g in m.entity && g !in live
          ensures !Owned(k.0, g)
        {
          assert g in eo;
        }
      }
    }
    assert m1.entity == Kept(m.entity, live);
    assert m1.point == map k | k in m.point
      && (forall g :: g in m.entity && g !in live ==> !Owned(k.0, g)) :: m.point[k];
  }

  lemma RemovalsBackend(
    m: IdMap, s: Sketch, eo: seq<FrontId>, co: seq<FrontId>, live: set<FrontId>, liveC: set<FrontId>)
    requires IdsDistinct(m) && RefsClosed(m, s)
    requires Enumerates(eo, m.entity.Keys) && Enumerates(co, m.constraint.Keys)
    requires forall i :: i in m.entity ==> m.entity[i] in s.entities
    ensures var (m1, ops1) := RemoveEntities(m, eo, live);
      m1.constraint == m.constraint &&
      var dropped := Dropped(s, Lost(m.entity, live));
      ApplyOps(s, ops1 + RemoveConstraints(m1, co, liveC).1)
        == Some(dropped.(constraints := dropped.constraints - Lost(m.constraint, liveC)))
  {
    RemovedMap(m, eo, live);
    RemovedBackend(m, s, eo, live);
    assert Gone(m, eo, live) == Lost(m.entity, live);
    var (m1, ops1) := RemoveEntities(m, eo, live);
    RemovedConstraintsBackend(m1, Dropped(s, Lost(m.entity, live)), co, liveC);
    assert GoneConstraints(m1, co, liveC) == Lost(m.constraint, liveC);
    ApplyConcat(s, ops1, RemoveConstraints(m1, co, liveC).1);
  }

  lemma PrunedIds(m: IdMap, s: Sketch, m': IdMap, s': Sketch, live: set<FrontId>, liveC: set<FrontId>)
    requires IdsDistinct(m) && BelowMinted(m, s) && RefsClosed(m, s)
    requires Pruned(m, s, m', s', live, liveC)
    ensures IdsDistinct(m') && BelowMinted(m', s') && RefsClosed(m', s')
  {
    forall k, l | k in m'.point && l in m'.point && k != l && m'.point[k] == m'.point[l]
      ensures k.0 in m'.entity && m'.entity[k.0] == m'.point[k]
    {
      assert m.point[k] == m.point[l];
      assert k.0 in m.entity;
      assert Owned(k.0, k.0);
    }
    forall u | u in s'.constraints
      ensures exists i :: i in m'.constraint && m'.constraint[i] == u
    {
      var i :| i in m.constraint && m.constraint[i] == u;
      assert i in m'.constraint && m'.constraint[i] == u;
    }
    forall u, i | u in s'.constraints && 0 <= i < |s'.constraints[u].refs|
      ensures s'.constraints[u].refs[i] in s'.entities
    {
      assert s.constraints[u].refs[i] in s.entities;
      assert !Refers(s.constraints[u].refs, Lost(m.entity, live));
    }
    forall u, i | u in s'.entities && 0 <= i < |Refs(s'.entities[u])|
      ensures Refs(s'.entities[u])[i] in s'.entities && Refs(s'.entities[u])[i] !in m'.entity.Values
    {
      var r := Refs(s.entities[u])[i];
      assert r in s.entities && r !in m.entity.Values;
    }
  }

  lemma PrunedEntities(
    m: IdMap, s: Sketch, m': IdMap, s': Sketch, es: Entities, live: set<FrontId>, liveC: set<FrontId>)
    requires IdsDistinct(m) && EntitiesInStep(m, s, es)
    requires Pruned(m, s, m', s', live, liveC)
    requires NoDottedRemoval(es.Keys, live)
    ensures EntitiesInStep(m', s', Kept(es, live))
  {
    var es' := Kept(es, live);
    forall k | k in m.point && k.0 in es'
      ensures k in m'.point && m.point[k] !in Lost(m.entity, live)
    {
      PrunedPoint(m, m', es, k, live);
    }
    forall i | i in es'
      ensures Imaged(m', s', es'[i])
    {
      PrunedImage(m, s, m', s', es, i, live, liveC);
    }
    forall k
      ensures k in m'.point <==> k.0 in es' && HasPosition(es'[k.0].kind, k.1)
    {
      if k in m'.point {
        assert Owned(k.0, k.0);
      }
    }
    forall u | u in s'.entities && !s'.entities[u].WirePoint?
      ensures u in m'.entity.Values
    {
      var i :| i in m.entity && m.entity[i] == u;
      assert i in m'.entity && m'.entity[i] == u;
    }
  }

  lemma PrunedPoint(m: IdMap, m': IdMap, es: Entities, k: PointKey, live: set<FrontId>)
    requires IdsDistinct(m) && m.entity.Keys == es.Keys
    requires m'.point == (map k | k in m.point
      && (forall g :: g in m.entity && g !in live ==> !Owned(k.0, g)) :: m.point[k])
    requires NoDottedRemoval(es.Keys, live)
    requires k in m.point && k.0 in es && k.0 in live
    ensures k in m'.point && m'.point[k] == m.point[k] && m.point[k] !in Lost(m.entity, live)
  {
  }

  lemma PrunedImage(
    m: IdMap, s: Sketch, m': IdMap, s': Sketch, es: Entities, i: FrontId, live: set<FrontId>, liveC: set<FrontId>)
    requires IdsDistinct(m) && m.entity.Keys == es.Keys
    requires Pruned(m, s, m', s', live, liveC) && NoDottedRemoval(es.Keys, live)
    requires i in es && i in live && es[i].id == i && Imaged(m, s, es[i])
    ensures Imaged(m', s', es[i])
  {
    forall p | (i, p) in m.point
      ensures (i, p) in m'.point && m'.point[(i, p)] == m.point[(i, p)] && m.point[(i, p)] !in Lost(m.entity, live)
    {
      PrunedPoint(m, m', es, (i, p), live);
    }
    assert m.entity[i] !in Lost(m.entity, live);
  }

  lemma PrunedConstraints(m: IdMap, s: Sketch, m': IdMap, s': Sketch, es: Entities, cs: Constraints, next: Model)
    requires IdsDistinct(m) && EntitiesInStep(m, s, es) && ConstraintsInStep(m, s, cs)
    requires Compatible(es, cs, next)
    requires Pruned(m, s, m', s', EntityIds(next.entities), ConstraintIds(next.constraints))
    ensures ConstraintsInStep(m', s', Kept(cs, ConstraintIds(next.constraints)))
  {
    var live, liveC := EntityIds(next.entities), ConstraintIds(next.constraints);
    forall i | i in cs && i in liveC
      ensures ConstraintInStep(m', s', cs[i])
    {
      ListedNames(es, cs, next, i);
      PrunedConstraint(m, s, m', s', es, cs[i], live, liveC);
    }
  }

  lemma ListedNames(es: Entities, cs: Constraints, next: Model, i: FrontId)
    requires Compatible(es, cs, next)
    requires i in cs && i in ConstraintIds(next.constraints)
    ensures NamesOnly(cs[i], EntityIds(next.entities))
  {
    var j :| 0 <= j < |next.constraints| && next.constraints[j].id == i;
    var c := next.constraints[j];
    assert cs[c.id].(value := c.value) == c;
    assert c.kind == cs[i].kind && c.entities == cs[i].entities;
    assert NamesOnly(c, EntityIds(next.entities));
    forall k: nat | Arity(c.kind).Some? && k < Arity(c.kind).value
      ensures Names(cs[i], k, EntityIds(next.entities))
    {
      assert Names(c, k, EntityIds(next.entities));
    }
  }

  lemma PrunedConstraint(
    m: IdMap, s: Sketch, m': IdMap, s': Sketch, es: Entities, c: SketchConstraint, live: set<FrontId>,
    liveC: set<FrontId>)
    requires IdsDistinct(m) && EntitiesInStep(m, s, es) && ConstraintInStep(m, s, c)
    requires Pruned(m, s, m', s', live, liveC) && NoDottedRemoval(es.Keys, live)
    requires NamesOnly(c, live) && c.id in liveC
    ensures ConstraintInStep(m', s', c)
  {
    PrunedRefs(m, m', es, c, live);
    assert m.constraint[c.id] !in Lost(m.constraint, liveC);
  }

  lemma WireRefsResolve(m: IdMap, c: SketchConstraint)
    ensures ToWire(m, c).Some? ==> Arity(c.kind).Some? && forall i: nat :: i < |ToWire(m, c).value.refs| ==>
      i < Arity(c.kind).value && ResolveRef(m, c, i) == Some(ToWire(m, c).value.refs[i])
  {
  }

  /** A constraint over kept entities keeps its wire form, and refers to nothing that went. */
  lemma PrunedRefs(m: IdMap, m': IdMap, es: Entities, c: SketchConstraint, live: set<FrontId>)
    requires IdsDistinct(m) && m.entity.Keys == es.Keys
    requires forall k :: k in m.point ==> k.0 in es
    requires m'.entity == Kept(m.entity, live)
    requires m'.point == (map k | k in m.point
      && (forall g :: g in m.entity && g !in live ==> !Owned(k.0, g)) :: m.point[k])
    requires NoDottedRemoval(es.Keys, live) && NamesOnly(c, live)
    ensures ToWire(m, c) == ToWire(m', c)
    ensures ToWire(m, c).Some? ==> !Refers(ToWire(m, c).value.refs, Lost(m.entity, live))
  {
    hide ToWire;
    WireRefsResolve(m, c);
    WireRefsResolve(m', c);
    if Arity(c.kind).Some? {
      var n := Arity(c.kind).value;
      forall i: nat, p | i < |c.entities| && i < n
        ensures SameAt(m, m', c.entities[i], p)
        ensures (c.entities[i], p) in m.point ==> m.point[(c.entities[i], p)] !in Lost(m.entity, live)
      {
        assert Names(c, i, live);
        if (c.entities[i], p) in m.point {
          PrunedPoint(m, m', es, (c.entities[i], p), live);
        }
      }
      ToWireStable(m, m', c);
      forall i: nat | i < n && ResolveRef(m, c, i).Some?
        ensures ResolveRef(m, c, i).value !in Lost(m.entity, live)
      {
        assert Names(c, i, live);
        assert SameAt(m, m', c.entities[i], if i < |c.positions| then c.positions[i] else Start);
      }
    }
  }

  // ── Additions ──────────────────────────────────────────────────────────────

  lemma ApplyNone(s: Sketch)
    ensures ApplyOps(s, []) == Some(s)
  {
  }

  lemma ApplyOne(s: Sketch, a: Op)
    ensures ApplyOps(s, [a]) == ApplyOp(s, a)
  {
    assert [a][..0] == [];
  }

  lemma ApplyTwo(s: Sketch, a: Op, b: Op)
    requires ApplyOp(s, a).Some?
    ensures ApplyOps(s, [a, b]) == ApplyOp(ApplyOp(s, a).value, b)
  {
    ApplyOne(s, a);
    assert [a, b][..1] == [a];
  }

  lemma ApplyThree(s: Sketch, a: Op, b: Op, c: Op)
    requires ApplyOp(s, a).Some? && ApplyOp(ApplyOp(s, a).value, b).Some?
    ensures ApplyOps(s, [a, b, c]) == ApplyOp(ApplyOp(ApplyOp(s, a).value, b).value, c)
  {
    ApplyTwo(s, a, b);
    assert [a, b, c][..2] == [a, b];
  }

  /** If two positions of the entity have one id, it is the entity's own. */
  ghost predicate SharedOnlyWithEntity(m: IdMap, id: FrontId)
    requires id in m.entity
  {
    forall p, q ::
      && (id, p) in m.point && (id, q) in m.point && p != q
      && m.point[(id, p)] == m.point[(id, q)]
      ==> m.point[(id, p)] == m.entity[id]
  }

  /** The map once `e` has its fresh ids. */
  ghost predicate ExtendedMap(m: IdMap, m': IdMap, e: SketchEntity) {
    && m'.constraint == m.constraint && m'.value == m.value && m'.minted > m.minted
    && m'.entity.Keys == m.entity.Keys + {e.id}
    && (forall i :: i in m.entity ==> m'.entity[i] == m.entity[i])
    && m.minted <= m'.entity[e.id] < m'.minted
    && (forall k :: k in m'.point <==> k in m.point || (k.0 == e.id && HasPosition(e.kind, k.1)))
    && (forall k :: k in m.point ==> m'.point[k] == m.point[k])
    && (forall k :: k in m'.point && k.0 == e.id ==> m.minted <= m'.point[k] < m'.minted)
    && SharedOnlyWithEntity(m', e.id)
  }

  /** The backend once it holds the image of `e` under `id`: nothing old moved, and what is new has a fresh id. */
  ghost predicate ExtendedBackend(s: Sketch, s': Sketch, first: Uuid, next: Uuid, id: Uuid) {
    && s'.constraints == s.constraints
    && (forall v :: v in s.entities ==> v in s'.entities && s'.entities[v] == s.entities[v])
    && (forall v :: v in s'.entities && v !in s.entities ==> first <= v < next)
    && (forall v :: v in s'.entities && v !in s.entities ==> s'.entities[v].WirePoint? || v == id)
    && id in s'.entities
    && (forall i :: 0 <= i < |Refs(s'.entities[id])| ==>
          var r := Refs(s'.entities[id])[i];
          r in s'.entities && first <= r && r != id)
  }

  ghost predicate Extended(m: IdMap, s: Sketch, m': IdMap, s': Sketch, e: SketchEntity) {
    && ExtendedMap(m, m', e)
    && ExtendedBackend(s, s', m.minted, m'.minted, m'.entity[e.id])
    && Imaged(m', s', e)
  }

  lemma InStepIsLive(m: IdMap, s: Sketch, es: Entities)
    requires EntitiesInStep(m, s, es)
    ensures MapLive(m, s)
  {
    forall i | i in m.entity
      ensures m.entity[i] in s.entities
    {
      assert Imaged(m, s, es[i]);
    }
    forall k | k in m.point
      ensures m.point[k] in s.entities && k.0 in m.entity
    {
      assert Imaged(m, s, es[k.0]) && HasPosition(es[k.0].kind, k.1);
    }
  }

  lemma AddedImage(m: IdMap, s: Sketch, e: SketchEntity) returns (s': Sketch)
    requires BelowMinted(m, s) && MapLive(m, s)
    requires Mappable(e) && e.id !in m.entity
    ensures ApplyOps(s, AddEntityOps(m, e).1) == Some(s')
    ensures Extended(m, s, AddEntityOps(m, e).0, s', e)
  {
    match e.kind
    case PointKind => s' := AddedPoint(m, s, e);
    case LineKind => s' := AddedLine(m, s, e);
    case CircleKind => s' := AddedCircle(m, s, e);
    case ArcKind => s' := AddedArc(m, s, e);
  }

  ghost predicate Unused(m: IdMap, s: Sketch, id: FrontId) {
    && id !in m.entity
    && (forall u :: u >= m.minted ==> u !in s.entities)
    && (forall k :: k in m.point ==> k.0 != id)
  }

  lemma AddedPoint(m: IdMap, s: Sketch, e: SketchEntity) returns (s': Sketch)
    requires Unused(m, s, e.id) && Mappable(e) && e.kind == PointKind
    ensures ApplyOps(s, AddEntityOps(m, e).1) == Some(s')
    ensures Extended(m, s, AddEntityOps(m, e).0, s', e)
  {
    var id := m.minted;
    ApplyOne(s, AddEntity(id, WirePoint(e.p0.value, e.construction)));
    s' := s.(entities := s.entities[id := WirePoint(e.p0.value, e.construction)]);
  }

  lemma AddedLine(m: IdMap, s: Sketch, e: SketchEntity) returns (s': Sketch)
    requires Unused(m, s, e.id) && Mappable(e) && e.kind == LineKind
    ensures ApplyOps(s, AddEntityOps(m, e).1) == Some(s')
    ensures Extended(m, s, AddEntityOps(m, e).0, s', e)
  {
    var start, end, id := m.minted, m.minted + 1, m.minted + 2;
    var p, q := WirePoint(e.p0.value, e.construction), WirePoint(e.p1.value, e.construction);
    var line := WireLine(start, end, e.construction);
    s' := s.(entities := s.entities[start := p][end := q][id := line]);
    assert AddEntityOps(m, e).1 == [AddEntity(start, p), AddEntity(end, q), AddEntity(id, line)];
    hide ApplyOps, AddEntityOps, Extended;
    AddThree(s, start, p, q, line);
    LineExtends(m, s, e, s');
  }

  lemma AddThree(s: Sketch, start: Uuid, p: WireEntity, q: WireEntity, line: WireEntity)
    requires forall u :: u >= start ==> u !in s.entities
    requires p.WirePoint? && q.WirePoint? && Refs(line) == [start, start + 1]
    ensures ApplyOps(s, [AddEntity(start, p), AddEntity(start + 1, q), AddEntity(start + 2, line)])
      == Some(s.(entities := s.entities[start := p][start + 1 := q][start + 2 := line]))
  {
    var s1 := s.(entities := s.entities[start := p]);
    var s2 := s1.(entities := s1.entities[start + 1 := q]);
    assert ApplyOp(s, AddEntity(start, p)) == Some(s1);
    assert ApplyOp(s1, AddEntity(start + 1, q)) == Some(s2);
    assert ApplyOp(s2, AddEntity(start + 2, line)) == Some(s2.(entities := s2.entities[start + 2 := line]));
    ApplyThree(s, AddEntity(start, p), AddEntity(start + 1, q), AddEntity(start + 2, line));
  }

  lemma LineExtends(m: IdMap, s: Sketch, e: SketchEntity, s': Sketch)
    requires Unused(m, s, e.id) && Mappable(e) && e.kind == LineKind
    requires var start := m.minted;
      s' == s.(entities := s.entities[start := WirePoint(e.p0.value, e.construction)]
        [start + 1 := WirePoint(e.p1.value, e.construction)][start + 2 := WireLine(start, start + 1, e.construction)])
    ensures Extended(m, s, AddEntityOps(m, e).0, s', e)
  {
    hide ExtendedMap, ExtendedBackend, Imaged;
    LineMap(m, e);
    LineBackend(s, m.minted, WirePoint(e.p0.value, e.construction), WirePoint(e.p1.value, e.construction),
      e.construction);
    LineImaged(m, s, e, s');
  }

  lemma LineImaged(m: IdMap, s: Sketch, e: SketchEntity, s': Sketch)
    requires Mappable(e) && e.kind == LineKind
    requires var start := m.minted;
      s'.entities == s.entities[start := WirePoint(e.p0.value, e.construction)]
        [start + 1 := WirePoint(e.p1.value, e.construction)][start + 2 := WireLine(start, start + 1, e.construction)]
    ensures Imaged(AddEntityOps(m, e).0, s', e)
  {
  }

  lemma LineMap(m: IdMap, e: SketchEntity)
    requires e.id !in m.entity && (forall k :: k in m.point ==> k.0 != e.id)
    requires Mappable(e) && e.kind == LineKind
    ensures ExtendedMap(m, AddEntityOps(m, e).0, e)
  {
  }

  lemma LineBackend(s: Sketch, start: Uuid, p: WireEntity, q: WireEntity, construction: bool)
    requires forall u :: u >= start ==> u !in s.entities
    requires p.WirePoint? && q.WirePoint?
    ensures ExtendedBackend(s,
      s.(entities := s.entities[start := p][start + 1 := q][start + 2 := WireLine(start, start + 1, construction)]),
      start, start + 3, start + 2)
  {
  }

  lemma AddedCircle(m: IdMap, s: Sketch, e: SketchEntity) returns (s': Sketch)
    requires Unused(m, s, e.id) && Mappable(e) && e.kind == CircleKind
    ensures ApplyOps(s, AddEntityOps(m, e).1) == Some(s')
    ensures Extended(m, s, AddEntityOps(m, e).0, s', e)
  {
    s' := AddedCurve(m, s, e, WireCircle(m.minted, e.radius.value, e.construction));
  }

  lemma AddedArc(m: IdMap, s: Sketch, e: SketchEntity) returns (s': Sketch)
    requires Unused(m, s, e.id) && Mappable(e) && e.kind == ArcKind
    ensures ApplyOps(s, AddEntityOps(m, e).1) == Some(s')
    ensures Extended(m, s, AddEntityOps(m, e).0, s', e)
  {
    var c := e.center.value;
    s' := AddedCurve(m, s, e,
      WireArc(m.minted, e.radius.value, DirectionOf(e.start, c), DirectionOf(e.end, c), e.construction));
  }

  lemma AddedCurve(m: IdMap, s: Sketch, e: SketchEntity, curve: WireEntity) returns (s': Sketch)
    requires Unused(m, s, e.id) && Mappable(e) && (e.kind == CircleKind || e.kind == ArcKind)
    requires AddEntityOps(m, e).1
      == [AddEntity(m.minted, WirePoint(e.center.value, e.construction)), AddEntity(m.minted + 1, curve)]
    requires Refs(curve) == [m.minted]
    ensures ApplyOps(s, AddEntityOps(m, e).1) == Some(s')
    ensures Extended(m, s, AddEntityOps(m, e).0, s', e)
  {
    hide ExtendedMap, ExtendedBackend, Imaged;
    var center, id := m.minted, m.minted + 1;
    var p := WirePoint(e.center.value, e.construction);
    s' := s.(entities := s.entities[center := p][id := curve]);
    AddTwo(s, center, p, curve);
    CurveMap(m, e);
    CurveBackend(s, center, p, curve);
    CurveImaged(m, s, e, curve, s');
  }

  lemma AddTwo(s: Sketch, center: Uuid, p: WireEntity, curve: WireEntity)
    requires forall u :: u >= center ==> u !in s.entities
    requires p.WirePoint? && Refs(curve) == [center]
    ensures ApplyOps(s, [AddEntity(center, p), AddEntity(center + 1, curve)])
      == Some(s.(entities := s.entities[center := p][center + 1 := curve]))
  {
    var s1 := s.(entities := s.entities[center := p]);
    assert ApplyOp(s, AddEntity(center, p)) == Some(s1);
    assert ApplyOp(s1, AddEntity(center + 1, curve)) == Some(s1.(entities := s1.entities[center + 1 := curve]));
    ApplyTwo(s, AddEntity(center, p), AddEntity(center + 1, curve));
  }

  lemma CurveMap(m: IdMap, e: SketchEntity)
    requires e.id !in m.entity && (forall k :: k in m.point ==> k.0 != e.id)
    requires Mappable(e) && (e.kind == CircleKind || e.kind == ArcKind)
    ensures ExtendedMap(m, AddEntityOps(m, e).0, e)
  {
  }

  lemma CurveBackend(s: Sketch, center: Uuid, p: WireEntity, curve: WireEntity)
    requires forall u :: u >= center ==> u !in s.entities
    requires p.WirePoint? && Refs(curve) == [center]
    ensures ExtendedBackend(
      s, s.(entities := s.entities[center := p][center + 1 := curve]), center, center + 2, center + 1)
  {
  }

  lemma CurveImaged(m: IdMap, s: Sketch, e: SketchEntity, curve: WireEntity, s': Sketch)
    requires Mappable(e) && (e.kind == CircleKind || e.kind == ArcKind)
    requires var p := WirePoint(e.center.value, e.construction);
      && AddEntityOps(m, e).1 == [AddEntity(m.minted, p), AddEntity(m.minted + 1, curve)]
      && s'.entities == s.entities[m.minted := p][m.minted + 1 := curve]
    ensures Imaged(AddEntityOps(m, e).0, s', e)
  {
  }

  lemma ExtendedIds(m: IdMap, s: Sketch, m': IdMap, s': Sketch, e: SketchEntity)
    requires IdsDistinct(m) && BelowMinted(m, s) && RefsClosed(m, s) && MapLive(m, s)
    requires e.id !in m.entity && Extended(m, s, m', s', e)
    ensures IdsDistinct(m') && BelowMinted(m', s') && RefsClosed(m', s')
  {
    ExtendedDistinct(m, m', e);
    forall u, i | u in s'.entities && 0 <= i < |Refs(s'.entities[u])|
      ensures Refs(s'.entities[u])[i] in s'.entities && Refs(s'.entities[u])[i] !in m'.entity.Values
    {
      var r := Refs(s'.entities[u])[i];
      assert u in s.entities ==> r in s.entities && r !in m.entity.Values;
      forall j | j in m'.entity
        ensures m'.entity[j] != r
      {
        assert j == e.id || m.entity[j] == m'.entity[j];
      }
    }
  }

  lemma ExtendedDistinct(m: IdMap, m': IdMap, e: SketchEntity)
    requires IdsDistinct(m) && e.id !in m.entity
    requires forall i :: i in m.entity ==> m.entity[i] < m.minted
    requires forall k :: k in m.point ==> m.point[k] < m.minted && k.0 in m.entity
    requires m'.constraint == m.constraint
    requires m'.entity.Keys == m.entity.Keys + {e.id}
    requires forall i :: i in m.entity ==> m'.entity[i] == m.entity[i]
    requires m.minted <= m'.entity[e.id]
    requires forall k :: k in m'.point <==> k in m.point || (k.0 == e.id && HasPosition(e.kind, k.1))
    requires forall k :: k in m.point ==> m'.point[k] == m.point[k]
    requires forall k :: k in m'.point && k.0 == e.id ==> m.minted <= m'.point[k]
    requires SharedOnlyWithEntity(m', e.id)
    ensures IdsDistinct(m')
  {
    forall k, i | k in m'.point && i in m'.entity && m'.entity[i] == m'.point[k]
      ensures i == k.0
    {
      assert i != e.id ==> i in m.entity;
      assert k.0 != e.id ==> k in m.point;
    }
    forall k, l | k in m'.point && l in m'.point && k != l && m'.point[k] == m'.point[l]
      ensures k.0 in m'.entity && m'.entity[k.0] == m'.point[k]
    {
      if k.0 == e.id {
        assert l.0 == e.id;
        assert k == (e.id, k.1) && l == (e.id, l.1);
      } else {
        assert k in m.point && l in m.point;
      }
    }
  }

  lemma ExtendedEntities(m: IdMap, s: Sketch, m': IdMap, s': Sketch, es: Entities, e: SketchEntity)
    requires EntitiesInStep(m, s, es)
    requires e.id !in m.entity && Extended(m, s, m', s', e)
    ensures EntitiesInStep(m', s', es[e.id := e])
  {
    var es' := es[e.id := e];
    forall i | i in es'
      ensures es'[i].id == i && Imaged(m', s', es'[i])
    {
      if i != e.id {
        assert Imaged(m, s, es[i]);
      }
    }
    forall u | u in s'.entities && !s'.entities[u].WirePoint?
      ensures u in m'.entity.Values
    {
      if u in s.entities {
        var i :| i in m.entity && m.entity[i] == u;
        assert i in m'.entity && m'.entity[i] == u;
      } else {
        assert e.id in m'.entity && m'.entity[e.id] == u;
      }
    }
  }

  lemma ExtendedConstraints(m: IdMap, s: Sketch, m': IdMap, s': Sketch, es: Entities, cs: Constraints, e: SketchEntity)
    requires EntitiesInStep(m, s, es) && ConstraintsInStep(m, s, cs)
    requires e.id !in m.entity && Extended(m, s, m', s', e)
    ensures ConstraintsInStep(m', s', cs)
  {
    forall i | i in cs
      ensures ToWire(m', cs[i]) == ToWire(m, cs[i])
    {
      assert ConstraintInStep(m, s, cs[i]);
      ExpressedStable(m, m', es, cs[i], e);
    }
  }

  /** What is already expressed does not name an id that is not in the map yet. */
  lemma ExpressedStable(m: IdMap, m': IdMap, es: Entities, c: SketchConstraint, e: SketchEntity)
    requires ToWire(m, c).Some? && e.id !in m.entity
    requires forall k :: k in m.point ==> k.0 in m.entity
    requires m'.entity.Keys == m.entity.Keys + {e.id}
    requires forall i :: i in m.entity ==> m'.entity[i] == m.entity[i]
    requires forall k :: k in m'.point && k.0 != e.id <==> k in m.point
    requires forall k :: k in m.point ==> m'.point[k] == m.point[k]
    ensures ToWire(m', c) == ToWire(m, c)
  {
    forall i, p | 0 <= i < |c.entities| && Arity(c.kind).Some? && i < Arity(c.kind).value
      ensures SameAt(m, m', c.entities[i], p)
    {
      assert ResolveRef(m, c, i).Some?;
      assert c.entities[i] in m.entity;
      assert c.entities[i] != e.id;
      assert (c.entities[i], p) in m'.point <==> (c.entities[i], p) in m.point;
    }
    ToWireStable(m, m', c);
  }

  function AddedEntities(es: Entities, entities: seq<SketchEntity>): Entities {
    if entities == [] then es
    else
      var es1 := AddedEntities(es, entities[..|entities| - 1]);
      var e := entities[|entities| - 1];
      if e.id !in es1 && Mappable(e) then es1[e.id := e] else es1
  }

  lemma {:induction false} AdditionsInStep(
    m: IdMap, s: Sketch, es: Entities, cs: Constraints, entities: seq<SketchEntity>)
    returns (s': Sketch)
    requires InStep(m, s, es, cs)
    ensures ApplyOps(s, AddEntities(m, entities).1) == Some(s')
    ensures InStep(AddEntities(m, entities).0, s', AddedEntities(es, entities), cs)
  {
    if entities == [] {
      s' := s;
    } else {
      var init, e := entities[..|entities| - 1], entities[|entities| - 1];
      var s1 := AdditionsInStep(m, s, es, cs, init);
      var (m1, ops) := AddEntities(m, init);
      var es1 := AddedEntities(es, init);
      if e.id in m1.entity || !Mappable(e) {
        s' := s1;
        assert ops + [] == ops;
      } else {
        var m2 := AddEntityOps(m1, e).0;
        InStepIsLive(m1, s1, es1);
        s' := AddedImage(m1, s1, e);
        ApplyConcat(s, ops, AddEntityOps(m1, e).1);
        ExtendedIds(m1, s1, m2, s', e);
        ExtendedEntities(m1, s1, m2, s', es1, e);
        ExtendedConstraints(m1, s1, m2, s', es1, cs, e);
      }
    }
  }

  // ── Constraints ────────────────────────────────────────────────────────────

  lemma ToWireValue(m: IdMap, c: SketchConstraint, value: Option<real>)
    ensures ToWire(m, c.(value := value)).Some? <==> ToWire(m, c).Some?
    ensures ToWire(m, c).Some? ==>
      ToWire(m, c.(value := value)).value
        == ToWire(m, c).value.(value := if IsDimensional(c.kind) then Some(value.GetOr(0.0)) else None)
  {
    var d := c.(value := value);
    assert ResolveRef(m, d, 0) == ResolveRef(m, c, 0);
    assert ResolveRef(m, d, 1) == ResolveRef(m, c, 1);
  }

  lemma WireRefsLive(m: IdMap, s: Sketch, c: SketchConstraint)
    requires MapLive(m, s) && ToWire(m, c).Some?
    ensures forall i :: 0 <= i < |ToWire(m, c).value.refs| ==> ToWire(m, c).value.refs[i] in s.entities
  {
    hide ToWire;
    WireRefsResolve(m, c);
  }

  lemma NewConstraint(m: IdMap, s: Sketch, es: Entities, cs: Constraints, c: SketchConstraint) returns (s': Sketch)
    requires InStep(m, s, es, cs) && c.id !in cs && ToWire(m, c).Some?
    ensures var (m', ops) := UpsertConstraint(m, c);
      ApplyOps(s, ops) == Some(s') && InStep(m', s', es, cs[c.id := c])
  {
    var wire := ToWire(m, c).value;
    InStepIsLive(m, s, es);
    WireRefsLive(m, s, c);
    s' := s.(constraints := s.constraints[m.minted := wire]);
    NewConstraintIds(m, s, c);
    var m' := UpsertConstraint(m, c).0;
    OtherImages(m, s, m', s', es);
    NewConstraintOthers(m, s, cs, c);
  }

  lemma NewConstraintIds(m: IdMap, s: Sketch, c: SketchConstraint)
    requires IdsDistinct(m) && BelowMinted(m, s) && RefsClosed(m, s)
    requires c.id !in m.constraint && ToWire(m, c).Some?
    requires forall i :: 0 <= i < |ToWire(m, c).value.refs| ==> ToWire(m, c).value.refs[i] in s.entities
    ensures var (m', ops) := UpsertConstraint(m, c);
      var s' := s.(constraints := s.constraints[m.minted := ToWire(m, c).value]);
      ApplyOps(s, ops) == Some(s') && IdsDistinct(m') && BelowMinted(m', s') && RefsClosed(m', s')
  {
    hide ToWire, ApplyOps, BelowMinted;
    var id, wire := m.minted, ToWire(m, c).value;
    FreshConstraint(m, s);
    ApplyOne(s, AddConstraint(id, wire));
    NewConstraintBelow(m, s, c.id, c.value, wire);
  }

  lemma FreshConstraint(m: IdMap, s: Sketch)
    requires BelowMinted(m, s)
    ensures m.minted !in s.constraints && forall id :: id in m.constraint ==> m.constraint[id] != m.minted
  {
  }

  lemma NewConstraintBelow(m: IdMap, s: Sketch, id: FrontId, value: Option<real>, wire: WireConstraint)
    requires BelowMinted(m, s) && id !in m.constraint
    ensures BelowMinted(
      m.(constraint := m.constraint[id := m.minted], value := m.value[id := value], minted := m.minted + 1),
      s.(constraints := s.constraints[m.minted := wire]))
  {
    var constraint, known := m.constraint[id := m.minted], s.constraints[m.minted := wire];
    forall u | u in known
      ensures exists i :: i in constraint && constraint[i] == u
    {
      if u == m.minted {
        assert id in constraint && constraint[id] == u;
      } else {
        var i :| i in m.constraint && m.constraint[i] == u;
        assert i in constraint && constraint[i] == u;
      }
    }
  }

  lemma NewConstraintOthers(m: IdMap, s: Sketch, cs: Constraints, c: SketchConstraint)
    requires ConstraintsInStep(m, s, cs) && c.id !in cs && ToWire(m, c).Some?
    requires forall i :: i in m.constraint ==> m.constraint[i] < m.minted
    ensures var m' := UpsertConstraint(m, c).0;
      ConstraintsInStep(m', s.(constraints := s.constraints[m.minted := ToWire(m, c).value]), cs[c.id := c])
  {
    hide ToWire;
    var m' := UpsertConstraint(m, c).0;
    forall d: SketchConstraint
      ensures ToWire(m', d) == ToWire(m, d)
    {
      ToWireStable(m, m', d);
    }
  }

  lemma OtherImages(m: IdMap, s: Sketch, m': IdMap, s': Sketch, es: Entities)
    requires EntitiesInStep(m, s, es)
    requires m'.entity == m.entity && m'.point == m.point && s'.entities == s.entities
    ensures EntitiesInStep(m', s', es)
  {
    forall i | i in es
      ensures Imaged(m', s', es[i])
    {
      assert Imaged(m, s, es[i]);
    }
  }

  function Revalued(s: Sketch, u: Uuid, v: real): Sketch
    requires u in s.constraints
  {
    s.(constraints := s.constraints[u := s.constraints[u].(value := Some(v))])
  }

  lemma ChangedOp(m: IdMap, s: Sketch, c: SketchConstraint)
    requires c.id in m.constraint && m.constraint[c.id] in s.constraints
    requires s.constraints[m.constraint[c.id]].kind == c.kind
    requires IsDimensional(c.kind) && Tracked(m.value, c.id) != c.value
    ensures UpsertConstraint(m, c).0 == m.(value := m.value[c.id := c.value])
    ensures ApplyOps(s, UpsertConstraint(m, c).1) == Some(Revalued(s, m.constraint[c.id], c.value.GetOr(0.0)))
  {
    ApplyOne(s, SetDimension(m.constraint[c.id], c.value.GetOr(0.0)));
  }

  lemma ChangedDimension(m: IdMap, s: Sketch, es: Entities, cs: Constraints, c: SketchConstraint)
    requires InStep(m, s, es, cs) && c.id in cs && cs[c.id].(value := c.value) == c
    requires IsDimensional(c.kind)
    requires c.id in m.constraint && m.constraint[c.id] in s.constraints
    ensures InStep(m.(value := m.value[c.id := c.value]), Revalued(s, m.constraint[c.id], c.value.GetOr(0.0)), es,
      cs[c.id := c])
  {
    var m' := m.(value := m.value[c.id := c.value]);
    var s' := Revalued(s, m.constraint[c.id], c.value.GetOr(0.0));
    assert EntitiesInStep(m', s', es) by {
      OtherImages(m, s, m', s', es);
    }
    assert IdsDistinct(m') && BelowMinted(m', s') && RefsClosed(m', s') by {
      ChangedIds(m, s, c, c.value.GetOr(0.0));
    }
    assert ConstraintsInStep(m', s', cs[c.id := c]) by {
      ChangedOthers(m, s, cs, c);
    }
  }

  lemma ChangedIds(m: IdMap, s: Sketch, c: SketchConstraint, v: real)
    requires IdsDistinct(m) && BelowMinted(m, s) && RefsClosed(m, s)
    requires c.id in m.constraint && m.constraint[c.id] in s.constraints
    ensures var u := m.constraint[c.id];
      var m' := m.(value := m.value[c.id := c.value]);
      var s' := s.(constraints := s.constraints[u := s.constraints[u].(value := Some(v))]);
      IdsDistinct(m') && BelowMinted(m', s') && RefsClosed(m', s')
  {
    var u := m.constraint[c.id];
    var s' := s.(constraints := s.constraints[u := s.constraints[u].(value := Some(v))]);
    assert forall w :: w in s'.constraints ==> s'.constraints[w].refs == s.constraints[w].refs;
  }

  lemma ChangedOthers(m: IdMap, s: Sketch, cs: Constraints, c: SketchConstraint)
    requires ConstraintsInStep(m, s, cs) && IdsDistinct(m)
    requires c.id in cs && cs[c.id].(value := c.value) == c && IsDimensional(c.kind)
    ensures var u := m.constraint[c.id];
      var m' := m.(value := m.value[c.id := c.value]);
      var s' := s.(constraints := s.constraints[u := s.constraints[u].(value := Some(c.value.GetOr(0.0)))]);
      ConstraintsInStep(m', s', cs[c.id := c])
  {
    hide ToWire;
    var u := m.constraint[c.id];
    var m' := m.(value := m.value[c.id := c.value]);
    forall d: SketchConstraint
      ensures ToWire(m', d) == ToWire(m, d)
    {
      ToWireStable(m, m', d);
    }
    ToWireValue(m, cs[c.id], c.value);
    assert ConstraintInStep(m, s, cs[c.id]);
    assert cs[c.id := c].Keys == cs.Keys;
  }

  lemma SameDimension(m: IdMap, s: Sketch, cs: Constraints, c: SketchConstraint)
    requires ConstraintsInStep(m, s, cs) && c.id in cs && cs[c.id].(value := c.value) == c
    requires !IsDimensional(c.kind) || Tracked(m.value, c.id) == c.value
    ensures ConstraintsInStep(m, s, cs[c.id := c])
  {
    assert ConstraintInStep(m, s, cs[c.id]);
    ToWireValue(m, cs[c.id], c.value);
    assert cs[c.id := c].Keys == cs.Keys;
  }

  function Listed(m: IdMap, cs: Constraints, c: SketchConstraint): Constraints {
    if ToWire(m, c).Some? then cs[c.id := c] else cs
  }

  /** A constraint already known: its dimension is resent if it changed, and nothing else is. */
  lemma KnownStep(m: IdMap, s: Sketch, es: Entities, cs: Constraints, c: SketchConstraint) returns (s': Sketch)
    requires InStep(m, s, es, cs)
    requires c.id in cs && cs[c.id].(value := c.value) == c
    ensures var (m', ops) := UpsertConstraint(m, c);
      ApplyOps(s, ops) == Some(s') && InStep(m', s', es, cs[c.id := c])
  {
    if IsDimensional(c.kind) && Tracked(m.value, c.id) != c.value {
      ChangedOp(m, s, c);
      ChangedDimension(m, s, es, cs, c);
      s' := Revalued(s, m.constraint[c.id], c.value.GetOr(0.0));
    } else {
      SameDimension(m, s, cs, c);
      s' := s;
    }
  }

  /** A constraint that cannot be expressed takes an id and sends nothing. */
  lemma SkippedStep(m: IdMap, s: Sketch, es: Entities, cs: Constraints, c: SketchConstraint)
    requires InStep(m, s, es, cs)
    requires c.id !in cs && ToWire(m, c).None?
    ensures UpsertConstraint(m, c).1 == [] && InStep(UpsertConstraint(m, c).0, s, es, cs)
  {
    SkippedUpsert(m, c);
    Unminted(m, s, es, cs);
  }

  lemma SkippedUpsert(m: IdMap, c: SketchConstraint)
    requires c.id !in m.constraint && ToWire(m, c).None?
    ensures UpsertConstraint(m, c) == (m.(minted := m.minted + 1), [])
  {
  }

  lemma ConstraintStep(m: IdMap, s: Sketch, es: Entities, cs: Constraints, c: SketchConstraint) returns (s': Sketch)
    requires InStep(m, s, es, cs)
    requires c.id in cs ==> cs[c.id].(value := c.value) == c
    ensures var (m', ops) := UpsertConstraint(m, c);
      ApplyOps(s, ops) == Some(s') && InStep(m', s', es, Listed(m, cs, c))
  {
    if c.id in cs {
      Expressed(m, s, cs, c);
      s' := KnownStep(m, s, es, cs, c);
    } else if ToWire(m, c).Some? {
      s' := NewConstraint(m, s, es, cs, c);
    } else {
      s' := s;
      SkippedStep(m, s, es, cs, c);
    }
  }

  lemma Expressed(m: IdMap, s: Sketch, cs: Constraints, c: SketchConstraint)
    requires ConstraintsInStep(m, s, cs)
    requires c.id in cs && cs[c.id].(value := c.value) == c
    ensures ToWire(m, c).Some?
  {
    assert ConstraintInStep(m, s, cs[c.id]);
    ToWireValue(m, cs[c.id], c.value);
  }

  /** An id minted for nothing changes nothing. */
  lemma Unminted(m: IdMap, s: Sketch, es: Entities, cs: Constraints)
    requires InStep(m, s, es, cs)
    ensures InStep(m.(minted := m.minted + 1), s, es, cs)
  {
    var m' := m.(minted := m.minted + 1);
    OtherImages(m, s, m', s, es);
    UnmintedIds(m, s);
    UnmintedConstraints(m, s, cs);
  }

  lemma UnmintedIds(m: IdMap, s: Sketch)
    requires IdsDistinct(m) && BelowMinted(m, s) && RefsClosed(m, s)
    ensures var m' := m.(minted := m.minted + 1); IdsDistinct(m') && BelowMinted(m', s) && RefsClosed(m', s)
  {
  }

  lemma UnmintedConstraints(m: IdMap, s: Sketch, cs: Constraints)
    requires ConstraintsInStep(m, s, cs)
    ensures ConstraintsInStep(m.(minted := m.minted + 1), s, cs)
  {
    var m' := m.(minted := m.minted + 1);
    forall d: SketchConstraint
      ensures ToWire(m', d) == ToWire(m, d)
    {
      ToWireStable(m, m', d);
    }
  }

  function ListedAll(m: IdMap, cs: Constraints, constraints: seq<SketchConstraint>): Constraints {
    if constraints == [] then cs
    else Listed(m, ListedAll(m, cs, constraints[..|constraints| - 1]), constraints[|constraints| - 1])
  }

  lemma {:induction false} ListedAllKeys(m: IdMap, cs: Constraints, constraints: seq<SketchConstraint>, i: FrontId)
    ensures i in ListedAll(m, cs, constraints) && i !in cs ==> i in ConstraintIds(constraints)
    ensures i !in ConstraintIds(constraints) && i in cs ==>
      i in ListedAll(m, cs, constraints) && ListedAll(m, cs, constraints)[i] == cs[i]
  {
    if constraints != [] {
      var n := |constraints| - 1;
      ListedAllKeys(m, cs, constraints[..n], i);
      assert forall k :: k in ConstraintIds(constraints[..n]) ==> k in ConstraintIds(constraints);
      assert constraints[n].id in ConstraintIds(constraints);
    }
  }

  lemma {:induction false} UpsertsKeepImages(m: IdMap, constraints: seq<SketchConstraint>)
    ensures var m' := UpsertConstraints(m, constraints).0; m'.entity == m.entity && m'.point == m.point
  {
    if constraints != [] {
      var n := |constraints| - 1;
      UpsertsKeepImages(m, constraints[..n]);
    }
  }

  lemma {:induction false} ListedFrom(m: IdMap, cs: Constraints, constraints: seq<SketchConstraint>, i: FrontId)
    requires i in ListedAll(m, cs, constraints)
    ensures var c := ListedAll(m, cs, constraints)[i];
      (i in cs && c == cs[i]) || exists k :: 0 <= k < |constraints| && constraints[k].id == i && constraints[k] == c
  {
    if constraints != [] {
      var n := |constraints| - 1;
      if !(ToWire(m, constraints[n]).Some? && constraints[n].id == i) {
        ListedFrom(m, cs, constraints[..n], i);
      }
    }
  }

  /** What the list so far says about a constraint differs from its next entry only in value. */
  lemma StillRevalued(m: IdMap, cs: Constraints, constraints: seq<SketchConstraint>)
    requires constraints != [] && Revalues(cs, constraints)
    ensures var n := |constraints| - 1;
      var c, known := constraints[n], ListedAll(m, cs, constraints[..n]);
      c.id in known ==> known[c.id].(value := c.value) == c
  {
    var n := |constraints| - 1;
    if constraints[n].id in ListedAll(m, cs, constraints[..n]) {
      ListedFrom(m, cs, constraints[..n], constraints[n].id);
    }
  }

  lemma {:induction false} ConstraintSteps(
    m: IdMap, s: Sketch, es: Entities, cs: Constraints, constraints: seq<SketchConstraint>)
    returns (s': Sketch)
    requires InStep(m, s, es, cs) && Revalues(cs, constraints)
    ensures var (m', ops) := UpsertConstraints(m, constraints);
      ApplyOps(s, ops) == Some(s') && InStep(m', s', es, ListedAll(m, cs, constraints))
  {
    hide InStep, ToWire;
    if constraints == [] {
      s' := s;
    } else {
      var n := |constraints| - 1;
      var init, c := constraints[..n], constraints[n];
      var s1 := ConstraintSteps(m, s, es, cs, init);
      StillRevalued(m, cs, constraints);
      s' := OneMore(m, s, s1, es, ListedAll(m, cs, init), constraints);
    }
  }

  lemma OneMore(m: IdMap, s: Sketch, s1: Sketch, es: Entities, cs1: Constraints, constraints: seq<SketchConstraint>)
    returns (s': Sketch)
    requires constraints != []
    requires var n := |constraints| - 1;
      var (m1, ops) := UpsertConstraints(m, constraints[..n]);
      var c := constraints[n];
      && ApplyOps(s, ops) == Some(s1) && InStep(m1, s1, es, cs1)
      && (c.id in cs1 ==> cs1[c.id].(value := c.value) == c)
    ensures var (m', ops) := UpsertConstraints(m, constraints);
      ApplyOps(s, ops) == Some(s') && InStep(m', s', es, Listed(m, cs1, constraints[|constraints| - 1]))
  {
    hide InStep;
    var n := |constraints| - 1;
    var (m1, ops) := UpsertConstraints(m, constraints[..n]);
    var c := constraints[n];
    s' := ConstraintStep(m1, s1, es, cs1, c);
    UpsertsKeepImages(m, constraints[..n]);
    ToWireStable(m, m1, c);
    assert Listed(m, cs1, c) == Listed(m1, cs1, c);
    ApplyConcat(s, ops, UpsertConstraint(m1, c).1);
  }
}
