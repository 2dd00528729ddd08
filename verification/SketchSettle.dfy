/** Sending the same list again: when the second upsert has nothing left to say. */
module SketchSettle {
  import opened Wrappers
  import opened SketchModel
  import opened SketchMarshal
  import opened SketchSteps
  import opened SketchSync

  // ── Which entry of a list is told to the backend ───────────────────────────

  /** The first entry under `id` that can be expressed: the one an id new to the map is sent with. */
  function FirstSent(m: IdMap, constraints: seq<SketchConstraint>, id: FrontId): Option<SketchConstraint> {
    if constraints == [] then None
    else
      var n := |constraints| - 1;
      var before := FirstSent(m, constraints[..n], id);
      var sends := constraints[n].id == id && ToWire(m, constraints[n]).Some?;
      if before.None? && sends then Some(constraints[n]) else before
  }

  /** Whether `id` is in the map once `before` has been upserted. */
  predicate Known(m: IdMap, before: seq<SketchConstraint>, id: FrontId) {
    id in m.constraint || FirstSent(m, before, id).Some?
  }

  /** Whether the backend has `c`'s value after its turn: as a new constraint's, or as a dimension's. */
  predicate Tells(m: IdMap, before: seq<SketchConstraint>, c: SketchConstraint) {
    if Known(m, before, c.id) then IsDimensional(c.kind) else ToWire(m, c).Some?
  }

  /** Entry `j` is the last under its id whose value the backend has. */
  predicate TellsLast(m: IdMap, constraints: seq<SketchConstraint>, j: nat)
    requires j < |constraints|
  {
    && Tells(m, constraints[..j], constraints[j])
    && forall k :: j < k < |constraints| && constraints[k].id == constraints[j].id ==>
      !IsDimensional(constraints[k].kind)
  }

  /** Every dimension listed under an id has the value told last under it. */
  predicate Agrees(m: IdMap, constraints: seq<SketchConstraint>) {
    forall i, j ::
      && 0 <= i < |constraints| && 0 <= j < |constraints| && constraints[i].id == constraints[j].id
      && IsDimensional(constraints[i].kind) && TellsLast(m, constraints, j)
      ==> constraints[i].value == constraints[j].value
  }

  lemma {:induction false} NotSent(m: IdMap, constraints: seq<SketchConstraint>, id: FrontId)
    ensures FirstSent(m, constraints, id).Some? ==> id in ConstraintIds(constraints)
    ensures FirstSent(m, constraints, id).None? ==>
      forall i :: 0 <= i < |constraints| && constraints[i].id == id ==> ToWire(m, constraints[i]).None?
  {
    if constraints != [] {
      NotSent(m, constraints[..|constraints| - 1], id);
    }
  }

  lemma {:induction false} KnownAfter(m: IdMap, constraints: seq<SketchConstraint>, id: FrontId)
    ensures id in UpsertConstraints(m, constraints).0.constraint <==> Known(m, constraints, id)
  {
    hide ToWire;
    if constraints != [] {
      var n := |constraints| - 1;
      KnownAfter(m, constraints[..n], id);
      UpsertsKeepImages(m, constraints[..n]);
      ToWireStable(m, UpsertConstraints(m, constraints[..n]).0, constraints[n]);
    }
  }

  /** The last entry that tells is what the map remembers. */
  lemma {:induction false} ToldLast(m: IdMap, constraints: seq<SketchConstraint>, j: nat)
    requires j < |constraints| && TellsLast(m, constraints, j)
    ensures var m', c := UpsertConstraints(m, constraints).0, constraints[j];
      c.id in m'.constraint && Tracked(m'.value, c.id) == c.value
  {
    hide ToWire;
    var n := |constraints| - 1;
    var init := constraints[..n];
    KnownAfter(m, init, constraints[n].id);
    UpsertsKeepImages(m, init);
    ToWireStable(m, UpsertConstraints(m, init).0, constraints[n]);
    if j < n {
      assert init[..j] == constraints[..j];
      ToldLast(m, init, j);
    }
  }

  /** If a dimension is listed under a mapped id, some entry tells last under it. */
  lemma {:induction false} SomeTells(m: IdMap, constraints: seq<SketchConstraint>, i: nat) returns (j: nat)
    requires i < |constraints| && IsDimensional(constraints[i].kind) && Known(m, constraints, constraints[i].id)
    ensures j < |constraints| && constraints[j].id == constraints[i].id && TellsLast(m, constraints, j)
  {
    hide ToWire;
    var n := |constraints| - 1;
    var init, c := constraints[..n], constraints[n];
    if c.id == constraints[i].id && Tells(m, init, c) {
      j := n;
    } else {
      j := SomeTells(m, init, i);
      assert init[..j] == constraints[..j];
    }
  }

  // ── What a second upsert sends ─────────────────────────────────────────────

  ghost predicate ConstraintSettled(m: IdMap, c: SketchConstraint) {
    if c.id in m.constraint then IsDimensional(c.kind) ==> Tracked(m.value, c.id) == c.value
    else ToWire(m, c).None?
  }

  /** Upserting a list leaves each of its entries settled exactly if its dimensions agree. */
  lemma SettledExactly(m: IdMap, constraints: seq<SketchConstraint>)
    ensures Agrees(m, constraints) <==>
      forall i :: 0 <= i < |constraints| ==> ConstraintSettled(UpsertConstraints(m, constraints).0, constraints[i])
  {
    hide ToWire, TellsLast;
    var m' := UpsertConstraints(m, constraints).0;
    UpsertsKeepImages(m, constraints);
    if Agrees(m, constraints) {
      forall i | 0 <= i < |constraints|
        ensures ConstraintSettled(m', constraints[i])
      {
        var c := constraints[i];
        KnownAfter(m, constraints, c.id);
        if c.id !in m'.constraint {
          NotSent(m, constraints, c.id);
          ToWireStable(m, m', c);
        } else if IsDimensional(c.kind) {
          var j := SomeTells(m, constraints, i);
          ToldLast(m, constraints, j);
        }
      }
    } else {
      var i, j :| 0 <= i < |constraints| && 0 <= j < |constraints| && constraints[i].id == constraints[j].id
        && IsDimensional(constraints[i].kind) && TellsLast(m, constraints, j)
          && constraints[i].value != constraints[j].value;
      ToldLast(m, constraints, j);
      assert !ConstraintSettled(m', constraints[i]);
    }
  }

  lemma {:induction false} SilentExactly(m: IdMap, constraints: seq<SketchConstraint>)
    ensures var (m', ops) := UpsertConstraints(m, constraints);
      && (ops == [] <==> forall i :: 0 <= i < |constraints| ==> ConstraintSettled(m, constraints[i]))
      && (ops == [] ==> m' == m.(minted := m'.minted))
  {
    hide ToWire;
    if constraints != [] {
      var n := |constraints| - 1;
      SilentExactly(m, constraints[..n]);
      var m1 := UpsertConstraints(m, constraints[..n]).0;
      if UpsertConstraints(m, constraints[..n]).1 == [] {
        ToWireStable(m, m1, constraints[n]);
        assert UpsertConstraint(m1, constraints[n]).1 == [] <==> ConstraintSettled(m, constraints[n]);
      }
    }
  }

  /** The map once removals are done and entities added, before the constraints' turn. */
  ghost function Ready(m: IdMap, next: Model, es: seq<FrontId>, cs: seq<FrontId>): IdMap
    requires Enumerates(es, m.entity.Keys) && Enumerates(cs, m.constraint.Keys)
  {
    var m1 := RemoveEntities(m, es, EntityIds(next.entities)).0;
    RemoveEntitiesKeepConstraints(m, es, EntityIds(next.entities));
    AddEntities(RemoveConstraints(m1, cs, ConstraintIds(next.constraints)).0, next.entities).0
  }

  lemma ReadyFacts(m: IdMap, next: Model, es: seq<FrontId>, cs: seq<FrontId>)
    requires Enumerates(es, m.entity.Keys) && Enumerates(cs, m.constraint.Keys)
    ensures var ready := Ready(m, next, es, cs);
      && ready.constraint == Kept(m.constraint, ConstraintIds(next.constraints))
      && ready.value == (map k | k in m.value
        && (k in ConstraintIds(next.constraints) || k !in m.constraint) :: m.value[k])
      && ready.entity.Keys <= EntityIds(next.entities)
      && (forall i :: 0 <= i < |next.entities| ==> next.entities[i].id in ready.entity || !Mappable(next.entities[i]))
      && Upsert(m, next, es, cs).0 == UpsertConstraints(ready, next.constraints).0
  {
    var live, liveC := EntityIds(next.entities), ConstraintIds(next.constraints);
    RemoveEntitiesKeepConstraints(m, es, live);
    RemovedMap(m, es, live);
    var m1 := RemoveEntities(m, es, live).0;
    RemovedConstraintsMap(m1, cs, liveC);
    AdditionsKnown(RemoveConstraints(m1, cs, liveC).0, next.entities);
  }

  /**
   Sent again, a list says nothing exactly if, after the first time, every dimension it lists under
   an id has the value told last under that id. The map before the first time may be any.
   */
  lemma SecondUpsertSilentExactly(
    m: IdMap, next: Model, es: seq<FrontId>, cs: seq<FrontId>, es': seq<FrontId>, cs': seq<FrontId>)
    requires Enumerates(es, m.entity.Keys) && Enumerates(cs, m.constraint.Keys)
    requires var m' := Upsert(m, next, es, cs).0; Enumerates(es', m'.entity.Keys) && Enumerates(cs', m'.constraint.Keys)
    ensures Upsert(Upsert(m, next, es, cs).0, next, es', cs').1 == [] <==>
      Agrees(Ready(m, next, es, cs), next.constraints)
  {
    hide Agrees;
    var ready, m' := Ready(m, next, es, cs), Upsert(m, next, es, cs).0;
    ReadyFacts(m, next, es, cs);
    UpsertsKeepImages(ready, next.constraints);
    forall id | id in m'.constraint
      ensures id in ConstraintIds(next.constraints)
    {
      KnownAfter(ready, next.constraints, id);
      NotSent(ready, next.constraints, id);
    }
    OnlyConstraintsSpeak(m', next, es', cs');
    SettledExactly(ready, next.constraints);
    SilentExactly(m', next.constraints);
  }

  lemma OnlyConstraintsSpeak(m: IdMap, next: Model, es: seq<FrontId>, cs: seq<FrontId>)
    requires Enumerates(es, m.entity.Keys) && Enumerates(cs, m.constraint.Keys)
    requires m.entity.Keys <= EntityIds(next.entities) && m.constraint.Keys <= ConstraintIds(next.constraints)
    requires forall i :: 0 <= i < |next.entities| ==> next.entities[i].id in m.entity || !Mappable(next.entities[i])
    ensures Upsert(m, next, es, cs) == UpsertConstraints(m, next.constraints)
  {
    NothingRemoved(m, es, EntityIds(next.entities));
    NoConstraintRemoved(m, cs, ConstraintIds(next.constraints));
    NothingAdded(m, next.entities);
    assert [] + [] + [] + UpsertConstraints(m, next.constraints).1 == UpsertConstraints(m, next.constraints).1;
  }

  /** With unique constraint ids the second upsert is silent, whatever else was listed. */
  lemma SecondUpsertSilent(
    m: IdMap, next: Model, es: seq<FrontId>, cs: seq<FrontId>, es': seq<FrontId>, cs': seq<FrontId>)
    requires Enumerates(es, m.entity.Keys) && Enumerates(cs, m.constraint.Keys)
    requires UniqueConstraints(next.constraints)
    ensures var m' := Upsert(m, next, es, cs).0;
      Enumerates(es', m'.entity.Keys) && Enumerates(cs', m'.constraint.Keys) ==> Upsert(m', next, es', cs').1 == []
  {
    var m' := Upsert(m, next, es, cs).0;
    if Enumerates(es', m'.entity.Keys) && Enumerates(cs', m'.constraint.Keys) {
      SecondUpsertSilentExactly(m, next, es, cs, es', cs');
    }
  }

  /** What shares an id is alike in being a dimension or not. */
  predicate Alike(constraints: seq<SketchConstraint>) {
    forall i, j :: 0 <= i < |constraints| && 0 <= j < |constraints| && constraints[i].id == constraints[j].id ==>
      IsDimensional(constraints[i].kind) == IsDimensional(constraints[j].kind)
  }

  /** Two listed dimensions under one mapped id have the same value. */
  predicate SharedValues(m: IdMap, constraints: seq<SketchConstraint>) {
    forall i, j ::
      && 0 <= i < |constraints| && 0 <= j < |constraints| && constraints[i].id == constraints[j].id
      && constraints[i].id in m.constraint && IsDimensional(constraints[i].kind) && IsDimensional(constraints[j].kind)
      ==> constraints[i].value == constraints[j].value
  }

  /**
   Where sharing ids never mixes dimensions with others, the second upsert is silent exactly if shared
   dimensions agree.
   */
  lemma SharedDimensionsSilent(
    m: IdMap, next: Model, es: seq<FrontId>, cs: seq<FrontId>, es': seq<FrontId>, cs': seq<FrontId>)
    requires Enumerates(es, m.entity.Keys) && Enumerates(cs, m.constraint.Keys) && Alike(next.constraints)
    requires var m' := Upsert(m, next, es, cs).0; Enumerates(es', m'.entity.Keys) && Enumerates(cs', m'.constraint.Keys)
    ensures var m' := Upsert(m, next, es, cs).0;
      Upsert(m', next, es', cs').1 == [] <==> SharedValues(m', next.constraints)
  {
    hide Upsert, TellsLast, ToWire;
    var ready, m', list := Ready(m, next, es, cs), Upsert(m, next, es, cs).0, next.constraints;
    SecondUpsertSilentExactly(m, next, es, cs, es', cs');
    ReadyFacts(m, next, es, cs);
    if SharedValues(m', list) {
      forall i, j | 0 <= i < |list| && 0 <= j < |list| && list[i].id == list[j].id
        && IsDimensional(list[i].kind) && TellsLast(ready, list, j)
        ensures list[i].value == list[j].value
      {
        ToldLast(ready, list, j);
      }
    }
    if Agrees(ready, list) {
      forall i, j | 0 <= i < |list| && 0 <= j < |list| && list[i].id == list[j].id
        && list[i].id in m'.constraint && IsDimensional(list[i].kind) && IsDimensional(list[j].kind)
        ensures list[i].value == list[j].value
      {
        KnownAfter(ready, list, list[i].id);
        var l := SomeTells(ready, list, i);
      }
    }
  }

  /**
   Without that the dimensions alone do not decide: here only one dimension is listed under the id, but
   it cannot be expressed, and what is sent in its place carries another value.
   */
  lemma MixedKindsDisagree(m: IdMap, c: SketchConstraint, d: SketchConstraint)
    requires c.id == d.id && c.id !in m.constraint && c.value != d.value
    requires IsDimensional(c.kind) && ToWire(m, c).None? && !IsDimensional(d.kind) && ToWire(m, d).Some?
    ensures !Agrees(m, [c, d]) && SharedValues(UpsertConstraints(m, [c, d]).0, [c, d])
  {
    hide ToWire;
    assert [c, d][..1] == [c] && [c][..0] == [];
    assert FirstSent(m, [c], c.id) == None;
    assert TellsLast(m, [c, d], 1);
  }

  /** Two dimensions listed under one mapped id with different values are sent on every call from then on. */
  lemma SharedIdNeverSettles(m: IdMap, next: Model, es: seq<FrontId>, cs: seq<FrontId>,
                             es': seq<FrontId>, cs': seq<FrontId>, i: nat, j: nat)
    requires Enumerates(es, m.entity.Keys) && Enumerates(cs, m.constraint.Keys)
    requires var m' := Upsert(m, next, es, cs).0; Enumerates(es', m'.entity.Keys) && Enumerates(cs', m'.constraint.Keys)
    requires i < |next.constraints| && j < |next.constraints|
    requires next.constraints[i].id == next.constraints[j].id
      && next.constraints[i].id in Upsert(m, next, es, cs).0.constraint
    requires IsDimensional(next.constraints[i].kind) && IsDimensional(next.constraints[j].kind)
    requires next.constraints[i].value != next.constraints[j].value
    ensures var (m'', ops) := Upsert(Upsert(m, next, es, cs).0, next, es', cs');
      ops != [] && next.constraints[i].id in m''.constraint
  {
    hide Upsert, TellsLast, ToWire;
    var ready, m', list := Ready(m, next, es, cs), Upsert(m, next, es, cs).0, next.constraints;
    SecondUpsertSilentExactly(m, next, es, cs, es', cs');
    ReadyFacts(m, next, es, cs);
    KnownAfter(ready, list, list[i].id);
    var l := SomeTells(ready, list, i);
    ReadyFacts(m', next, es', cs');
    KnownAfter(Ready(m', next, es', cs'), list, list[i].id);
  }

  // ── The phases that have nothing to do ─────────────────────────────────────

  lemma {:induction false} AdditionsKnown(m: IdMap, entities: seq<SketchEntity>)
    ensures var m' := AddEntities(m, entities).0;
      && m'.constraint == m.constraint && m'.value == m.value
      && m.entity.Keys <= m'.entity.Keys <= m.entity.Keys + EntityIds(entities)
      && (forall i :: 0 <= i < |entities| ==> entities[i].id in m'.entity || !Mappable(entities[i]))
  {
    hide AddEntityOps, Mappable;
    if entities != [] {
      var n := |entities| - 1;
      AdditionsKnown(m, entities[..n]);
      OneKnown(AddEntities(m, entities[..n]).0, entities[n]);
      assert EntityIds(entities) == EntityIds(entities[..n]) + {entities[n].id};
      assert forall i :: 0 <= i < n ==> entities[..n][i] == entities[i];
    }
  }

  lemma OneKnown(m: IdMap, e: SketchEntity)
    ensures var m' := AddEntityOps(m, e).0;
      && m'.constraint == m.constraint && m'.value == m.value
      && m'.entity.Keys == if Mappable(e) then m.entity.Keys + {e.id} else m.entity.Keys
  {
  }

  lemma {:induction false} NothingRemoved(m: IdMap, order: seq<FrontId>, live: set<FrontId>)
    requires m.entity.Keys <= live && forall i :: 0 <= i < |order| ==> order[i] in m.entity
    ensures RemoveEntities(m, order, live) == (m, [])
  {
    if order != [] {
      NothingRemoved(m, order[..|order| - 1], live);
    }
  }

  lemma {:induction false} NoConstraintRemoved(m: IdMap, order: seq<FrontId>, live: set<FrontId>)
    requires m.constraint.Keys <= live && forall i :: 0 <= i < |order| ==> order[i] in m.constraint
    ensures RemoveConstraints(m, order, live) == (m, [])
  {
    if order != [] {
      NoConstraintRemoved(m, order[..|order| - 1], live);
    }
  }

  lemma {:induction false} NothingAdded(m: IdMap, entities: seq<SketchEntity>)
    requires forall i :: 0 <= i < |entities| ==> entities[i].id in m.entity || !Mappable(entities[i])
    ensures AddEntities(m, entities) == (m, [])
  {
    if entities != [] {
      var n := |entities| - 1;
      NothingAdded(m, entities[..n]);
      if entities[n].id !in m.entity {
        assert AddEntityOps(m, entities[n]) == (m, []);
        assert AddEntities(m, entities[..n]).1 + AddEntityOps(m, entities[n]).1 == [];
      }
    }
  }
}
