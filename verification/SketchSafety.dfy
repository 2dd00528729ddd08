/** Any sequence of upserts: what stays live, and which batches the backend accepts. */
module SketchSafety {
  import opened Wrappers
  import opened SketchModel
  import opened SketchMarshal
  import opened SketchSteps
  import opened SketchSync
  import opened SketchSettle
  import opened SketchSolve

  // ── What holds whatever is listed ──────────────────────────────────────────

  /** Ids are distinct and fresh, references stay inside, and all that is mapped but constraints is live. */
  ghost predicate Sound(m: IdMap, s: Sketch) {
    && IdsDistinct(m) && BelowMinted(m, s) && RefsClosed(m, s) && MapLive(m, s)
    && m.value.Keys == m.constraint.Keys
  }

  lemma InStepIsSound(m: IdMap, s: Sketch, es: Entities, cs: Constraints)
    requires InStep(m, s, es, cs)
    ensures Sound(m, s)
  {
    InStepIsLive(m, s, es);
  }

  lemma PrunedSound(m: IdMap, s: Sketch, m': IdMap, s': Sketch, live: set<FrontId>, liveC: set<FrontId>)
    requires Sound(m, s) && Pruned(m, s, m', s', live, liveC)
    ensures Sound(m', s')
  {
    hide RefsClosed, BelowMinted;
    PrunedIds(m, s, m', s', live, liveC);
    forall i | i in m'.entity
      ensures m'.entity[i] in s'.entities
    {
      assert m.entity[i] !in Lost(m.entity, live);
    }
    forall k | k in m'.point
      ensures m'.point[k] in s'.entities && k.0 in m'.entity
    {
      assert Owned(k.0, k.0);
      assert m.point[k] !in Lost(m.entity, live);
    }
  }

  lemma AddedSound(m: IdMap, s: Sketch, e: SketchEntity) returns (s': Sketch)
    requires Sound(m, s) && Mappable(e) && e.id !in m.entity
    ensures ApplyOps(s, AddEntityOps(m, e).1) == Some(s')
    ensures Sound(AddEntityOps(m, e).0, s') && s'.constraints == s.constraints
  {
    s' := AddedImage(m, s, e);
    var m' := AddEntityOps(m, e).0;
    ExtendedIds(m, s, m', s', e);
    ExtendedLive(m, s, m', s', e);
  }

  lemma ExtendedLive(m: IdMap, s: Sketch, m': IdMap, s': Sketch, e: SketchEntity)
    requires MapLive(m, s) && e.id !in m.entity && Extended(m, s, m', s', e)
    ensures MapLive(m', s')
  {
    forall k | k in m'.point
      ensures m'.point[k] in s'.entities && k.0 in m'.entity
    {
      if k !in m.point {
        assert k == (e.id, k.1) && HasPosition(e.kind, k.1);
      }
    }
  }

  lemma {:induction false} AdditionsSound(m: IdMap, s: Sketch, entities: seq<SketchEntity>) returns (s': Sketch)
    requires Sound(m, s)
    ensures ApplyOps(s, AddEntities(m, entities).1) == Some(s')
    ensures Sound(AddEntities(m, entities).0, s') && s'.constraints == s.constraints
  {
    hide Sound, AddEntityOps, Mappable;
    if entities == [] {
      s' := s;
    } else {
      var init, e := entities[..|entities| - 1], entities[|entities| - 1];
      var s1 := AdditionsSound(m, s, init);
      var (m1, ops) := AddEntities(m, init);
      if e.id in m1.entity {
        s' := s1;
      } else if !Mappable(e) {
        s' := s1;
        OneKnown(m1, e);
        Unmappable(m1, e);
        assert ops + [] == ops;
      } else {
        s' := AddedSound(m1, s1, e);
        ApplyConcat(s, ops, AddEntityOps(m1, e).1);
      }
    }
  }

  lemma Unmappable(m: IdMap, e: SketchEntity)
    requires !Mappable(e)
    ensures AddEntityOps(m, e) == (m, [])
  {
  }

  // ── Which dimensions can be set ────────────────────────────────────────────

  /** The value remembered under `id` before a list says anything else. */
  function FirstTold(m: IdMap, before: seq<SketchConstraint>, id: FrontId): Option<real> {
    if id in m.constraint then Tracked(m.value, id)
    else match FirstSent(m, before, id)
      case Some(c) => c.value
      case None => None
  }

  /** The entry is of a dimension already sent, and differs from what was sent with it. */
  predicate Resets(m: IdMap, before: seq<SketchConstraint>, c: SketchConstraint) {
    Known(m, before, c.id) && IsDimensional(c.kind) && c.value != FirstTold(m, before, c.id)
  }

  predicate HasDimension(s: Sketch, u: Uuid) {
    u in s.constraints && IsDimensional(s.constraints[u].kind)
  }

  /** What was sent under `id` is a live dimension. */
  predicate Settable(m: IdMap, s: Sketch, before: seq<SketchConstraint>, id: FrontId) {
    if id in m.constraint then HasDimension(s, m.constraint[id])
    else
      var sent := FirstSent(m, before, id);
      sent.Some? && IsDimensional(sent.value.kind)
  }

  predicate DimensionsLand(m: IdMap, s: Sketch, constraints: seq<SketchConstraint>) {
    forall i :: 0 <= i < |constraints| && Resets(m, constraints[..i], constraints[i]) ==>
      Settable(m, s, constraints[..i], constraints[i].id)
  }

  /** What `constraints` made of the constraint under `id`. */
  ghost predicate ToldOne(m: IdMap, s: Sketch, m': IdMap, s': Sketch, constraints: seq<SketchConstraint>, id: FrontId)
    requires id in m'.constraint
  {
    && (id in m.constraint ==>
          && m'.constraint[id] == m.constraint[id]
          && (m.constraint[id] in s'.constraints <==> m.constraint[id] in s.constraints))
    && (id !in m.constraint ==> m'.constraint[id] in s'.constraints)
    && (HasDimension(s', m'.constraint[id]) <==> Settable(m, s, constraints, id))
    && (Tracked(m'.value, id) == FirstTold(m, constraints, id) || Settable(m, s, constraints, id))
  }

  ghost predicate Told(m: IdMap, s: Sketch, m': IdMap, s': Sketch, constraints: seq<SketchConstraint>) {
    && m'.entity == m.entity && m'.point == m.point
    && (forall id :: id in m'.constraint <==> Known(m, constraints, id))
    && (forall id :: id in m'.constraint ==> ToldOne(m, s, m', s', constraints, id))
  }

  lemma PrefixSent(m: IdMap, constraints: seq<SketchConstraint>, id: FrontId)
    requires constraints != []
    ensures var n := |constraints| - 1;
      var before := FirstSent(m, constraints[..n], id);
      before.Some? || constraints[n].id != id ==> FirstSent(m, constraints, id) == before
  {
  }

  /** An entry under an id new to the map: it is sent if it can be expressed, and always accepted. */
  lemma NewEntry(m: IdMap, s: Sketch, c: SketchConstraint) returns (s': Sketch)
    requires Sound(m, s) && c.id !in m.constraint
    ensures var (m', ops) := UpsertConstraint(m, c);
      && ApplyOps(s, ops) == Some(s') && Sound(m', s')
      && m'.entity == m.entity && m'.point == m.point
      && (if ToWire(m, c).None? then m' == m.(minted := m.minted + 1) && s' == s
          else
            && m' == m.(constraint := m.constraint[c.id := m.minted], value := m.value[c.id := c.value],
              minted := m.minted + 1)
            && s' == s.(constraints := s.constraints[m.minted := ToWire(m, c).value])
            && m.minted !in s.constraints && (forall id :: id in m.constraint ==> m.constraint[id] != m.minted))
  {
    hide ToWire, IdsDistinct, BelowMinted, RefsClosed;
    if ToWire(m, c).None? {
      SkippedUpsert(m, c);
      UnmintedIds(m, s);
      s' := s;
    } else {
      WireRefsLive(m, s, c);
      FreshConstraint(m, s);
      NewConstraintIds(m, s, c);
      s' := s.(constraints := s.constraints[m.minted := ToWire(m, c).value]);
    }
  }

  /** An entry under a known id: nothing, or a dimension that is accepted exactly if it is there to be set. */
  lemma KnownEntry(m: IdMap, s: Sketch, c: SketchConstraint)
    requires Sound(m, s) && c.id in m.constraint
    ensures var (m', ops) := UpsertConstraint(m, c);
      if IsDimensional(c.kind) && Tracked(m.value, c.id) != c.value then
        && m' == m.(value := m.value[c.id := c.value])
        && (ApplyOps(s, ops).Some? <==> HasDimension(s, m.constraint[c.id]))
        && (ApplyOps(s, ops).Some? ==>
              && ApplyOps(s, ops).value == Revalued(s, m.constraint[c.id], c.value.GetOr(0.0))
              && Sound(m', ApplyOps(s, ops).value))
      else m' == m && ops == []
  {
    ApplyOne(s, SetDimension(m.constraint[c.id], c.value.GetOr(0.0)));
    if HasDimension(s, m.constraint[c.id]) {
      ChangedIds(m, s, c, c.value.GetOr(0.0));
    }
  }

  lemma WireKind(m: IdMap, c: SketchConstraint)
    requires ToWire(m, c).Some?
    ensures ToWire(m, c).value.kind == c.kind
  {
  }

  /** What was made of a known constraint, carried over one more entry. */
  lemma ToldBefore(
    m: IdMap, s: Sketch, m1: IdMap, s1: Sketch, m': IdMap, s': Sketch, constraints: seq<SketchConstraint>, id: FrontId)
    requires constraints != [] && id in m1.constraint && Known(m, constraints[..|constraints| - 1], id)
    requires ToldOne(m, s, m1, s1, constraints[..|constraints| - 1], id)
    requires id in m'.constraint && m'.constraint[id] == m1.constraint[id]
    requires m1.constraint[id] in s'.constraints <==> m1.constraint[id] in s1.constraints
    requires HasDimension(s', m1.constraint[id]) <==> HasDimension(s1, m1.constraint[id])
    requires Tracked(m'.value, id) == Tracked(m1.value, id) || HasDimension(s1, m1.constraint[id])
    ensures ToldOne(m, s, m', s', constraints, id)
  {
    hide ToWire;
    PrefixSent(m, constraints, id);
  }

  lemma KnownMore(m: IdMap, constraints: seq<SketchConstraint>, id: FrontId)
    requires constraints != []
    ensures var n := |constraints| - 1; var c := constraints[n];
      Known(m, constraints, id) <==> Known(m, constraints[..n], id) || (c.id == id && ToWire(m, c).Some?)
  {
  }

  /** What the list so far made of the map, carried over an entry under a new id. */
  lemma ToldNew(m: IdMap, s: Sketch, m1: IdMap, s1: Sketch, s': Sketch, constraints: seq<SketchConstraint>)
    requires constraints != []
    requires var n := |constraints| - 1; var c := constraints[n];
      && Sound(m1, s1) && Told(m, s, m1, s1, constraints[..n]) && c.id !in m1.constraint
      && ApplyOps(s1, UpsertConstraint(m1, c).1) == Some(s')
    ensures Told(m, s, UpsertConstraint(m1, constraints[|constraints| - 1]).0, s', constraints)
  {
    hide ToWire, Sound, FirstSent, ToldOne;
    var n := |constraints| - 1;
    var c := constraints[n];
    var m' := UpsertConstraint(m1, c).0;
    var s2 := NewEntry(m1, s1, c);
    ToWireStable(m, m1, c);
    forall id
      ensures id in m'.constraint <==> Known(m, constraints, id)
      ensures id in m'.constraint ==> ToldOne(m, s, m', s', constraints, id)
    {
      KnownMore(m, constraints, id);
      if id in m1.constraint {
        ToldBefore(m, s, m1, s1, m', s', constraints, id);
      } else if id in m'.constraint {
        ToldFirst(m, s, m1, m', s', constraints);
      }
    }
  }

  lemma ToldFirst(m: IdMap, s: Sketch, m1: IdMap, m': IdMap, s': Sketch, constraints: seq<SketchConstraint>)
    requires constraints != []
    requires var n := |constraints| - 1; var c := constraints[n];
      && !Known(m, constraints[..n], c.id) && ToWire(m, c).Some?
      && m'.constraint == m1.constraint[c.id := m1.minted] && m'.value == m1.value[c.id := c.value]
      && m1.minted in s'.constraints && s'.constraints[m1.minted] == ToWire(m, c).value
    ensures ToldOne(m, s, m', s', constraints, constraints[|constraints| - 1].id)
  {
    hide ToWire;
    WireKind(m, constraints[|constraints| - 1]);
  }

  /** The same over an entry under a known id. */
  lemma ToldKnown(m: IdMap, s: Sketch, m1: IdMap, s1: Sketch, s': Sketch, constraints: seq<SketchConstraint>)
    requires constraints != []
    requires var n := |constraints| - 1; var c := constraints[n];
      && Sound(m1, s1) && Told(m, s, m1, s1, constraints[..n]) && c.id in m1.constraint
      && ApplyOps(s1, UpsertConstraint(m1, c).1) == Some(s')
    ensures Told(m, s, UpsertConstraint(m1, constraints[|constraints| - 1]).0, s', constraints)
  {
    hide ToWire, Sound, FirstSent, ToldOne;
    var n := |constraints| - 1;
    var c := constraints[n];
    var m' := UpsertConstraint(m1, c).0;
    KnownEntry(m1, s1, c);
    forall id
      ensures id in m'.constraint <==> Known(m, constraints, id)
      ensures id in m'.constraint ==> ToldOne(m, s, m', s', constraints, id)
    {
      KnownMore(m, constraints, id);
      if id in m1.constraint {
        ToldBefore(m, s, m1, s1, m', s', constraints, id);
      }
    }
  }

  lemma LandMore(m: IdMap, s: Sketch, constraints: seq<SketchConstraint>)
    requires constraints != []
    ensures var n := |constraints| - 1;
      DimensionsLand(m, s, constraints) <==>
        && DimensionsLand(m, s, constraints[..n])
        && (Resets(m, constraints[..n], constraints[n]) ==> Settable(m, s, constraints[..n], constraints[n].id))
  {
    hide Resets, Settable;
    var n := |constraints| - 1;
    assert forall i :: 0 <= i < n ==>
      constraints[..n][..i] == constraints[..i] && constraints[..n][i] == constraints[i];
  }

  lemma RejectedPrefix(s: Sketch, xs: seq<Op>, ys: seq<Op>)
    requires ApplyOps(s, xs).None?
    ensures ApplyOps(s, xs + ys).None?
    decreases |ys|
  {
    if ys == [] {
      assert xs + ys == xs;
    } else {
      RejectedPrefix(s, xs, ys[..|ys| - 1]);
      assert (xs + ys)[..|xs + ys| - 1] == xs + ys[..|ys| - 1];
    }
  }

  /** The constraints' turn: the backend accepts all of it exactly if every dimension to be set is there. */
  lemma {:induction false} ConstraintsLand(m: IdMap, s: Sketch, constraints: seq<SketchConstraint>)
    requires Sound(m, s)
    ensures var (m', ops) := UpsertConstraints(m, constraints);
      && (ApplyOps(s, ops).Some? <==> DimensionsLand(m, s, constraints))
      && (ApplyOps(s, ops).Some? ==>
        Sound(m', ApplyOps(s, ops).value) && Told(m, s, m', ApplyOps(s, ops).value, constraints))
  {
    hide ToWire, Sound, Told, DimensionsLand;
    if constraints == [] {
      NothingTold(m, s);
    } else {
      var n := |constraints| - 1;
      ConstraintsLand(m, s, constraints[..n]);
      LandMore(m, s, constraints);
      var (m1, ops) := UpsertConstraints(m, constraints[..n]);
      var more := UpsertConstraint(m1, constraints[n]).1;
      if ApplyOps(s, ops).None? {
        RejectedPrefix(s, ops, more);
      } else {
        ApplyConcat(s, ops, more);
        OneLands(m, s, m1, ApplyOps(s, ops).value, constraints);
      }
    }
  }

  lemma NothingTold(m: IdMap, s: Sketch)
    ensures Told(m, s, m, s, []) && DimensionsLand(m, s, [])
  {
  }

  lemma OneLands(m: IdMap, s: Sketch, m1: IdMap, s1: Sketch, constraints: seq<SketchConstraint>)
    requires constraints != []
    requires Sound(m1, s1) && Told(m, s, m1, s1, constraints[..|constraints| - 1])
    ensures var n := |constraints| - 1;
      var (m', more) := UpsertConstraint(m1, constraints[n]);
      && (ApplyOps(s1, more).Some? <==>
            (Resets(m, constraints[..n], constraints[n]) ==> Settable(m, s, constraints[..n], constraints[n].id)))
      && (ApplyOps(s1, more).Some? ==>
        Sound(m', ApplyOps(s1, more).value) && Told(m, s, m', ApplyOps(s1, more).value, constraints))
  {
    hide ToWire, Sound, FirstSent;
    var n := |constraints| - 1;
    var c := constraints[n];
    var (m', more) := UpsertConstraint(m1, c);
    if c.id !in m1.constraint {
      var s' := NewEntry(m1, s1, c);
      ToldNew(m, s, m1, s1, s', constraints);
    } else {
      KnownEntry(m1, s1, c);
      assert ToldOne(m, s, m1, s1, constraints[..n], c.id);
      if ApplyOps(s1, more).Some? {
        ToldKnown(m, s, m1, s1, ApplyOps(s1, more).value, constraints);
      }
    }
  }

  // ── Any upsert ─────────────────────────────────────────────────────────────

  /**
   Whether entry `i` of the list sets no dimension, or one the backend still has once the removed
   entities and all that refers to them are gone. `ready` is the map at the constraints' turn.
   */
  ghost predicate Lands(m: IdMap, s: Sketch, ready: IdMap, next: Model, i: nat)
    requires i < |next.constraints|
  {
    var c, before := next.constraints[i], next.constraints[..i];
    Resets(ready, before, c) ==>
      if c.id in m.constraint then Survives(s, m.constraint[c.id], Lost(m.entity, EntityIds(next.entities)))
        && IsDimensional(s.constraints[m.constraint[c.id]].kind)
      else Settable(ready, s, before, c.id)
  }

  ghost predicate Survives(s: Sketch, u: Uuid, gone: set<Uuid>) {
    u in s.constraints && !Refers(s.constraints[u].refs, gone)
  }

  /** Removals and additions are always accepted. */
  lemma ReadySound(m: IdMap, s: Sketch, next: Model, eo: seq<FrontId>, co: seq<FrontId>) returns (s3: Sketch)
    requires Sound(m, s)
    requires Enumerates(eo, m.entity.Keys) && Enumerates(co, m.constraint.Keys)
    ensures var ready := Ready(m, next, eo, co);
      var list := next.constraints;
      && Sound(ready, s3)
      && ready.constraint == Kept(m.constraint, ConstraintIds(list))
        && ready.value == Kept(m.value, ConstraintIds(list))
      && (ApplyOps(s, Upsert(m, next, eo, co).1) == ApplyOps(s3, UpsertConstraints(ready, list).1))
    ensures s3.constraints == map c | c in s.constraints
      && !Refers(s.constraints[c].refs, Lost(m.entity, EntityIds(next.entities)))
      && c !in Lost(m.constraint, ConstraintIds(next.constraints)) :: s.constraints[c]
  {
    hide ToWire, UpsertConstraints, AddEntities, IdsDistinct, BelowMinted, RefsClosed, Dropped;
    var live, liveC := EntityIds(next.entities), ConstraintIds(next.constraints);
    ReadyFacts(m, next, eo, co);
    var m2, s2 := RemovalsPrune(m, s, eo, co, live, liveC);
    PrunedSound(m, s, m2, s2, live, liveC);
    s3 := AdditionsSound(m2, s2, next.entities);
    var (m1, ops1) := RemoveEntities(m, eo, live);
    var ops2 := RemoveConstraints(m1, co, liveC).1;
    var (m3, ops3) := AddEntities(m2, next.entities);
    ApplyConcat(s, ops1 + ops2, ops3);
    ApplyConcat(s, ops1 + ops2 + ops3, UpsertConstraints(m3, next.constraints).1);
  }

  /**
   Any list at all: the backend accepts the batch exactly if every dimension it sets is still there,
   and then all that is mapped is live, but for constraints that fell with an entity they refer to.
   */
  lemma UpsertAcceptedExactly(m: IdMap, s: Sketch, next: Model, eo: seq<FrontId>, co: seq<FrontId>)
    requires Sound(m, s)
    requires Enumerates(eo, m.entity.Keys) && Enumerates(co, m.constraint.Keys)
    ensures var (m', ops) := Upsert(m, next, eo, co);
      && (ApplyOps(s, ops).Some? <==>
            forall i :: 0 <= i < |next.constraints| ==> Lands(m, s, Ready(m, next, eo, co), next, i))
      && (ApplyOps(s, ops).Some? ==>
            var s' := ApplyOps(s, ops).value;
            && Sound(m', s')
            && forall id :: id in m'.constraint ==>
                 (m'.constraint[id] in s'.constraints <==>
                  (id in m.constraint ==> Survives(s, m.constraint[id], Lost(m.entity, EntityIds(next.entities))))))
  {
    hide ToWire, Sound, Upsert, Ready, UpsertConstraints, Resets;
    var ready := Ready(m, next, eo, co);
    var list, gone := next.constraints, Lost(m.entity, EntityIds(next.entities));
    ReadyFacts(m, next, eo, co);
    var s3 := ReadySound(m, s, next, eo, co);
    ConstraintsLand(ready, s3, list);
    assert m.value.Keys == m.constraint.Keys && IdsDistinct(m) by { SoundIds(m, s); }
    forall id | id in m.constraint && id in ConstraintIds(list)
      ensures id in ready.constraint && (m.constraint[id] in s3.constraints <==> Survives(s, m.constraint[id], gone))
    {
      assert m.constraint[id] !in Lost(m.constraint, ConstraintIds(list));
    }
    forall i | 0 <= i < |list|
      ensures Lands(m, s, ready, next, i) <==>
        (Resets(ready, list[..i], list[i]) ==> Settable(ready, s3, list[..i], list[i].id))
    {
      LandsWhere(m, s, ready, s3, next, i);
    }
    AcceptedConstraints(m, s, next, ready, s3, eo, co);
  }

  lemma SoundIds(m: IdMap, s: Sketch)
    requires Sound(m, s)
    ensures m.value.Keys == m.constraint.Keys && IdsDistinct(m)
  {
  }

  lemma LandsWhere(m: IdMap, s: Sketch, ready: IdMap, s3: Sketch, next: Model, i: nat)
    requires i < |next.constraints|
    requires ready.constraint == Kept(m.constraint, ConstraintIds(next.constraints))
    requires var id := next.constraints[i].id;
      id in m.constraint ==>
        (m.constraint[id] in s3.constraints <==>
          Survives(s, m.constraint[id], Lost(m.entity, EntityIds(next.entities))))
    requires forall u :: u in s3.constraints ==> u in s.constraints && s3.constraints[u] == s.constraints[u]
    ensures Lands(m, s, ready, next, i) <==>
      (Resets(ready, next.constraints[..i], next.constraints[i]) ==>
         Settable(ready, s3, next.constraints[..i], next.constraints[i].id))
  {
    hide FirstSent, FirstTold;
    assert next.constraints[i].id in ConstraintIds(next.constraints);
  }

  lemma AcceptedConstraints(
    m: IdMap, s: Sketch, next: Model, ready: IdMap, s3: Sketch, eo: seq<FrontId>, co: seq<FrontId>)
    requires Enumerates(eo, m.entity.Keys) && Enumerates(co, m.constraint.Keys)
    requires ready.constraint == Kept(m.constraint, ConstraintIds(next.constraints))
    requires forall id :: id in m.constraint && id in ConstraintIds(next.constraints) ==>
      (m.constraint[id] in s3.constraints <==> Survives(s, m.constraint[id], Lost(m.entity, EntityIds(next.entities))))
    requires Upsert(m, next, eo, co).0 == UpsertConstraints(ready, next.constraints).0
    requires ApplyOps(s, Upsert(m, next, eo, co).1) == ApplyOps(s3, UpsertConstraints(ready, next.constraints).1)
    ensures var (m', ops) := Upsert(m, next, eo, co);
      ApplyOps(s, ops).Some? && Told(ready, s3, m', ApplyOps(s, ops).value, next.constraints) ==>
        forall id :: id in m'.constraint ==>
          (m'.constraint[id] in ApplyOps(s, ops).value.constraints <==>
            (id in m.constraint ==> Survives(s, m.constraint[id], Lost(m.entity, EntityIds(next.entities)))))
  {
    hide Upsert, UpsertConstraints, Survives;
    var (m', ops) := Upsert(m, next, eo, co);
    if ApplyOps(s, ops).Some? && Told(ready, s3, m', ApplyOps(s, ops).value, next.constraints) {
      forall id | id in m'.constraint
        ensures m'.constraint[id] in ApplyOps(s, ops).value.constraints <==>
            (id in m.constraint ==> Survives(s, m.constraint[id], Lost(m.entity, EntityIds(next.entities))))
      {
        assert ToldOne(ready, s3, m', ApplyOps(s, ops).value, next.constraints, id);
        NotSent(ready, next.constraints, id);
      }
    }
  }

  // ── From a backend in step ─────────────────────────────────────────────────

  /** A listed dimension that differs from what was last sent under its id. */
  predicate Changed(m: IdMap, c: SketchConstraint) {
    c.id in m.constraint && IsDimensional(c.kind) && c.value != Tracked(m.value, c.id)
  }

  /** What was sent under `id` is a dimension, and refers to nothing that is gone. */
  predicate Stands(m: IdMap, cs: Constraints, id: FrontId, gone: set<Uuid>) {
    && id in cs && IsDimensional(cs[id].kind)
    && ToWire(m, cs[id]).Some? && !Refers(ToWire(m, cs[id]).value.refs, gone)
  }

  /**
   In step, and with unique constraint ids, the batch is accepted exactly if what was sent under every
   changed dimension is a dimension that refers to no removed entity. Synthesised points are never
   removed, so the length of a removed line can still be set; the radius of a removed circle cannot.
   */
  lemma InStepAcceptedExactly(
    m: IdMap, s: Sketch, es: Entities, cs: Constraints, next: Model, eo: seq<FrontId>, co: seq<FrontId>)
    requires InStep(m, s, es, cs) && UniqueConstraints(next.constraints)
    requires Enumerates(eo, m.entity.Keys) && Enumerates(co, m.constraint.Keys)
    ensures ApplyOps(s, Upsert(m, next, eo, co).1).Some? <==>
      forall i :: 0 <= i < |next.constraints| && Changed(m, next.constraints[i]) ==>
        Stands(m, cs, next.constraints[i].id, Lost(m.entity, EntityIds(next.entities)))
  {
    hide Upsert, Ready, InStep, Sound, Stands, Changed, Lands;
    InStepIsSound(m, s, es, cs);
    UpsertAcceptedExactly(m, s, next, eo, co);
    ReadyFacts(m, next, eo, co);
    var ready, list, gone := Ready(m, next, eo, co), next.constraints, Lost(m.entity, EntityIds(next.entities));
    forall i | 0 <= i < |list|
      ensures Lands(m, s, ready, next, i) <==>
        (Changed(m, list[i]) ==> Stands(m, cs, list[i].id, gone))
    {
      ChangedLands(m, s, es, cs, next, ready, i);
    }
  }

  lemma ChangedLands(
    m: IdMap, s: Sketch, es: Entities, cs: Constraints, next: Model, ready: IdMap, i: nat)
    requires InStep(m, s, es, cs) && UniqueConstraints(next.constraints) && i < |next.constraints|
    requires ready.constraint == Kept(m.constraint, ConstraintIds(next.constraints))
    requires ready.value == Kept(m.value, ConstraintIds(next.constraints))
    ensures Lands(m, s, ready, next, i) <==>
      (Changed(m, next.constraints[i]) ==>
         Stands(m, cs, next.constraints[i].id, Lost(m.entity, EntityIds(next.entities))))
  {
    hide ToWire, FirstSent, EntitiesInStep, IdsDistinct, BelowMinted, RefsClosed;
    var c, before := next.constraints[i], next.constraints[..i];
    assert c.id in ConstraintIds(next.constraints);
    NotSent(ready, before, c.id);
    assert c.id !in ConstraintIds(before);
    assert Resets(ready, before, c) <==> Changed(m, c);
    if c.id in m.constraint {
      assert ConstraintInStep(m, s, cs[c.id]);
      WireKind(m, cs[c.id]);
    }
  }

  /** The reference names a position of a line, a circle or an arc. */
  predicate NamesPosition(es: Entities, c: SketchConstraint, i: nat) {
    && Positional(c.kind, i) && i < |c.positions| && i < |c.entities|
    && c.entities[i] in es && es[c.entities[i]].kind != PointKind
  }

  /** A dimension between named positions of lines, circles or arcs stands whatever is removed. */
  lemma PositionsStand(m: IdMap, s: Sketch, es: Entities, cs: Constraints, id: FrontId, live: set<FrontId>)
    requires InStep(m, s, es, cs) && id in cs && IsDimensional(cs[id].kind)
    requires NamesPosition(es, cs[id], 0) && NamesPosition(es, cs[id], 1)
    ensures Stands(m, cs, id, Lost(m.entity, live))
  {
    hide ToWire, BelowMinted, RefsClosed, IdsDistinct, EntitiesInStep;
    var c := cs[id];
    assert ConstraintInStep(m, s, c);
    WireRefsResolve(m, c);
    assert Arity(c.kind).value <= 2;
    forall i: nat | i < |ToWire(m, c).value.refs|
      ensures ToWire(m, c).value.refs[i] !in Lost(m.entity, live)
    {
      assert ResolveRef(m, c, i) == Some(ToWire(m, c).value.refs[i]);
      assert NamesPosition(es, c, i);
      var k := (c.entities[i], c.positions[i]);
      PointIsNoEntity(m, s, es, k);
    }
  }

  lemma PointIsNoEntity(m: IdMap, s: Sketch, es: Entities, k: PointKey)
    requires IdsDistinct(m) && EntitiesInStep(m, s, es) && k in m.point && es[k.0].kind != PointKind
    ensures m.point[k] !in m.entity.Values
  {
    assert Imaged(m, s, es[k.0]);
    assert m.entity[k.0] != m.point[k];
  }

  /** The map once a circle and its radius have been listed. */
  function RadiusMap(circle: FrontId, radius: FrontId, value: real): IdMap {
    IdMap(map[circle := 1], map[(circle, Center) := 0], map[radius := 2], map[radius := Some(value)], 3)
  }

  lemma RadiusUpserted(circle: SketchEntity, radius: SketchConstraint, value: real)
    requires circle.kind == CircleKind && Mappable(circle)
    requires radius.kind == Radius && radius.entities == [circle.id] && radius.positions == []
      && radius.value == Some(value)
    ensures Upsert(EMPTY_ID_MAP, Model([circle], [radius]), [], []).0 == RadiusMap(circle.id, radius.id, value)
  {
    var m3 := AddEntityOps(EMPTY_ID_MAP, circle).0;
    assert AddEntities(EMPTY_ID_MAP, []) == (EMPTY_ID_MAP, []);
    assert AddEntities(EMPTY_ID_MAP, [circle]).0 == m3;
    assert UpsertConstraints(m3, []) == (m3, []);
    assert UpsertConstraints(m3, [radius]).0 == UpsertConstraint(m3, radius).0;
    assert ToWire(m3, radius) == Some(WireConstraint(Radius, [1], Some(value)));
  }

  lemma RadiusListed(circle: SketchEntity, radius: SketchConstraint, value: real)
    requires circle.kind == CircleKind && Mappable(circle)
    requires radius.kind == Radius && radius.entities == [circle.id] && radius.positions == []
      && radius.value == Some(value)
    ensures var next, m := Model([circle], [radius]), RadiusMap(circle.id, radius.id, value);
      && Compatible(map[], map[], next) && NextConstraints(m, map[], next) == map[radius.id := radius]
      && ToWire(m, radius) == Some(WireConstraint(Radius, [1], Some(value)))
  {
    var m := RadiusMap(circle.id, radius.id, value);
    assert Kept<SketchConstraint>(map[], {radius.id}) == map[];
    assert ListedAll(m, map[], []) == map[];
    assert ListedAll(m, map[], [radius]) == Listed(m, map[], radius);
  }

  /**
   A circle and its radius are listed; then the circle is gone, and the radius is listed with another
   value. The second batch is turned away, although the map has already let go of the circle.
   */
  lemma OrphanedRadiusRejected(circle: SketchEntity, radius: SketchConstraint, value: real, other: real)
    requires circle.kind == CircleKind && Mappable(circle) && other != value
    requires radius.kind == Radius && radius.entities == [circle.id] && radius.positions == []
      && radius.value == Some(value)
    ensures var (m, ops) := Upsert(EMPTY_ID_MAP, Model([circle], [radius]), [], []);
      && Enumerates([circle.id], m.entity.Keys) && Enumerates([radius.id], m.constraint.Keys)
      && ApplyOps(EMPTY_LANE.s, ops).Some?
      && var (m', more) := Upsert(m, Model([], [radius.(value := Some(other))]), [circle.id], [radius.id]);
      ApplyOps(ApplyOps(EMPTY_LANE.s, ops).value, more).None? && m'.entity == map[]
  {
    var first, second := Model([circle], [radius]), Model([], [radius.(value := Some(other))]);
    EmptyInStep();
    RadiusListed(circle, radius, value);
    RadiusUpserted(circle, radius, value);
    var s := UpsertInStep(EMPTY_ID_MAP, EMPTY_LANE.s, map[], map[], first, [], []);
    RadiusOrphaned(s, circle, radius, value, other);
  }

  lemma RadiusOrphaned(s: Sketch, circle: SketchEntity, radius: SketchConstraint, value: real, other: real)
    requires circle.kind == CircleKind && Mappable(circle) && other != value
    requires radius.kind == Radius && radius.entities == [circle.id] && radius.positions == []
      && radius.value == Some(value)
    requires var m, first := RadiusMap(circle.id, radius.id, value), Model([circle], [radius]);
      InStep(m, s, NextEntities(map[], first), NextConstraints(m, map[], first))
    ensures var m := RadiusMap(circle.id, radius.id, value);
      && Enumerates([circle.id], m.entity.Keys) && Enumerates([radius.id], m.constraint.Keys)
      && var (m', more) := Upsert(m, Model([], [radius.(value := Some(other))]), [circle.id], [radius.id]);
      ApplyOps(s, more).None? && m'.entity == map[]
  {
    hide InStep, Upsert, ToWire;
    var m, first := RadiusMap(circle.id, radius.id, value), Model([circle], [radius]);
    var second := Model([], [radius.(value := Some(other))]);
    RadiusListed(circle, radius, value);
    var eo, co := [circle.id], [radius.id];
    InStepAcceptedExactly(m, s, NextEntities(map[], first), NextConstraints(m, map[], first), second, eo, co);
    assert NextConstraints(m, map[], first)[radius.id] == radius;
    assert Changed(m, second.constraints[0]);
    assert circle.id in m.entity && m.entity[circle.id] == 1 && circle.id !in EntityIds(second.entities);
    assert Refers([1], Lost(m.entity, EntityIds(second.entities))) by {
      assert [1][0] in Lost(m.entity, EntityIds(second.entities));
    }
    UpsertImages(m, second, eo, co);
    assert AddEntities(m, []).0 == m;
  }

  // ── Any run ────────────────────────────────────────────────────────────────

  datatype Side = Side(m: IdMap, s: Sketch)

  ghost predicate Orders(m: IdMap, u: Upsertion) {
    Enumerates(u.entityOrder, m.entity.Keys) && Enumerates(u.constraintOrder, m.constraint.Keys)
  }

  /** What the two sides become; the backend has to accept what is sent. */
  ghost predicate Follows(a: Side, v: Event, b: Side) {
    match v
    case Sends(u) =>
      && Orders(a.m, u)
      && var (m', ops) := Upsert(a.m, u.next, u.entityOrder, u.constraintOrder);
      b.m == m' && ApplyOps(a.s, ops) == Some(b.s)
    case Solves(positions, _) => b == Side(a.m, MoveBackend(a.s, positions))
  }

  /** A run of arbitrary upserts and solver results from an empty sketch, up to a batch that is turned away. */
  ghost predicate Replays(vs: seq<Event>, sides: seq<Side>) {
    && |sides| == |vs| + 1 && sides[0] == Side(EMPTY_ID_MAP, EMPTY_LANE.s)
    && forall i :: 0 <= i < |vs| ==> Follows(sides[i], vs[i], sides[i + 1])
  }

  lemma MovedSound(m: IdMap, s: Sketch, positions: BackendPositions)
    requires Sound(m, s)
    ensures Sound(m, MoveBackend(s, positions))
  {
    MovedIds(m, s, positions);
  }

  lemma {:induction false} ReplaySound(vs: seq<Event>, sides: seq<Side>, i: nat)
    requires Replays(vs, sides) && i < |sides|
    ensures Sound(sides[i].m, sides[i].s)
  {
    hide Sound, Upsert;
    if i == 0 {
      EmptyInStep();
      InStepIsSound(EMPTY_ID_MAP, EMPTY_LANE.s, map[], map[]);
    } else {
      ReplaySound(vs, sides, i - 1);
      assert Follows(sides[i - 1], vs[i - 1], sides[i]);
      match vs[i - 1] {
        case Sends(u) =>
          UpsertAcceptedExactly(sides[i - 1].m, sides[i - 1].s, u.next, u.entityOrder, u.constraintOrder);
        case Solves(positions, _) =>
          MovedSound(sides[i - 1].m, sides[i - 1].s, positions);
      }
    }
  }

  /**
   Along any run every mapped entity and point is live, and whatever is listed next is accepted exactly
   if the dimensions it sets are still there.
   */
  lemma AnyRunSound(vs: seq<Event>, sides: seq<Side>, u: Upsertion)
    requires Replays(vs, sides) && Orders(sides[|vs|].m, u)
    ensures forall i :: 0 <= i < |sides| ==> Sound(sides[i].m, sides[i].s)
    ensures var a := sides[|vs|];
      ApplyOps(a.s, Upsert(a.m, u.next, u.entityOrder, u.constraintOrder).1).Some? <==>
        forall i :: 0 <= i < |u.next.constraints| ==>
          Lands(a.m, a.s, Ready(a.m, u.next, u.entityOrder, u.constraintOrder), u.next, i)
  {
    assert |sides| == |vs| + 1;
    hide Sound, Upsert, Replays, Lands, Ready;
    forall i | 0 <= i < |sides|
      ensures Sound(sides[i].m, sides[i].s)
    {
      ReplaySound(vs, sides, i);
    }
    var a := sides[|vs|];
    UpsertAcceptedExactly(a.m, a.s, u.next, u.entityOrder, u.constraintOrder);
  }
}
