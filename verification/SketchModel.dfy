/** The two sides of the sketch lane: the frontend's arrays and the backend's typed document sketch. */
module SketchModel {
  import opened Wrappers

  type FrontId = string
  type Uuid = nat
  type Pt = (real, real)

  // ── Frontend ───────────────────────────────────────────────────────────────

  datatype Position = Start | End | Center | Midpoint

  datatype EntityKind = PointKind | LineKind | CircleKind | ArcKind

  datatype SketchEntity = SketchEntity(
    id: FrontId, kind: EntityKind, construction: bool,
    p0: Option<Pt>, p1: Option<Pt>, center: Option<Pt>, radius: Option<real>,
    start: Option<Pt>, end: Option<Pt>)

  datatype ConstraintKind =
    | Coincident | Horizontal | Vertical | Fixed | MidpointOf | OnCurve | Parallel | Perpendicular | Tangent
    | Concentric | Equal | Distance | HorizontalDistance | VerticalDistance | Angle | Radius | Diameter | Symmetric

  datatype SketchConstraint = SketchConstraint(
    id: FrontId, kind: ConstraintKind, entities: seq<FrontId>, positions: seq<Position>, value: Option<real>)

  datatype Model = Model(entities: seq<SketchEntity>, constraints: seq<SketchConstraint>)

  predicate IsDimensional(kind: ConstraintKind) {
    kind in {Distance, HorizontalDistance, VerticalDistance, Angle, Radius, Diameter}
  }

  /** The coordinates an entity needs before it can be expressed to the backend. */
  predicate Mappable(e: SketchEntity) {
    match e.kind
    case PointKind => e.p0.Some?
    case LineKind => e.p0.Some? && e.p1.Some?
    case CircleKind => e.center.Some? && e.radius.Some?
    case ArcKind => e.center.Some? && e.radius.Some?
  }

  // ── Backend ────────────────────────────────────────────────────────────────

  /** A swept angle, given by the vector whose direction it is; none stands for angle zero. */
  type Direction = Option<Pt>

  datatype WireEntity =
    | WirePoint(at: Pt, construction: bool)
    | WireLine(start: Uuid, end: Uuid, construction: bool)
    | WireCircle(center: Uuid, radius: real, construction: bool)
    | WireArc(center: Uuid, radius: real, startAngle: Direction, endAngle: Direction, construction: bool)

  /** A constraint's kind, its references in declaration order, and its dimension value if it has one. */
  datatype WireConstraint = WireConstraint(kind: ConstraintKind, refs: seq<Uuid>, value: Option<real>)

  datatype Sketch = Sketch(entities: map<Uuid, WireEntity>, constraints: map<Uuid, WireConstraint>)

  datatype Op =
    | AddEntity(id: Uuid, entity: WireEntity)
    | RemoveEntity(id: Uuid)
    | AddConstraint(id: Uuid, constraint: WireConstraint)
    | RemoveConstraint(id: Uuid)
    | SetDimension(id: Uuid, value: real)

  function Refs(e: WireEntity): seq<Uuid> {
    match e
    case WirePoint(_, _) => []
    case WireLine(start, end, _) => [start, end]
    case WireCircle(center, _, _) => [center]
    case WireArc(center, _, _, _, _) => [center]
  }

  predicate Refers(refs: seq<Uuid>, targets: set<Uuid>) {
    exists i :: 0 <= i < |refs| && refs[i] in targets
  }

  /** What falls with `removed`: to a fixpoint, every entity that refers to something removed. */
  function Cascade(entities: map<Uuid, WireEntity>, removed: set<Uuid>): set<Uuid>
    decreases entities.Keys - removed
  {
    var newly := set u | u in entities && u !in removed && Refers(Refs(entities[u]), removed);
    if newly == {} then removed
    else
      assert forall u :: u in newly ==> u in entities.Keys - removed;
      Cascade(entities, removed + newly)
  }

  function Removed(s: Sketch, id: Uuid): Sketch {
    var gone := Cascade(s.entities, {id});
    Sketch(s.entities - gone, map c | c in s.constraints && !Refers(s.constraints[c].refs, gone) :: s.constraints[c])
  }

  /**
   One edit op on the document sketch, or none if it is turned away. An entity may refer only to
   what is already there, and only what is there may be removed.
   */
  function ApplyOp(s: Sketch, op: Op): Option<Sketch> {
    match op
    case AddEntity(id, e) =>
      if id in s.entities || exists i :: 0 <= i < |Refs(e)| && Refs(e)[i] !in s.entities then None
      else Some(s.(entities := s.entities[id := e]))
    case RemoveEntity(id) =>
      if id in s.entities then Some(Removed(s, id)) else None
    case AddConstraint(id, c) =>
      if id in s.constraints || exists i :: 0 <= i < |c.refs| && c.refs[i] !in s.entities then None
      else Some(s.(constraints := s.constraints[id := c]))
    case RemoveConstraint(id) => Some(s.(constraints := s.constraints - {id}))
    case SetDimension(id, value) =>
      if id in s.constraints && IsDimensional(s.constraints[id].kind)
      then Some(s.(constraints := s.constraints[id := s.constraints[id].(value := Some(value))]))
      else None
  }

  function ApplyOps(s: Sketch, ops: seq<Op>): Option<Sketch> {
    if ops == [] then Some(s)
    else
      match ApplyOps(s, ops[..|ops| - 1])
      case None => None
      case Some(t) => ApplyOp(t, ops[|ops| - 1])
  }

  lemma {:induction false} ApplyConcat(s: Sketch, xs: seq<Op>, ys: seq<Op>)
    requires ApplyOps(s, xs).Some?
    ensures ApplyOps(s, xs + ys) == ApplyOps(ApplyOps(s, xs).value, ys)
    decreases |ys|
  {
    if ys == [] {
      assert xs + ys == xs;
    } else {
      ApplyConcat(s, xs, ys[..|ys| - 1]);
      assert (xs + ys)[..|xs + ys| - 1] == xs + ys[..|ys| - 1];
    }
  }

  /** Removing something nothing refers to takes it alone. */
  lemma LoneCascade(entities: map<Uuid, WireEntity>, id: Uuid)
    requires forall u, i :: u in entities && 0 <= i < |Refs(entities[u])| ==> Refs(entities[u])[i] != id
    ensures Cascade(entities, {id}) == {id}
  {
    assert forall u :: u in entities ==> !Refers(Refs(entities[u]), {id});
    assert (set u | u in entities && u !in {id} && Refers(Refs(entities[u]), {id})) == {};
  }

  // ── What the backend's edits mean ──────────────────────────────────────────

  /** Whatever refers to something in the set is in the set. */
  ghost predicate Falls(entities: map<Uuid, WireEntity>, gone: set<Uuid>) {
    forall u, i :: u in entities && 0 <= i < |Refs(entities[u])| && Refs(entities[u])[i] in gone ==> u in gone
  }

  /** What falls with `removed` is the least set with it that nothing left refers to. */
  lemma {:induction false} CascadeExactly(entities: map<Uuid, WireEntity>, removed: set<Uuid>)
    ensures removed <= Cascade(entities, removed) && Falls(entities, Cascade(entities, removed))
    ensures forall more :: removed <= more && Falls(entities, more) ==> Cascade(entities, removed) <= more
    decreases entities.Keys - removed
  {
    var newly := set u | u in entities && u !in removed && Refers(Refs(entities[u]), removed);
    if newly == {} {
      assert forall u :: u in entities && u !in removed ==> u !in newly;
    } else {
      assert forall u :: u in newly ==> u in entities.Keys - removed;
      CascadeExactly(entities, removed + newly);
      forall more | removed <= more && Falls(entities, more)
        ensures removed + newly <= more
      {
      }
    }
  }

  /** Every reference is to an entity that is there. */
  ghost predicate NothingDangles(s: Sketch) {
    && (forall u, i :: u in s.entities && 0 <= i < |Refs(s.entities[u])| ==> Refs(s.entities[u])[i] in s.entities)
    && (forall u, i :: u in s.constraints && 0 <= i < |s.constraints[u].refs| ==>
          s.constraints[u].refs[i] in s.entities)
  }

  /** No accepted op leaves a reference dangling. */
  lemma OpKeepsReferences(s: Sketch, op: Op)
    requires NothingDangles(s) && ApplyOp(s, op).Some?
    ensures NothingDangles(ApplyOp(s, op).value)
  {
    if op.RemoveEntity? {
      CascadeExactly(s.entities, {op.id});
    }
  }

  /** What a removal takes: the entity, what falls with it, and each constraint that refers to any of that. */
  lemma RemovalExactly(s: Sketch, id: Uuid, gone: set<Uuid>)
    requires id in s.entities && id in gone && Falls(s.entities, gone)
    requires forall more :: id in more && Falls(s.entities, more) ==> gone <= more
    ensures var t := ApplyOp(s, RemoveEntity(id));
      && t.Some?
      && t.value.entities == (map u | u in s.entities && u !in gone :: s.entities[u])
      && (forall c :: c in t.value.constraints <==>
            c in s.constraints && forall i :: 0 <= i < |s.constraints[c].refs| ==> s.constraints[c].refs[i] !in gone)
      && (forall c :: c in t.value.constraints ==> t.value.constraints[c] == s.constraints[c])
  {
    CascadeExactly(s.entities, {id});
    assert Cascade(s.entities, {id}) == gone;
  }

  /** The other ops: when each is accepted, and what it changes. */
  lemma OpExactly(s: Sketch, id: Uuid, e: WireEntity, c: WireConstraint, v: real)
    ensures ApplyOp(s, AddEntity(id, e)) == (
      if id !in s.entities && (forall i :: 0 <= i < |Refs(e)| ==> Refs(e)[i] in s.entities)
      then Some(Sketch(s.entities[id := e], s.constraints)) else None)
    ensures ApplyOp(s, AddConstraint(id, c)) == (
      if id !in s.constraints && (forall i :: 0 <= i < |c.refs| ==> c.refs[i] in s.entities)
      then Some(Sketch(s.entities, s.constraints[id := c])) else None)
    ensures ApplyOp(s, RemoveConstraint(id)) == Some(Sketch(s.entities, s.constraints - {id}))
    ensures ApplyOp(s, SetDimension(id, v)) == (
      if id in s.constraints
        && s.constraints[id].kind in {Distance, HorizontalDistance, VerticalDistance, Angle, Radius, Diameter}
      then Some(Sketch(s.entities, s.constraints[id := s.constraints[id].(value := Some(v))])) else None)
  {
  }

  /** A line refers to its two ends, a circle and an arc to their center, a point to nothing. */
  lemma RefsExactly(p: Pt, a: Uuid, b: Uuid, r: real, from: Direction, to: Direction, construction: bool)
    ensures Refs(WirePoint(p, construction)) == [] && Refs(WireLine(a, b, construction)) == [a, b]
    ensures Refs(WireCircle(a, r, construction)) == [a] && Refs(WireArc(a, r, from, to, construction)) == [a]
  {
  }
}
