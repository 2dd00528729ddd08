/** The solver write-back on both sides, and the sketch as it goes over the wire and is read back. */
module SketchSolve {
  import opened Wrappers
  import opened SketchModel
  import opened SketchMarshal
  import opened SketchSteps
  import opened SketchSync

  type BackendPositions = map<Uuid, Pt>
  type FrontPositions = map<PointKey, Pt>

  // ── Backend write-back ─────────────────────────────────────────────────────

  /** Only points carry coordinates, so only they move; anything else named is ignored. */
  function MoveBackend(s: Sketch, positions: BackendPositions): Sketch {
    s.(entities := map u | u in s.entities ::
      if s.entities[u].WirePoint? && u in positions then s.entities[u].(at := positions[u]) else s.entities[u])
  }

  // ── Frontend write-back ────────────────────────────────────────────────────

  /** The first key, in the map's own order, that stands for `u`. */
  function FirstKey(point: map<PointKey, Uuid>, order: seq<PointKey>, u: Uuid): Option<PointKey> {
    if order == [] then None
    else
      var earlier := FirstKey(point, order[..|order| - 1], u);
      var k := order[|order| - 1];
      if earlier.Some? then earlier else if k in point && point[k] == u then Some(k) else None
  }

  ghost predicate Lists<T(!new)>(order: seq<T>, keys: set<T>) {
    && (forall i, j :: 0 <= i < j < |order| ==> order[i] != order[j])
    && (forall k :: k in order <==> k in keys)
  }

  /** The solved positions by frontend key; a point with two keys is reported under one of them. */
  ghost function SolvedPositions(
    point: map<PointKey, Uuid>, order: seq<PointKey>, positions: BackendPositions): FrontPositions {
    map k | k in point && point[k] in positions && FirstKey(point, order, point[k]) == Some(k) :: positions[point[k]]
  }

  function MoveEntity(e: SketchEntity, g: map<Position, Pt>): SketchEntity {
    match e.kind
    case PointKind =>
      if Start in g then e.(p0 := Some(g[Start])) else if Center in g then e.(p0 := Some(g[Center])) else e
    case LineKind =>
      e.(p0 := if Start in g then Some(g[Start]) else e.p0, p1 := if End in g then Some(g[End]) else e.p1)
    case CircleKind => if Center in g then e.(center := Some(g[Center])) else e
    case ArcKind => if Center in g then e.(center := Some(g[Center])) else e
  }

  function Group(positions: FrontPositions, id: FrontId): map<Position, Pt> {
    map k | k in positions && k.0 == id :: k.1 := positions[k]
  }

  function Moved(e: SketchEntity, positions: FrontPositions): SketchEntity {
    MoveEntity(e, Group(positions, e.id))
  }

  /** A solver result on an entity: which coordinate each position moves, and that nothing else changes. */
  predicate MovedAs(e: SketchEntity, positions: FrontPositions, e': SketchEntity) {
    var start, end, center := (e.id, Start), (e.id, End), (e.id, Center);
    && e'.id == e.id && e'.kind == e.kind && e'.construction == e.construction
    && e'.radius == e.radius && e'.start == e.start && e'.end == e.end
    && e'.p0 == (
      if (e.kind == PointKind || e.kind == LineKind) && start in positions then Some(positions[start])
      else if e.kind == PointKind && center in positions then Some(positions[center])
      else e.p0)
    && e'.p1 == (if e.kind == LineKind && end in positions then Some(positions[end]) else e.p1)
    && e'.center == (
      if (e.kind == CircleKind || e.kind == ArcKind) && center in positions then Some(positions[center]) else e.center)
  }

  lemma MovedExactly(e: SketchEntity, positions: FrontPositions)
    ensures MovedAs(e, positions, Moved(e, positions))
  {
    hide Group;
    GroupHas(positions, e.id);
  }

  lemma GroupHas(positions: FrontPositions, id: FrontId)
    ensures forall p :: p in Group(positions, id) <==> (id, p) in positions
    ensures forall p :: p in Group(positions, id) ==> Group(positions, id)[p] == positions[(id, p)]
  {
  }

  /** The backend moves its points, and only them, to where the result says. */
  lemma BackendMovesPoints(s: Sketch, positions: BackendPositions, u: Uuid)
    ensures u in MoveBackend(s, positions).entities <==> u in s.entities
    ensures MoveBackend(s, positions).constraints == s.constraints
    ensures u in s.entities && !s.entities[u].WirePoint? ==> MoveBackend(s, positions).entities[u] == s.entities[u]
    ensures u in s.entities && s.entities[u].WirePoint? ==>
      MoveBackend(s, positions).entities[u]
      == WirePoint(if u in positions then positions[u] else s.entities[u].at, s.entities[u].construction)
  {
  }

  // ── The string keys the frontend uses ──────────────────────────────────────

  predicate NoDot(s: string) {
    '.' !in s
  }

  /** The position of the last dot, or none. */
  function LastDot(s: string): (r: Option<nat>)
    ensures r.Some? ==> r.value < |s|
  {
    if s == "" then None
    else if s[|s| - 1] == '.' then Some(|s| - 1)
    else LastDot(s[..|s| - 1])
  }

  lemma {:induction false} LastDotBefore(id: string, tail: string)
    requires NoDot(tail)
    ensures LastDot(id + "." + tail) == Some(|id|)
  {
    var s := id + "." + tail;
    if tail == "" {
      assert s == id + ".";
    } else {
      assert s[..|s| - 1] == id + "." + tail[..|tail| - 1];
      LastDotBefore(id, tail[..|tail| - 1]);
    }
  }

  /** Cutting a key at its last dot gives back its entity and its position, whatever dots the id has. */
  lemma KeySplits(k: PointKey)
    ensures var s := KeyString(k);
      LastDot(s) == Some(|k.0|) && s[..|k.0|] == k.0 && s[|k.0| + 1..] == PositionName(k.1)
  {
    var s := KeyString(k);
    assert s == k.0 + "." + PositionName(k.1);
    LastDotBefore(k.0, PositionName(k.1));
  }

  // ── The two write-back loops ───────────────────────────────────────────────

  method FrontendSolvedPositions(
    point: map<PointKey, Uuid>, order: seq<PointKey>, positions: BackendPositions, uuids: seq<Uuid>)
    returns (out: FrontPositions)
    requires Lists(order, point.Keys) && Lists(uuids, positions.Keys)
    ensures out == SolvedPositions(point, order, positions)
    ensures forall k :: k in out ==> k in point && point[k] in positions && out[k] == positions[point[k]]
    ensures forall i :: 0 <= i < |order| && point[order[i]] in positions ==>
      (order[i] in out <==> forall j :: 0 <= j < i ==> point[order[j]] != point[order[i]])
  {
    var byUuid: map<Uuid, PointKey> := map[];
    for i := 0 to |order|
      invariant forall u :: Find(byUuid, u) == FirstKey(point, order[..i], u)
    {
      assert order[..i + 1][..i] == order[..i];
      var u := point[order[i]];
      if u !in byUuid {
        byUuid := byUuid[u := order[i]];
      }
    }
    assert order[..|order|] == order;
    hide FirstKey;
    out := map[];
    for i := 0 to |uuids|
      invariant forall k :: k in out <==>
        k in point && point[k] in uuids[..i] && FirstKey(point, order, point[k]) == Some(k)
      invariant forall k :: k in out ==> point[k] in positions && out[k] == positions[point[k]]
    {
      assert uuids[..i + 1] == uuids[..i] + [uuids[i]];
      var u := uuids[i];
      FirstKeyMaps(point, order, u);
      assert Find(byUuid, u) == FirstKey(point, order, u);
      if u in byUuid {
        assert byUuid[u] in point && point[byUuid[u]] == u;
        out := out[byUuid[u] := positions[u]];
      }
    }
    assert uuids[..|uuids|] == uuids;
    FirstsReported(point, order, positions);
  }

  lemma FirstsReported(point: map<PointKey, Uuid>, order: seq<PointKey>, positions: BackendPositions)
    requires Lists(order, point.Keys)
    ensures var out := SolvedPositions(point, order, positions);
      forall i :: 0 <= i < |order| && point[order[i]] in positions ==>
        (order[i] in out <==> forall j :: 0 <= j < i ==> point[order[j]] != point[order[i]])
  {
    hide FirstKey;
    forall i | 0 <= i < |order| && point[order[i]] in positions
      ensures order[i] in SolvedPositions(point, order, positions) <==>
        forall j :: 0 <= j < i ==> point[order[j]] != point[order[i]]
    {
      FirstKeyFirst(point, order, i);
    }
  }

  /** The key reported for a point is the first in the order that stands for it. */
  lemma {:induction false} FirstKeyFirst(point: map<PointKey, Uuid>, order: seq<PointKey>, i: nat)
    requires i < |order| && (forall j :: 0 <= j < |order| ==> order[j] in point)
    requires forall j, k :: 0 <= j < k < |order| ==> order[j] != order[k]
    ensures FirstKey(point, order, point[order[i]]) == Some(order[i]) <==>
      forall j :: 0 <= j < i ==> point[order[j]] != point[order[i]]
  {
    var n := |order| - 1;
    FirstKeyMaps(point, order[..n], point[order[i]]);
    if i < n {
      FirstKeyFirst(point, order[..n], i);
    } else {
      var earlier := FirstKey(point, order[..n], point[order[n]]);
      if earlier.Some? {
        assert earlier.value in order[..n];
        var j :| 0 <= j < n && order[..n][j] == earlier.value;
        assert point[order[j]] == point[order[n]];
      }
    }
  }

  lemma {:induction false} FirstKeyMaps(point: map<PointKey, Uuid>, order: seq<PointKey>, u: Uuid)
    ensures FirstKey(point, order, u).Some? ==>
      FirstKey(point, order, u).value in order && FirstKey(point, order, u).value in point
        && point[FirstKey(point, order, u).value] == u
    ensures FirstKey(point, order, u).None? ==> forall k :: k in order && k in point ==> point[k] != u
  {
    if order != [] {
      var n := |order| - 1;
      FirstKeyMaps(point, order[..n], u);
      assert order == order[..n] + [order[n]];
    }
  }

  /** The positions of `id` among the first `keys`. */
  function Grouped(positions: FrontPositions, keys: seq<PointKey>, id: FrontId): map<Position, Pt>
    requires forall i :: 0 <= i < |keys| ==> keys[i] in positions
  {
    if keys == [] then map[]
    else
      var k, g := keys[|keys| - 1], Grouped(positions, keys[..|keys| - 1], id);
      if k.0 == id then g[k.1 := positions[k]] else g
  }

  lemma {:induction false} GroupedAt(positions: FrontPositions, keys: seq<PointKey>, id: FrontId, p: Position)
    requires forall i :: 0 <= i < |keys| ==> keys[i] in positions
    ensures Find(Grouped(positions, keys, id), p) == if (id, p) in keys then Some(positions[(id, p)]) else None
  {
    if keys != [] {
      var n := |keys| - 1;
      GroupedAt(positions, keys[..n], id, p);
      assert keys == keys[..n] + [keys[n]];
      assert keys[n] == (keys[n].0, keys[n].1);
    }
  }

  lemma GroupedIsGroup(positions: FrontPositions, keys: seq<PointKey>, id: FrontId)
    requires Lists(keys, positions.Keys)
    ensures Grouped(positions, keys, id) == Group(positions, id)
  {
    var g := Grouped(positions, keys, id);
    forall p
      ensures Find(g, p) == Find(Group(positions, id), p)
    {
      GroupedAt(positions, keys, id, p);
      assert (id, p) in keys <==> (id, p) in positions;
    }
    assert forall p :: p in g <==> Find(g, p).Some?;
    assert forall p :: p in g ==> p in Group(positions, id) && g[p] == Group(positions, id)[p];
  }

  method GroupByEntity(
    positions: FrontPositions, keys: seq<PointKey>) returns (byEntity: map<FrontId, map<Position, Pt>>)
    requires Lists(keys, positions.Keys)
    ensures forall id :: Group(positions, id) == if id in byEntity then byEntity[id] else map[]
  {
    byEntity := map[];
    for i := 0 to |keys|
      invariant forall id :: Grouped(positions, keys[..i], id) == if id in byEntity then byEntity[id] else map[]
    {
      assert keys[..i + 1][..i] == keys[..i];
      var k := keys[i];
      var g := if k.0 in byEntity then byEntity[k.0] else map[];
      byEntity := byEntity[k.0 := g[k.1 := positions[k]]];
    }
    assert keys[..|keys|] == keys;
    forall id
      ensures Group(positions, id) == if id in byEntity then byEntity[id] else map[]
    {
      GroupedIsGroup(positions, keys, id);
    }
  }

  method ApplySolvedPositions(
    entities: seq<SketchEntity>, positions: FrontPositions, keys: seq<PointKey>) returns (out: seq<SketchEntity>)
    requires Lists(keys, positions.Keys)
    ensures |out| == |entities|
    ensures forall i :: 0 <= i < |entities| ==> out[i] == Moved(entities[i], positions)
    ensures forall i :: 0 <= i < |entities| ==> MovedAs(entities[i], positions, out[i])
  {
    var byEntity := GroupByEntity(positions, keys);
    out := [];
    for i := 0 to |entities|
      invariant |out| == i
      invariant forall j :: 0 <= j < i ==> out[j] == Moved(entities[j], positions)
    {
      var e := entities[i];
      out := out + [if e.id in byEntity then MoveEntity(e, byEntity[e.id]) else e];
    }
    forall i | 0 <= i < |entities|
      ensures MovedAs(entities[i], positions, out[i])
    {
      MovedExactly(entities[i], positions);
    }
  }

  // ── The wire form and its reading ──────────────────────────────────────────

  datatype DtoEntity =
    | DtoPoint(id: Uuid, at: Pt, construction: bool)
    | DtoLine(id: Uuid, p0Ref: Uuid, p1Ref: Uuid, construction: bool)
    | DtoCircle(id: Uuid, center: Pt, radius: real, construction: bool)
    | DtoArc(id: Uuid, center: Pt, radius: real, startAngle: Direction, endAngle: Direction, construction: bool)

  function PointPos(s: Sketch, u: Uuid): Option<Pt> {
    if u in s.entities && s.entities[u].WirePoint? then Some(s.entities[u].at) else None
  }

  function ToDto(s: Sketch, u: Uuid): Option<DtoEntity> {
    if u !in s.entities then None
    else match s.entities[u]
    case WirePoint(at, construction) => Some(DtoPoint(u, at, construction))
    case WireLine(start, end, construction) => Some(DtoLine(u, start, end, construction))
    case WireCircle(center, radius, construction) =>
      (match PointPos(s, center)
       case Some(c) => Some(DtoCircle(u, c, radius, construction))
       case None => None)
    case WireArc(center, radius, startAngle, endAngle, construction) =>
      (match PointPos(s, center)
       case Some(c) => Some(DtoArc(u, c, radius, startAngle, endAngle, construction))
       case None => None)
  }

  /** The sketch's entities on the wire, in the order the sketch holds them. */
  function SketchWire(s: Sketch, order: seq<Uuid>): seq<DtoEntity> {
    if order == [] then []
    else
      var n := |order| - 1;
      SketchWire(s, order[..n]) + Given(ToDto(s, order[n]))
  }

  function Given<T>(o: Option<T>): seq<T> {
    match o
    case Some(x) => [x]
    case None => []
  }

  /** An entity's geometry without its id. An arc's ends are given by the directions they lie in from its center. */
  datatype Shape = Shape(
    kind: EntityKind, construction: bool, p0: Option<Pt>, p1: Option<Pt>, center: Option<Pt>, radius: Option<real>,
    from: Direction, to: Direction)

  datatype ReadEntity = ReadEntity(id: Uuid, shape: Shape)

  /** What of a frontend entity its kind uses. */
  function ShapeOf(e: SketchEntity): Shape {
    match e.kind
    case PointKind => Shape(PointKind, e.construction, e.p0, None, None, None, None, None)
    case LineKind => Shape(LineKind, e.construction, e.p0, e.p1, None, None, None, None)
    case CircleKind => Shape(CircleKind, e.construction, None, None, e.center, e.radius, None, None)
    case ArcKind =>
      var (from, to) := if e.center.Some?
        then (DirectionOf(e.start, e.center.value), DirectionOf(e.end, e.center.value)) else (None, None);
      Shape(ArcKind, e.construction, None, None, e.center, e.radius, from, to)
  }

  function ReadOne(pointAt: map<Uuid, Pt>, d: DtoEntity): Option<ReadEntity> {
    match d
    case DtoPoint(id, at, construction) =>
      Some(ReadEntity(id, Shape(PointKind, construction, Some(at), None, None, None, None, None)))
    case DtoLine(id, p0Ref, p1Ref, construction) =>
      (match (Find(pointAt, p0Ref), Find(pointAt, p1Ref))
       case (Some(p), Some(q)) =>
         Some(ReadEntity(id, Shape(LineKind, construction, Some(p), Some(q), None, None, None, None)))
       case _ => None)
    case DtoCircle(id, center, radius, construction) =>
      Some(ReadEntity(id, Shape(CircleKind, construction, None, None, Some(center), Some(radius), None, None)))
    case DtoArc(id, center, radius, from, to, construction) =>
      Some(ReadEntity(id, Shape(ArcKind, construction, None, None, Some(center), Some(radius), from, to)))
  }

  function PointsAt(wire: seq<DtoEntity>): map<Uuid, Pt> {
    if wire == [] then map[]
    else
      var d, rest := wire[|wire| - 1], PointsAt(wire[..|wire| - 1]);
      if d.DtoPoint? then rest[d.id := d.at] else rest
  }

  function ReadAll(pointAt: map<Uuid, Pt>, wire: seq<DtoEntity>): seq<ReadEntity> {
    if wire == [] then []
    else
      ReadAll(pointAt, wire[..|wire| - 1]) + Given(ReadOne(pointAt, wire[|wire| - 1]))
  }

  /** Two passes: the points' coordinates first, then every entity against them. */
  method FrontendEntitiesFromDto(wire: seq<DtoEntity>) returns (out: seq<ReadEntity>)
    ensures out == ReadAll(PointsAt(wire), wire)
  {
    var pointAt: map<Uuid, Pt> := map[];
    for i := 0 to |wire|
      invariant pointAt == PointsAt(wire[..i])
    {
      assert wire[..i + 1][..i] == wire[..i];
      match wire[i] {
        case DtoPoint(id, at, _) => pointAt := pointAt[id := at];
        case _ =>
      }
    }
    assert wire[..|wire|] == wire;
    out := [];
    for i := 0 to |wire|
      invariant out == ReadAll(pointAt, wire[..i])
    {
      assert wire[..i + 1][..i] == wire[..i];
      out := out + Given(ReadOne(pointAt, wire[i]));
    }
  }

  /** What an entity of the sketch reads as, straight from the sketch. */
  function Reading(s: Sketch, u: Uuid): Option<ReadEntity> {
    if u !in s.entities then None
    else match s.entities[u]
    case WirePoint(at, construction) =>
      Some(ReadEntity(u, Shape(PointKind, construction, Some(at), None, None, None, None, None)))
    case WireLine(start, end, construction) =>
      (match (PointPos(s, start), PointPos(s, end))
       case (Some(p), Some(q)) =>
         Some(ReadEntity(u, Shape(LineKind, construction, Some(p), Some(q), None, None, None, None)))
       case _ => None)
    case WireCircle(center, radius, construction) =>
      (match PointPos(s, center)
       case Some(c) =>
         Some(ReadEntity(u, Shape(CircleKind, construction, None, None, Some(c), Some(radius), None, None)))
       case None => None)
    case WireArc(center, radius, from, to, construction) =>
      (match PointPos(s, center)
       case Some(c) => Some(ReadEntity(u, Shape(ArcKind, construction, None, None, Some(c), Some(radius), from, to)))
       case None => None)
  }

  lemma PointsAtMore(wire: seq<DtoEntity>, more: Option<DtoEntity>, u: Uuid)
    ensures Find(PointsAt(wire + Given(more)), u)
      == if more.Some? && more.value.DtoPoint? && more.value.id == u then Some(more.value.at)
         else Find(PointsAt(wire), u)
  {
    assert wire + Given(more) == if more.Some? then wire + [more.value] else wire;
    assert more.Some? ==> (wire + [more.value])[..|wire|] == wire;
  }

  lemma NothingGiven(points: map<Uuid, Pt>)
    ensures PointsAt([]) == map[] && ReadAll(points, []) == []
  {
  }

  lemma ReadAllMore(points: map<Uuid, Pt>, wire: seq<DtoEntity>, more: Option<DtoEntity>)
    ensures ReadAll(points, wire + Given(more))
      == ReadAll(points, wire) + (if more.Some? then Given(ReadOne(points, more.value)) else [])
  {
    assert wire + Given(more) == if more.Some? then wire + [more.value] else wire;
    assert more.Some? ==> (wire + [more.value])[..|wire|] == wire;
  }

  lemma DtoReads(s: Sketch, points: map<Uuid, Pt>, u: Uuid)
    requires forall v :: Find(points, v) == PointPos(s, v)
    ensures (if ToDto(s, u).Some? then ReadOne(points, ToDto(s, u).value) else None) == Reading(s, u)
  {
  }

  lemma {:induction false} WirePoints(s: Sketch, order: seq<Uuid>, u: Uuid)
    ensures Find(PointsAt(SketchWire(s, order)), u) == if u in order then PointPos(s, u) else None
  {
    hide PointsAt;
    if order == [] {
      NothingGiven(map[]);
      assert SketchWire(s, order) == [];
    } else {
      var n := |order| - 1;
      WirePoints(s, order[..n], u);
      assert order == order[..n] + [order[n]];
      PointsAtMore(SketchWire(s, order[..n]), ToDto(s, order[n]), u);
    }
  }

  lemma ReadingId(s: Sketch, u: Uuid)
    ensures Reading(s, u).Some? ==> Reading(s, u).value.id == u
  {
  }

  /** The wire loses nothing: the list read back is the sketch, entity by entity, in its order. */
  lemma {:induction false} WireReads(s: Sketch, points: map<Uuid, Pt>, order: seq<Uuid>, r: ReadEntity)
    requires forall u :: Find(points, u) == PointPos(s, u)
    ensures r in ReadAll(points, SketchWire(s, order)) <==> r.id in order && Reading(s, r.id) == Some(r)
  {
    hide ReadOne, ToDto, PointPos, ReadAll, Reading;
    NothingGiven(points);
    if order != [] {
      var n := |order| - 1;
      WireReads(s, points, order[..n], r);
      assert order == order[..n] + [order[n]];
      ReadAllMore(points, SketchWire(s, order[..n]), ToDto(s, order[n]));
      DtoReads(s, points, order[n]);
      assert r in Given(Reading(s, order[n])) <==> Reading(s, order[n]) == Some(r);
      ReadingId(s, order[n]);
    }
  }

  /** Point `u` of the sketch lies at `at`. */
  predicate PointLies(s: Sketch, u: Uuid, at: Pt) {
    u in s.entities && s.entities[u].WirePoint? && s.entities[u].at == at
  }

  /** What an entity of the sketch says on the wire: an inlined center, and everything else as it is. */
  ghost predicate SaidAs(s: Sketch, u: Uuid, d: DtoEntity) {
    u in s.entities &&
    match d
    case DtoPoint(id, at, k) => id == u && s.entities[u] == WirePoint(at, k)
    case DtoLine(id, a, b, k) => id == u && s.entities[u] == WireLine(a, b, k)
    case DtoCircle(id, at, r, k) =>
      id == u && exists c :: PointLies(s, c, at) && s.entities[u] == WireCircle(c, r, k)
    case DtoArc(id, at, r, from, to, k) =>
      id == u && exists c :: PointLies(s, c, at) && s.entities[u] == WireArc(c, r, from, to, k)
  }

  lemma SaidExactly(s: Sketch, u: Uuid, d: DtoEntity)
    ensures SaidAs(s, u, d) <==> ToDto(s, u) == Some(d)
  {
    if ToDto(s, u) == Some(d) {
      match s.entities[u] {
        case WireCircle(c, _, _) => assert PointLies(s, c, d.center);
        case WireArc(c, _, _, _, _) => assert PointLies(s, c, d.center);
        case _ =>
      }
    }
  }

  /** The wire carries the entities of the list, and of each what it says. */
  lemma {:induction false} WireExactly(s: Sketch, order: seq<Uuid>, d: DtoEntity)
    ensures d in SketchWire(s, order) <==> exists i :: 0 <= i < |order| && SaidAs(s, order[i], d)
  {
    hide ToDto, SaidAs;
    if order != [] {
      var n := |order| - 1;
      WireExactly(s, order[..n], d);
      SaidExactly(s, order[n], d);
      assert d in Given(ToDto(s, order[n])) <==> ToDto(s, order[n]) == Some(d);
      if i :| 0 <= i < |order[..n]| && SaidAs(s, order[..n][i], d) {
        assert SaidAs(s, order[i], d);
      }
      if i :| 0 <= i < |order| && SaidAs(s, order[i], d) {
        assert i < n ==> SaidAs(s, order[..n][i], d);
      }
    }
  }

  /** What one entity on the wire reads as: a line takes the coordinates its two ends have in the list. */
  predicate ReadsAs(points: map<Uuid, Pt>, d: DtoEntity, r: ReadEntity) {
    match d
    case DtoPoint(id, at, k) => r == ReadEntity(id, Shape(PointKind, k, Some(at), None, None, None, None, None))
    case DtoLine(id, a, b, k) =>
      && a in points && b in points
      && r == ReadEntity(id, Shape(LineKind, k, Some(points[a]), Some(points[b]), None, None, None, None))
    case DtoCircle(id, at, radius, k) =>
      r == ReadEntity(id, Shape(CircleKind, k, None, None, Some(at), Some(radius), None, None))
    case DtoArc(id, at, radius, from, to, k) =>
      r == ReadEntity(id, Shape(ArcKind, k, None, None, Some(at), Some(radius), from, to))
  }

  lemma {:induction false} ReadExactly(points: map<Uuid, Pt>, wire: seq<DtoEntity>, r: ReadEntity)
    ensures r in ReadAll(points, wire) <==> exists i :: 0 <= i < |wire| && ReadsAs(points, wire[i], r)
  {
    if wire != [] {
      var n := |wire| - 1;
      ReadExactly(points, wire[..n], r);
      OneReads(points, wire[n], r);
      hide ReadOne, ReadsAs;
      assert r in Given(ReadOne(points, wire[n])) <==> ReadOne(points, wire[n]) == Some(r);
      if i :| 0 <= i < |wire[..n]| && ReadsAs(points, wire[..n][i], r) {
        assert ReadsAs(points, wire[i], r);
      }
      if i :| 0 <= i < |wire| && ReadsAs(points, wire[i], r) {
        assert i < n ==> ReadsAs(points, wire[..n][i], r);
      }
    }
  }

  lemma OneReads(points: map<Uuid, Pt>, d: DtoEntity, r: ReadEntity)
    ensures ReadsAs(points, d, r) <==> ReadOne(points, d) == Some(r)
  {
  }

  /** A point's coordinates are those it is listed with last. */
  lemma {:induction false} LastListed(wire: seq<DtoEntity>, i: nat)
    requires i < |wire| && wire[i].DtoPoint?
    requires forall j :: i < j < |wire| && wire[j].DtoPoint? ==> wire[j].id != wire[i].id
    ensures wire[i].id in PointsAt(wire) && PointsAt(wire)[wire[i].id] == wire[i].at
  {
    if i < |wire| - 1 {
      LastListed(wire[..|wire| - 1], i);
    }
  }

  // ── Write-back commutes ────────────────────────────────────────────────────

  /** An arc's angles are not taken again when its center moves, so one that has ends stays in step only where it is. */
  ghost predicate ArcsStay(m: IdMap, es: Entities, positions: BackendPositions) {
    forall i :: i in es && es[i].kind == ArcKind && (i, Center) in m.point && m.point[(i, Center)] in positions ==>
      ArcStays(es[i], positions[m.point[(i, Center)]])
  }

  predicate ArcStays(e: SketchEntity, to: Pt) {
    e.start.Some? || e.end.Some? ==> e.center == Some(to)
  }

  ghost function MovedEntities(es: Entities, positions: FrontPositions): Entities {
    map i | i in es :: Moved(es[i], positions)
  }

  /** A key that no other key shares its point with is the one reported. */
  lemma OnlyKey(point: map<PointKey, Uuid>, order: seq<PointKey>, k: PointKey)
    requires Lists(order, point.Keys) && k in point
    requires forall l :: l in point && point[l] == point[k] ==> l == k
    ensures FirstKey(point, order, point[k]) == Some(k)
  {
    FirstKeyMaps(point, order, point[k]);
    assert k in order;
  }

  lemma MovedCurvePoint(
    m: IdMap, s: Sketch, k: PointKey, at: Pt, construction: bool, positions: BackendPositions, order: seq<PointKey>)
    requires IdsDistinct(m) && Lists(order, m.point.Keys)
    requires HasPoint(m, s, k, at, construction) && k.0 in m.entity && m.entity[k.0] != m.point[k]
    ensures var g := Group(SolvedPositions(m.point, order, positions), k.0);
      HasPoint(m, MoveBackend(s, positions), k, if k.1 in g then g[k.1] else at, construction)
  {
    OnlyKey(m.point, order, k);
    assert k == (k.0, k.1);
  }

  lemma MovedPointEntity(m: IdMap, s: Sketch, e: SketchEntity, positions: BackendPositions, order: seq<PointKey>)
    requires IdsDistinct(m) && Lists(order, m.point.Keys)
    requires Imaged(m, s, e) && e.kind == PointKind
    requires forall k :: k in m.point && k.0 == e.id ==> HasPosition(e.kind, k.1)
    ensures Imaged(m, MoveBackend(s, positions), Moved(e, SolvedPositions(m.point, order, positions)))
  {
    var u := m.entity[e.id];
    FirstKeyMaps(m.point, order, u);
    assert (e.id, Start) in order;
    var k := FirstKey(m.point, order, u).value;
    assert k.0 == e.id;
    assert k == (e.id, Start) || k == (e.id, Center);
    var g := Group(SolvedPositions(m.point, order, positions), e.id);
    assert (u in positions) == (k in SolvedPositions(m.point, order, positions));
    assert k.1 in g <==> u in positions;
    assert u in positions ==> g[k.1] == positions[u];
    forall p | p in g
      ensures p == k.1
    {
      assert (e.id, p) in SolvedPositions(m.point, order, positions);
    }
  }

  lemma MovedImage(m: IdMap, s: Sketch, e: SketchEntity, positions: BackendPositions, order: seq<PointKey>)
    requires IdsDistinct(m) && Lists(order, m.point.Keys)
    requires Imaged(m, s, e)
    requires forall k :: k in m.point && k.0 == e.id ==> HasPosition(e.kind, k.1)
    requires e.kind == ArcKind && m.point[(e.id, Center)] in positions ==>
      ArcStays(e, positions[m.point[(e.id, Center)]])
    ensures Imaged(m, MoveBackend(s, positions), Moved(e, SolvedPositions(m.point, order, positions)))
  {
    var g := Group(SolvedPositions(m.point, order, positions), e.id);
    match e.kind {
      case PointKind =>
        MovedPointEntity(m, s, e, positions, order);
      case LineKind =>
        MovedCurvePoint(m, s, (e.id, Start), e.p0.value, e.construction, positions, order);
        MovedCurvePoint(m, s, (e.id, End), e.p1.value, e.construction, positions, order);
      case CircleKind =>
        MovedCurvePoint(m, s, (e.id, Center), e.center.value, e.construction, positions, order);
      case ArcKind =>
        MovedCurvePoint(m, s, (e.id, Center), e.center.value, e.construction, positions, order);
        assert Center in g ==> (e.id, Center) in SolvedPositions(m.point, order, positions);
    }
  }

  /** A solver result moves both sides alike: what was in step stays in step. */
  lemma SolveKeepsInStep(
    m: IdMap, s: Sketch, es: Entities, cs: Constraints, positions: BackendPositions, order: seq<PointKey>)
    requires InStep(m, s, es, cs) && Lists(order, m.point.Keys) && ArcsStay(m, es, positions)
    ensures InStep(m, MoveBackend(s, positions), MovedEntities(es, SolvedPositions(m.point, order, positions)), cs)
  {
    var s' := MoveBackend(s, positions);
    MovedIds(m, s, positions);
    MovedAllImages(m, s, es, positions, order);
  }

  lemma MovedIds(m: IdMap, s: Sketch, positions: BackendPositions)
    requires IdsDistinct(m) && BelowMinted(m, s) && RefsClosed(m, s)
    ensures BelowMinted(m, MoveBackend(s, positions)) && RefsClosed(m, MoveBackend(s, positions))
  {
    var s' := MoveBackend(s, positions);
    assert forall u :: u in s'.entities ==> Refs(s'.entities[u]) == Refs(s.entities[u]);
  }

  lemma MovedAllImages(m: IdMap, s: Sketch, es: Entities, positions: BackendPositions, order: seq<PointKey>)
    requires IdsDistinct(m) && EntitiesInStep(m, s, es) && Lists(order, m.point.Keys) && ArcsStay(m, es, positions)
    ensures EntitiesInStep(m, MoveBackend(s, positions), MovedEntities(es, SolvedPositions(m.point, order, positions)))
  {
    hide Imaged, SolvedPositions, Lists, IdsDistinct, MoveBackend, Moved, ArcsStay;
    forall i | i in es
      ensures Imaged(m, MoveBackend(s, positions), Moved(es[i], SolvedPositions(m.point, order, positions)))
      ensures Moved(es[i], SolvedPositions(m.point, order, positions)).id == i
      ensures Moved(es[i], SolvedPositions(m.point, order, positions)).kind == es[i].kind
    {
      OneMovedImage(m, s, es, i, positions, order);
      MovedKeepsKind(es[i], SolvedPositions(m.point, order, positions));
    }
    MovedPointsOnly(s, positions);
  }

  lemma MovedKeepsKind(e: SketchEntity, positions: FrontPositions)
    ensures Moved(e, positions).id == e.id && Moved(e, positions).kind == e.kind
  {
  }

  lemma MovedPointsOnly(s: Sketch, positions: BackendPositions)
    ensures MoveBackend(s, positions).entities.Keys == s.entities.Keys
    ensures forall u :: u in s.entities ==>
      (MoveBackend(s, positions).entities[u].WirePoint? <==> s.entities[u].WirePoint?)
  {
  }

  lemma OneMovedImage(m: IdMap, s: Sketch, es: Entities, i: FrontId, positions: BackendPositions, order: seq<PointKey>)
    requires IdsDistinct(m) && EntitiesInStep(m, s, es) && Lists(order, m.point.Keys) && ArcsStay(m, es, positions)
    requires i in es
    ensures Imaged(m, MoveBackend(s, positions), Moved(es[i], SolvedPositions(m.point, order, positions)))
  {
    hide IdsDistinct, Imaged, SolvedPositions, Lists, MoveBackend, Moved;
    MovedImage(m, s, es[i], positions, order);
  }

  lemma ImageReads(m: IdMap, s: Sketch, e: SketchEntity)
    requires Imaged(m, s, e)
    ensures Reading(s, m.entity[e.id]) == Some(ReadEntity(m.entity[e.id], ShapeOf(e)))
  {
  }

  /** `r` is `e` read back, up to the renaming of its id. */
  ghost predicate Renames(m: IdMap, e: SketchEntity, r: ReadEntity) {
    && e.id in m.entity && r.id == m.entity[e.id]
    && r.shape.kind == e.kind && r.shape.construction == e.construction
    && (e.kind == PointKind ==> r.shape.p0 == e.p0)
    && (e.kind == LineKind ==> r.shape.p0 == e.p0 && r.shape.p1 == e.p1)
    && (e.kind == CircleKind || e.kind == ArcKind ==> r.shape.center == e.center && r.shape.radius == e.radius)
    && (e.kind == ArcKind && e.center.Some? ==>
          LiesIn(e.start, e.center.value, r.shape.from) && LiesIn(e.end, e.center.value, r.shape.to))
  }

  /** The end of an arc lies in the direction read for it. */
  predicate LiesIn(end: Option<Pt>, center: Pt, dir: Direction) {
    if end.Some? then dir == Some((end.value.0 - center.0, end.value.1 - center.1)) else dir == None
  }

  lemma ShapeRenames(m: IdMap, e: SketchEntity)
    requires e.id in m.entity
    ensures Renames(m, e, ReadEntity(m.entity[e.id], ShapeOf(e)))
  {
  }

  /** The list shows exactly the mapped entities, each once under its id, and points. */
  ghost predicate Shows(m: IdMap, es: Entities, list: seq<ReadEntity>) {
    && (forall i :: i in es ==> exists r :: r in list && Renames(m, es[i], r))
    && (forall r :: r in list ==> r.shape.kind == PointKind || exists i :: i in es && Renames(m, es[i], r))
  }

  /** A solver result leaves the sides in step exactly if no arc with ends has its center moved. */
  lemma SolveKeepsInStepExactly(
    m: IdMap, s: Sketch, es: Entities, cs: Constraints, positions: BackendPositions, order: seq<PointKey>)
    requires InStep(m, s, es, cs) && Lists(order, m.point.Keys)
    ensures InStep(m, MoveBackend(s, positions), MovedEntities(es, SolvedPositions(m.point, order, positions)), cs)
      <==> ArcsStay(m, es, positions)
  {
    hide InStep;
    if ArcsStay(m, es, positions) {
      SolveKeepsInStep(m, s, es, cs, positions, order);
    }
    if InStep(m, MoveBackend(s, positions), MovedEntities(es, SolvedPositions(m.point, order, positions)), cs) {
      forall i | i in es && es[i].kind == ArcKind && (i, Center) in m.point && m.point[(i, Center)] in positions
        ensures ArcStays(es[i], positions[m.point[(i, Center)]])
      {
        ArcStayed(m, s, es, cs, positions, order, i);
      }
    }
  }

  lemma ArcStayed(m: IdMap, s: Sketch, es: Entities, cs: Constraints, positions: BackendPositions,
                  order: seq<PointKey>, i: FrontId)
    requires InStep(m, s, es, cs) && Lists(order, m.point.Keys)
    requires InStep(m, MoveBackend(s, positions), MovedEntities(es, SolvedPositions(m.point, order, positions)), cs)
    requires i in es && es[i].kind == ArcKind && (i, Center) in m.point && m.point[(i, Center)] in positions
    ensures ArcStays(es[i], positions[m.point[(i, Center)]])
  {
    hide BelowMinted, RefsClosed, ConstraintsInStep, IdsDistinct, Moved, MovedAs, MoveBackend, Imaged, FirstKey;
    var e, k := es[i], (i, Center);
    CurvePointAlone(m, s, es, k);
    OnlyKey(m.point, order, k);
    ArcCenterMoves(e, SolvedPositions(m.point, order, positions));
    ArcIsNoPoint(m, s, e);
    BackendMovesPoints(s, positions, m.entity[i]);
    EntityThere(m, s, e);
    assert i in MovedEntities(es, SolvedPositions(m.point, order, positions));
    ArcImages(m, s, MoveBackend(s, positions), e, Moved(e, SolvedPositions(m.point, order, positions)));
  }

  lemma CurvePointAlone(m: IdMap, s: Sketch, es: Entities, k: PointKey)
    requires IdsDistinct(m) && EntitiesInStep(m, s, es) && k in m.point && es[k.0].kind != PointKind
    ensures forall l :: l in m.point && m.point[l] == m.point[k] ==> l == k
  {
    assert Imaged(m, s, es[k.0]);
    assert m.entity[k.0] != m.point[k];
  }

  lemma EntityThere(m: IdMap, s: Sketch, e: SketchEntity)
    requires Imaged(m, s, e)
    ensures e.id in m.entity && m.entity[e.id] in s.entities
  {
  }

  lemma ArcIsNoPoint(m: IdMap, s: Sketch, e: SketchEntity)
    requires Imaged(m, s, e) && e.kind == ArcKind
    ensures !s.entities[m.entity[e.id]].WirePoint?
  {
  }

  /** Two arcs with the same ends and the same image have the same center, if there are ends. */
  lemma ArcImages(m: IdMap, s: Sketch, s': Sketch, e: SketchEntity, e': SketchEntity)
    requires Imaged(m, s, e) && Imaged(m, s', e') && e.kind == e'.kind == ArcKind && e.id == e'.id
    requires e.start == e'.start && e.end == e'.end
    requires s.entities[m.entity[e.id]] == s'.entities[m.entity[e.id]]
    ensures ArcStays(e, e'.center.value)
  {
  }

  lemma ArcCenterMoves(e: SketchEntity, positions: FrontPositions)
    requires e.kind == ArcKind && (e.id, Center) in positions
    ensures var e' := Moved(e, positions);
      && e'.id == e.id && e'.kind == ArcKind && e'.start == e.start && e'.end == e.end
      && e'.center == Some(positions[(e.id, Center)])
  {
    MovedExactly(e, positions);
  }

  /**
   Moving the backend by a solver result and reading it back over the wire gives each frontend entity
   as its own write-back moves it; everything else read back is a point. With an empty result this is
   the round trip through the three representations.
   */
  lemma WriteBackCommutes(m: IdMap, s: Sketch, es: Entities, cs: Constraints,
                          positions: BackendPositions, order: seq<PointKey>, uuids: seq<Uuid>)
    requires InStep(m, s, es, cs) && Lists(order, m.point.Keys) && ArcsStay(m, es, positions)
    requires Lists(uuids, s.entities.Keys)
    ensures var wire := SketchWire(MoveBackend(s, positions), uuids);
      Shows(m, MovedEntities(es, SolvedPositions(m.point, order, positions)), ReadAll(PointsAt(wire), wire))
  {
    hide Shows, EntitiesInStep, ConstraintsInStep, IdsDistinct, BelowMinted, RefsClosed, ArcsStay, MovedEntities,
      SolvedPositions;
    SolveKeepsInStep(m, s, es, cs, positions, order);
    ReadBackExact(m, MoveBackend(s, positions), MovedEntities(es, SolvedPositions(m.point, order, positions)), uuids);
  }

  lemma ReadBackExact(m: IdMap, s: Sketch, es: Entities, uuids: seq<Uuid>)
    requires EntitiesInStep(m, s, es) && Lists(uuids, s.entities.Keys)
    ensures var wire := SketchWire(s, uuids); Shows(m, es, ReadAll(PointsAt(wire), wire))
  {
    var wire := SketchWire(s, uuids);
    forall u
      ensures Find(PointsAt(wire), u) == PointPos(s, u)
    {
      WirePoints(s, uuids, u);
    }
    forall i | i in es
      ensures exists r :: r in ReadAll(PointsAt(wire), wire) && Renames(m, es[i], r)
    {
      EntityShown(m, s, es, uuids, PointsAt(wire), i);
    }
    forall r | r in ReadAll(PointsAt(wire), wire)
      ensures r.shape.kind == PointKind || exists i :: i in es && Renames(m, es[i], r)
    {
      if r.shape.kind != PointKind {
        NothingElseShown(m, s, es, uuids, PointsAt(wire), r);
      }
    }
  }

  lemma EntityShown(m: IdMap, s: Sketch, es: Entities, uuids: seq<Uuid>, points: map<Uuid, Pt>, i: FrontId)
    requires EntitiesInStep(m, s, es) && Lists(uuids, s.entities.Keys)
    requires forall u :: Find(points, u) == PointPos(s, u)
    requires i in es
    ensures exists r :: r in ReadAll(points, SketchWire(s, uuids)) && Renames(m, es[i], r)
  {
    hide ReadAll, SketchWire, PointPos, Reading, ShapeOf;
    ImageReads(m, s, es[i]);
    var r := ReadEntity(m.entity[i], ShapeOf(es[i]));
    WireReads(s, points, uuids, r);
    ShapeRenames(m, es[i]);
  }

  lemma NothingElseShown(m: IdMap, s: Sketch, es: Entities, uuids: seq<Uuid>, points: map<Uuid, Pt>, r: ReadEntity)
    requires EntitiesInStep(m, s, es) && Lists(uuids, s.entities.Keys)
    requires forall u :: Find(points, u) == PointPos(s, u)
    requires r in ReadAll(points, SketchWire(s, uuids)) && r.shape.kind != PointKind
    ensures exists i :: i in es && Renames(m, es[i], r)
  {
    hide ReadAll, SketchWire, PointPos, ShapeOf;
    WireReads(s, points, uuids, r);
    assert !s.entities[r.id].WirePoint?;
    var i :| i in m.entity && m.entity[i] == r.id;
    ImageReads(m, s, es[i]);
    ShapeRenames(m, es[i]);
  }

  // ── Runs of upserts and solves ─────────────────────────────────────────────

  datatype Event = Sends(upsertion: Upsertion) | Solves(positions: BackendPositions, order: seq<PointKey>)

  ghost predicate CanTake(lane: Lane, v: Event) {
    match v
    case Sends(u) => Admissible(lane, u)
    case Solves(positions, order) => Lists(order, lane.m.point.Keys) && ArcsStay(lane.m, lane.es, positions)
  }

  ghost function Taken(lane: Lane, v: Event): Lane
    requires CanTake(lane, v)
  {
    match v
    case Sends(u) => Upserted(lane, u)
    case Solves(positions, order) =>
      lane.(s := MoveBackend(lane.s, positions),
        es := MovedEntities(lane.es, SolvedPositions(lane.m.point, order, positions)))
  }

  ghost predicate Session(vs: seq<Event>, lanes: seq<Lane>) {
    && |lanes| == |vs| + 1 && lanes[0] == EMPTY_LANE
    && forall i :: 0 <= i < |vs| ==> CanTake(lanes[i], vs[i]) && lanes[i + 1] == Taken(lanes[i], vs[i])
  }

  ghost predicate Accepted(lane: Lane, v: Event)
    requires CanTake(lane, v)
  {
    v.Sends? ==> ApplyOps(lane.s, Sent(lane, v.upsertion)).Some?
  }

  lemma EventInStep(lane: Lane, v: Event)
    requires InStep(lane.m, lane.s, lane.es, lane.cs) && CanTake(lane, v)
    ensures Accepted(lane, v)
    ensures var after := Taken(lane, v); InStep(after.m, after.s, after.es, after.cs)
  {
    hide InStep, Compatible, NextEntities, NextConstraints, Upsert;
    match v {
      case Sends(u) =>
        var s' := UpsertInStep(lane.m, lane.s, lane.es, lane.cs, u.next, u.entityOrder, u.constraintOrder);
      case Solves(positions, order) =>
        SolveKeepsInStep(lane.m, lane.s, lane.es, lane.cs, positions, order);
    }
  }

  lemma {:induction false} SessionInStep(vs: seq<Event>, lanes: seq<Lane>, i: nat)
    requires Session(vs, lanes) && i < |lanes|
    ensures InStep(lanes[i].m, lanes[i].s, lanes[i].es, lanes[i].cs)
  {
    hide InStep, CanTake, Taken;
    if i == 0 {
      EmptyInStep();
    } else {
      SessionInStep(vs, lanes, i - 1);
      EventInStep(lanes[i - 1], vs[i - 1]);
    }
  }

  /** Upserts and solver results in any order: every op is accepted and both sides stay in step. */
  lemma SessionsStayInStep(vs: seq<Event>, lanes: seq<Lane>)
    requires Session(vs, lanes)
    ensures forall i :: 0 <= i < |vs| ==> Accepted(lanes[i], vs[i])
    ensures forall i :: 0 <= i < |lanes| ==> InStep(lanes[i].m, lanes[i].s, lanes[i].es, lanes[i].cs)
  {
    hide InStep, CanTake, Taken, Accepted;
    forall i | 0 <= i < |lanes|
      ensures InStep(lanes[i].m, lanes[i].s, lanes[i].es, lanes[i].cs)
    {
      SessionInStep(vs, lanes, i);
    }
    forall i | 0 <= i < |vs|
      ensures Accepted(lanes[i], vs[i])
    {
      EventInStep(lanes[i], vs[i]);
    }
  }
}
