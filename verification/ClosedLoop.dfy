/** Region detection of the sketch mock: walking a soup of segments into one closed loop. */
module ClosedLoop {
  import opened Permutations
  import opened Wrappers

  type Point = (real, real)
  type Key = (int, int)

  const QUANT := 1000000.0

  /** `Math.round`: halves go up. */
  function Round(x: real): int {
    (x + 0.5).Floor
  }

  function KeyOf(p: Point): Key {
    (Round(p.0 * QUANT), Round(p.1 * QUANT))
  }

  datatype Entity =
    | Line(id: string, p0: Option<Point>, p1: Option<Point>)
    | Arc(id: string, start: Option<Point>, end: Option<Point>)
    | OtherEntity(id: string)

  datatype Seg = Seg(id: string, a: Point, b: Point)

  datatype Loop = Loop(ids: seq<string>, points: seq<Point>)

  function SegEndpoints(e: Entity): Option<Seg> {
    match e
    case Line(id, Some(p0), Some(p1)) => Some(Seg(id, p0, p1))
    case Arc(id, Some(start), Some(end)) => Some(Seg(id, start, end))
    case _ => None
  }

  function Segments(entities: seq<Entity>): seq<Seg> {
    if entities == [] then []
    else
      var rest := Segments(entities[..|entities| - 1]);
      match SegEndpoints(entities[|entities| - 1])
      case Some(s) => rest + [s]
      case None => rest
  }

  /** A line or an arc whose two ends are there is the segment between them, in that order, under its id. */
  predicate Gives(e: Entity, s: Seg) {
    e == Line(s.id, Some(s.a), Some(s.b)) || e == Arc(s.id, Some(s.a), Some(s.b))
  }

  /** The segments are those of the entities listed at `picks`, in list order. */
  ghost predicate Picked(entities: seq<Entity>, segs: seq<Seg>, picks: seq<nat>) {
    && |picks| == |segs|
    && (forall k, l :: 0 <= k < l < |picks| ==> picks[k] < picks[l])
    && (forall k :: 0 <= k < |picks| ==> picks[k] < |entities| && Gives(entities[picks[k]], segs[k]))
    && (forall i, s :: 0 <= i < |entities| && Gives(entities[i], s) ==> i in picks)
  }

  lemma OneGives(e: Entity)
    ensures forall s :: Gives(e, s) <==> SegEndpoints(e) == Some(s)
  {
  }

  lemma PickedSkip(entities: seq<Entity>, segs: seq<Seg>, picks: seq<nat>, e: Entity)
    requires Picked(entities, segs, picks) && forall s :: !Gives(e, s)
    ensures Picked(entities + [e], segs, picks)
  {
    hide Gives;
    assert forall i :: 0 <= i < |entities| ==> (entities + [e])[i] == entities[i];
  }

  lemma PickedTake(entities: seq<Entity>, segs: seq<Seg>, picks: seq<nat>, e: Entity, s: Seg)
    requires Picked(entities, segs, picks) && Gives(e, s)
    ensures Picked(entities + [e], segs + [s], picks + [|entities|])
  {
    hide Gives;
    var more := picks + [|entities|];
    assert forall i :: 0 <= i < |entities| ==> (entities + [e])[i] == entities[i];
    assert more[|picks|] == |entities|;
    assert forall i :: i in picks ==> i in more;
  }

  /** Every entity that is a segment gives one, with its id and its ends in order, and nothing else does. */
  lemma {:induction false} SegmentsExactly(entities: seq<Entity>) returns (picks: seq<nat>)
    ensures Picked(entities, Segments(entities), picks)
  {
    hide Gives, Picked;
    if entities == [] {
      picks := [];
      NonePicked();
    } else {
      var n := |entities| - 1;
      picks := SegmentsExactly(entities[..n]);
      OneGives(entities[n]);
      assert entities == entities[..n] + [entities[n]];
      match SegEndpoints(entities[n]) {
        case Some(s) =>
          PickedTake(entities[..n], Segments(entities[..n]), picks, entities[n], s);
          picks := picks + [n];
        case None =>
          PickedSkip(entities[..n], Segments(entities[..n]), picks, entities[n]);
      }
    }
  }

  lemma NonePicked()
    ensures Picked([], [], [])
  {
  }

  /** Two points are one vertex exactly when they round to one cell of the grid of side 1e-6. */
  lemma SameVertex(p: Point, q: Point)
    ensures KeyOf(p) == KeyOf(q) <==> exists i: int, j: int :: InCell(p, i, j) && InCell(q, i, j)
  {
    CellOf(p, Round(p.0 * QUANT), Round(p.1 * QUANT));
    CellOf(q, Round(q.0 * QUANT), Round(q.1 * QUANT));
    forall i: int, j: int | InCell(p, i, j) && InCell(q, i, j)
      ensures KeyOf(p) == KeyOf(q)
    {
      CellOf(p, i, j);
      CellOf(q, i, j);
    }
  }

  predicate InCell(p: Point, i: int, j: int) {
    && i as real - 0.5 <= p.0 * 1000000.0 < i as real + 0.5
    && j as real - 0.5 <= p.1 * 1000000.0 < j as real + 0.5
  }

  lemma CellOf(p: Point, i: int, j: int)
    ensures InCell(p, i, j) <==> KeyOf(p) == (i, j)
  {
  }

  // ── The multigraph of a segment list ───────────────────────────────────────

  function Hit(k: Key, v: Key): nat {
    if k == v then 1 else 0
  }

  /** How often `v` is an end of `s`; a self-loop counts twice. */
  function Ends(s: Seg, v: Key): nat {
    Hit(KeyOf(s.a), v) + Hit(KeyOf(s.b), v)
  }

  function Degree(segs: seq<Seg>, v: Key): nat {
    if segs == [] then 0
    else Degree(segs[..|segs| - 1], v) + Ends(segs[|segs| - 1], v)
  }

  ghost predicate DegreesAreTwo(segs: seq<Seg>) {
    forall v :: Degree(segs, v) == 0 || Degree(segs, v) == 2
  }

  /** `s` runs between the vertices `u` and `v`, in either direction. */
  predicate Connects(s: Seg, u: Key, v: Key) {
    (KeyOf(s.a) == u && KeyOf(s.b) == v) || (KeyOf(s.b) == u && KeyOf(s.a) == v)
  }

  function Iota(n: nat): (r: seq<nat>)
    ensures |r| == n && forall i :: 0 <= i < n ==> r[i] == i
  {
    if n == 0 then [] else Iota(n - 1) + [n - 1]
  }

  /** `order` lists every index below `n` exactly once. */
  predicate Permutation(order: seq<nat>, n: nat) {
    multiset(order) == multiset(Iota(n))
  }

  /** `order` names segments whose consecutive ends are the vertices `ks`. */
  predicate Trail(segs: seq<Seg>, order: seq<nat>, ks: seq<Key>) {
    && |ks| == |order| + 1
    && forall i :: 0 <= i < |order| ==> order[i] < |segs| && Connects(segs[order[i]], ks[i], ks[i + 1])
  }

  predicate Distinct(ks: seq<Key>) {
    forall i, j :: 0 <= i < j < |ks| ==> ks[i] != ks[j]
  }

  /** The segments, taken in `order`, form one simple cycle through the vertices `ks`. */
  predicate SimpleCycle(segs: seq<Seg>, order: seq<nat>, ks: seq<Key>) {
    && Permutation(order, |segs|)
    && Trail(segs, order, ks)
    && ks[0] == ks[|order|]
    && Distinct(ks[..|order|])
  }

  ghost predicate SingleCycle(segs: seq<Seg>) {
    exists order, ks :: SimpleCycle(segs, order, ks)
  }

  /**
   What a returned loop says: its ids list every segment once, and its points are the
   vertices of a simple cycle, each point being the far end of the segment before it.
   */
  ghost predicate LoopOf(segs: seq<Seg>, order: seq<nat>, loop: Loop) {
    && Permutation(order, |segs|)
    && |loop.ids| == |loop.points| == |order| == |segs|
    && Distinct(seq(|loop.points|, i requires 0 <= i < |loop.points| => KeyOf(loop.points[i])))
    && forall i :: 0 <= i < |order| ==>
      && order[i] < |segs|
      && var s := segs[order[i]];
      && loop.ids[i] == s.id
      && var next := loop.points[if i + 1 == |order| then 0 else i + 1];
      && Connects(s, KeyOf(loop.points[i]), KeyOf(next))
      && (i + 1 < |order| ==> next == s.a || next == s.b)
  }

  ghost predicate IsLoop(segs: seq<Seg>, loop: Loop) {
    exists order :: LoopOf(segs, order, loop)
  }

  // ── Degrees along a trail ──────────────────────────────────────────────────

  ghost function SumEnds(segs: seq<Seg>, order: seq<nat>, v: Key): nat
    requires forall i :: 0 <= i < |order| ==> order[i] < |segs|
  {
    if order == [] then 0
    else SumEnds(segs, order[..|order| - 1], v) + Ends(segs[order[|order| - 1]], v)
  }

  ghost function Occ(ks: seq<Key>, v: Key): nat {
    if ks == [] then 0 else Occ(ks[..|ks| - 1], v) + Hit(ks[|ks| - 1], v)
  }

  /** Every inner visit of a trail uses two segment ends, its first and last visit one each. */
  lemma {:induction false} TrailDegree(segs: seq<Seg>, order: seq<nat>, ks: seq<Key>, v: Key)
    requires Trail(segs, order, ks)
    ensures SumEnds(segs, order, v) + Hit(ks[0], v) + Hit(ks[|order|], v) == 2 * Occ(ks, v)
  {
    var n := |order|;
    if n == 0 {
      assert ks[..0] == [];
    } else {
      TrailDegree(segs, order[..n - 1], ks[..n], v);
      assert ks[..|ks| - 1] == ks[..n];
    }
  }

  lemma {:induction false} SumEndsRemove(segs: seq<Seg>, order: seq<nat>, p: nat, v: Key)
    requires p < |order|
    requires forall i :: 0 <= i < |order| ==> order[i] < |segs|
    ensures SumEnds(segs, order, v) == SumEnds(segs, order[..p] + order[p + 1..], v) + Ends(segs[order[p]], v)
  {
    var n := |order|;
    var rest := order[..p] + order[p + 1..];
    if p == n - 1 {
      assert rest == order[..n - 1];
    } else {
      SumEndsRemove(segs, order[..n - 1], p, v);
      assert rest[..|rest| - 1] == order[..n - 1][..p] + order[..n - 1][p + 1..];
      assert rest[|rest| - 1] == order[n - 1];
    }
  }

  lemma {:induction false} SumEndsPermutation(segs: seq<Seg>, xs: seq<nat>, ys: seq<nat>, v: Key)
    requires multiset(xs) == multiset(ys)
    requires forall i :: 0 <= i < |xs| ==> xs[i] < |segs|
    requires forall i :: 0 <= i < |ys| ==> ys[i] < |segs|
    ensures SumEnds(segs, xs, v) == SumEnds(segs, ys, v)
    decreases |xs|
  {
    if xs == [] {
      assert |multiset(ys)| == 0;
    } else {
      var p := RemoveLast(xs, ys);
      SumEndsPermutation(segs, xs[..|xs| - 1], ys[..p] + ys[p + 1..], v);
      SumEndsRemove(segs, ys, p, v);
    }
  }

  lemma {:induction false} SumEndsIota(segs: seq<Seg>, n: nat, v: Key)
    requires n <= |segs|
    ensures SumEnds(segs, Iota(n), v) == Degree(segs[..n], v)
  {
    if n > 0 {
      SumEndsIota(segs, n - 1, v);
      assert Iota(n)[..n - 1] == Iota(n - 1);
      assert segs[..n][..n - 1] == segs[..n - 1];
    }
  }

  lemma {:induction false} SumEndsConcat(segs: seq<Seg>, xs: seq<nat>, ys: seq<nat>, v: Key)
    requires forall i :: 0 <= i < |xs| ==> xs[i] < |segs|
    requires forall i :: 0 <= i < |ys| ==> ys[i] < |segs|
    ensures SumEnds(segs, xs + ys, v) == SumEnds(segs, xs, v) + SumEnds(segs, ys, v)
    decreases |ys|
  {
    if ys == [] {
      assert xs + ys == xs;
    } else {
      SumEndsConcat(segs, xs, ys[..|ys| - 1], v);
      assert (xs + ys)[..|xs + ys| - 1] == xs + ys[..|ys| - 1];
    }
  }

  lemma PermutationFacts(order: seq<nat>, n: nat)
    requires Permutation(order, n)
    ensures |order| == n
    ensures forall i :: 0 <= i < |order| ==> order[i] < n
    ensures forall x: nat :: x < n ==> x in order
    ensures forall i, j :: 0 <= i < j < |order| ==> order[i] != order[j]
  {
    assert |multiset(order)| == |multiset(Iota(n))|;
    forall i | 0 <= i < |order|
      ensures order[i] < n
    {
      assert order[i] in multiset(order);
      assert order[i] in multiset(Iota(n));
      assert order[i] in Iota(n);
    }
    forall x: nat | x < n
      ensures x in order
    {
      assert Iota(n)[x] == x;
      assert x in multiset(Iota(n));
      assert x in multiset(order);
    }
    forall i, j | 0 <= i < j < |order|
      ensures order[i] != order[j]
    {
      if order[i] == order[j] {
        var x := order[i];
        TwiceInMultiset(order, i, j);
        IotaOnce(n, x);
      }
    }
  }

  lemma TwiceInMultiset(xs: seq<nat>, i: nat, j: nat)
    requires i < j < |xs| && xs[i] == xs[j]
    ensures multiset(xs)[xs[i]] >= 2
  {
    assert xs == xs[..j] + xs[j..];
    assert xs[i] in multiset(xs[..j]) by { assert xs[..j][i] == xs[i]; }
    assert xs[j] in multiset(xs[j..]) by { assert xs[j..][0] == xs[j]; }
  }

  lemma {:induction false} IotaOnce(n: nat, x: nat)
    ensures multiset(Iota(n))[x] == if x < n then 1 else 0
  {
    if n > 0 {
      IotaOnce(n - 1, x);
    }
  }

  /** A full walk accounts for every segment end. */
  lemma FullDegree(segs: seq<Seg>, order: seq<nat>, v: Key)
    requires Permutation(order, |segs|)
    requires forall i :: 0 <= i < |order| ==> order[i] < |segs|
    ensures SumEnds(segs, order, v) == Degree(segs, v)
  {
    SumEndsPermutation(segs, order, Iota(|segs|), v);
    SumEndsIota(segs, |segs|, v);
    assert segs[..|segs|] == segs;
  }

  lemma {:induction false} OccAtLeast(ks: seq<Key>, i: nat)
    requires i < |ks|
    ensures Occ(ks, ks[i]) >= 1
  {
    if i < |ks| - 1 {
      OccAtLeast(ks[..|ks| - 1], i);
    }
  }

  lemma {:induction false} OccAbsent(ks: seq<Key>, v: Key)
    requires v !in ks
    ensures Occ(ks, v) == 0
  {
    if ks != [] {
      assert forall k :: k in ks[..|ks| - 1] ==> k in ks;
      assert ks[|ks| - 1] in ks;
      OccAbsent(ks[..|ks| - 1], v);
    }
  }

  lemma {:induction false} OccTwice(ks: seq<Key>, i: nat, j: nat)
    requires i < j < |ks| && ks[i] == ks[j]
    ensures Occ(ks, ks[i]) >= 2
  {
    if j < |ks| - 1 {
      OccTwice(ks[..|ks| - 1], i, j);
    } else {
      OccAtLeast(ks[..|ks| - 1], i);
      assert ks[..|ks| - 1][i] == ks[i];
    }
  }

  lemma {:induction false} OccDistinct(ks: seq<Key>, v: Key)
    requires Distinct(ks)
    ensures Occ(ks, v) == if v in ks then 1 else 0
  {
    if ks != [] {
      var init := ks[..|ks| - 1];
      OccDistinct(init, v);
      assert ks == init + [ks[|ks| - 1]];
      if ks[|ks| - 1] == v {
        assert forall i :: 0 <= i < |init| ==> init[i] == ks[i];
        assert v !in init;
      }
    }
  }

  // ── Soundness: degree two everywhere makes a full walk a simple cycle ──────

  /**
   The test that the walk ends where it began is implied: with every degree two, a walk over
   all segments is closed, and it passes each vertex once.
   */
  lemma FullWalkIsCycle(segs: seq<Seg>, order: seq<nat>, ks: seq<Key>)
    requires DegreesAreTwo(segs)
    requires Permutation(order, |segs|) && Trail(segs, order, ks)
    ensures ks[0] == ks[|order|]
    ensures SimpleCycle(segs, order, ks)
  {
    var n := |order|;
    var last := ks[n];
    TrailDegree(segs, order, ks, last);
    FullDegree(segs, order, last);
    OccAtLeast(ks, n);
    assert ks[0] == last;
    forall i, j | 0 <= i < j < n
      ensures ks[..n][i] != ks[..n][j]
    {
      var v := ks[i];
      TrailDegree(segs, order, ks, v);
      FullDegree(segs, order, v);
      assert ks[..|ks| - 1] == ks[..n];
      assert Occ(ks, v) == Occ(ks[..n], v) + Hit(last, v);
      assert Occ(ks[..n], v) <= 1;
      if ks[i] == ks[j] {
        OccTwice(ks[..n], i, j);
      }
    }
  }

  // ── Completeness: a simple cycle passes every test and never strands the walk ──

  lemma CycleDegrees(segs: seq<Seg>, order: seq<nat>, ks: seq<Key>)
    requires SimpleCycle(segs, order, ks)
    ensures DegreesAreTwo(segs)
  {
    var n := |order|;
    forall v
      ensures Degree(segs, v) == 0 || Degree(segs, v) == 2
    {
      FullDegree(segs, order, v);
      TrailDegree(segs, order, ks, v);
      OccDistinct(ks[..n], v);
      assert ks[..|ks| - 1] == ks[..n];
    }
  }

  /** Going round a cycle of positions, a property that holds somewhere but not everywhere must stop. */
  lemma Boundary(inside: seq<bool>, i: nat, j: nat) returns (k: nat)
    requires i < |inside| && j < |inside| && inside[i] && !inside[j]
    ensures k < |inside| && inside[k] && !inside[if k + 1 == |inside| then 0 else k + 1]
  {
    k := i;
    var steps := |inside|;
    while inside[if k + 1 == |inside| then 0 else k + 1]
      invariant k < |inside| && inside[k]
      invariant i <= k ==> forall m :: i <= m <= k ==> inside[m]
      invariant k < i ==> (forall m :: i <= m < |inside| ==> inside[m]) && (forall m :: 0 <= m <= k ==> inside[m])
      decreases if k >= i then |inside| - k + i else i - k
    {
      k := if k + 1 == |inside| then 0 else k + 1;
      if k == i {
        assert false;
      }
    }
  }

  lemma PartsMakeDegree(segs: seq<Seg>, order: seq<nat>, remaining: seq<nat>, u: Key)
    requires Permutation(order + remaining, |segs|)
    requires forall i :: 0 <= i < |order| ==> order[i] < |segs|
    requires forall i :: 0 <= i < |remaining| ==> remaining[i] < |segs|
    ensures SumEnds(segs, order, u) + SumEnds(segs, remaining, u) == Degree(segs, u)
  {
    hide SumEnds, Degree;
    FullDegree(segs, order + remaining, u);
    SumEndsConcat(segs, order, remaining, u);
  }

  /** A walk with no way on has come back to its start and used up every vertex it visited. */
  lemma StuckWalkIsClosed(segs: seq<Seg>, order: seq<nat>, remaining: seq<nat>, ks: seq<Key>, v: Key)
    requires DegreesAreTwo(segs)
    requires Permutation(order + remaining, |segs|) && Trail(segs, order, ks)
    requires forall i :: 0 <= i < |remaining| ==> remaining[i] < |segs|
    requires forall i :: 0 <= i < |remaining| ==> Ends(segs[remaining[i]], ks[|order|]) == 0
    requires v in ks
    ensures SumEnds(segs, remaining, v) == 0
  {
    hide SumEnds, Degree, Permutation, Ends;
    var c := ks[|order|];
    PartsMakeDegree(segs, order, remaining, c);
    PartsMakeDegree(segs, order, remaining, v);
    NoEnds(segs, remaining, c);
    TrailDegree(segs, order, ks, c);
    OccAtLeast(ks, |order|);
    assert ks[0] == c || order == [];
    TrailDegree(segs, order, ks, v);
    var i :| 0 <= i < |ks| && ks[i] == v;
    OccAtLeast(ks, i);
  }

  lemma {:induction false} NoEnds(segs: seq<Seg>, order: seq<nat>, v: Key)
    requires forall i :: 0 <= i < |order| ==> order[i] < |segs| && Ends(segs[order[i]], v) == 0
    ensures SumEnds(segs, order, v) == 0
  {
    if order != [] {
      NoEnds(segs, order[..|order| - 1], v);
    }
  }

  lemma {:induction false} SomeEnds(segs: seq<Seg>, order: seq<nat>, i: nat, v: Key)
    requires i < |order|
    requires forall i :: 0 <= i < |order| ==> order[i] < |segs|
    ensures SumEnds(segs, order, v) >= Ends(segs[order[i]], v)
  {
    if i < |order| - 1 {
      SomeEnds(segs, order[..|order| - 1], i, v);
    }
  }

  /** A walk that is stuck has not left a neighbour of what it walked. */
  lemma WalkLeavesNothing(
    segs: seq<Seg>, order: seq<nat>, remaining: seq<nat>, ks: seq<Key>, x: nat, y: nat, v: Key, shared: Key, w: Key)
    requires DegreesAreTwo(segs)
    requires Permutation(order + remaining, |segs|) && Trail(segs, order, ks)
    requires forall i :: 0 <= i < |remaining| ==> remaining[i] < |segs|
    requires forall i :: 0 <= i < |remaining| ==> Ends(segs[remaining[i]], ks[|order|]) == 0
    requires x in order && x < |segs| && Connects(segs[x], v, shared)
    requires y < |segs| && Connects(segs[y], shared, w)
    ensures y !in remaining
  {
    var m :| 0 <= m < |order| && order[m] == x;
    assert shared in ks by {
      assert Connects(segs[order[m]], ks[m], ks[m + 1]);
    }
    if y in remaining {
      var m' :| 0 <= m' < |remaining| && remaining[m'] == y;
      SomeEnds(segs, remaining, m', shared);
      StuckWalkIsClosed(segs, order, remaining, ks, shared);
      assert false;
    }
  }

  /** A walk that strands with segments left over shows that the segments are not one cycle. */
  lemma StrandedWalk(segs: seq<Seg>, order: seq<nat>, remaining: seq<nat>, ks: seq<Key>)
    requires DegreesAreTwo(segs)
    requires Permutation(order + remaining, |segs|) && Trail(segs, order, ks)
    requires order != [] && remaining != []
    requires forall i :: 0 <= i < |remaining| ==> remaining[i] < |segs|
    requires forall i :: 0 <= i < |remaining| ==> Ends(segs[remaining[i]], ks[|order|]) == 0
    ensures !SingleCycle(segs)
  {
    if SingleCycle(segs) {
      var cycle, vs :| SimpleCycle(segs, cycle, vs);
      var n := |segs|;
      PermutationFacts(cycle, n);
      PermutationFacts(order + remaining, n);
      var used := seq(n, k requires 0 <= k < n => cycle[k] in order);
      assert (order + remaining)[0] == order[0];
      assert order[0] in cycle;
      var i :| 0 <= i < n && cycle[i] == order[0];
      assert (order + remaining)[|order|] == remaining[0];
      assert remaining[0] in cycle;
      var j :| 0 <= j < n && cycle[j] == remaining[0];
      forall m | 0 <= m < |order|
        ensures order[m] != cycle[j]
      {
        assert (order + remaining)[m] != (order + remaining)[|order|];
      }
      var k := Boundary(used, i, j);
      var k' := if k + 1 == n then 0 else k + 1;
      var shared := vs[k + 1];
      assert vs[k'] == shared;
      assert cycle[k'] in order + remaining;
      WalkLeavesNothing(segs, order, remaining, ks, cycle[k], cycle[k'], vs[k], shared, vs[k' + 1]);
      assert false;
    }
  }

  // ── The vertex count ───────────────────────────────────────────────────────

  ghost function Pick(vs: set<Key>): Key
    requires vs != {}
  {
    var v :| v in vs; v
  }

  ghost function TotalDegree(segs: seq<Seg>, vs: set<Key>): nat {
    if vs == {} then 0
    else Degree(segs, Pick(vs)) + TotalDegree(segs, vs - {Pick(vs)})
  }

  lemma {:induction false} TotalDegreeStep(segs: seq<Seg>, vs: set<Key>)
    requires segs != []
    ensures var s := segs[|segs| - 1];
      TotalDegree(segs, vs) == TotalDegree(segs[..|segs| - 1], vs)
        + (if KeyOf(s.a) in vs then 1 else 0) + (if KeyOf(s.b) in vs then 1 else 0)
  {
    if vs != {} {
      TotalDegreeStep(segs, vs - {Pick(vs)});
    }
  }

  lemma {:induction false} Handshake(segs: seq<Seg>, vs: set<Key>)
    requires forall i :: 0 <= i < |segs| ==> KeyOf(segs[i].a) in vs && KeyOf(segs[i].b) in vs
    ensures TotalDegree(segs, vs) == 2 * |segs|
  {
    if segs == [] {
      EmptyTotal(vs);
    } else {
      Handshake(segs[..|segs| - 1], vs);
      TotalDegreeStep(segs, vs);
    }
  }

  lemma {:induction false} EmptyTotal(vs: set<Key>)
    ensures TotalDegree([], vs) == 0
  {
    if vs != {} {
      EmptyTotal(vs - {Pick(vs)});
    }
  }

  lemma {:induction false} UniformTotal(segs: seq<Seg>, vs: set<Key>)
    requires forall v :: v in vs ==> Degree(segs, v) == 2
    ensures TotalDegree(segs, vs) == 2 * |vs|
  {
    if vs != {} {
      UniformTotal(segs, vs - {Pick(vs)});
    }
  }

  /** The test that there are as many vertices as segments is implied by the degree test. */
  lemma VertexCountImplied(segs: seq<Seg>, vs: set<Key>)
    requires forall v :: v in vs <==> Degree(segs, v) > 0
    requires forall v :: v in vs ==> Degree(segs, v) == 2
    ensures |vs| == |segs|
  {
    forall i | 0 <= i < |segs|
      ensures KeyOf(segs[i].a) in vs && KeyOf(segs[i].b) in vs
    {
      DegreeAtLeast(segs, i, KeyOf(segs[i].a));
      DegreeAtLeast(segs, i, KeyOf(segs[i].b));
    }
    Handshake(segs, vs);
    UniformTotal(segs, vs);
  }

  lemma {:induction false} DegreeAtLeast(segs: seq<Seg>, i: nat, v: Key)
    requires i < |segs|
    ensures Degree(segs, v) >= Ends(segs[i], v)
  {
    if i < |segs| - 1 {
      DegreeAtLeast(segs[..|segs| - 1], i, v);
    }
  }

  // ── The algorithm ──────────────────────────────────────────────────────────

  /** The degree table the walk starts from. */
  method CountDegrees(segs: seq<Seg>) returns (degree: map<Key, nat>)
    ensures forall v :: v in degree <==> Degree(segs, v) > 0
    ensures forall v :: v in degree ==> degree[v] == Degree(segs, v)
  {
    degree := map[];
    for i := 0 to |segs|
      invariant forall v :: v in degree <==> Degree(segs[..i], v) > 0
      invariant forall v :: v in degree ==> degree[v] == Degree(segs[..i], v)
    {
      assert segs[..i + 1][..i] == segs[..i];
      var ka, kb := KeyOf(segs[i].a), KeyOf(segs[i].b);
      degree := degree[ka := (if ka in degree then degree[ka] else 0) + 1];
      degree := degree[kb := (if kb in degree then degree[kb] else 0) + 1];
    }
    assert segs[..|segs|] == segs;
  }

  /** The first remaining segment that touches `cursor`, or how many there are if none does. */
  method FindNext(segs: seq<Seg>, remaining: seq<nat>, cursor: Point) returns (p: nat)
    requires forall i :: 0 <= i < |remaining| ==> remaining[i] < |segs|
    ensures p <= |remaining|
    ensures forall i :: 0 <= i < p ==> Ends(segs[remaining[i]], KeyOf(cursor)) == 0
    ensures p < |remaining| ==> Ends(segs[remaining[p]], KeyOf(cursor)) > 0
  {
    p := 0;
    while p < |remaining|
      invariant p <= |remaining|
      invariant forall i :: 0 <= i < p ==> Ends(segs[remaining[i]], KeyOf(cursor)) == 0
    {
      var s := segs[remaining[p]];
      if KeyOf(s.a) == KeyOf(cursor) || KeyOf(s.b) == KeyOf(cursor) {
        return;
      }
      p := p + 1;
    }
  }

  /**
   Walks the segments into one closed loop. It answers exactly when there are at least three
   segments and they form a single cycle.
   */
  method OrderedClosedLoop(entities: seq<Entity>) returns (loop: Option<Loop>)
    ensures exists picks :: Picked(entities, Segments(entities), picks)
    ensures loop.Some? <==> |Segments(entities)| >= 3 && SingleCycle(Segments(entities))
    ensures loop.Some? ==> IsLoop(Segments(entities), loop.value)
    ensures loop.Some? ==> |loop.value.points| > 0 && loop.value.points[0] == Segments(entities)[0].a
  {
    var segs := Segments(entities);
    ghost var picks := SegmentsExactly(entities);
    if |segs| < 3 {
      return None;
    }
    var degree := CountDegrees(segs);
    var oddVertex := exists v | v in degree :: degree[v] != 2;
    if oddVertex || |degree| != |segs| {
      RejectedDegrees(segs, degree.Keys);
      return None;
    }
    loop := Walk(segs);
  }

  /** Segments turned away by the degree test or the vertex count are not a single cycle. */
  lemma RejectedDegrees(segs: seq<Seg>, vs: set<Key>)
    requires forall v :: v in vs <==> Degree(segs, v) > 0
    requires (exists v :: v in vs && Degree(segs, v) != 2) || |vs| != |segs|
    ensures !SingleCycle(segs)
  {
    if SingleCycle(segs) {
      var order, ks :| SimpleCycle(segs, order, ks);
      CycleDegrees(segs, order, ks);
      VertexCountImplied(segs, vs);
    }
  }

  function IdsOf(segs: seq<Seg>, order: seq<nat>): seq<string>
    requires forall i :: 0 <= i < |order| ==> order[i] < |segs|
  {
    seq(|order|, i requires 0 <= i < |order| => segs[order[i]].id)
  }

  function KeysOf(points: seq<Point>): seq<Key> {
    seq(|points|, i requires 0 <= i < |points| => KeyOf(points[i]))
  }

  /** Each point after the first is exactly the far end of the segment that led to it. */
  predicate FarEnds(segs: seq<Seg>, order: seq<nat>, path: seq<Point>)
    requires |path| == |order| + 1
  {
    forall i :: 0 <= i < |order| ==>
      order[i] < |segs| && (path[i + 1] == segs[order[i]].a || path[i + 1] == segs[order[i]].b)
  }

  lemma ExtendTrail(segs: seq<Seg>, order: seq<nat>, points: seq<Point>, cursor: Point, i: nat, next: Point)
    requires Trail(segs, order, KeysOf(points + [cursor])) && FarEnds(segs, order, points + [cursor])
    requires |points| == |order| && i < |segs|
    requires next == segs[i].a || next == segs[i].b
    requires Connects(segs[i], KeyOf(cursor), KeyOf(next))
    ensures Trail(segs, order + [i], KeysOf(points + [cursor] + [next]))
    ensures FarEnds(segs, order + [i], points + [cursor] + [next])
  {
    var ks := KeysOf(points + [cursor]);
    var ks' := KeysOf(points + [cursor] + [next]);
    assert forall k :: 0 <= k < |ks| ==> ks'[k] == ks[k];
  }

  lemma MovePermutation(order: seq<nat>, remaining: seq<nat>, p: nat, n: nat)
    requires p < |remaining| && Permutation(order + remaining, n)
    ensures Permutation((order + [remaining[p]]) + (remaining[..p] + remaining[p + 1..]), n)
  {
    SplitMultiset(remaining, p);
  }

  /** A closed walk over all segments, read as the loop that is returned. */
  lemma WalkedLoop(segs: seq<Seg>, order: seq<nat>, points: seq<Point>, cursor: Point)
    requires |points| == |order| && order != []
    requires SimpleCycle(segs, order, KeysOf(points + [cursor])) && FarEnds(segs, order, points + [cursor])
    ensures LoopOf(segs, order, Loop(IdsOf(segs, order), points))
  {
    PermutationFacts(order, |segs|);
    var n := |order|;
    var path := points + [cursor];
    var ks := KeysOf(path);
    assert forall i :: 0 <= i < n ==> ks[..n][i] == KeyOf(points[i]);
    forall i | 0 <= i < n
      ensures Connects(segs[order[i]], KeyOf(points[i]), KeyOf(points[if i + 1 == n then 0 else i + 1]))
      ensures i + 1 < n ==> points[i + 1] == segs[order[i]].a || points[i + 1] == segs[order[i]].b
    {
      assert Connects(segs[order[i]], ks[i], ks[i + 1]);
      assert path[i + 1] == segs[order[i]].a || path[i + 1] == segs[order[i]].b;
    }
  }

  /** The variables of the walk. */
  datatype Walker = Walker(remaining: seq<nat>, ids: seq<string>, points: seq<Point>, cursor: Point)

  /** What is known between two steps of the walk, having taken the segments in `order`. */
  ghost predicate Walked(segs: seq<Seg>, order: seq<nat>, w: Walker) {
    && segs != []
    && Permutation(order + w.remaining, |segs|)
    && |w.points| == |order|
    && (forall i :: 0 <= i < |w.remaining| ==> w.remaining[i] < |segs|)
    && Trail(segs, order, KeysOf(w.points + [w.cursor]))
    && FarEnds(segs, order, w.points + [w.cursor])
    && w.ids == IdsOf(segs, order)
    && (w.points + [w.cursor])[0] == segs[0].a
    && (order == [] ==> w.remaining == Iota(|segs|))
  }

  lemma WalkStranded(segs: seq<Seg>, order: seq<nat>, w: Walker)
    requires Walked(segs, order, w) && DegreesAreTwo(segs)
    requires w.remaining != []
    requires forall i :: 0 <= i < |w.remaining| ==> Ends(segs[w.remaining[i]], KeyOf(w.cursor)) == 0
    ensures !SingleCycle(segs)
  {
    assert order != [] by {
      assert Iota(|segs|)[0] == 0;
    }
    StrandedWalk(segs, order, w.remaining, KeysOf(w.points + [w.cursor]));
  }

  lemma WalkDone(segs: seq<Seg>, order: seq<nat>, w: Walker)
    requires Walked(segs, order, w) && DegreesAreTwo(segs)
    requires w.remaining == []
    ensures SingleCycle(segs)
    ensures w.points != [] && w.points[0] == segs[0].a && KeyOf(segs[0].a) == KeyOf(w.cursor)
    ensures IsLoop(segs, Loop(w.ids, w.points))
  {
    assert order + [] == order;
    PermutationFacts(order, |segs|);
    var ks := KeysOf(w.points + [w.cursor]);
    FullWalkIsCycle(segs, order, ks);
    assert ks[0] == KeyOf(segs[0].a) && ks[|order|] == KeyOf(w.cursor);
    WalkedLoop(segs, order, w.points, w.cursor);
  }

  /** The walk after it has followed the `p`-th remaining segment. */
  function Follow(segs: seq<Seg>, w: Walker, p: nat): Walker
    requires p < |w.remaining| && w.remaining[p] < |segs|
  {
    var s := segs[w.remaining[p]];
    Walker(w.remaining[..p] + w.remaining[p + 1..], w.ids + [s.id], w.points + [w.cursor],
           if KeyOf(s.a) == KeyOf(w.cursor) then s.b else s.a)
  }

  lemma FollowKeeps(segs: seq<Seg>, order: seq<nat>, w: Walker, p: nat)
    requires Walked(segs, order, w)
    requires p < |w.remaining| && Ends(segs[w.remaining[p]], KeyOf(w.cursor)) > 0
    ensures Walked(segs, order + [w.remaining[p]], Follow(segs, w, p))
  {
    hide Trail, Permutation, KeysOf;
    var i := w.remaining[p];
    var w' := Follow(segs, w, p);
    ExtendTrail(segs, order, w.points, w.cursor, i, w'.cursor);
    MovePermutation(order, w.remaining, p, |segs|);
    assert w'.ids == IdsOf(segs, order + [i]);
    assert (w'.points + [w'.cursor])[0] == (w.points + [w.cursor])[0];
  }

  /** The greedy walk, once every degree is known to be two. The step guard never stops it. */
  method Walk(segs: seq<Seg>) returns (loop: Option<Loop>)
    requires segs != [] && DegreesAreTwo(segs)
    ensures loop.Some? <==> SingleCycle(segs)
    ensures loop.Some? ==> IsLoop(segs, loop.value)
    ensures loop.Some? ==> |loop.value.points| > 0 && loop.value.points[0] == segs[0].a
  {
    var start := segs[0].a;
    var w := Walker(Iota(|segs|), [], [], start);
    var steps := 0;
    ghost var order: seq<nat> := [];
    assert order + w.remaining == Iota(|segs|);
    while |w.remaining| > 0 && steps <= |segs|
      invariant Walked(segs, order, w)
      invariant steps + |w.remaining| == |segs|
    {
      steps := steps + 1;
      var p := FindNext(segs, w.remaining, w.cursor);
      if p == |w.remaining| {
        WalkStranded(segs, order, w);
        return None;
      }
      FollowKeeps(segs, order, w, p);
      order := order + [w.remaining[p]];
      w := Follow(segs, w, p);
    }
    WalkDone(segs, order, w);
    loop := if KeyOf(w.cursor) == KeyOf(start) then Some(Loop(w.ids, w.points)) else None;
  }
}
