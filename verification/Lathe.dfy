/**
 The lathe preview mesh: the index combinatorics that make a swept ring a closed oriented surface,
 and the rotation that puts every swept point on its circle.
 */
module Lathe {

  // ── Vertices and triangles, by name ────────────────────────────────────────

  /** A vertex: point `i` of ring `j`, or the center of an end cap. */
  datatype Vertex = Ring(j: nat, i: nat) | StartCap | EndCap

  /** A triangle: the two halves of the wall quad at ring `j`, point `i`, or a cap's fan at point `i`. */
  datatype Triangle = Lower(j: nat, i: nat) | Upper(j: nat, i: nat) | StartFan(i: nat) | EndFan(i: nat)

  /** The point after `i` on a ring of `n`. */
  function Next(n: nat, i: nat): nat {
    if i + 1 == n then 0 else i + 1
  }

  function Prev(n: nat, i: nat): nat
    requires n > 0
  {
    if i == 0 then n - 1 else i - 1
  }

  function Corners(n: nat, s: nat, t: Triangle): (Vertex, Vertex, Vertex) {
    match t
    case Lower(j, i) => (Ring(j, i), Ring(j, Next(n, i)), Ring(j + 1, Next(n, i)))
    case Upper(j, i) => (Ring(j, i), Ring(j + 1, Next(n, i)), Ring(j + 1, i))
    case StartFan(i) => (StartCap, Ring(0, Next(n, i)), Ring(0, i))
    case EndFan(i) => (EndCap, Ring(s, i), Ring(s, Next(n, i)))
  }

  predicate ValidTriangle(n: nat, s: nat, full: bool, t: Triangle) {
    match t
    case Lower(j, i) => j < s && i < n
    case Upper(j, i) => j < s && i < n
    case StartFan(i) => !full && i < n
    case EndFan(i) => !full && i < n
  }

  type Edge = (Vertex, Vertex)

  /** Side `k` of a triangle, directed as the triangle winds. */
  function Side(n: nat, s: nat, t: Triangle, k: nat): Edge
    requires k < 3
  {
    var (a, b, c) := Corners(n, s, t);
    if k == 0 then (a, b) else if k == 1 then (b, c) else (c, a)
  }

  function Reverse(e: Edge): Edge {
    (e.1, e.0)
  }

  /** The one triangle side that runs along `e`, on a ring of at least three points. */
  function Owner(n: nat, s: nat, e: Edge): (Triangle, nat)
    requires n > 0
  {
    match e
    case (Ring(j, i), Ring(j', i')) =>
      if j == j' then
        if i' == Next(n, i) then (if j < s then (Lower(j, i), 0) else (EndFan(i), 1))
        else if j > 0 then (Upper(j - 1, i'), 1) else (StartFan(i'), 1)
      else if j < j' then (if i == i' then (Lower(j, Prev(n, i)), 1) else (Upper(j, i), 0))
      else if i == i' then (Upper(j', i), 2)
      else (Lower(j', i'), 2)
    case (StartCap, Ring(_, i)) => (StartFan(Prev(n, i)), 0)
    case (Ring(_, i), StartCap) => (StartFan(i), 2)
    case (EndCap, Ring(_, i)) => (EndFan(i), 0)
    case (Ring(_, i), EndCap) => (EndFan(Prev(n, i)), 2)
    case _ => (StartFan(0), 0)
  }

  /** No two triangle sides run along the same directed edge. */
  lemma OwnerOfSide(n: nat, s: nat, full: bool, t: Triangle, k: nat)
    requires n >= 3 && s >= 1 && ValidTriangle(n, s, full, t) && k < 3
    ensures Owner(n, s, Side(n, s, t, k)) == (t, k)
  {
  }

  /** An edge that a full sweep leaves open: forward along the first ring, or backward along the last. */
  predicate OpenEdge(n: nat, s: nat, e: Edge) {
    && e.0.Ring? && e.1.Ring? && e.0.j == e.1.j
    && ((e.0.j == 0 && e.1.i == Next(n, e.0.i)) || (e.0.j == s && e.0.i == Next(n, e.1.i)))
  }

  /** The side running the other way along side `k` of `t`. */
  function Mate(n: nat, s: nat, t: Triangle, k: nat): (Triangle, nat)
    requires n > 0 && k < 3
  {
    Owner(n, s, Reverse(Side(n, s, t, k)))
  }

  lemma MateRunsBack(n: nat, s: nat, full: bool, t: Triangle, k: nat)
    requires n >= 3 && s >= 1 && ValidTriangle(n, s, full, t) && k < 3
    ensures var (t', k') := Mate(n, s, t, k);
      && k' < 3 && Side(n, s, t', k') == Reverse(Side(n, s, t, k))
      && (ValidTriangle(n, s, full, t') <==> !full || !OpenEdge(n, s, Side(n, s, t, k)))
  {
  }

  // ── The triangles in emission order, and their numbers ─────────────────────

  function RowTriangles(j: nat, i: nat): (r: seq<Triangle>)
    ensures |r| == 2 * i
  {
    if i == 0 then [] else RowTriangles(j, i - 1) + [Lower(j, i - 1), Upper(j, i - 1)]
  }

  function WallTriangles(n: nat, j: nat): seq<Triangle> {
    if j == 0 then [] else WallTriangles(n, j - 1) + RowTriangles(j - 1, n)
  }

  function Fan(start: bool, i: nat): (r: seq<Triangle>)
    ensures |r| == i
  {
    if i == 0 then [] else Fan(start, i - 1) + [if start then StartFan(i - 1) else EndFan(i - 1)]
  }

  function Triangles(n: nat, s: nat, full: bool): seq<Triangle> {
    WallTriangles(n, s) + if full then [] else Fan(true, n) + Fan(false, n)
  }

  function Num(n: nat, s: nat, v: Vertex): nat {
    match v
    case Ring(j, i) => j * n + i
    case StartCap => (s + 1) * n
    case EndCap => (s + 1) * n + 1
  }

  function Numbered(n: nat, s: nat, ts: seq<Triangle>): (r: seq<nat>)
    ensures |r| == 3 * |ts|
  {
    if ts == [] then []
    else
      var (a, b, c) := Corners(n, s, ts[|ts| - 1]);
      Numbered(n, s, ts[..|ts| - 1]) + [Num(n, s, a), Num(n, s, b), Num(n, s, c)]
  }

  function Indices(n: nat, s: nat, full: bool): seq<nat> {
    Numbered(n, s, Triangles(n, s, full))
  }

  function VertexCount(n: nat, s: nat, full: bool): nat {
    (s + 1) * n + if full then 0 else 2
  }

  lemma {:induction false} NumberedAt(n: nat, s: nat, ts: seq<Triangle>, p: nat)
    requires p < |ts|
    ensures var (a, b, c) := Corners(n, s, ts[p]);
      Numbered(n, s, ts)[3 * p] == Num(n, s, a) && Numbered(n, s, ts)[3 * p + 1] == Num(n, s, b)
      && Numbered(n, s, ts)[3 * p + 2] == Num(n, s, c)
  {
    if p < |ts| - 1 {
      NumberedAt(n, s, ts[..|ts| - 1], p);
    }
  }

  // ── Which triangles there are ──────────────────────────────────────────────

  predicate Distinct<T(==)>(xs: seq<T>) {
    forall p, q :: 0 <= p < q < |xs| ==> xs[p] != xs[q]
  }

  lemma {:induction false} RowMembers(j: nat, i: nat, t: Triangle)
    ensures t in RowTriangles(j, i) <==> (t.Lower? || t.Upper?) && t.j == j && t.i < i
  {
    if i > 0 {
      RowMembers(j, i - 1, t);
    }
  }

  lemma {:induction false} RowDistinct(j: nat, i: nat)
    ensures Distinct(RowTriangles(j, i))
  {
    if i > 0 {
      RowDistinct(j, i - 1);
      RowMembers(j, i - 1, Lower(j, i - 1));
      RowMembers(j, i - 1, Upper(j, i - 1));
    }
  }

  lemma {:induction false} WallMembers(n: nat, j: nat, t: Triangle)
    ensures t in WallTriangles(n, j) <==> (t.Lower? || t.Upper?) && t.j < j && t.i < n
  {
    if j > 0 {
      WallMembers(n, j - 1, t);
      RowMembers(j - 1, n, t);
    }
  }

  lemma DistinctConcat<T>(xs: seq<T>, ys: seq<T>)
    requires Distinct(xs) && Distinct(ys) && forall x :: x in xs ==> x !in ys
    ensures Distinct(xs + ys)
  {
    forall p, q | 0 <= p < q < |xs + ys|
      ensures (xs + ys)[p] != (xs + ys)[q]
    {
      if p < |xs| <= q {
        assert xs[p] in xs && ys[q - |xs|] in ys;
      }
    }
  }

  lemma RowMore(n: nat, j: nat)
    requires j > 0
    ensures 2 * ((j - 1) * n) + 2 * n == 2 * (j * n)
  {
  }

  lemma {:induction false} WallDistinct(n: nat, j: nat)
    ensures Distinct(WallTriangles(n, j)) && |WallTriangles(n, j)| == 2 * (j * n)
  {
    if j > 0 {
      WallDistinct(n, j - 1);
      RowDistinct(j - 1, n);
      var walls, row := WallTriangles(n, j - 1), RowTriangles(j - 1, n);
      forall t
        ensures t in walls ==> t !in row
      {
        WallMembers(n, j - 1, t);
        RowMembers(j - 1, n, t);
      }
      hide WallTriangles, RowTriangles;
      DistinctConcat(walls, row);
      RowMore(n, j);
      assert WallTriangles(n, j) == walls + row;
    }
  }

  lemma {:induction false} FanMembers(start: bool, i: nat, t: Triangle)
    ensures t in Fan(start, i) <==> (if start then t.StartFan? else t.EndFan?) && t.i < i
  {
    if i > 0 {
      FanMembers(start, i - 1, t);
    }
  }

  lemma {:induction false} FanDistinct(start: bool, i: nat)
    ensures Distinct(Fan(start, i))
  {
    if i > 0 {
      FanDistinct(start, i - 1);
      FanMembers(start, i - 1, if start then StartFan(i - 1) else EndFan(i - 1));
    }
  }

  /** Every triangle the sweep calls for is emitted, once. */
  lemma TrianglesExactly(n: nat, s: nat, full: bool)
    ensures Distinct(Triangles(n, s, full))
    ensures forall t :: t in Triangles(n, s, full) <==> ValidTriangle(n, s, full, t)
    ensures |Triangles(n, s, full)| == 2 * (s * n) + if full then 0 else 2 * n
  {
    forall t
      ensures t in WallTriangles(n, s) <==> (t.Lower? || t.Upper?) && t.j < s && t.i < n
      ensures t in Fan(true, n) <==> t.StartFan? && t.i < n
      ensures t in Fan(false, n) <==> t.EndFan? && t.i < n
    {
      WallMembers(n, s, t);
      FanMembers(true, n, t);
      FanMembers(false, n, t);
    }
    WallDistinct(n, s);
    if full {
      assert Triangles(n, s, full) == WallTriangles(n, s);
    } else {
      FanDistinct(true, n);
      FanDistinct(false, n);
      DistinctConcat(Fan(true, n), Fan(false, n));
      DistinctConcat(WallTriangles(n, s), Fan(true, n) + Fan(false, n));
    }
  }

  // ── Numbers name vertices ──────────────────────────────────────────────────

  predicate ValidVertex(n: nat, s: nat, full: bool, v: Vertex) {
    if v.Ring? then v.j <= s && v.i < n else !full
  }

  lemma RowsApart(n: nat, j: nat, i: nat, j': nat)
    requires j < j' && i < n
    ensures j * n + i < j' * n
  {
    assert (j + 1) * n <= j' * n;
    assert (j + 1) * n == j * n + n;
  }

  lemma NumInRange(n: nat, s: nat, full: bool, v: Vertex)
    requires ValidVertex(n, s, full, v)
    ensures Num(n, s, v) < VertexCount(n, s, full)
  {
    if v.Ring? {
      RowsApart(n, v.j, v.i, s + 1);
    }
  }

  lemma NumInjective(n: nat, s: nat, full: bool, v: Vertex, w: Vertex)
    requires ValidVertex(n, s, full, v) && ValidVertex(n, s, full, w) && Num(n, s, v) == Num(n, s, w)
    ensures v == w
  {
    if v.Ring? {
      RowsApart(n, v.j, v.i, s + 1);
    }
    if w.Ring? {
      RowsApart(n, w.j, w.i, s + 1);
    }
    if v.Ring? && w.Ring? {
      if v.j < w.j {
        RowsApart(n, v.j, v.i, w.j);
      } else if w.j < v.j {
        RowsApart(n, w.j, w.i, v.j);
      }
    }
  }

  lemma SideValid(n: nat, s: nat, full: bool, t: Triangle, k: nat)
    requires n >= 1 && s >= 1 && ValidTriangle(n, s, full, t) && k < 3
    ensures ValidVertex(n, s, full, Side(n, s, t, k).0) && ValidVertex(n, s, full, Side(n, s, t, k).1)
  {
  }

  // ── The index buffer is a closed oriented surface ──────────────────────────

  /** The directed edge that starts at place `p` of an index buffer. */
  function Directed(indices: seq<nat>, p: nat): (nat, nat)
    requires p < |indices| && |indices| % 3 == 0
  {
    (indices[p], indices[if p % 3 == 2 then p - 2 else p + 1])
  }

  function Numbers(n: nat, s: nat, e: Edge): (nat, nat) {
    (Num(n, s, e.0), Num(n, s, e.1))
  }

  lemma DirectedIsSide(n: nat, s: nat, full: bool, p: nat)
    requires n >= 1 && s >= 1 && p < |Indices(n, s, full)|
    ensures p / 3 < |Triangles(n, s, full)|
    ensures Directed(Indices(n, s, full), p) == Numbers(n, s, Side(n, s, Triangles(n, s, full)[p / 3], p % 3))
  {
    NumberedAt(n, s, Triangles(n, s, full), p / 3);
    assert p == 3 * (p / 3) + p % 3;
  }

  lemma SideEdge(n: nat, s: nat, full: bool, p: nat) returns (t: Triangle, k: nat)
    requires n >= 1 && s >= 1 && p < |Indices(n, s, full)|
    ensures k == p % 3 && p / 3 < |Triangles(n, s, full)| && t == Triangles(n, s, full)[p / 3]
      && ValidTriangle(n, s, full, t)
    ensures Directed(Indices(n, s, full), p) == Numbers(n, s, Side(n, s, t, k))
  {
    DirectedIsSide(n, s, full, p);
    t, k := Triangles(n, s, full)[p / 3], p % 3;
    TrianglesExactly(n, s, full);
    assert t in Triangles(n, s, full);
  }

  lemma IndexInRange(n: nat, s: nat, full: bool, p: nat)
    requires n >= 1 && s >= 1 && p < |Indices(n, s, full)|
    ensures Indices(n, s, full)[p] < VertexCount(n, s, full)
  {
    var t, k := SideEdge(n, s, full, p);
    SideValid(n, s, full, t, k);
    NumInRange(n, s, full, Side(n, s, t, k).0);
  }

  /** No directed edge occurs twice. */
  lemma EdgesOnce(n: nat, s: nat, full: bool, p: nat, q: nat)
    requires n >= 3 && s >= 1 && p < |Indices(n, s, full)| && q < |Indices(n, s, full)|
    requires Directed(Indices(n, s, full), p) == Directed(Indices(n, s, full), q)
    ensures p == q
  {
    var t, k := SideEdge(n, s, full, p);
    var t', k' := SideEdge(n, s, full, q);
    var e, e' := Side(n, s, t, k), Side(n, s, t', k');
    SideValid(n, s, full, t, k);
    SideValid(n, s, full, t', k');
    NumInjective(n, s, full, e.0, e'.0);
    NumInjective(n, s, full, e.1, e'.1);
    OwnerOfSide(n, s, full, t, k);
    OwnerOfSide(n, s, full, t', k');
    TrianglesExactly(n, s, full);
    assert p / 3 == q / 3;
  }

  /** `e` runs forward along the first ring or backward along the last. */
  predicate OnOpenRing(n: nat, s: nat, e: (nat, nat)) {
    exists i :: 0 <= i < n && (e == (i, Next(n, i)) || e == (s * n + Next(n, i), s * n + i))
  }

  lemma OpenNumbers(n: nat, s: nat, full: bool, e: Edge)
    requires n >= 3 && s >= 1 && ValidVertex(n, s, full, e.0) && ValidVertex(n, s, full, e.1)
    ensures OpenEdge(n, s, e) <==> OnOpenRing(n, s, Numbers(n, s, e))
  {
    var f := Numbers(n, s, e);
    if OpenEdge(n, s, e) {
      if e.0.j == 0 && e.1.i == Next(n, e.0.i) {
        assert f == (e.0.i, Next(n, e.0.i));
      } else {
        assert f == (s * n + Next(n, e.1.i), s * n + e.1.i);
      }
    } else if OnOpenRing(n, s, f) {
      var i :| 0 <= i < n && (f == (i, Next(n, i)) || f == (s * n + Next(n, i), s * n + i));
      if f == (i, Next(n, i)) {
        NumInjective(n, s, full, e.0, Ring(0, i));
        NumInjective(n, s, full, e.1, Ring(0, Next(n, i)));
      } else {
        NumInjective(n, s, full, e.0, Ring(s, Next(n, i)));
        NumInjective(n, s, full, e.1, Ring(s, i));
      }
      assert false;
    }
  }

  /** The edge at `p` has its reverse somewhere in the buffer. */
  ghost predicate Matched(indices: seq<nat>, p: nat)
    requires p < |indices| && |indices| % 3 == 0
  {
    exists q :: 0 <= q < |indices| && Directed(indices, q) == (Directed(indices, p).1, Directed(indices, p).0)
  }

  /** In a partial sweep every edge has its reverse; in a full one, all but those of the first and last ring. */
  lemma EdgesMatched(n: nat, s: nat, full: bool, p: nat)
    requires n >= 3 && s >= 1 && p < |Indices(n, s, full)|
    ensures Matched(Indices(n, s, full), p) <==> !full || !OnOpenRing(n, s, Directed(Indices(n, s, full), p))
  {
    hide Indices, Triangles, Side, Mate, Num, OnOpenRing, OpenEdge, ValidTriangle;
    IndicesLength(n, s, full);
    var t, k := SideEdge(n, s, full, p);
    SideValid(n, s, full, t, k);
    OpenNumbers(n, s, full, Side(n, s, t, k));
    MateRunsBack(n, s, full, t, k);
    if ValidTriangle(n, s, full, Mate(n, s, t, k).0) {
      MateEmitted(n, s, full, p, t, k);
    }
    forall q | 0 <= q < |Indices(n, s, full)|
      && Directed(Indices(n, s, full), q) == (Directed(Indices(n, s, full), p).1, Directed(Indices(n, s, full), p).0)
      ensures ValidTriangle(n, s, full, Mate(n, s, t, k).0)
    {
      MateIsValid(n, s, full, p, q, t, k);
    }
  }

  lemma MateEmitted(n: nat, s: nat, full: bool, p: nat, t: Triangle, k: nat)
    requires n >= 3 && s >= 1 && p < |Indices(n, s, full)| && k < 3
    requires Directed(Indices(n, s, full), p) == Numbers(n, s, Side(n, s, t, k))
    requires var (t', k') := Mate(n, s, t, k);
      k' < 3 && Side(n, s, t', k') == Reverse(Side(n, s, t, k)) && ValidTriangle(n, s, full, t')
    ensures Matched(Indices(n, s, full), p)
  {
    hide Indices, Triangles, Side, Mate, Num, ValidTriangle;
    var (t', k') := Mate(n, s, t, k);
    TrianglesExactly(n, s, full);
    assert t' in Triangles(n, s, full);
    var m :| 0 <= m < |Triangles(n, s, full)| && Triangles(n, s, full)[m] == t';
    IndicesLength(n, s, full);
    var q := 3 * m + k';
    DirectedIsSide(n, s, full, q);
    assert q / 3 == m && q % 3 == k';
    assert Directed(Indices(n, s, full), q) == (Directed(Indices(n, s, full), p).1, Directed(Indices(n, s, full), p).0);
  }

  lemma IndicesLength(n: nat, s: nat, full: bool)
    ensures |Indices(n, s, full)| == 3 * |Triangles(n, s, full)|
  {
  }

  lemma MateIsValid(n: nat, s: nat, full: bool, p: nat, q: nat, t: Triangle, k: nat)
    requires n >= 3 && s >= 1 && p < |Indices(n, s, full)| && q < |Indices(n, s, full)| && k < 3
    requires ValidTriangle(n, s, full, t) && Directed(Indices(n, s, full), p) == Numbers(n, s, Side(n, s, t, k))
    requires Directed(Indices(n, s, full), q)
      == (Directed(Indices(n, s, full), p).1, Directed(Indices(n, s, full), p).0)
    ensures ValidTriangle(n, s, full, Mate(n, s, t, k).0)
  {
    hide Indices, Triangles, Side, Num, ValidTriangle;
    var u, l := SideEdge(n, s, full, q);
    SideValid(n, s, full, u, l);
    SideValid(n, s, full, t, k);
    NumInjective(n, s, full, Side(n, s, u, l).0, Side(n, s, t, k).1);
    NumInjective(n, s, full, Side(n, s, u, l).1, Side(n, s, t, k).0);
    OwnerOfSide(n, s, full, u, l);
  }

  /** A closed oriented surface: every directed edge occurs once, and so does its reverse. */
  ghost predicate Closed(indices: seq<nat>)
    requires |indices| % 3 == 0
  {
    && (forall p, q :: 0 <= p < q < |indices| ==> Directed(indices, p) != Directed(indices, q))
    && (forall p :: 0 <= p < |indices| ==> Matched(indices, p))
  }

  /**
   A partial sweep of a ring is watertight exactly when the ring has at least three points, and its
   Euler number is that of a sphere: each undirected edge is two of the directed ones.
   */
  lemma PartialSweepClosed(n: nat, s: nat)
    requires n >= 1 && s >= 1
    ensures Closed(Indices(n, s, false)) <==> n >= 3
    ensures var indices := Indices(n, s, false);
      |indices| % 2 == 0 && VertexCount(n, s, false) - |indices| / 2 + |indices| / 3 == 2
  {
    hide Indices, Directed, Matched;
    var indices := Indices(n, s, false);
    SphereCount(n, s);
    IndicesLength(n, s, false);
    if n >= 3 {
      forall p | 0 <= p < |indices|
        ensures Matched(indices, p)
      {
        EdgesMatched(n, s, false, p);
      }
      forall p, q | 0 <= p < q < |indices|
        ensures Directed(indices, p) != Directed(indices, q)
      {
        if Directed(indices, p) == Directed(indices, q) {
          EdgesOnce(n, s, false, p, q);
        }
      }
    } else {
      ShortRingRepeats(n, s);
    }
  }

  lemma SphereCount(n: nat, s: nat)
    ensures var indices := Indices(n, s, false);
      |indices| % 2 == 0 && VertexCount(n, s, false) - |indices| / 2 + |indices| / 3 == 2
  {
    TrianglesExactly(n, s, false);
    assert (s + 1) * n == s * n + n;
  }

  /** On a ring of one or two points, the first wall edge runs along a side of the start cap. */
  lemma ShortRingRepeats(n: nat, s: nat)
    requires 1 <= n <= 2 && s >= 1
    ensures exists p, q ::
      && 0 <= p < q < |Indices(n, s, false)|
      && Directed(Indices(n, s, false), p) == Directed(Indices(n, s, false), q)
  {
    hide Triangles, Indices, Directed, Num;
    IndicesLength(n, s, false);
    var triangles := Triangles(n, s, false);
    TrianglesExactly(n, s, false);
    assert Lower(0, 0) in triangles && StartFan(n - 1) in triangles;
    var a :| 0 <= a < |triangles| && triangles[a] == Lower(0, 0);
    var b :| 0 <= b < |triangles| && triangles[b] == StartFan(n - 1);
    var p, q := 3 * a, 3 * b + 1;
    DirectedIsSide(n, s, false, p);
    DirectedIsSide(n, s, false, q);
    assert p / 3 == a && p % 3 == 0 && q / 3 == b && q % 3 == 1;
    assert Directed(Indices(n, s, false), p) == Directed(Indices(n, s, false), q);
    assert p < q || q < p;
  }

  // ── A full sweep glued to itself ───────────────────────────────────────────

  /** The vertex once the last ring is identified with the first, on which it lies. */
  function Glued(s: nat, v: Vertex): Vertex {
    if v.Ring? && v.j == s then Ring(0, v.i) else v
  }

  function GluedSide(n: nat, s: nat, t: Triangle, k: nat): Edge
    requires k < 3
  {
    var e := Side(n, s, t, k);
    (Glued(s, e.0), Glued(s, e.1))
  }

  /** The side along a glued edge: ring `s - 1` is followed by ring `0`. */
  function GluedOwner(n: nat, s: nat, e: Edge): (Triangle, nat)
    requires n > 0 && s > 0 && e.0.Ring? && e.1.Ring?
  {
    var (j, i, j', i') := (e.0.j, e.0.i, e.1.j, e.1.i);
    if j == j' then (if i' == Next(n, i) then (Lower(j, i), 0) else (Upper(Prev(s, j), i'), 1))
    else if j' == Next(s, j) then (if i == i' then (Lower(j, Prev(n, i)), 1) else (Upper(j, i), 0))
    else if i == i' then (Upper(j', i), 2)
    else (Lower(j', i'), 2)
  }

  /** On three segments or more, every glued edge belongs to one side of one triangle, and its reverse to one other. */
  lemma GluedOwners(n: nat, s: nat, t: Triangle, k: nat)
    requires n >= 3 && s >= 3 && ValidTriangle(n, s, true, t) && k < 3
    ensures GluedSide(n, s, t, k).0.Ring? && GluedSide(n, s, t, k).1.Ring?
    ensures GluedOwner(n, s, GluedSide(n, s, t, k)) == (t, k)
    ensures var (t', k') := GluedOwner(n, s, Reverse(GluedSide(n, s, t, k)));
      k' < 3 && ValidTriangle(n, s, true, t') && GluedSide(n, s, t', k') == Reverse(GluedSide(n, s, t, k))
  {
  }

  /** On a shorter ring, or with fewer segments, two sides run along one glued edge. */
  lemma TwoSides(n: nat, s: nat) returns (t: Triangle, k: nat, t': Triangle, k': nat)
    requires n >= 1 && s >= 1 && (n < 3 || s < 3)
    ensures ValidTriangle(n, s, true, t) && ValidTriangle(n, s, true, t') && k < 3 && k' < 3
    ensures t != t' && GluedSide(n, s, t, k) == GluedSide(n, s, t', k')
  {
    if s == 1 {
      t, k, t', k' := Lower(0, 0), 0, Upper(0, 0), 0;
    } else if s == 2 {
      t, k, t', k' := Lower(0, 0), 1, Upper(1, Next(n, 0)), 2;
    } else {
      t, k, t', k' := Lower(1, n - 1), 0, Upper(0, 0), 1;
    }
  }

  /** A vertex number, once the last ring is identified with the first. */
  function Weld(n: nat, s: nat, x: nat): nat {
    if x >= s * n then x - s * n else x
  }

  /** The index buffer of a full sweep with its last ring welded to its first. */
  function Welded(n: nat, s: nat): (r: seq<nat>)
    ensures |r| == |Indices(n, s, true)|
  {
    seq(|Indices(n, s, true)|, p requires 0 <= p < |Indices(n, s, true)| => Weld(n, s, Indices(n, s, true)[p]))
  }

  lemma WeldedNumber(n: nat, s: nat, v: Vertex)
    requires n >= 1 && s >= 1 && ValidVertex(n, s, true, v)
    ensures Weld(n, s, Num(n, s, v)) == Num(n, s, Glued(s, v)) && ValidVertex(n, s, true, Glued(s, v))
  {
    if v.j < s {
      RowsApart(n, v.j, v.i, s);
    }
  }

  lemma WeldedEdge(n: nat, s: nat, p: nat)
    requires n >= 1 && s >= 1 && p < |Welded(n, s)|
    ensures Directed(Welded(n, s), p)
      == (Weld(n, s, Directed(Indices(n, s, true), p).0), Weld(n, s, Directed(Indices(n, s, true), p).1))
  {
    hide Indices, Weld;
    IndicesLength(n, s, true);
  }

  /** Each place of the welded buffer is a glued side of its triangle. */
  lemma WeldedSide(n: nat, s: nat, p: nat) returns (t: Triangle, k: nat)
    requires n >= 1 && s >= 1 && p < |Welded(n, s)|
    ensures k == p % 3 && p / 3 < |Triangles(n, s, true)| && t == Triangles(n, s, true)[p / 3]
      && ValidTriangle(n, s, true, t)
    ensures Directed(Welded(n, s), p) == Numbers(n, s, GluedSide(n, s, t, k))
    ensures ValidVertex(n, s, true, GluedSide(n, s, t, k).0) && ValidVertex(n, s, true, GluedSide(n, s, t, k).1)
  {
    hide Indices, Triangles, Directed, Welded, Weld, Num, Glued, Side, ValidTriangle, ValidVertex;
    t, k := SideEdge(n, s, true, p);
    WeldedEdge(n, s, p);
    SideValid(n, s, true, t, k);
    WeldedNumber(n, s, Side(n, s, t, k).0);
    WeldedNumber(n, s, Side(n, s, t, k).1);
  }

  /** A triangle that the sweep calls for has its sides in the welded buffer. */
  lemma WeldedPlace(n: nat, s: nat, t: Triangle, k: nat) returns (p: nat)
    requires n >= 1 && s >= 1 && ValidTriangle(n, s, true, t) && k < 3
    ensures p < |Welded(n, s)| && p % 3 == k && p / 3 < |Triangles(n, s, true)| && Triangles(n, s, true)[p / 3] == t
    ensures Directed(Welded(n, s), p) == Numbers(n, s, GluedSide(n, s, t, k))
  {
    hide Indices, Triangles, Directed, Welded, Num, GluedSide, ValidTriangle;
    TrianglesExactly(n, s, true);
    IndicesLength(n, s, true);
    assert t in Triangles(n, s, true);
    var m :| 0 <= m < |Triangles(n, s, true)| && Triangles(n, s, true)[m] == t;
    p := 3 * m + k;
    assert p / 3 == m && p % 3 == k;
    var t', k' := WeldedSide(n, s, p);
  }

  lemma WeldedOnce(n: nat, s: nat, p: nat, q: nat)
    requires n >= 3 && s >= 3 && p < |Welded(n, s)| && q < |Welded(n, s)|
    requires Directed(Welded(n, s), p) == Directed(Welded(n, s), q)
    ensures p == q
  {
    hide Indices, Triangles, Directed, Welded, Num, GluedSide, ValidTriangle, ValidVertex, GluedOwner;
    var t, k := WeldedSide(n, s, p);
    var t', k' := WeldedSide(n, s, q);
    NumInjective(n, s, true, GluedSide(n, s, t, k).0, GluedSide(n, s, t', k').0);
    NumInjective(n, s, true, GluedSide(n, s, t, k).1, GluedSide(n, s, t', k').1);
    GluedOwners(n, s, t, k);
    GluedOwners(n, s, t', k');
    TrianglesExactly(n, s, true);
    assert p / 3 == q / 3;
  }

  lemma WeldedMatched(n: nat, s: nat, p: nat)
    requires n >= 3 && s >= 3 && p < |Welded(n, s)| && |Welded(n, s)| % 3 == 0
    ensures Matched(Welded(n, s), p)
  {
    hide Indices, Triangles, Directed, Welded, Num, GluedSide, ValidTriangle, GluedOwner;
    var t, k := WeldedSide(n, s, p);
    GluedOwners(n, s, t, k);
    var (t', k') := GluedOwner(n, s, Reverse(GluedSide(n, s, t, k)));
    var q := WeldedPlace(n, s, t', k');
    assert Directed(Welded(n, s), q) == (Directed(Welded(n, s), p).1, Directed(Welded(n, s), p).0);
  }

  /**
   Welded to itself, a full sweep is watertight exactly when the ring has at least three points and the
   sweep at least three segments.
   */
  lemma FullSweepCloses(n: nat, s: nat)
    requires n >= 1 && s >= 1
    ensures |Welded(n, s)| % 3 == 0
    ensures Closed(Welded(n, s)) <==> n >= 3 && s >= 3
  {
    hide Indices, Triangles, Directed, Matched, Welded, GluedSide, Num, ValidTriangle;
    IndicesLength(n, s, true);
    var welded := Welded(n, s);
    if n >= 3 && s >= 3 {
      forall p | 0 <= p < |welded|
        ensures Matched(welded, p)
      {
        WeldedMatched(n, s, p);
      }
      forall p, q | 0 <= p < q < |welded|
        ensures Directed(welded, p) != Directed(welded, q)
      {
        if Directed(welded, p) == Directed(welded, q) {
          WeldedOnce(n, s, p, q);
        }
      }
    } else {
      var t, k, t', k' := TwoSides(n, s);
      var p := WeldedPlace(n, s, t, k);
      var q := WeldedPlace(n, s, t', k');
      assert Directed(welded, p) == Directed(welded, q);
      assert p < q || q < p;
    }
  }

  // ── The sweep itself ───────────────────────────────────────────────────────

  datatype Vec2 = Vec2(x: real, y: real)
  datatype Vec3 = Vec3(x: real, y: real, z: real)

  /** A ring point against the axis: its foot, its offset from the foot, and the offset turned a quarter. */
  datatype Arm = Arm(foot: Vec2, perp: Vec2, mz: real)

  /** How far along the axis from `a` a point lies. */
  function Reach(a: Vec2, d: Vec2, p: Vec2): real {
    (p.x - a.x) * d.x + (p.y - a.y) * d.y
  }

  /** `d` is the axis direction, already divided by its length. */
  function ArmOf(a: Vec2, d: Vec2, p: Vec2): Arm {
    var foot := OnAxis(a, d, Reach(a, d, p));
    var perp := Vec2(p.x - foot.x, p.y - foot.y);
    Arm(foot, perp, d.x * perp.y - d.y * perp.x)
  }

  /** A turn by an angle, given by its cosine and sine. */
  function Swept(arm: Arm, turn: Vec2): Vec3 {
    Vec3(arm.foot.x + arm.perp.x * turn.x, arm.foot.y + arm.perp.y * turn.x, arm.mz * turn.y)
  }

  function Arms(a: Vec2, d: Vec2, ring: seq<Vec2>): (r: seq<Arm>)
    ensures |r| == |ring|
  {
    seq(|ring|, i requires 0 <= i < |ring| => ArmOf(a, d, ring[i]))
  }

  function RingAt(arms: seq<Arm>, turn: Vec2): (r: seq<Vec3>)
    ensures |r| == |arms|
  {
    seq(|arms|, i requires 0 <= i < |arms| => Swept(arms[i], turn))
  }

  function RingsAt(arms: seq<Arm>, turns: seq<Vec2>): (r: seq<Vec3>)
    ensures |r| == |turns| * |arms|
  {
    if turns == [] then []
    else
      assert (|turns| - 1) * |arms| + |arms| == |turns| * |arms|;
      RingsAt(arms, turns[..|turns| - 1]) + RingAt(arms, turns[|turns| - 1])
  }

  function SumOf(points: seq<Vec3>): Vec3 {
    if points == [] then Vec3(0.0, 0.0, 0.0)
    else
      var s, p := SumOf(points[..|points| - 1]), points[|points| - 1];
      Vec3(s.x + p.x, s.y + p.y, s.z + p.z)
  }

  function Centroid(points: seq<Vec3>): Vec3
    requires points != []
  {
    var s, n := SumOf(points), |points| as real;
    Vec3(s.x / n, s.y / n, s.z / n)
  }

  function Positions(arms: seq<Arm>, turns: seq<Vec2>, full: bool): seq<Vec3>
    requires arms != [] && turns != []
  {
    RingsAt(arms, turns)
    + if full then [] else [Centroid(RingAt(arms, turns[0])), Centroid(RingAt(arms, turns[|turns| - 1]))]
  }

  lemma NextIsMod(n: nat, i: nat)
    requires i < n
    ensures (i + 1) % n == Next(n, i)
  {
    if i + 1 == n {
      assert (i + 1) % n == 0;
    }
  }

  method CapCenter(ring: seq<Vec3>) returns (center: Vec3)
    requires ring != []
    ensures center == Centroid(ring)
  {
    var sum: Vec3 := Vec3(0.0, 0.0, 0.0);
    for i := 0 to |ring|
      invariant sum == SumOf(ring[..i])
    {
      assert ring[..i + 1][..i] == ring[..i];
      sum := Vec3(sum.x + ring[i].x, sum.y + ring[i].y, sum.z + ring[i].z);
    }
    assert ring[..|ring|] == ring;
    var n := |ring| as real;
    center := Vec3(sum.x / n, sum.y / n, sum.z / n);
  }

  /** One cap: a center at the ring's centroid, and a fan around it. */
  method Cap(positions: seq<Vec3>, indices: seq<nat>, base: nat, n: nat, reversed: bool)
    returns (positions': seq<Vec3>, indices': seq<nat>)
    requires n >= 1 && base + n <= |positions|
    ensures positions' == positions + [Centroid(positions[base..base + n])]
    ensures indices' == indices + CapIndices(|positions|, base, n, reversed, n)
  {
    var center := CapCenter(positions[base..base + n]);
    var c := |positions|;
    positions' := positions + [center];
    indices' := indices;
    for i := 0 to n
      invariant indices' == indices + CapIndices(c, base, n, reversed, i)
    {
      var iN := (i + 1) % n;
      NextIsMod(n, i);
      if reversed {
        indices' := indices' + [c, base + iN, base + i];
      } else {
        indices' := indices' + [c, base + i, base + iN];
      }
    }
  }

  function CapIndices(c: nat, base: nat, n: nat, reversed: bool, i: nat): (r: seq<nat>)
    requires i <= n
  {
    if i == 0 then []
    else
      CapIndices(c, base, n, reversed, i - 1)
      + if reversed then [c, base + Next(n, i - 1), base + (i - 1)] else [c, base + (i - 1), base + Next(n, i - 1)]
  }

  lemma {:induction false} FanNumbers(n: nat, s: nat, start: bool, i: nat)
    requires i <= n
    ensures Numbered(n, s, Fan(start, i))
      == CapIndices(if start then (s + 1) * n else (s + 1) * n + 1, if start then 0 else s * n, n, start, i)
  {
    if i > 0 {
      FanNumbers(n, s, start, i - 1);
      assert Fan(start, i)[..i - 1] == Fan(start, i - 1);
    }
  }

  lemma {:induction false} NumberedConcat(n: nat, s: nat, xs: seq<Triangle>, ys: seq<Triangle>)
    ensures Numbered(n, s, xs + ys) == Numbered(n, s, xs) + Numbered(n, s, ys)
    decreases |ys|
  {
    if ys == [] {
      assert xs + ys == xs;
    } else {
      assert (xs + ys)[..|xs + ys| - 1] == xs + ys[..|ys| - 1];
      NumberedConcat(n, s, xs, ys[..|ys| - 1]);
    }
  }

  /**
   Sweeps the ring: `turns` are the cosines and sines of the angles from zero to the whole sweep, one
   more than there are steps.
   */
  method LatheLocal(ring: seq<Vec2>, a: Vec2, d: Vec2, turns: seq<Vec2>, full: bool)
    returns (positions: seq<Vec3>, indices: seq<nat>)
    requires ring != [] && |turns| >= 2
    ensures positions == Positions(Arms(a, d, ring), turns, full)
    ensures indices == Indices(|ring|, |turns| - 1, full)
    ensures |positions| == VertexCount(|ring|, |turns| - 1, full)
    ensures turns[0] == Vec2(1.0, 0.0) ==>
      forall i :: 0 <= i < |ring| ==> i < |positions| && positions[i] == Vec3(ring[i].x, ring[i].y, 0.0)
  {
    var n, steps := |ring|, |turns| - 1;
    ghost var arms := Arms(a, d, ring);
    var legs: seq<Arm> := [];
    for i := 0 to n
      invariant legs == arms[..i]
    {
      legs := legs + [ArmOf(a, d, ring[i])];
    }
    assert legs == arms;
    positions := WallPositions(legs, turns);
    indices := WallIndices(n, steps);
    hide RingsAt, RingAt, WallTriangles, Fan, Numbered, Num, Arms, Centroid, CapIndices;
    LastRing(arms, turns);
    if full {
      FullIndices(n, steps);
    } else {
      positions, indices := AddCaps(positions, indices, n, steps, arms, turns);
    }
    FirstRing(a, d, ring, turns, full);
  }

  lemma FirstRing(a: Vec2, d: Vec2, ring: seq<Vec2>, turns: seq<Vec2>, full: bool)
    requires ring != [] && |turns| >= 2
    ensures var positions := Positions(Arms(a, d, ring), turns, full);
      turns[0] == Vec2(1.0, 0.0) ==>
        forall i :: 0 <= i < |ring| ==> i < |positions| && positions[i] == Vec3(ring[i].x, ring[i].y, 0.0)
  {
    hide RingsAt, RingAt, Centroid, Swept, ArmOf;
    if turns[0] == Vec2(1.0, 0.0) {
      forall i | 0 <= i < |ring|
        ensures i < |RingsAt(Arms(a, d, ring), turns)|
        ensures RingsAt(Arms(a, d, ring), turns)[i] == Vec3(ring[i].x, ring[i].y, 0.0)
      {
        VertexAt(Arms(a, d, ring), turns, 0, i);
        StartsAtRing(a, d, ring[i]);
      }
    }
  }

  method AddCaps(
    walls: seq<Vec3>, wallIndices: seq<nat>, n: nat, steps: nat, ghost arms: seq<Arm>, ghost turns: seq<Vec2>)
    returns (positions: seq<Vec3>, indices: seq<nat>)
    requires n == |arms| && n >= 1 && |turns| == steps + 1 && walls == RingsAt(arms, turns)
    requires wallIndices == Numbered(n, steps, WallTriangles(n, steps))
    ensures positions == Positions(arms, turns, false) && indices == Indices(n, steps, false)
  {
    hide *;
    var base := steps * n;
    CapPlaces(arms, turns, base);
    CapIndicesAt(n, steps, base);
    TwoCaps(arms, turns);
    positions, indices := CapBoth(walls, wallIndices, n, base);
  }

  lemma CapPlaces(arms: seq<Arm>, turns: seq<Vec2>, base: nat)
    requires turns != [] && base == (|turns| - 1) * |arms|
    ensures var n, walls := |arms|, RingsAt(arms, turns);
      && |walls| == base + n
      && walls[0..n] == RingAt(arms, turns[0]) && walls[base..base + n] == RingAt(arms, turns[|turns| - 1])
  {
    hide RingsAt, RingAt;
    RingEnds(arms, turns);
    var n, walls := |arms|, RingsAt(arms, turns);
    assert walls[0..n] == walls[..n];
  }

  lemma CapIndicesAt(n: nat, s: nat, base: nat)
    requires base == s * n
    ensures Indices(n, s, false)
      == Numbered(n, s, WallTriangles(n, s)) + CapIndices(base + n, 0, n, true, n)
        + CapIndices(base + n + 1, base, n, false, n)
  {
    PartialIndices(n, s);
    hide *;
    assert (s + 1) * n == base + n;
  }

  method CapBoth(
    walls: seq<Vec3>, wallIndices: seq<nat>, n: nat, base: nat) returns (positions: seq<Vec3>, indices: seq<nat>)
    requires n >= 1 && |walls| == base + n
    ensures positions == walls + [Centroid(walls[0..n])] + [Centroid(walls[base..base + n])]
    ensures indices == wallIndices + CapIndices(base + n, 0, n, true, n) + CapIndices(base + n + 1, base, n, false, n)
  {
    hide *;
    positions, indices := Cap(walls, wallIndices, 0, n, true);
    assert positions[base..base + n] == walls[base..base + n];
    positions, indices := Cap(positions, indices, base, n, false);
  }

  lemma TwoCaps(arms: seq<Arm>, turns: seq<Vec2>)
    requires arms != [] && turns != []
    ensures Positions(arms, turns, false)
      == RingsAt(arms, turns) + [Centroid(RingAt(arms, turns[0]))] + [Centroid(RingAt(arms, turns[|turns| - 1]))]
  {
  }

  lemma FullIndices(n: nat, s: nat)
    ensures Indices(n, s, true) == Numbered(n, s, WallTriangles(n, s))
  {
    assert Triangles(n, s, true) == WallTriangles(n, s);
  }

  lemma PartialIndices(n: nat, s: nat)
    ensures Indices(n, s, false)
      == Numbered(n, s, WallTriangles(n, s)) + CapIndices((s + 1) * n, 0, n, true, n)
        + CapIndices((s + 1) * n + 1, s * n, n, false, n)
  {
    FanNumbers(n, s, true, n);
    FanNumbers(n, s, false, n);
    hide WallTriangles, Fan, CapIndices, Numbered;
    NumberedConcat(n, s, WallTriangles(n, s), Fan(true, n) + Fan(false, n));
    NumberedConcat(n, s, Fan(true, n), Fan(false, n));
  }

  method WallPositions(arms: seq<Arm>, turns: seq<Vec2>) returns (positions: seq<Vec3>)
    ensures positions == RingsAt(arms, turns)
  {
    positions := [];
    for j := 0 to |turns|
      invariant positions == RingsAt(arms, turns[..j])
    {
      assert turns[..j + 1][..j] == turns[..j];
      for i := 0 to |arms|
        invariant positions == RingsAt(arms, turns[..j]) + RingAt(arms, turns[j])[..i]
      {
        positions := positions + [Swept(arms[i], turns[j])];
      }
    }
    assert turns[..|turns|] == turns;
  }

  method WallIndices(n: nat, steps: nat) returns (indices: seq<nat>)
    ensures indices == Numbered(n, steps, WallTriangles(n, steps))
  {
    indices := [];
    for j := 0 to steps
      invariant indices == Numbered(n, steps, WallTriangles(n, j))
    {
      indices := RowIndices(indices, n, steps, j);
      NumberedConcat(n, steps, WallTriangles(n, j), RowTriangles(j, n));
    }
  }

  method RowIndices(before: seq<nat>, n: nat, ghost s: nat, j: nat) returns (indices: seq<nat>)
    ensures indices == before + Numbered(n, s, RowTriangles(j, n))
  {
    indices := before;
    var j0, j1 := j * n, (j + 1) * n;
    hide Numbered, RowTriangles;
    NoRow(n, s, j);
    for i := 0 to n
      invariant indices == before + Numbered(n, s, RowTriangles(j, i))
    {
      var iN := (i + 1) % n;
      NextIsMod(n, i);
      RowNumbers(n, s, j, i);
      indices := indices + [j0 + i, j0 + iN, j1 + iN];
      indices := indices + [j0 + i, j1 + iN, j1 + i];
    }
  }

  lemma NoRow(n: nat, s: nat, j: nat)
    ensures Numbered(n, s, RowTriangles(j, 0)) == []
  {
  }

  lemma RowNumbers(n: nat, s: nat, j: nat, i: nat)
    requires i < n
    ensures Numbered(n, s, RowTriangles(j, i + 1))
      == Numbered(n, s, RowTriangles(j, i))
         + [j * n + i, j * n + Next(n, i), (j + 1) * n + Next(n, i)]
           + [j * n + i, (j + 1) * n + Next(n, i), (j + 1) * n + i]
  {
    var before := RowTriangles(j, i);
    assert RowTriangles(j, i + 1)[..2 * i + 1] == before + [Lower(j, i)];
    assert (before + [Lower(j, i)])[..2 * i] == before;
  }

  /** The first and the last ring are where the caps look for them. */
  lemma {:induction false} RingEnds(arms: seq<Arm>, turns: seq<Vec2>)
    requires turns != []
    ensures var n, last := |arms|, |turns| - 1;
      && last * n + n == |RingsAt(arms, turns)| && n <= |RingsAt(arms, turns)|
      && RingsAt(arms, turns)[..n] == RingAt(arms, turns[0])
      && RingsAt(arms, turns)[last * n..last * n + n] == RingAt(arms, turns[last])
  {
    var n, last := |arms|, |turns| - 1;
    var before := RingsAt(arms, turns[..last]);
    LastRing(arms, turns);
    if last > 0 {
      hide RingsAt, RingAt;
      RingEnds(arms, turns[..last]);
      assert (before + RingAt(arms, turns[last]))[..n] == before[..n];
    }
  }

  lemma LastRing(arms: seq<Arm>, turns: seq<Vec2>)
    requires turns != []
    ensures var n, last := |arms|, |turns| - 1;
      var before := RingsAt(arms, turns[..last]);
      && |before| == last * n && |RingsAt(arms, turns)| == last * n + n
      && RingsAt(arms, turns) == before + RingAt(arms, turns[last])
      && RingsAt(arms, turns)[last * n..last * n + n] == RingAt(arms, turns[last])
      && (last == 0 ==> before == [])
  {
    var n, last := |arms|, |turns| - 1;
    var before, ring := RingsAt(arms, turns[..last]), RingAt(arms, turns[last]);
    Suffix(before, ring);
  }

  lemma Suffix<T>(xs: seq<T>, ys: seq<T>)
    ensures (xs + ys)[|xs|..|xs| + |ys|] == ys
  {
  }

  // ── Every swept point stays on its circle ──────────────────────────────────

  function Square(x: real): real {
    x * x
  }

  /** Turning about a unit axis keeps a point's foot on the axis and its distance from it. */
  lemma SweptOnCircle(a: Vec2, d: Vec2, p: Vec2, turn: Vec2)
    requires Square(d.x) + Square(d.y) == 1.0 && Square(turn.x) + Square(turn.y) == 1.0
    ensures var arm, q := ArmOf(a, d, p), Swept(ArmOf(a, d, p), turn);
      && (q.x - arm.foot.x) * d.x + (q.y - arm.foot.y) * d.y == 0.0
      && Square(q.x - arm.foot.x) + Square(q.y - arm.foot.y) + Square(q.z)
        == Square(p.x - arm.foot.x) + Square(p.y - arm.foot.y)
  {
    var arm := ArmOf(a, d, p);
    var r := arm.perp;
    PerpIsPerpendicular(a, d, p);
    QuarterTurnKeepsLength(d, r);
    CombineTurn(r, arm.mz, turn);
    assert r == Vec2(p.x - arm.foot.x, p.y - arm.foot.y);
    hide ArmOf, Square;
    Factored(r.x, d.x, r.y, d.y, turn.x);
  }

  lemma Factored(x: real, u: real, y: real, v: real, c: real)
    ensures x * c * u + y * c * v == c * (x * u + y * v)
  {
  }

  lemma PerpIsPerpendicular(a: Vec2, d: Vec2, p: Vec2)
    requires Square(d.x) + Square(d.y) == 1.0
    ensures var r := ArmOf(a, d, p).perp; r.x * d.x + r.y * d.y == 0.0
  {
    var w := Vec2(p.x - a.x, p.y - a.y);
    var t := w.x * d.x + w.y * d.y;
    var r := ArmOf(a, d, p).perp;
    assert r == Vec2(w.x - t * d.x, w.y - t * d.y);
    assert r.x * d.x + r.y * d.y == t - t * (d.x * d.x + d.y * d.y);
  }

  lemma QuarterTurnKeepsLength(d: Vec2, r: Vec2)
    requires Square(d.x) + Square(d.y) == 1.0 && r.x * d.x + r.y * d.y == 0.0
    ensures Square(d.x * r.y - d.y * r.x) == Square(r.x) + Square(r.y)
  {
    var m, z := d.x * r.y - d.y * r.x, r.x * d.x + r.y * d.y;
    assert m * m + z * z == (d.x * d.x + d.y * d.y) * (r.x * r.x + r.y * r.y);
  }

  lemma CombineTurn(r: Vec2, m: real, turn: Vec2)
    requires m * m == Square(r.x) + Square(r.y) && Square(turn.x) + Square(turn.y) == 1.0
    ensures Square(r.x * turn.x) + Square(r.y * turn.x) + Square(m * turn.y) == Square(r.x) + Square(r.y)
  {
    var l := r.x * r.x + r.y * r.y;
    var c, n := turn.x * turn.x, turn.y * turn.y;
    assert (r.x * turn.x) * (r.x * turn.x) + (r.y * turn.x) * (r.y * turn.x) == l * c;
    assert (m * turn.y) * (m * turn.y) == l * n;
    assert l * c + l * n == l * (c + n);
  }

  /** A whole turn brings the last ring back onto the first. */
  lemma WholeTurnMeets(arms: seq<Arm>, turns: seq<Vec2>, i: nat)
    requires |turns| >= 2 && i < |arms| && turns[|turns| - 1] == turns[0]
    ensures var n, last := |arms|, |turns| - 1;
      last * n + i < |RingsAt(arms, turns)| && RingsAt(arms, turns)[last * n + i] == RingsAt(arms, turns)[i]
  {
    RingEnds(arms, turns);
    var n, last := |arms|, |turns| - 1;
    var all := RingsAt(arms, turns);
    assert all[last * n + i] == all[last * n..last * n + n][i];
    assert all[i] == all[..n][i];
  }

  // ── Where every vertex is ──────────────────────────────────────────────────

  function Distance2(p: Vec2, q: Vec2): real {
    Square(p.x - q.x) + Square(p.y - q.y)
  }

  /** The point of the line through `a` along `d`, `t` along. */
  function OnAxis(a: Vec2, d: Vec2, t: real): Vec2 {
    Vec2(a.x + t * d.x, a.y + t * d.y)
  }

  /** No point of the axis is nearer to `p`. */
  ghost predicate NearestOnAxis(a: Vec2, d: Vec2, p: Vec2, t: real) {
    forall t' :: Distance2(p, OnAxis(a, d, t)) <= Distance2(p, OnAxis(a, d, t'))
  }

  lemma SquareSign(x: real)
    ensures Square(x) >= 0.0 && (Square(x) == 0.0 ==> x == 0.0)
  {
    if x != 0.0 {
      LikeSigns(x, x, Square(x));
    }
  }

  lemma LikeSigns(x: real, y: real, product: real)
    requires product == x * y && ((x > 0.0 && y > 0.0) || (x < 0.0 && y < 0.0))
    ensures product > 0.0
  {
  }

  lemma AxisDistance(a: Vec2, d: Vec2, p: Vec2, t0: real, t: real)
    requires Square(d.x) + Square(d.y) == 1.0 && t0 == (p.x - a.x) * d.x + (p.y - a.y) * d.y
    ensures Distance2(p, OnAxis(a, d, t)) == Distance2(p, OnAxis(a, d, t0)) + Square(t - t0)
  {
    var x, y := p.x - a.x, p.y - a.y;
    OffsetSquares(x, y, d.x, d.y, t0, t);
    OffsetSquares(x, y, d.x, d.y, t0, t0);
    assert p.x - (a.x + t * d.x) == x - t * d.x && p.y - (a.y + t * d.y) == y - t * d.y;
    assert p.x - (a.x + t0 * d.x) == x - t0 * d.x && p.y - (a.y + t0 * d.y) == y - t0 * d.y;
    assert Square(t - t0) == Square(t) - 2.0 * (t * t0) + Square(t0);
    hide OnAxis;
  }

  lemma OffsetSquares(x: real, y: real, u: real, v: real, t0: real, t: real)
    requires Square(u) + Square(v) == 1.0 && t0 == x * u + y * v
    ensures Square(x - t * u) + Square(y - t * v) == Square(x) + Square(y) - 2.0 * (t * t0) + Square(t)
  {
    var l := Square(u) + Square(v);
    assert Square(x - t * u) == Square(x) - 2.0 * (t * (x * u)) + (t * t) * Square(u);
    assert Square(y - t * v) == Square(y) - 2.0 * (t * (y * v)) + (t * t) * Square(v);
    assert t * (x * u) + t * (y * v) == t * t0;
    assert (t * t) * Square(u) + (t * t) * Square(v) == (t * t) * l;
  }

  /** The foot of an arm is the one point of the axis nearest to the ring point. */
  lemma FootIsNearest(a: Vec2, d: Vec2, p: Vec2, t: real)
    requires Square(d.x) + Square(d.y) == 1.0
    ensures NearestOnAxis(a, d, p, t) <==> t == Reach(a, d, p)
  {
    var t0 := Reach(a, d, p);
    hide Square, Distance2, OnAxis;
    forall t'
      ensures Distance2(p, OnAxis(a, d, t0)) <= Distance2(p, OnAxis(a, d, t'))
    {
      AxisDistance(a, d, p, t0, t');
      SquareSign(t' - t0);
    }
    if NearestOnAxis(a, d, p, t) {
      AxisDistance(a, d, p, t0, t);
      SquareSign(t - t0);
      assert Distance2(p, OnAxis(a, d, t)) <= Distance2(p, OnAxis(a, d, t0));
    }
  }

  /**
   Turned by an angle about a unit axis, a point keeps the cosine of its offset from the nearest point of
   the axis in the plane, and leaves the plane by the sine of how far it lies to the left of the axis.
   */
  lemma SweptExactly(a: Vec2, d: Vec2, p: Vec2, turn: Vec2, t: real)
    requires Square(d.x) + Square(d.y) == 1.0 && NearestOnAxis(a, d, p, t)
    ensures var f, q := OnAxis(a, d, t), Swept(ArmOf(a, d, p), turn);
      && f.x == a.x + t * d.x && f.y == a.y + t * d.y
      && q.x == f.x + turn.x * (p.x - f.x) && q.y == f.y + turn.x * (p.y - f.y)
      && q.z == turn.y * (d.x * (p.y - a.y) - d.y * (p.x - a.x))
  {
    hide *;
    AxisPoint(a, d, t);
    FootIsNearest(a, d, p, t);
    ArmIs(a, d, p);
    SweptParts(ArmOf(a, d, p), turn);
    LeavesBy(a, d, p, turn);
  }

  lemma AxisPoint(a: Vec2, d: Vec2, t: real)
    ensures var f := OnAxis(a, d, t); f.x == a.x + t * d.x && f.y == a.y + t * d.y
  {
  }

  lemma ArmIs(a: Vec2, d: Vec2, p: Vec2)
    ensures var arm := ArmOf(a, d, p);
      arm.foot == OnAxis(a, d, Reach(a, d, p)) && arm.perp == Vec2(p.x - arm.foot.x, p.y - arm.foot.y)
  {
    hide Reach, OnAxis;
  }

  lemma SweptParts(arm: Arm, turn: Vec2)
    ensures var q := Swept(arm, turn);
      q.x == arm.foot.x + turn.x * arm.perp.x && q.y == arm.foot.y + turn.x * arm.perp.y
  {
  }

  lemma LeavesBy(a: Vec2, d: Vec2, p: Vec2, turn: Vec2)
    ensures Swept(ArmOf(a, d, p), turn).z == turn.y * (d.x * (p.y - a.y) - d.y * (p.x - a.x))
  {
    hide Swept, ArmOf;
    SweepLeavesBySide(a, d, p, turn);
  }

  /** At angle zero a ring point is where it is drawn. */
  lemma StartsAtRing(a: Vec2, d: Vec2, p: Vec2)
    ensures Swept(ArmOf(a, d, p), Vec2(1.0, 0.0)) == Vec3(p.x, p.y, 0.0)
  {
  }

  /** Ring point `i` after turn `j` is vertex `j * n + i`. */
  lemma {:induction false} VertexAt(arms: seq<Arm>, turns: seq<Vec2>, j: nat, i: nat)
    requires i < |arms| && j < |turns|
    ensures j * |arms| + i < |RingsAt(arms, turns)|
    ensures RingsAt(arms, turns)[j * |arms| + i] == Swept(arms[i], turns[j])
  {
    var last := |turns| - 1;
    LastRing(arms, turns);
    RowsApart(|arms|, j, i, j + 1);
    if j < last {
      VertexAt(arms, turns[..last], j, i);
    }
  }

  /** The offsets of the points from `c`, summed. */
  function Offsets(points: seq<Vec3>, c: Vec3): Vec3 {
    if points == [] then Vec3(0.0, 0.0, 0.0)
    else
      var rest, p := Offsets(points[..|points| - 1], c), points[|points| - 1];
      Vec3(rest.x + (p.x - c.x), rest.y + (p.y - c.y), rest.z + (p.z - c.z))
  }

  lemma {:induction false} OffsetsAre(points: seq<Vec3>, c: Vec3)
    ensures OffsetsFrom(|points| as real, SumOf(points), c, Offsets(points, c))
  {
    if points != [] {
      var last := |points| - 1;
      OffsetsAre(points[..last], c);
      OneOffsetMore(last as real, SumOf(points[..last]), c, Offsets(points[..last], c), points[last]);
    }
  }

  predicate OffsetsFrom(n: real, s: Vec3, c: Vec3, o: Vec3) {
    o.x == s.x - n * c.x && o.y == s.y - n * c.y && o.z == s.z - n * c.z
  }

  lemma OneOffsetMore(n: real, s: Vec3, c: Vec3, o: Vec3, p: Vec3)
    requires OffsetsFrom(n, s, c, o)
    ensures OffsetsFrom(n + 1.0, Vec3(s.x + p.x, s.y + p.y, s.z + p.z), c,
                        Vec3(o.x + (p.x - c.x), o.y + (p.y - c.y), o.z + (p.z - c.z)))
  {
    OneMore(n, c.x);
    OneMore(n, c.y);
    OneMore(n, c.z);
  }

  lemma OneMore(n: real, x: real)
    ensures (n + 1.0) * x == n * x + x
  {
  }

  /** A cap's center is the one point about which its ring balances. */
  lemma CentroidBalances(points: seq<Vec3>, c: Vec3)
    requires points != []
    ensures Offsets(points, c) == Vec3(0.0, 0.0, 0.0) <==> c == Centroid(points)
  {
    hide Offsets, SumOf;
    OffsetsAre(points, c);
    var n, s := |points| as real, SumOf(points);
    assert n >= 1.0;
    Quotient(n, s.x, c.x);
    Quotient(n, s.y, c.y);
    Quotient(n, s.z, c.z);
    var o := Offsets(points, c);
    assert o == Vec3(0.0, 0.0, 0.0) <==> o.x == 0.0 && o.y == 0.0 && o.z == 0.0;
    assert c == Centroid(points) <==> c.x == s.x / n && c.y == s.y / n && c.z == s.z / n;
  }

  lemma Quotient(n: real, s: real, c: real)
    requires n > 0.0
    ensures s - n * c == 0.0 <==> c == s / n
  {
    if s - n * c == 0.0 {
      assert n * c / n == c;
    }
  }

  // ── Which numbers are emitted, in which order ──────────────────────────────

  lemma {:induction false} RowTriangleAt(j: nat, n: nat, i: nat)
    requires i < n
    ensures RowTriangles(j, n)[2 * i] == Lower(j, i) && RowTriangles(j, n)[2 * i + 1] == Upper(j, i)
  {
    if i < n - 1 {
      RowTriangleAt(j, n - 1, i);
    }
  }

  lemma {:induction false} WallTriangleAt(n: nat, s: nat, j: nat, i: nat)
    requires i < n && j < s
    ensures |WallTriangles(n, s)| == 2 * (s * n) && 2 * (j * n + i) + 1 < |WallTriangles(n, s)|
    ensures WallTriangles(n, s)[2 * (j * n + i)] == Lower(j, i)
    ensures WallTriangles(n, s)[2 * (j * n + i) + 1] == Upper(j, i)
  {
    WallDistinct(n, s);
    WallDistinct(n, s - 1);
    RowsApart(n, j, i, s);
    if j < s - 1 {
      WallTriangleAt(n, s - 1, j, i);
    } else {
      RowTriangleAt(j, n, i);
    }
  }

  lemma {:induction false} FanAt(start: bool, n: nat, i: nat)
    requires i < n
    ensures Fan(start, n)[i] == if start then StartFan(i) else EndFan(i)
  {
    if i < n - 1 {
      FanAt(start, n - 1, i);
    }
  }

  /** Three indices of the buffer, from the `p`-th triangle. */
  ghost predicate Emits(indices: seq<nat>, p: nat, a: nat, b: nat, c: nat) {
    3 * p + 2 < |indices| && indices[3 * p] == a && indices[3 * p + 1] == b && indices[3 * p + 2] == c
  }

  lemma EmitsTriangle(n: nat, s: nat, ts: seq<Triangle>, p: nat)
    requires p < |ts|
    ensures var (a, b, c) := Corners(n, s, ts[p]);
      Emits(Numbered(n, s, ts), p, Num(n, s, a), Num(n, s, b), Num(n, s, c))
  {
    hide Num;
    NumberedAt(n, s, ts, p);
  }

  /** The two triangles between ring points `i` and `i + 1`, and segments `j` and `j + 1`. */
  lemma WallNumbers(n: nat, s: nat, full: bool, j: nat, i: nat)
    requires i < n && j < s
    ensures var next := (i + 1) % n;
      && Emits(Indices(n, s, full), 2 * (j * n + i), j * n + i, j * n + next, (j + 1) * n + next)
      && Emits(Indices(n, s, full), 2 * (j * n + i) + 1, j * n + i, (j + 1) * n + next, (j + 1) * n + i)
  {
    hide Numbered, WallTriangles, Fan;
    var p := 2 * (j * n + i);
    NextIsMod(n, i);
    WallTriangleAt(n, s, j, i);
    var ts := Triangles(n, s, full);
    assert ts[p] == Lower(j, i) && ts[p + 1] == Upper(j, i);
    EmitsTriangle(n, s, ts, p);
    EmitsTriangle(n, s, ts, p + 1);
  }

  /** The caps: around the first center against the ring's order, around the second along it. */
  lemma CapNumbers(n: nat, s: nat, i: nat)
    requires i < n && s >= 1
    ensures var next := (i + 1) % n;
      && Emits(Indices(n, s, false), 2 * (s * n) + i, (s + 1) * n, next, i)
      && Emits(Indices(n, s, false), 2 * (s * n) + n + i, (s + 1) * n + 1, s * n + i, s * n + next)
  {
    hide Numbered, WallTriangles, Fan;
    var p, walls := 2 * (s * n) + i, WallTriangles(n, s);
    NextIsMod(n, i);
    WallDistinct(n, s);
    FanAt(true, n, i);
    FanAt(false, n, i);
    var ts := Triangles(n, s, false);
    assert ts == walls + (Fan(true, n) + Fan(false, n));
    assert ts[p] == Fan(true, n)[i] && ts[p + n] == Fan(false, n)[i];
    EmitsTriangle(n, s, ts, p);
    EmitsTriangle(n, s, ts, p + n);
  }

  // ── Legal axes ─────────────────────────────────────────────────────────────

  /** How far `p` lies to the left of the line from `a` along `d`, times the length of `d`. */
  function LeftOf(a: Vec2, d: Vec2, p: Vec2): real {
    d.x * (p.y - a.y) - d.y * (p.x - a.x)
  }

  /** Whether the ring has points clearly on both sides of the line through `a` and `b`. */
  method AxisSplitsRegion(a: Vec2, b: Vec2, ring: seq<Vec2>, eps: real) returns (splits: bool)
    requires eps >= 0.0
    ensures splits <==>
      && (exists i :: 0 <= i < |ring| && LeftOf(a, Vec2(b.x - a.x, b.y - a.y), ring[i]) > eps)
      && (exists i :: 0 <= i < |ring| && LeftOf(a, Vec2(b.x - a.x, b.y - a.y), ring[i]) < -eps)
  {
    var d := Vec2(b.x - a.x, b.y - a.y);
    var pos, neg := false, false;
    for i := 0 to |ring|
      invariant pos <==> exists k :: 0 <= k < i && LeftOf(a, d, ring[k]) > eps
      invariant neg <==> exists k :: 0 <= k < i && LeftOf(a, d, ring[k]) < -eps
      invariant !(pos && neg)
    {
      var cross := d.x * (ring[i].y - a.y) - d.y * (ring[i].x - a.x);
      assert cross == LeftOf(a, d, ring[i]);
      if cross > eps {
        pos := true;
      } else if cross < -eps {
        neg := true;
      }
      if pos && neg {
        return true;
      }
    }
    splits := false;
  }

  /** A point leaves the plane, as it is swept, by as much as it lies beside the axis and to that side. */
  lemma SweepLeavesBySide(a: Vec2, d: Vec2, p: Vec2, turn: Vec2)
    ensures Swept(ArmOf(a, d, p), turn).z == LeftOf(a, d, p) * turn.y
  {
    var t := (p.x - a.x) * d.x + (p.y - a.y) * d.y;
    Collinear(d.x, d.y, p.x - a.x, p.y - a.y, t);
    assert ArmOf(a, d, p).perp == Vec2(p.x - a.x - t * d.x, p.y - a.y - t * d.y);
  }

  /** What runs along the axis does not count to a side. */
  lemma Collinear(u: real, v: real, x: real, y: real, t: real)
    ensures u * (y - t * v) - v * (x - t * u) == u * y - v * x
  {
  }
}
