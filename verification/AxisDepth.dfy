/** The extrude drag: the depth along an axis at its closest approach to the pointer's ray, over the reals. */
module AxisDepth {

  datatype Vec3 = Vec3(x: real, y: real, z: real)

  function Dot(a: Vec3, b: Vec3): real {
    a.x * b.x + a.y * b.y + a.z * b.z
  }

  function Sub(a: Vec3, b: Vec3): Vec3 {
    Vec3(a.x - b.x, a.y - b.y, a.z - b.z)
  }

  /** `p` moved `s` along `d`. */
  function Along(p: Vec3, d: Vec3, s: real): Vec3 {
    Vec3(p.x + s * d.x, p.y + s * d.y, p.z + s * d.z)
  }

  function Norm2(a: Vec3): real {
    Dot(a, a)
  }

  const PARALLEL := 0.000000001

  function AxisDepthFromRay(rayOrigin: Vec3, rayDir: Vec3, axisPoint: Vec3, axisDir: Vec3): real {
    var r := Sub(axisPoint, rayOrigin);
    var a, e, f, c, b := Dot(axisDir, axisDir), Dot(rayDir, rayDir), Dot(rayDir, r), Dot(axisDir, r),
      Dot(axisDir, rayDir);
    var denom := a * e - b * b;
    if denom <= PARALLEL then -c / (if a == 0.0 then 1.0 else a)
    else (b * f - c * e) / denom
  }

  /** The squared distance between the axis at `s` and the ray's line at `t`. */
  function Distance2(o: Vec3, d: Vec3, p: Vec3, axis: Vec3, s: real, t: real): real {
    Norm2(Sub(Along(p, axis, s), Along(o, d, t)))
  }

  /** Some place on the ray's line and the axis at `s` are as near as any two places on the two lines. */
  ghost predicate Optimal(o: Vec3, d: Vec3, p: Vec3, axis: Vec3, s: real) {
    exists t :: Nearest(o, d, p, axis, s, t)
  }

  ghost predicate Nearest(o: Vec3, d: Vec3, p: Vec3, axis: Vec3, s: real, t: real) {
    forall s', t' :: Distance2(o, d, p, axis, s, t) <= Distance2(o, d, p, axis, s', t')
  }

  /** How far the ray is from parallel to a unit axis, and how its origin lies across the axis. */
  function Denom(d: Vec3, axis: Vec3): real {
    Dot(axis, axis) * Dot(d, d) - Dot(axis, d) * Dot(axis, d)
  }

  function Slant(o: Vec3, d: Vec3, p: Vec3, axis: Vec3): real {
    Dot(d, Sub(p, o)) - Dot(axis, d) * Dot(axis, Sub(p, o))
  }

  function Square(x: real): real {
    x * x
  }

  /** The squared distance, with the square in `s` completed. */
  function Completed(b: real, c: real, denom: real, g: real, k: real, s: real, t: real): real {
    Square(s + c - b * t) + denom * Square(t) - 2.0 * (t * g) + k
  }

  lemma LikeSigns(x: real, y: real, product: real)
    requires product == x * y && ((x > 0.0 && y > 0.0) || (x < 0.0 && y < 0.0))
    ensures product > 0.0
  {
  }

  lemma SquareSign(x: real)
    ensures Square(x) >= 0.0 && (x != 0.0 ==> Square(x) > 0.0)
  {
    if x != 0.0 {
      LikeSigns(x, x, Square(x));
    }
  }

  lemma Scaled(k: real, x: real)
    requires k > 0.0 && x >= 0.0
    ensures k * x >= 0.0 && (x > 0.0 ==> k * x > 0.0)
  {
    if x > 0.0 {
      LikeSigns(k, x, k * x);
    }
  }

  /** One coordinate of the offset between the lines' points, of the axis and of the ray. */
  datatype Share = Share(x: real, u: real, v: real)

  /** The products of those that the squared distance is made of, summed over the coordinates. */
  datatype Products = Products(xx: real, uu: real, vv: real, ux: real, vx: real, uv: real)

  function ProductsOf(k: Share): Products {
    Products(k.x * k.x, k.u * k.u, k.v * k.v, k.u * k.x, k.v * k.x, k.u * k.v)
  }

  function Plus(m: Products, n: Products): Products {
    Products(m.xx + n.xx, m.uu + n.uu, m.vv + n.vv, m.ux + n.ux, m.vx + n.vx, m.uv + n.uv)
  }

  function Form(m: Products, s: real, t: real): real {
    m.xx + s * s * m.uu + t * t * m.vv + 2.0 * (s * m.ux) - 2.0 * (t * m.vx) - 2.0 * (s * t * m.uv)
  }

  lemma Expand(k: Share, s: real, t: real, y: real)
    requires y == k.x + s * k.u - t * k.v
    ensures y * y == Form(ProductsOf(k), s, t)
  {
  }

  lemma FormAdds(m: Products, n: Products, s: real, t: real)
    ensures Form(m, s, t) + Form(n, s, t) == Form(Plus(m, n), s, t)
  {
    Distributes(s * s, m.uu, n.uu);
    Distributes(t * t, m.vv, n.vv);
    Distributes(s, m.ux, n.ux);
    Distributes(t, m.vx, n.vx);
    Distributes(s * t, m.uv, n.uv);
  }

  lemma Distributes(k: real, x: real, y: real)
    ensures k * (x + y) == k * x + k * y
  {
  }

  function AllProducts(x: Vec3, u: Vec3, v: Vec3): Products {
    Products(Norm2(x), Norm2(u), Norm2(v), Dot(u, x), Dot(v, x), Dot(u, v))
  }

  lemma ProductsAdd(x: Vec3, u: Vec3, v: Vec3)
    ensures AllProducts(x, u, v)
      == Plus(Plus(ProductsOf(Share(x.x, u.x, v.x)), ProductsOf(Share(x.y, u.y, v.y))),
        ProductsOf(Share(x.z, u.z, v.z)))
  {
  }

  lemma NormForm(x: Vec3, u: Vec3, v: Vec3, s: real, t: real, w: Vec3)
    requires w.x == x.x + s * u.x - t * v.x && w.y == x.y + s * u.y - t * v.y && w.z == x.z + s * u.z - t * v.z
    ensures Norm2(w) == Form(AllProducts(x, u, v), s, t)
  {
    var k0, k1, k2 := Share(x.x, u.x, v.x), Share(x.y, u.y, v.y), Share(x.z, u.z, v.z);
    assert Norm2(w) == w.x * w.x + w.y * w.y + w.z * w.z;
    hide *;
    Expand(k0, s, t, w.x);
    Expand(k1, s, t, w.y);
    Expand(k2, s, t, w.z);
    FormAdds(ProductsOf(k0), ProductsOf(k1), s, t);
    FormAdds(Plus(ProductsOf(k0), ProductsOf(k1)), ProductsOf(k2), s, t);
    ProductsAdd(x, u, v);
  }

  /** The squared distance as a quadratic form in `s` and `t`. */
  lemma DistanceForm(o: Vec3, d: Vec3, p: Vec3, axis: Vec3, s: real, t: real)
    ensures Distance2(o, d, p, axis, s, t) == Form(AllProducts(Sub(p, o), axis, d), s, t)
  {
    var w := Sub(Along(p, axis, s), Along(o, d, t));
    NormForm(Sub(p, o), axis, d, s, t, w);
  }

  lemma CompleteSquare(m: Products, b: real, c: real, denom: real, g: real, k: real, s: real, t: real)
    requires m.uu == 1.0 && m.uv == b && m.ux == c
    requires denom == m.vv - b * b && g == m.vx - b * c && k == m.xx - c * c
    ensures Form(m, s, t) == Completed(b, c, denom, g, k, s, t)
  {
  }

  /** The squared distance of the ray's origin from a unit axis. */
  function Across(p: Vec3, o: Vec3, axis: Vec3): real {
    Norm2(Sub(p, o)) - Dot(axis, Sub(p, o)) * Dot(axis, Sub(p, o))
  }

  lemma UnitDenom(d: Vec3, axis: Vec3)
    requires Dot(axis, axis) == 1.0
    ensures Denom(d, axis) == Dot(d, d) - Dot(axis, d) * Dot(axis, d)
  {
    hide Dot;
  }

  lemma DistanceCompleted(o: Vec3, d: Vec3, p: Vec3, axis: Vec3, s: real, t: real)
    requires Dot(axis, axis) == 1.0
    ensures Distance2(o, d, p, axis, s, t)
      == Completed(Dot(axis, d), Dot(axis, Sub(p, o)), Denom(d, axis), Slant(o, d, p, axis), Across(p, o, axis), s, t)
  {
    hide Dot, Sub, Distance2, Form, Completed, Denom;
    DistanceForm(o, d, p, axis, s, t);
    UnitDenom(d, axis);
    CompleteSquare(AllProducts(Sub(p, o), axis, d), Dot(axis, d), Dot(axis, Sub(p, o)),
                   Denom(d, axis), Slant(o, d, p, axis), Across(p, o, axis), s, t);
  }

  // ── Lines that are not parallel ────────────────────────────────────────────

  /** With `denom` positive the completed form has one lowest point. */
  lemma LowestPoint(b: real, c: real, denom: real, g: real, k: real, s0: real, t0: real, s: real, t: real)
    requires denom > 0.0 && denom * t0 == g && s0 == b * t0 - c
    ensures Completed(b, c, denom, g, k, s0, t0) <= Completed(b, c, denom, g, k, s, t)
    ensures s != s0 ==> Completed(b, c, denom, g, k, s0, t0) < Completed(b, c, denom, g, k, s, t)
  {
    var u, m := s + c - b * t, t - t0;
    Recentre(denom, t0, g, t);
    Recentre(denom, t0, g, t0);
    AtFoot(b, c, s0, t0, t0);
    AtFoot(b, c, s, t, t0);
    SquareSign(u);
    SquareSign(m);
    Scaled(denom, Square(m));
    assert Square(s0 + c - b * t0) == 0.0 && Square(t0 - t0) == 0.0;
    hide Square;
    assert Completed(b, c, denom, g, k, s0, t0) == k - denom * Square(t0);
    assert Completed(b, c, denom, g, k, s, t) == Square(u) + denom * Square(m) - denom * Square(t0) + k;
    hide *;
    assert s != s0 ==> u != 0.0 || m != 0.0;
  }

  lemma AtFoot(b: real, c: real, s: real, t: real, t0: real)
    ensures t == t0 ==> s + c - b * t == s - (b * t0 - c)
  {
  }

  lemma Recentre(denom: real, t0: real, g: real, t: real)
    requires denom * t0 == g
    ensures denom * Square(t) - 2.0 * (t * g) == denom * Square(t - t0) - denom * Square(t0)
  {
    assert (t - t0) * (t - t0) == t * t - 2.0 * (t * t0) + t0 * t0;
    assert t * g == denom * (t * t0);
    Distribute(denom, t * t, t * t0, t0 * t0);
  }

  lemma Distribute(k: real, x: real, y: real, z: real)
    ensures k * (x - 2.0 * y + z) == k * x - 2.0 * (k * y) + k * z
  {
  }

  /** No two places on the lines are nearer than the lowest point, and no other depth comes as near. */
  lemma NearestThere(o: Vec3, d: Vec3, p: Vec3, axis: Vec3, s0: real, t0: real, s: real, t: real)
    requires Dot(axis, axis) == 1.0 && Denom(d, axis) > 0.0
    requires Denom(d, axis) * t0 == Slant(o, d, p, axis) && s0 == Dot(axis, d) * t0 - Dot(axis, Sub(p, o))
    ensures Distance2(o, d, p, axis, s0, t0) <= Distance2(o, d, p, axis, s, t)
    ensures s != s0 ==> Distance2(o, d, p, axis, s0, t0) < Distance2(o, d, p, axis, s, t)
  {
    hide *;
    DistanceCompleted(o, d, p, axis, s0, t0);
    DistanceCompleted(o, d, p, axis, s, t);
    LowestPoint(Dot(axis, d), Dot(axis, Sub(p, o)), Denom(d, axis), Slant(o, d, p, axis), Across(p, o, axis), s0, t0,
      s, t);
  }

  /** Where the two lines are not parallel, one depth and no other is optimal. */
  lemma OneOptimum(o: Vec3, d: Vec3, p: Vec3, axis: Vec3, s: real)
    requires Dot(axis, axis) == 1.0 && Denom(d, axis) > 0.0
    ensures Optimal(o, d, p, axis, s) <==>
      s == Dot(axis, d) * (Slant(o, d, p, axis) / Denom(d, axis)) - Dot(axis, Sub(p, o))
  {
    hide Dot, Sub, Distance2, Denom, Slant;
    var t0 := Slant(o, d, p, axis) / Denom(d, axis);
    var s0 := Dot(axis, d) * t0 - Dot(axis, Sub(p, o));
    assert Denom(d, axis) * t0 == Slant(o, d, p, axis);
    forall s', t'
      ensures Distance2(o, d, p, axis, s0, t0) <= Distance2(o, d, p, axis, s', t')
      ensures s' != s0 ==> Distance2(o, d, p, axis, s0, t0) < Distance2(o, d, p, axis, s', t')
    {
      NearestThere(o, d, p, axis, s0, t0, s', t');
    }
    assert Nearest(o, d, p, axis, s0, t0);
    forall t | Nearest(o, d, p, axis, s, t)
      ensures s == s0
    {
      assert Distance2(o, d, p, axis, s, t) <= Distance2(o, d, p, axis, s0, t0);
    }
    if s == s0 {
      assert Nearest(o, d, p, axis, s, t0);
    }
  }

  // ── Parallel lines ─────────────────────────────────────────────────────────

  /** What is left of the ray direction across a unit axis. */
  function Rest(d: Vec3, axis: Vec3): Vec3 {
    var b := Dot(axis, d);
    Vec3(d.x - b * axis.x, d.y - b * axis.y, d.z - b * axis.z)
  }

  lemma NormSign(q: Vec3)
    ensures Norm2(q) >= 0.0 && (Norm2(q) == 0.0 ==> q == Vec3(0.0, 0.0, 0.0))
  {
    SquareSign(q.x);
    SquareSign(q.y);
    SquareSign(q.z);
    assert Norm2(q) == Square(q.x) + Square(q.y) + Square(q.z);
    hide Square, Norm2;
  }

  /** It has squared length `Denom`. */
  lemma RestNorm(d: Vec3, axis: Vec3)
    requires Dot(axis, axis) == 1.0
    ensures Norm2(Rest(d, axis)) == Denom(d, axis)
  {
    var b := Dot(axis, d);
    NormForm(d, axis, axis, 0.0, b, Rest(d, axis));
    hide Dot;
  }

  lemma DenomSign(d: Vec3, axis: Vec3)
    requires Dot(axis, axis) == 1.0
    ensures Denom(d, axis) >= 0.0
    ensures Denom(d, axis) == 0.0 ==> Rest(d, axis) == Vec3(0.0, 0.0, 0.0)
  {
    RestNorm(d, axis);
    NormSign(Rest(d, axis));
    hide Denom, Rest;
  }

  lemma ParallelSlant(o: Vec3, d: Vec3, p: Vec3, axis: Vec3)
    requires Dot(axis, axis) == 1.0 && Denom(d, axis) == 0.0
    ensures Slant(o, d, p, axis) == 0.0
  {
    hide Dot, Sub, Denom;
    DenomSign(d, axis);
    var b, r := Dot(axis, d), Sub(p, o);
    var q := Rest(d, axis);
    assert q.x == d.x - b * axis.x && q.y == d.y - b * axis.y && q.z == d.z - b * axis.z;
    Scales(b, axis, r, d);
  }

  lemma Scales(b: real, u: Vec3, r: Vec3, d: Vec3)
    requires d == Vec3(b * u.x, b * u.y, b * u.z)
    ensures Dot(d, r) == b * Dot(u, r)
  {
    assert Dot(d, r) == b * (u.x * r.x) + b * (u.y * r.y) + b * (u.z * r.z);
    Distributes(b, u.x * r.x, u.y * r.y);
    Distributes(b, u.x * r.x + u.y * r.y, u.z * r.z);
  }

  /** On parallel lines the foot of the ray's origin is as near as any place. */
  lemma ParallelOptimal(o: Vec3, d: Vec3, p: Vec3, axis: Vec3)
    requires Dot(axis, axis) == 1.0 && Denom(d, axis) == 0.0
    ensures Optimal(o, d, p, axis, -Dot(axis, Sub(p, o)))
  {
    ParallelSlant(o, d, p, axis);
    hide Dot, Sub, Distance2, Denom, Slant, Norm2, Square, Across;
    var c := Dot(axis, Sub(p, o));
    forall s', t'
      ensures Distance2(o, d, p, axis, -c, 0.0) <= Distance2(o, d, p, axis, s', t')
    {
      DistanceCompleted(o, d, p, axis, -c, 0.0);
      DistanceCompleted(o, d, p, axis, s', t');
      var h := s' + c - Dot(axis, d) * t';
      SquareSign(h);
      SquareSign(t');
    }
    assert Nearest(o, d, p, axis, -c, 0.0);
  }

  // ── The function ───────────────────────────────────────────────────────────

  lemma DepthIs(o: Vec3, d: Vec3, p: Vec3, axis: Vec3)
    requires Dot(axis, axis) == 1.0
    ensures AxisDepthFromRay(o, d, p, axis)
      == if Denom(d, axis) <= PARALLEL then -Dot(axis, Sub(p, o))
         else Dot(axis, d) * (Slant(o, d, p, axis) / Denom(d, axis)) - Dot(axis, Sub(p, o))
  {
    hide Dot, Sub;
    var r := Sub(p, o);
    var e, f, c, b := Dot(d, d), Dot(d, r), Dot(axis, r), Dot(axis, d);
    var denom := e - b * b;
    assert 1.0 * e == e;
    if denom > PARALLEL {
      Quotients(b, c, e, f, denom);
    }
  }

  lemma Quotients(b: real, c: real, e: real, f: real, denom: real)
    requires denom == e - b * b && denom > 0.0
    ensures (b * f - c * e) / denom == b * ((f - b * c) / denom) - c
  {
    var q := (f - b * c) / denom;
    assert q * denom == f - b * c;
    assert (b * q - c) * denom == b * (q * denom) - c * denom;
    assert c * denom == c * e - c * (b * b);
    assert b * (f - b * c) == b * f - c * (b * b);
    assert (b * q - c) * denom == b * f - c * e;
  }

  /**
   For a unit axis the depth is that of a nearest pair of places on the two lines exactly when the
   lines are clearly not parallel, or exactly parallel, or meet the axis where the origin's foot is.
   */
  lemma DepthOptimalExactly(o: Vec3, d: Vec3, p: Vec3, axis: Vec3)
    requires Dot(axis, axis) == 1.0
    ensures Optimal(o, d, p, axis, AxisDepthFromRay(o, d, p, axis))
      <==> Denom(d, axis) > 0.000000001 || Denom(d, axis) == 0.0 || Dot(axis, d) * Slant(o, d, p, axis) == 0.0
  {
    DepthIs(o, d, p, axis);
    DenomSign(d, axis);
    hide Dot, Sub, Denom, Slant, AxisDepthFromRay, Optimal;
    var denom, b, g := Denom(d, axis), Dot(axis, d), Slant(o, d, p, axis);
    if denom == 0.0 {
      ParallelOptimal(o, d, p, axis);
    } else {
      OneOptimum(o, d, p, axis, AxisDepthFromRay(o, d, p, axis));
      ZeroProduct(b, g, denom);
    }
  }

  lemma ZeroProduct(b: real, g: real, denom: real)
    requires denom > 0.0
    ensures b * (g / denom) == 0.0 <==> b * g == 0.0
  {
    var q := g / denom;
    assert q * denom == g;
    assert b * g == b * q * denom;
    if b * q == 0.0 {
      assert b * g == 0.0 * denom;
    } else {
      NonZero(b * q, denom);
    }
  }

  lemma NonZero(x: real, y: real)
    requires x != 0.0 && y > 0.0
    ensures x * y != 0.0
  {
  }

  /** The fallback is the foot of the ray's origin on the axis. */
  lemma FallbackIsFoot(o: Vec3, d: Vec3, p: Vec3, axis: Vec3, s: real)
    requires Dot(axis, axis) == 1.0 && Denom(d, axis) <= PARALLEL
    ensures Norm2(Sub(Along(p, axis, AxisDepthFromRay(o, d, p, axis)), o)) <= Norm2(Sub(Along(p, axis, s), o))
  {
    var zero := Vec3(0.0, 0.0, 0.0);
    DepthIs(o, d, p, axis);
    var c := Dot(axis, Sub(p, o));
    DistanceForm(o, zero, p, axis, -c, 0.0);
    DistanceForm(o, zero, p, axis, s, 0.0);
    assert Along(o, zero, 0.0) == o;
    SquareSign(s + c);
    assert s * s + 2.0 * (s * c) == Square(s + c) - c * c;
  }

  /** A ray that takes the fallback from across the axis, while the one optimal depth is `n`. */
  ghost predicate Misses(o: Vec3, d: Vec3, p: Vec3, axis: Vec3, n: real) {
    AxisDepthFromRay(o, d, p, axis) == 0.0 && forall s :: Optimal(o, d, p, axis, s) <==> s == n
  }

  lemma MissesBy(o: Vec3, d: Vec3, p: Vec3, axis: Vec3, b: real, g: real, denom: real, n: real)
    requires Dot(axis, axis) == 1.0 && Dot(axis, Sub(p, o)) == 0.0
    requires Dot(axis, d) == b && Slant(o, d, p, axis) == g && Denom(d, axis) == denom && 0.0 < denom <= PARALLEL
    requires b * (g / denom) == n
    ensures Misses(o, d, p, axis, n)
  {
    DepthIs(o, d, p, axis);
    hide Dot, Sub, Denom, Slant, AxisDepthFromRay, Optimal;
    forall s
      ensures Optimal(o, d, p, axis, s) <==> s == n
    {
      OneOptimum(o, d, p, axis, s);
    }
  }

  const ORIGIN := Vec3(0.0, 0.0, 0.0)
  const UNIT_X := Vec3(1.0, 0.0, 0.0)

  /** The error has no bound: for every `n` some ray almost parallel to a unit axis is answered 0 where `n` is right. */
  lemma NearParallelMisses(n: real)
    requires n >= 100000.0
    ensures Misses(Vec3(0.0, -1.0, 0.0), Vec3(1.0, 1.0 / n, 0.0), ORIGIN, UNIT_X, n)
  {
    hide *;
    var h := 1.0 / n;
    SmallSquare(n, h);
    PlaneRay(1.0, 1.0, h);
    assert h * 1.0 == h && 1.0 * (h / (h * h)) == n;
    MissesBy(Vec3(0.0, -1.0, 0.0), Vec3(1.0, h, 0.0), ORIGIN, UNIT_X, 1.0, h, h * h, n);
  }

  /** Nor need the ray be almost parallel: at half a right angle it is answered 0 if its direction is short enough. */
  lemma ShortRayMisses(n: real, h: real)
    requires h > 0.0 && h * h <= PARALLEL
    ensures Misses(Vec3(0.0, -n, 0.0), Vec3(h, h, 0.0), ORIGIN, UNIT_X, n)
  {
    hide *;
    LikeSigns(h, h, h * h);
    ShortOptimum(h, n);
    PlaneRay(n, h, h);
    MissesBy(Vec3(0.0, -n, 0.0), Vec3(h, h, 0.0), ORIGIN, UNIT_X, h, h * n, h * h, n);
  }

  lemma ShortOptimum(h: real, n: real)
    requires h > 0.0 && h * h > 0.0
    ensures h * (h * n / (h * h)) == n
  {
    var q := h * n / (h * h);
    assert q * (h * h) == h * n;
    assert h * (h * q - n) == q * (h * h) - h * n;
  }

  /** A ray in the plane, from `n` below the origin, along `(b, h)`. */
  lemma PlaneRay(n: real, b: real, h: real)
    ensures var o, d := Vec3(0.0, -n, 0.0), Vec3(b, h, 0.0);
      && Dot(UNIT_X, UNIT_X) == 1.0 && Dot(UNIT_X, Sub(ORIGIN, o)) == 0.0
      && Dot(UNIT_X, d) == b && Slant(o, d, ORIGIN, UNIT_X) == h * n && Denom(d, UNIT_X) == h * h
  {
  }

  lemma SmallSquare(n: real, h: real)
    requires n >= 100000.0 && h == 1.0 / n
    ensures 0.0 < h * h <= PARALLEL && h / (h * h) == n
  {
    assert h * n == 1.0 && 0.0 < h <= 0.00001;
    LikeSigns(h, h, h * h);
    assert h * h <= 0.00001 * h;
    assert (n * h) * h == h;
  }
}
