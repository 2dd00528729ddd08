/**
 The least-recently-used cache of encoded meshes.

 The map and the recency list are held against each other and against the order of the last touches;
 two caches of different capacity are compared access by access.
 */
module MeshCache {
  import opened Wrappers

  // ── Lists of keys ──────────────────────────────────────────────────────────

  predicate Distinct<K(==)>(xs: seq<K>) {
    forall i, j :: 0 <= i < j < |xs| ==> xs[i] != xs[j]
  }

  function Without<K(==)>(xs: seq<K>, k: K): seq<K> {
    if xs == [] then []
    else
      var rest, x := Without(xs[..|xs| - 1], k), xs[|xs| - 1];
      if x == k then rest else rest + [x]
  }

  /** The last `n` elements, or all of them. */
  function Last<T>(xs: seq<T>, n: nat): seq<T> {
    if |xs| <= n then xs else xs[|xs| - n..]
  }

  function KeysOf<K(==)>(xs: seq<K>): set<K> {
    set i | 0 <= i < |xs| :: xs[i]
  }

  lemma {:induction false} WithoutConcat<K>(xs: seq<K>, ys: seq<K>, k: K)
    ensures Without(xs + ys, k) == Without(xs, k) + Without(ys, k)
    decreases |ys|
  {
    if ys == [] {
      assert xs + ys == xs;
    } else {
      assert (xs + ys)[..|xs + ys| - 1] == xs + ys[..|ys| - 1];
      WithoutConcat(xs, ys[..|ys| - 1], k);
    }
  }

  lemma {:induction false} WithoutAbsent<K>(xs: seq<K>, k: K)
    requires k !in xs
    ensures Without(xs, k) == xs
  {
    if xs != [] {
      WithoutAbsent(xs[..|xs| - 1], k);
      assert xs == xs[..|xs| - 1] + [xs[|xs| - 1]];
    }
  }

  /** Of a list without repeats, taking out `k` where it stands leaves the rest in order. */
  lemma WithoutAt<K>(xs: seq<K>, p: nat)
    requires Distinct(xs) && p < |xs|
    ensures Without(xs, xs[p]) == xs[..p] + xs[p + 1..]
  {
    Split(xs, p);
    hide Without, Distinct;
    WithoutMiddle(xs[..p], xs[p], xs[p + 1..]);
  }

  lemma WithoutMiddle<K>(a: seq<K>, k: K, b: seq<K>)
    requires k !in a && k !in b
    ensures Without(a + ([k] + b), k) == a + b
  {
    OneWithout(k);
    hide Without;
    WithoutConcat(a, [k] + b, k);
    WithoutConcat([k], b, k);
    WithoutAbsent(a, k);
    WithoutAbsent(b, k);
    assert [] + b == b;
  }

  lemma Split<T>(xs: seq<T>, p: nat)
    requires p < |xs|
    ensures xs == xs[..p] + ([xs[p]] + xs[p + 1..])
  {
  }

  lemma OneWithout<K>(k: K)
    ensures Without([k], k) == []
  {
    assert [k][..0] == [];
  }

  lemma {:induction false} WithoutIn<K>(xs: seq<K>, k: K, y: K)
    ensures y in Without(xs, k) <==> y in xs && y != k
  {
    if xs != [] {
      WithoutIn(xs[..|xs| - 1], k, y);
      assert xs == xs[..|xs| - 1] + [xs[|xs| - 1]];
    }
  }

  lemma {:induction false} WithoutDistinct<K>(xs: seq<K>, k: K)
    requires Distinct(xs)
    ensures Distinct(Without(xs, k))
    ensures |Without(xs, k)| == if k in xs then |xs| - 1 else |xs|
  {
    if k in xs {
      var p :| 0 <= p < |xs| && xs[p] == k;
      WithoutAt(xs, p);
    } else {
      WithoutAbsent(xs, k);
    }
  }

  // ── The cache as a value ───────────────────────────────────────────────────

  datatype Cache<K, V> = Cache(capacity: nat, entries: map<K, V>, order: seq<K>)

  ghost predicate Consistent<K, V>(c: Cache<K, V>) {
    && c.capacity >= 1
    && Distinct(c.order) && KeysOf(c.order) == c.entries.Keys
    && |c.order| <= c.capacity
  }

  function Touched<K(==)>(order: seq<K>, k: K): seq<K> {
    if k in order then Without(order, k) + [k] else order
  }

  /** A hit touches its key; a miss changes nothing. */
  function AfterGet<K(==), V>(c: Cache<K, V>, k: K): Cache<K, V> {
    c.(order := Touched(c.order, k))
  }

  function Added<K(==), V>(c: Cache<K, V>, k: K, v: V): Cache<K, V> {
    Cache(c.capacity, c.entries[k := v], if k in c.order then Touched(c.order, k) else c.order + [k])
  }

  function Trimmed<K(==), V>(c: Cache<K, V>): Cache<K, V> {
    if |c.order| > c.capacity then Cache(c.capacity, c.entries - {c.order[0]}, c.order[1..]) else c
  }

  /** A put touches or adds its key, and then the least recently touched key gives way if there is one too many. */
  function AfterPut<K(==), V>(c: Cache<K, V>, k: K, v: V): Cache<K, V> {
    Trimmed(Added(c, k, v))
  }

  datatype Access<K, V> = Get(key: K) | Put(key: K, value: V) | Clear

  function After<K(==), V>(c: Cache<K, V>, a: Access<K, V>): Cache<K, V> {
    match a
    case Get(k) => AfterGet(c, k)
    case Put(k, v) => AfterPut(c, k, v)
    case Clear => c.(entries := map[], order := [])
  }

  function Empty<K, V>(capacity: nat): Cache<K, V> {
    Cache(if capacity == 0 then 1 else capacity, map[], [])
  }

  function Run<K(==), V>(capacity: nat, accesses: seq<Access<K, V>>): Cache<K, V> {
    if accesses == [] then Empty(capacity)
    else After(Run(capacity, accesses[..|accesses| - 1]), accesses[|accesses| - 1])
  }

  lemma TouchedKeeps<K>(order: seq<K>, k: K)
    requires Distinct(order)
    ensures Distinct(Touched(order, k)) && |Touched(order, k)| == |order| && KeysOf(Touched(order, k)) == KeysOf(order)
  {
    if k in order {
      WithoutDistinct(order, k);
      WithoutIn(order, k, k);
      var t := Touched(order, k);
      forall y
        ensures y in t <==> y in order
      {
        WithoutIn(order, k, y);
      }
      SameKeys(t, order);
    }
  }

  lemma SameKeys<K>(xs: seq<K>, ys: seq<K>)
    requires forall y :: y in xs <==> y in ys
    ensures KeysOf(xs) == KeysOf(ys)
  {
    assert forall y :: y in KeysOf(xs) <==> y in xs;
    assert forall y :: y in KeysOf(ys) <==> y in ys;
  }

  lemma AfterConsistent<K, V>(c: Cache<K, V>, a: Access<K, V>)
    requires Consistent(c)
    ensures Consistent(After(c, a))
  {
    match a {
      case Get(k) => TouchedKeeps(c.order, k);
      case Put(k, v) => PutConsistent(c, k, v);
      case Clear => assert KeysOf<K>([]) == {};
    }
  }

  lemma PutConsistent<K, V>(c: Cache<K, V>, k: K, v: V)
    requires Consistent(c)
    ensures Consistent(AfterPut(c, k, v))
    ensures k in AfterPut(c, k, v).entries && AfterPut(c, k, v).entries[k] == v
    ensures forall y :: y in AfterPut(c, k, v).entries && y != k ==>
      y in c.entries && AfterPut(c, k, v).entries[y] == c.entries[y]
  {
    AddedKeeps(c, k, v);
    hide Added, Trimmed, Consistent, AlmostConsistent;
  }

  /** Consistent but for one key too many. */
  ghost predicate AlmostConsistent<K, V>(c: Cache<K, V>) {
    c.capacity >= 1 && Distinct(c.order) && KeysOf(c.order) == c.entries.Keys && |c.order| <= c.capacity + 1
  }

  lemma AddedKeeps<K, V>(c: Cache<K, V>, k: K, v: V)
    requires Consistent(c)
    ensures var d := Added(c, k, v);
      && AlmostConsistent(d) && d.order != [] && d.order[|d.order| - 1] == k
      && k in d.entries && d.entries[k] == v && forall y :: y in d.entries && y != k ==>
        y in c.entries && d.entries[y] == c.entries[y]
  {
    KeysIn(c.order);
    KeysIn(Added(c, k, v).order);
    if k in c.order {
      TouchedKeeps(c.order, k);
    } else {
      assert forall y :: y in c.order + [k] <==> y in c.order || y == k;
    }
  }

  lemma Tail<K>(xs: seq<K>)
    requires Distinct(xs) && xs != []
    ensures Distinct(xs[1..]) && KeysOf(xs[1..]) == KeysOf(xs) - {xs[0]}
  {
    KeysIn(xs);
    KeysIn(xs[1..]);
    assert xs == [xs[0]] + xs[1..];
  }

  lemma KeysIn<K>(xs: seq<K>)
    ensures forall y :: y in KeysOf(xs) <==> y in xs
  {
  }

  /** After any accesses the two structures agree and the cache is within its capacity. */
  lemma {:induction false} RunConsistent<K, V>(capacity: nat, accesses: seq<Access<K, V>>)
    ensures Consistent(Run(capacity, accesses)) && Run(capacity, accesses).capacity == Empty<K, V>(capacity).capacity
  {
    if accesses == [] {
      assert KeysOf<K>([]) == {};
    } else {
      RunConsistent(capacity, accesses[..|accesses| - 1]);
      AfterConsistent(Run(capacity, accesses[..|accesses| - 1]), accesses[|accesses| - 1]);
    }
  }

  // ── The cache in place ─────────────────────────────────────────────────────

  class MeshCache<K(==), V> {
    const capacity: nat
    var entries: map<K, V>
    var order: seq<K>

    ghost function View(): Cache<K, V>
      reads this
    {
      Cache(capacity, entries, order)
    }

    ghost predicate Valid()
      reads this
    {
      Consistent(View())
    }

    constructor (capacity: nat)
      ensures Valid() && View() == Empty(capacity)
    {
      this.capacity := if capacity == 0 then 1 else capacity;
      entries, order := map[], [];
    }

    /** Moves `k` to the most recent end. */
    method Touch(k: K)
      requires Distinct(order)
      modifies this`order
      ensures order == Touched(old(order), k)
    {
      var p := 0;
      while p < |order| && order[p] != k
        invariant p <= |order|
        invariant forall i :: 0 <= i < p ==> order[i] != k
      {
        p := p + 1;
      }
      if p < |order| {
        WithoutAt(order, p);
        order := order[..p] + order[p + 1..] + [k];
      }
    }

    method Get(k: K) returns (hit: Option<V>)
      requires Valid()
      modifies this`order
      ensures Valid() && View() == AfterGet(old(View()), k)
      ensures hit == if k in old(entries) then Some(old(entries)[k]) else None
    {
      hit := if k in entries then Some(entries[k]) else None;
      KeysIn(order);
      AfterConsistent(View(), Access.Get(k));
      if hit.Some? {
        Touch(k);
      }
    }

    method Put(k: K, v: V)
      requires Valid()
      modifies this
      ensures Valid() && View() == AfterPut(old(View()), k, v)
    {
      PutConsistent(View(), k, v);
      AddedKeeps(View(), k, v);
      KeysIn(order);
      var isNew := k !in entries;
      entries := entries[k := v];
      if isNew {
        order := order + [k];
      } else {
        Touch(k);
      }
      assert View() == Added(old(View()), k, v);
      DistinctCount(order);
      hide Added, Distinct, KeysOf;
      while |entries| > capacity
        invariant Trimmed(View()) == AfterPut(old(View()), k, v)
        invariant |entries| == |order| <= capacity + 1
        decreases |order|
      {
        if order == [] {
          break;
        }
        Shrunk(View(), old(View()), k, v);
        var evicted := order[0];
        order := order[1..];
        entries := entries - {evicted};
      }
    }

    method Clear()
      modifies this`entries, this`order
      ensures View() == After(old(View()), Access.Clear)
    {
      entries, order := map[], [];
    }
  }

  /** One eviction is all it takes. */
  lemma Shrunk<K, V>(now: Cache<K, V>, before: Cache<K, V>, k: K, v: V)
    requires Trimmed(now) == AfterPut(before, k, v) && Consistent(before)
    requires |now.entries| == |now.order| == now.capacity + 1
    ensures var d := AfterPut(before, k, v);
      d.order == now.order[1..] && d.entries == now.entries - {now.order[0]}
        && |d.entries| == |d.order| == d.capacity == now.capacity
  {
    PutConsistent(before, k, v);
    var d := AfterPut(before, k, v);
    DistinctCount(d.order);
    assert |d.entries| == |d.entries.Keys|;
  }

  lemma {:induction false} DistinctCount<K>(xs: seq<K>)
    requires Distinct(xs)
    ensures |KeysOf(xs)| == |xs|
  {
    if xs == [] {
      assert KeysOf(xs) == {};
    } else {
      var n := |xs| - 1;
      DistinctCount(xs[..n]);
      assert KeysOf(xs) == KeysOf(xs[..n]) + {xs[n]} by {
        assert forall i :: 0 <= i < n ==> xs[..n][i] == xs[i];
      }
      assert xs[n] !in KeysOf(xs[..n]);
    }
  }

  // ── Keys by last touch ─────────────────────────────────────────────────────

  /** The keys touched, each once, by when each was last touched. */
  function Recency<K(==)>(touches: seq<K>): seq<K> {
    if touches == [] then []
    else
      var k := touches[|touches| - 1];
      Without(Recency(touches[..|touches| - 1]), k) + [k]
  }

  /** The touches an access makes: puts always, gets on a hit, and clearing forgets them. */
  function Touches<K(==), V>(capacity: nat, accesses: seq<Access<K, V>>): seq<K> {
    if accesses == [] then []
    else
      var before := accesses[..|accesses| - 1];
      var touched := Touches(capacity, before);
      match accesses[|accesses| - 1]
      case Get(k) => if k in Run(capacity, before).order then touched + [k] else touched
      case Put(k, _) => touched + [k]
      case Clear => []
  }

  lemma {:induction false} RecencyDistinct<K>(touches: seq<K>)
    ensures Distinct(Recency(touches))
  {
    if touches != [] {
      var n := |touches| - 1;
      RecencyDistinct(touches[..n]);
      WithoutDistinct(Recency(touches[..n]), touches[n]);
      WithoutIn(Recency(touches[..n]), touches[n], touches[n]);
    }
  }

  /** The last `n` of a recency list after a touch, from the last `n` before it. */
  lemma LastTouched<K>(recent: seq<K>, n: nat, k: K)
    requires Distinct(recent) && n >= 1
    ensures var last, next := Last(recent, n), Without(recent, k) + [k];
      Last(next, n) == if k in last then Touched(last, k) else Last(last + [k], n)
  {
    hide Without, Distinct, Touched;
    var last := Last(recent, n);
    var head := recent[..|recent| - |last|];
    assert recent == head + last;
    if k in last {
      HitLast(head, last, k, n);
    } else {
      MissLast(head, last, k, n);
    }
  }

  lemma HitLast<K>(head: seq<K>, last: seq<K>, k: K, n: nat)
    requires Distinct(head + last) && k in last && (|last| == n || head == [])
    ensures Last(Without(head + last, k) + [k], n) == Last(Touched(last, k), n)
      == if |last| <= n then Touched(last, k) else Last(Touched(last, k), n)
  {
    OnlyOnce(head, last, k);
    WithoutCount(last, k);
    hide Without, Distinct;
    WithoutConcat(head, last, k);
    WithoutAbsent(head, k);
    assert head + Without(last, k) + [k] == head + Touched(last, k);
    LastConcat(head, Touched(last, k), n);
  }

  lemma MissLast<K>(head: seq<K>, last: seq<K>, k: K, n: nat)
    requires k !in last && (|last| == n || head == [])
    ensures Last(Without(head + last, k) + [k], n) == Last(last + [k], n)
  {
    hide Without;
    WithoutConcat(head, last, k);
    WithoutAbsent(last, k);
    assert Without(head, k) + last + [k] == Without(head, k) + (last + [k]);
    if head == [] {
      NothingWithout(k);
      assert [] + (last + [k]) == last + [k];
    } else {
      LastConcat(Without(head, k), last + [k], n);
    }
  }

  lemma NothingWithout<K>(k: K)
    ensures Without([], k) == []
  {
  }

  lemma OnlyOnce<K>(head: seq<K>, last: seq<K>, k: K)
    requires Distinct(head + last) && k in last
    ensures k !in head && Distinct(last)
  {
    var all := head + last;
    assert forall i :: 0 <= i < |head| ==> all[i] == head[i];
    assert forall i :: 0 <= i < |last| ==> all[|head| + i] == last[i];
  }

  lemma WithoutCount<K>(xs: seq<K>, k: K)
    requires Distinct(xs) && k in xs
    ensures |Touched(xs, k)| == |xs|
  {
    WithoutDistinct(xs, k);
  }

  lemma LastConcat<T>(xs: seq<T>, ys: seq<T>, n: nat)
    requires |ys| >= n || xs == []
    ensures Last(xs + ys, n) == Last(ys, n)
  {
    if xs == [] {
      assert xs + ys == ys;
    } else {
      assert (xs + ys)[|xs + ys| - n..] == ys[|ys| - n..];
    }
  }

  /**
   After any accesses, `order` is the most recent part of the keys by last touch, as much as the
   capacity holds; so what is evicted is always the least recently touched.
   */
  lemma {:induction false} OrderIsRecency<K, V>(capacity: nat, accesses: seq<Access<K, V>>)
    ensures var c := Run(capacity, accesses);
      c.order == Last(Recency(Touches(capacity, accesses)), c.capacity)
  {
    if accesses == [] {
      assert Recency<K>([]) == [];
    } else {
      var n := |accesses| - 1;
      var before, c := accesses[..n], Run(capacity, accesses[..n]);
      OrderIsRecency(capacity, before);
      RunConsistent(capacity, before);
      NextOrder(c, Touches(capacity, before), accesses[n]);
    }
  }

  lemma NextOrder<K, V>(c: Cache<K, V>, touched: seq<K>, a: Access<K, V>)
    requires Consistent(c) && c.order == Last(Recency(touched), c.capacity)
    ensures var touched' := match a {
        case Get(k) => if k in c.order then touched + [k] else touched
        case Put(k, _) => touched + [k]
        case Clear => []
      };
      After(c, a).order == Last(Recency(touched'), c.capacity)
  {
    if a.Clear? {
      assert Recency<K>([]) == [];
    } else {
      RecencyDistinct(touched);
      LastTouched(Recency(touched), c.capacity, a.key);
      if a.Put? {
        PutOrderOf(c, a.key, a.value);
      }
      hide Recency, Without, Distinct, KeysOf, Last, AfterPut;
    }
  }

  lemma PutOrderOf<K, V>(c: Cache<K, V>, k: K, v: V)
    requires Consistent(c)
    ensures AfterPut(c, k, v).order
      == if k in c.order then Touched(c.order, k)
         else if |c.order| == c.capacity then (c.order + [k])[1..]
         else c.order + [k]
  {
    TouchedKeeps(c.order, k);
  }

  // ── More capacity never loses a hit ────────────────────────────────────────

  /** `ys` without what is not in `keep`. */
  function Only<K(==)>(ys: seq<K>, keep: set<K>): seq<K> {
    if ys == [] then []
    else
      var rest, y := Only(ys[..|ys| - 1], keep), ys[|ys| - 1];
      if y in keep then rest + [y] else rest
  }

  /**
   The smaller cache's keys are in the larger, in the same order; and it holds as many as it can, or all.
   */
  ghost predicate Included<K, V>(c: Cache<K, V>, d: Cache<K, V>) {
    && c.capacity <= d.capacity
    && c.order == Only(d.order, KeysOf(c.order))
    && (|c.order| == c.capacity || c.order == d.order)
  }

  lemma {:induction false} OnlyConcat<K>(xs: seq<K>, ys: seq<K>, keep: set<K>)
    ensures Only(xs + ys, keep) == Only(xs, keep) + Only(ys, keep)
    decreases |ys|
  {
    if ys == [] {
      assert xs + ys == xs;
    } else {
      assert (xs + ys)[..|xs + ys| - 1] == xs + ys[..|ys| - 1];
      OnlyConcat(xs, ys[..|ys| - 1], keep);
    }
  }

  lemma {:induction false} OnlyWithout<K>(ys: seq<K>, keep: set<K>, k: K)
    ensures Only(Without(ys, k), keep) == Without(Only(ys, keep), k)
    ensures k !in keep ==> Only(Without(ys, k), keep) == Only(ys, keep)
    ensures Only(ys, keep - {k}) == Without(Only(ys, keep), k)
  {
    if ys != [] {
      var n := |ys| - 1;
      OnlyWithout(ys[..n], keep, k);
      var rest := Only(ys[..n], keep);
      assert (rest + [ys[n]])[..|rest|] == rest;
      var less := Without(ys[..n], k);
      assert (less + [ys[n]])[..|less|] == less;
    }
  }

  lemma {:induction false} OnlyIn<K>(ys: seq<K>, keep: set<K>, y: K)
    ensures y in Only(ys, keep) <==> y in ys && y in keep
  {
    if ys != [] {
      OnlyIn(ys[..|ys| - 1], keep, y);
      assert ys == ys[..|ys| - 1] + [ys[|ys| - 1]];
    }
  }

  lemma {:induction false} OnlyAll<K>(ys: seq<K>, keep: set<K>)
    requires KeysOf(ys) <= keep
    ensures Only(ys, keep) == ys
  {
    if ys != [] {
      var n := |ys| - 1;
      assert ys[n] in KeysOf(ys);
      assert KeysOf(ys[..n]) <= KeysOf(ys) by {
        assert forall i :: 0 <= i < n ==> ys[..n][i] == ys[i];
      }
      OnlyAll(ys[..n], keep);
    }
  }

  lemma IncludedKeys<K, V>(c: Cache<K, V>, d: Cache<K, V>, y: K)
    requires Included(c, d) && y in c.order
    ensures y in d.order
  {
    OnlyIn(d.order, KeysOf(c.order), y);
  }

  /** Leaving out a key that is not there, and keeping it or not, makes no difference. */
  lemma OnlyMore<K>(ys: seq<K>, keep: set<K>, k: K)
    requires k !in keep
    ensures Only(Without(ys, k), keep + {k}) == Only(ys, keep)
  {
    OnlyWithout(ys, keep + {k}, k);
    assert keep + {k} - {k} == keep;
  }

  /** Touching or adding a key on both sides keeps the smaller order inside the larger. */
  lemma AddedInside<K>(c: seq<K>, d: seq<K>, k: K)
    requires Distinct(c) && Distinct(d) && c == Only(d, KeysOf(c))
    ensures var c', d' := Without(c, k) + [k], Without(d, k) + [k]; c' == Only(d', KeysOf(c'))
  {
    var keep := KeysOf(c);
    var c', d' := Without(c, k) + [k], Without(d, k) + [k];
    assert KeysOf(c') == keep + {k} by {
      forall y
        ensures y in c' <==> y in keep + {k}
      {
        WithoutIn(c, k, y);
        KeysIn(c);
      }
      KeysIn(c');
    }
    OnlyConcat(Without(d, k), [k], keep + {k});
    hide Only, Without, KeysOf, Distinct;
    if k in keep {
      assert keep + {k} == keep;
      OnlyWithout(d, keep, k);
    } else {
      KeysIn(c);
      WithoutAbsent(c, k);
      OnlyMore(d, keep, k);
    }
  }

  lemma TouchInside<K>(c: seq<K>, d: seq<K>, k: K)
    requires Distinct(c) && Distinct(d) && c == Only(d, KeysOf(c))
    ensures Touched(c, k) == Only(Touched(d, k), KeysOf(Touched(c, k)))
  {
    if k in c {
      OnlyIn(d, KeysOf(c), k);
      AddedInside(c, d, k);
    } else if k in d {
      KeysIn(c);
      OnlyWithout(d, KeysOf(c), k);
      OnlyConcat(Without(d, k), [k], KeysOf(c));
    }
  }

  function PutOrder<K(==)>(order: seq<K>, k: K): seq<K> {
    if k in order then Touched(order, k) else order + [k]
  }

  lemma PutInside<K>(c: seq<K>, d: seq<K>, k: K)
    requires Distinct(c) && Distinct(d) && c == Only(d, KeysOf(c))
    ensures PutOrder(c, k) == Only(PutOrder(d, k), KeysOf(PutOrder(c, k)))
  {
    AddedInside(c, d, k);
    if k !in c {
      WithoutAbsent(c, k);
    }
    if k !in d {
      WithoutAbsent(d, k);
    }
  }

  /** Dropping the first of the smaller order keeps it inside the larger. */
  lemma DropSmaller<K>(c: seq<K>, d: seq<K>)
    requires Distinct(c) && c != [] && c == Only(d, KeysOf(c))
    ensures c[1..] == Only(d, KeysOf(c[1..]))
  {
    Tail(c);
    WithoutAt(c, 0);
    hide Only, KeysOf, Without, Distinct;
    OnlyWithout(d, KeysOf(c), c[0]);
    assert c[..0] + c[1..] == c[1..];
  }

  /** ... and so does dropping the first of both. */
  lemma DropBoth<K>(c: seq<K>, d: seq<K>)
    requires Distinct(c) && Distinct(d) && c != [] && c == Only(d, KeysOf(c))
    ensures d != [] && c[1..] == Only(d[1..], KeysOf(c[1..]))
  {
    DropSmaller(c, d);
    Tail(c);
    hide Only, KeysOf, Distinct;
    var keep := KeysOf(c);
    OnlyIn(d, keep, c[0]);
    assert c[0] in Only(d, keep);
    assert d == [d[0]] + d[1..];
    OnlyConcat([d[0]], d[1..], keep);
    OnlyConcat([d[0]], d[1..], keep - {c[0]});
    assert d[0] in keep ==> ([d[0]] + Only(d[1..], keep))[0] == d[0];
    assert [] + Only(d[1..], keep - {c[0]}) == Only(d[1..], keep - {c[0]});
  }

  lemma AccessIncluded<K, V>(c: Cache<K, V>, d: Cache<K, V>, a: Access<K, V>)
    requires Consistent(c) && Consistent(d) && Included(c, d)
    ensures Included(After(c, a), After(d, a))
  {
    match a {
      case Get(k) => GetIncluded(c, d, k);
      case Put(k, v) => PutIncluded(c, d, k, v);
      case Clear =>
    }
  }

  lemma GetIncluded<K, V>(c: Cache<K, V>, d: Cache<K, V>, k: K)
    requires Consistent(c) && Consistent(d) && Included(c, d)
    ensures Included(AfterGet(c, k), AfterGet(d, k))
  {
    TouchInside(c.order, d.order, k);
    TouchedKeeps(c.order, k);
    hide Touched, Only, KeysOf, Distinct;
  }

  lemma PutIncluded<K, V>(c: Cache<K, V>, d: Cache<K, V>, k: K, v: V)
    requires Consistent(c) && Consistent(d) && Included(c, d)
    ensures Included(AfterPut(c, k, v), AfterPut(d, k, v))
  {
    PutInside(c.order, d.order, k);
    AddedKeeps(c, k, v);
    AddedKeeps(d, k, v);
    TouchedKeeps(c.order, k);
    TouchedKeeps(d.order, k);
    if k in c.order {
      IncludedKeys(c, d, k);
    }
    hide Touched, Only, KeysOf, Distinct;
    DropSmaller(PutOrder(c.order, k), PutOrder(d.order, k));
    DropBoth(PutOrder(c.order, k), PutOrder(d.order, k));
  }

  /** Whatever is put, got or cleared, a cache of more capacity holds all that a smaller one holds. */
  lemma {:induction false} RunIncluded<K, V>(small: nat, large: nat, accesses: seq<Access<K, V>>)
    requires small <= large
    ensures Included(Run(small, accesses), Run(large, accesses))
  {
    if accesses != [] {
      var before := accesses[..|accesses| - 1];
      RunIncluded(small, large, before);
      RunConsistent(small, before);
      RunConsistent(large, before);
      AccessIncluded(Run(small, before), Run(large, before), accesses[|accesses| - 1]);
    }
  }

  /** The value last put under a key since the last clearing. */
  function LastPut<K(==), V>(accesses: seq<Access<K, V>>, k: K): Option<V> {
    if accesses == [] then None
    else
      match accesses[|accesses| - 1]
      case Put(key, v) => if key == k then Some(v) else LastPut(accesses[..|accesses| - 1], k)
      case Get(_) => LastPut(accesses[..|accesses| - 1], k)
      case Clear => None
  }

  /** What is cached under a key is what was last put there. */
  lemma {:induction false} CachedIsLastPut<K, V>(capacity: nat, accesses: seq<Access<K, V>>, k: K)
    ensures k in Run(capacity, accesses).entries ==> LastPut(accesses, k) == Some(Run(capacity, accesses).entries[k])
  {
    if accesses != [] {
      var before := accesses[..|accesses| - 1];
      CachedIsLastPut(capacity, before, k);
      RunConsistent(capacity, before);
      var a := accesses[|accesses| - 1];
      if a.Put? {
        PutConsistent(Run(capacity, before), a.key, a.value);
      }
    }
  }

  /** More capacity never loses a hit, and a hit is the same value. */
  lemma MoreCapacityKeepsHits<K, V>(small: nat, large: nat, accesses: seq<Access<K, V>>, k: K)
    requires small <= large && k in Run(small, accesses).entries
    ensures k in Run(large, accesses).entries && Run(large, accesses).entries[k] == Run(small, accesses).entries[k]
  {
    RunIncluded(small, large, accesses);
    RunConsistent(small, accesses);
    RunConsistent(large, accesses);
    KeysIn(Run(small, accesses).order);
    KeysIn(Run(large, accesses).order);
    IncludedKeys(Run(small, accesses), Run(large, accesses), k);
    CachedIsLastPut(small, accesses, k);
    CachedIsLastPut(large, accesses, k);
  }

  // ── Get, then put on a miss ────────────────────────────────────────────────

  /** How the app reads through the cache: a get, and on a miss a put of what was fetched. */
  function Fetched<K(==), V>(c: Cache<K, V>, k: K, v: V): Cache<K, V> {
    if k in c.order then AfterGet(c, k) else AfterPut(AfterGet(c, k), k, v)
  }

  function FetchRun<K(==), V>(capacity: nat, fetches: seq<(K, V)>): Cache<K, V> {
    if fetches == [] then Empty(capacity)
    else
      var (k, v) := fetches[|fetches| - 1];
      Fetched(FetchRun(capacity, fetches[..|fetches| - 1]), k, v)
  }

  function FetchKeys<K, V>(fetches: seq<(K, V)>): seq<K> {
    seq(|fetches|, i requires 0 <= i < |fetches| => fetches[i].0)
  }

  lemma {:induction false} FetchOrder<K, V>(capacity: nat, fetches: seq<(K, V)>)
    ensures var c := FetchRun(capacity, fetches);
      Consistent(c) && c.capacity == Empty<K, V>(capacity).capacity
        && c.order == Last(Recency(FetchKeys(fetches)), c.capacity)
  {
    if fetches == [] {
      assert KeysOf<K>([]) == {};
      assert FetchKeys(fetches) == [] && Recency<K>([]) == [];
    } else {
      var n := |fetches| - 1;
      FetchOrder(capacity, fetches[..n]);
      var c := FetchRun(capacity, fetches[..n]);
      var (k, v) := fetches[n];
      assert FetchKeys(fetches) == FetchKeys(fetches[..n]) + [k];
      var a := if k in c.order then Get(k) else Put(k, v);
      AfterConsistent(c, a);
      NextOrder(c, FetchKeys(fetches[..n]), a);
      assert Fetched(c, k, v) == After(c, a);
    }
  }

  /** Read through, the smaller cache's order is always a suffix of the larger's. */
  lemma SmallerIsSuffix<K, V>(small: nat, large: nat, fetches: seq<(K, V)>)
    requires small <= large
    ensures var c := FetchRun(small, fetches);
      c.order == Last(FetchRun(large, fetches).order, c.capacity)
  {
    FetchOrder(small, fetches);
    FetchOrder(large, fetches);
    hide Recency, FetchRun, FetchKeys, Consistent, Last;
    LastLast(Recency(FetchKeys(fetches)), FetchRun(small, fetches).capacity, FetchRun(large, fetches).capacity);
  }

  lemma LastLast<T>(xs: seq<T>, m: nat, n: nat)
    requires m <= n
    ensures Last(Last(xs, n), m) == Last(xs, m)
  {
  }
}
