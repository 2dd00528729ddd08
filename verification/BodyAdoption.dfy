/**
 Adoption of worker-minted body ids: one step's check, and the stream wrapper that turns a prepared
 plan into a failure once a step has broken the rule. The rule is stated apart from the order in
 which a step reports its bodies.
 */
module BodyAdoption {
  import opened Wrappers

  type Uuid = nat

  datatype LifecycleEvent = Created(body: Uuid) | OtherLifecycle(body: Uuid)

  /** The interned split children: which op, and which ordinal, a derived id stands for. */
  type Splits = map<Uuid, (Uuid, nat)>

  datatype Violation =
    | Collides(body: Uuid)
    | UnknownSplitOp(op: Uuid, k: nat)
    | UnknownBody(body: Uuid)
    | NotContiguous(op: Uuid, ks: seq<nat>)

  // ── The rule, whatever the order of events ─────────────────────────────────

  function CreatedBodies(events: seq<LifecycleEvent>): seq<Uuid> {
    if events == [] then []
    else
      var rest, ev := CreatedBodies(events[..|events| - 1]), events[|events| - 1];
      if ev.Created? then rest + [ev.body] else rest
  }

  /** The created ids are those of the `Created` events, in their order. */
  ghost predicate CreatedAt(events: seq<LifecycleEvent>, created: seq<Uuid>, at: seq<nat>) {
    && |at| == |created|
    && (forall i, j :: 0 <= i < j < |at| ==> at[i] < at[j])
    && (forall i :: 0 <= i < |at| ==> at[i] < |events| && events[at[i]] == Created(created[i]))
    && (forall k, b :: 0 <= k < |events| && events[k] == Created(b) ==> k in at)
  }

  lemma {:induction false} CreatedExactly(events: seq<LifecycleEvent>) returns (at: seq<nat>)
    ensures CreatedAt(events, CreatedBodies(events), at)
  {
    if events == [] {
      at := [];
    } else {
      var n := |events| - 1;
      at := CreatedExactly(events[..n]);
      assert events == events[..n] + [events[n]];
      CreatedMore(events[..n], CreatedBodies(events[..n]), at, events[n]);
      if events[n].Created? {
        at := at + [n];
      }
    }
  }

  lemma CreatedMore(events: seq<LifecycleEvent>, created: seq<Uuid>, at: seq<nat>, e: LifecycleEvent)
    requires CreatedAt(events, created, at)
    ensures e.Created? ==> CreatedAt(events + [e], created + [e.body], at + [|events|])
    ensures e.OtherLifecycle? ==> CreatedAt(events + [e], created, at)
  {
    var more := at + [|events|];
    assert forall k :: 0 <= k < |events| ==> (events + [e])[k] == events[k];
    assert more[|at|] == |events|;
    assert forall k :: k in at ==> k in more;
  }

  function Bodies(created: seq<Uuid>): set<Uuid> {
    set i | 0 <= i < |created| :: created[i]
  }

  predicate Distinct<T(==)>(xs: seq<T>) {
    forall i, j :: 0 <= i < j < |xs| ==> xs[i] != xs[j]
  }

  /** The op an id says made it. */
  function OpOf(splits: Splits, body: Uuid): Uuid {
    if body in splits then splits[body].0 else body
  }

  function Children(bodies: set<Uuid>, splits: Splits, op: Uuid): set<Uuid> {
    set b | b in bodies && b in splits && splits[b].0 == op
  }

  /** The ordinals of an op's split children are exactly those below their number. */
  ghost predicate Contiguous(bodies: set<Uuid>, splits: Splits, op: Uuid) {
    var children := Children(bodies, splits, op);
    forall k: nat :: Numbered(children, splits, k) <==> k < |children|
  }

  ghost predicate Numbered(children: set<Uuid>, splits: Splits, k: nat) {
    exists b :: b in children && b in splits && splits[b].1 == k
  }

  /** A step's created ids are new, distinct, of known ops, and each op's split children are numbered from zero. */
  ghost predicate Accepted(created: seq<Uuid>, known: set<Uuid>, existing: set<Uuid>, seen: set<Uuid>, splits: Splits) {
    && NewAndKnown(created, known, existing, seen, splits)
    && (forall op :: Contiguous(Bodies(created), splits, op))
  }

  ghost predicate NewAndKnown(
    created: seq<Uuid>, known: set<Uuid>, existing: set<Uuid>, seen: set<Uuid>, splits: Splits) {
    && Distinct(created)
    && (forall b :: b in created ==> b !in existing && b !in seen && OpOf(splits, b) in known)
  }

  /** The rule does not depend on the order of the events. */
  lemma AcceptedUnordered(
    xs: seq<Uuid>, ys: seq<Uuid>, known: set<Uuid>, existing: set<Uuid>, seen: set<Uuid>, splits: Splits)
    requires multiset(xs) == multiset(ys)
    ensures Accepted(xs, known, existing, seen, splits) <==> Accepted(ys, known, existing, seen, splits)
  {
    SameElements(xs, ys);
    BodiesAre(xs);
    BodiesAre(ys);
    assert Bodies(xs) == Bodies(ys);
    DistinctIsCounted(xs);
    DistinctIsCounted(ys);
  }

  lemma BodiesAre(xs: seq<Uuid>)
    ensures forall b :: b in Bodies(xs) <==> b in xs
  {
  }

  lemma SameElements(xs: seq<Uuid>, ys: seq<Uuid>)
    requires multiset(xs) == multiset(ys)
    ensures forall b :: b in xs <==> b in ys
  {
    forall b
      ensures b in xs <==> b in ys
    {
      assert b in xs <==> b in multiset(xs);
    }
  }

  lemma {:induction false} DistinctIsCounted(xs: seq<Uuid>)
    ensures Distinct(xs) <==> forall b :: multiset(xs)[b] <= 1
  {
    if xs != [] {
      var n := |xs| - 1;
      DistinctIsCounted(xs[..n]);
      assert xs == xs[..n] + [xs[n]];
      assert xs[n] in xs[..n] <==> multiset(xs[..n])[xs[n]] > 0;
      assert Distinct(xs) <==> Distinct(xs[..n]) && xs[n] !in xs[..n];
      assert multiset(xs) == multiset(xs[..n])[xs[n] := multiset(xs[..n])[xs[n]] + 1];
      if xs[n] !in xs[..n] && forall b :: multiset(xs[..n])[b] <= 1 {
        assert forall b :: multiset(xs)[b] <= 1;
      }
      if forall b :: multiset(xs)[b] <= 1 {
        assert forall b :: multiset(xs[..n])[b] <= multiset(xs)[b];
        assert multiset(xs)[xs[n]] <= 1;
      }
    }
  }

  // ── Ordinals in order of arrival, and sorted ───────────────────────────────

  function Ordinals(created: seq<Uuid>, splits: Splits, op: Uuid): seq<nat> {
    if created == [] then []
    else
      var rest, b := Ordinals(created[..|created| - 1], splits, op), created[|created| - 1];
      if b in splits && splits[b].0 == op then rest + [splits[b].1] else rest
  }

  function Inserted(xs: seq<nat>, x: nat): seq<nat> {
    if xs == [] || xs[|xs| - 1] <= x then xs + [x]
    else Inserted(xs[..|xs| - 1], x) + [xs[|xs| - 1]]
  }

  function Sorted(xs: seq<nat>): seq<nat> {
    if xs == [] then [] else Inserted(Sorted(xs[..|xs| - 1]), xs[|xs| - 1])
  }

  ghost predicate Ascending(xs: seq<nat>) {
    forall i, j :: 0 <= i < j < |xs| ==> xs[i] <= xs[j]
  }

  lemma {:induction false} InsertedBelow(xs: seq<nat>, x: nat, bound: nat)
    requires x <= bound && forall i :: 0 <= i < |xs| ==> xs[i] <= bound
    ensures forall i :: 0 <= i < |Inserted(xs, x)| ==> Inserted(xs, x)[i] <= bound
  {
    if !(xs == [] || xs[|xs| - 1] <= x) {
      InsertedBelow(xs[..|xs| - 1], x, bound);
    }
  }

  lemma {:induction false} InsertedAscends(xs: seq<nat>, x: nat)
    requires Ascending(xs)
    ensures Ascending(Inserted(xs, x)) && |Inserted(xs, x)| == |xs| + 1
  {
    if !(xs == [] || xs[|xs| - 1] <= x) {
      var n := |xs| - 1;
      InsertedAscends(xs[..n], x);
      InsertedBelow(xs[..n], x, xs[n]);
    }
  }

  lemma {:induction false} InsertedIn(xs: seq<nat>, x: nat, y: nat)
    ensures y in Inserted(xs, x) <==> y in xs || y == x
  {
    if !(xs == [] || xs[|xs| - 1] <= x) {
      var n := |xs| - 1;
      InsertedIn(xs[..n], x, y);
      assert xs == xs[..n] + [xs[n]];
    }
  }

  lemma {:induction false} SortedIn(xs: seq<nat>)
    ensures Ascending(Sorted(xs)) && |Sorted(xs)| == |xs|
    ensures forall y :: y in Sorted(xs) <==> y in xs
  {
    if xs != [] {
      var n := |xs| - 1;
      SortedIn(xs[..n]);
      InsertedAscends(Sorted(xs[..n]), xs[n]);
      assert xs == xs[..n] + [xs[n]];
      forall y: nat
        ensures y in Sorted(xs) <==> y in xs
      {
        InsertedIn(Sorted(xs[..n]), xs[n], y);
      }
    }
  }

  predicate Counting(xs: seq<nat>) {
    forall i :: 0 <= i < |xs| ==> xs[i] == i
  }

  /** An ascending list that holds every number below its length counts up from zero. */
  lemma {:induction false} AllBelowCounts(xs: seq<nat>)
    requires Ascending(xs) && forall k: nat :: k < |xs| ==> k in xs
    ensures Counting(xs)
  {
    if xs != [] {
      var n := |xs| - 1;
      assert n in xs;
      forall k: nat | k < n
        ensures k in xs[..n]
      {
        assert k in xs;
        var j :| 0 <= j < |xs| && xs[j] == k;
        assert j != n;
        assert xs[..n][j] == k;
      }
      AllBelowCounts(xs[..n]);
      assert forall i :: 0 <= i < n ==> xs[i] == xs[..n][i];
    }
  }

  lemma SortedCounts(xs: seq<nat>)
    ensures Counting(Sorted(xs)) <==> forall k: nat :: k in xs <==> k < |xs|
  {
    SortedIn(xs);
    if forall k: nat :: k in xs <==> k < |xs| {
      AllBelowCounts(Sorted(xs));
    }
    if Counting(Sorted(xs)) {
      forall k: nat
        ensures k in xs <==> k < |xs|
      {
        assert k < |xs| ==> Sorted(xs)[k] == k;
      }
    }
  }

  lemma {:induction false} OrdinalsAre(created: seq<Uuid>, splits: Splits, op: Uuid)
    requires Distinct(created)
    ensures |Ordinals(created, splits, op)| == |Children(Bodies(created), splits, op)|
    ensures forall k: nat :: k in Ordinals(created, splits, op) <==>
      Numbered(Children(Bodies(created), splits, op), splits, k)
  {
    if created == [] {
      assert Children(Bodies(created), splits, op) == {};
    } else {
      var n := |created| - 1;
      var b := created[n];
      OrdinalsAre(created[..n], splits, op);
      var before := Children(Bodies(created[..n]), splits, op);
      assert Bodies(created) == Bodies(created[..n]) + {b};
      assert b !in Bodies(created[..n]);
      if b in splits && splits[b].0 == op {
        assert Children(Bodies(created), splits, op) == before + {b};
      } else {
        assert Children(Bodies(created), splits, op) == before;
      }
    }
  }

  /** The sorted ordinals count up from zero exactly when they are contiguous. */
  lemma ContiguousIsCounting(created: seq<Uuid>, splits: Splits, op: Uuid)
    requires Distinct(created)
    ensures Contiguous(Bodies(created), splits, op) <==> Counting(Sorted(Ordinals(created, splits, op)))
  {
    OrdinalsAre(created, splits, op);
    SortedCounts(Ordinals(created, splits, op));
  }

  /** The violation names something the step really did. */
  ghost predicate Breaks(
    v: Violation, created: seq<Uuid>, known: set<Uuid>, existing: set<Uuid>, seen: set<Uuid>, splits: Splits) {
    match v
    case Collides(body) => Repeats(body, created, existing, seen)
    case UnknownSplitOp(op, k) => op !in known && exists b :: b in created && b in splits && splits[b] == (op, k)
    case UnknownBody(body) => body in created && body !in splits && body !in known
    case NotContiguous(op, ks) => ks == Sorted(Ordinals(created, splits, op)) && !Counting(ks)
  }

  /** The id was there before the step, or the step creates it twice. */
  ghost predicate Repeats(body: Uuid, created: seq<Uuid>, existing: set<Uuid>, seen: set<Uuid>) {
    && body in created
    && (body in existing || body in seen || exists i, j :: 0 <= i < j < |created| && created[i] == created[j] == body)
  }

  lemma RepeatsOne(created: seq<Uuid>, body: Uuid, all: seq<Uuid>, existing: set<Uuid>, seen: set<Uuid>)
    requires created + [body] <= all && (body in existing || body in seen + Bodies(created))
    ensures Repeats(body, all, existing, seen)
  {
    assert all[|created|] == body;
    if body !in existing && body !in seen {
      var i :| 0 <= i < |created| && created[i] == body;
      assert all[i] == body;
    }
  }

  // ── One step ───────────────────────────────────────────────────────────────

  /** Checks one step's events, adding the ids it creates to `seen`. */
  method ValidateCreated(
    events: seq<LifecycleEvent>, known: set<Uuid>, existing: set<Uuid>, seen: set<Uuid>, splits: Splits)
    returns (error: Option<Violation>, seen': set<Uuid>)
    ensures error.None? <==> Accepted(CreatedBodies(events), known, existing, seen, splits)
    ensures error.None? ==> seen' == seen + Bodies(CreatedBodies(events))
    ensures error.Some? ==> Breaks(error.value, CreatedBodies(events), known, existing, seen, splits)
  {
    seen' := seen;
    var splitKs: map<Uuid, seq<nat>> := map[];
    ghost var all := CreatedBodies(events);
    NoneYet(known, existing, seen, splits);
    hide NewAndKnown, Accepted, Bodies, Ordinals, Contiguous;
    for i := 0 to |events|
      invariant var created := CreatedBodies(events[..i]);
        && NewAndKnown(created, known, existing, seen, splits) && seen' == seen + Bodies(created)
        && (forall op :: Ordinals(created, splits, op) == if op in splitKs then splitKs[op] else [])
    {
      assert events[..i + 1][..i] == events[..i];
      CreatedPrefix(events, i + 1);
      match events[i] {
        case OtherLifecycle(_) =>
        case Created(body) =>
          ghost var created := CreatedBodies(events[..i]);
          OneMore(created, body, all, known, existing, seen, splits);
          assert all[|created|] == body;
          if body in existing || body in seen' {
            RepeatsOne(created, body, all, existing, seen);
            return Some(Collides(body)), seen';
          }
          seen' := seen' + {body};
          if body in splits {
            var (op, k) := splits[body];
            if op !in known {
              return Some(UnknownSplitOp(op, k)), seen';
            }
            splitKs := splitKs[op := (if op in splitKs then splitKs[op] else []) + [k]];
          } else if body !in known {
            return Some(UnknownBody(body)), seen';
          }
      }
    }
    assert events[..|events|] == events;
    Decide(all, known, existing, seen, splits, splitKs);
    error := FindGap(splitKs);
  }

  lemma NoneYet(known: set<Uuid>, existing: set<Uuid>, seen: set<Uuid>, splits: Splits)
    ensures NewAndKnown([], known, existing, seen, splits) && Bodies([]) == {}
      && forall op :: Ordinals([], splits, op) == []
  {
  }

  /** What the next created id adds, and that it cannot be refused without refusing the step. */
  lemma OneMore(
    created: seq<Uuid>, body: Uuid, all: seq<Uuid>, known: set<Uuid>, existing: set<Uuid>, seen: set<Uuid>,
    splits: Splits)
    requires created + [body] <= all && NewAndKnown(created, known, existing, seen, splits)
    ensures Bodies(created + [body]) == Bodies(created) + {body}
    ensures forall op ::
              Ordinals(created + [body], splits, op)
              == Ordinals(created, splits, op) + if body in splits && splits[body].0 == op then [splits[body].1] else []
    ensures body !in existing && body !in seen + Bodies(created) && OpOf(splits, body) in known ==>
              NewAndKnown(created + [body], known, existing, seen, splits)
    ensures body in existing || body in seen + Bodies(created) || OpOf(splits, body) !in known ==>
              !Accepted(all, known, existing, seen, splits)
  {
    assert all[|created|] == body;
    assert (created + [body])[..|created|] == created;
    BodiesConcat(created, [body]);
    assert Bodies([body]) == {body} by {
      assert [body][0] == body;
    }
    if body in Bodies(created) {
      var i :| 0 <= i < |created| && created[i] == body;
      assert all[i] == body;
    }
    BodiesAre(created);
  }

  lemma Decide(
    all: seq<Uuid>, known: set<Uuid>, existing: set<Uuid>, seen: set<Uuid>, splits: Splits,
    splitKs: map<Uuid, seq<nat>>)
    requires NewAndKnown(all, known, existing, seen, splits)
    requires forall op :: Ordinals(all, splits, op) == if op in splitKs then splitKs[op] else []
    ensures Accepted(all, known, existing, seen, splits) <==>
      forall op :: op in splitKs ==> Counting(Sorted(splitKs[op]))
  {
    hide Ordinals, Contiguous, Bodies;
    forall op
      ensures Contiguous(Bodies(all), splits, op) <==> op in splitKs ==> Counting(Sorted(splitKs[op]))
    {
      ContiguousIsCounting(all, splits, op);
    }
  }

  /** Some op whose sorted ordinals do not count up from zero, the ops being visited in no set order. */
  method FindGap(splitKs: map<Uuid, seq<nat>>) returns (error: Option<Violation>)
    ensures error.None? <==> forall op :: op in splitKs ==> Counting(Sorted(splitKs[op]))
    ensures error.Some? ==>
      && error.value.NotContiguous? && error.value.op in splitKs
      && error.value.ks == Sorted(splitKs[error.value.op]) && !Counting(error.value.ks)
  {
    var rest := splitKs.Keys;
    while rest != {}
      invariant rest <= splitKs.Keys
      invariant forall op :: op in splitKs && op !in rest ==> Counting(Sorted(splitKs[op]))
      decreases rest
    {
      var op :| op in rest;
      var ks := Sorted(splitKs[op]);
      if exists i :: 0 <= i < |ks| && ks[i] != i {
        return Some(NotContiguous(op, ks));
      }
      rest := rest - {op};
    }
    error := None;
  }

  lemma {:induction false} CreatedPrefix(events: seq<LifecycleEvent>, i: nat)
    requires i <= |events|
    ensures CreatedBodies(events[..i]) <= CreatedBodies(events)
    decreases |events| - i
  {
    if i == |events| {
      assert events[..i] == events;
    } else {
      assert events[..i + 1][..i] == events[..i];
      CreatedPrefix(events, i + 1);
    }
  }

  // ── The stream ─────────────────────────────────────────────────────────────

  datatype EngineError = Protocol(violation: Violation) | OtherError(tag: nat)

  datatype PlanEvent =
    | Step(bodyEvents: seq<LifecycleEvent>, tag: nat)
    | Prepared(tag: nat)
    | Failed(error: EngineError)
    | OtherEvent(tag: nat)

  /** Every id created by the steps among the events, in order. */
  function CreatedBy(input: seq<PlanEvent>): seq<Uuid> {
    if input == [] then []
    else
      var rest, ev := CreatedBy(input[..|input| - 1]), input[|input| - 1];
      if ev.Step? then rest + CreatedBodies(ev.bodyEvents) else rest
  }

  /** Step `i` keeps the rule, given what the steps before it created. */
  ghost predicate StepKeeps(input: seq<PlanEvent>, i: nat, known: set<Uuid>, existing: set<Uuid>, splits: Splits)
    requires i < |input|
  {
    input[i].Step? ==> Accepted(CreatedBodies(input[i].bodyEvents), known, existing, Bodies(CreatedBy(input[..i])),
      splits)
  }

  ghost predicate Clean(input: seq<PlanEvent>, n: nat, known: set<Uuid>, existing: set<Uuid>, splits: Splits)
    requires n <= |input|
  {
    forall i :: 0 <= i < n ==> StepKeeps(input, i, known, existing, splits)
  }

  /** Step `q` is the first to break the rule, and `v` is a violation it commits. */
  ghost predicate BrokeAt(
    input: seq<PlanEvent>, q: nat, v: Violation, known: set<Uuid>, existing: set<Uuid>, splits: Splits)
    requires q < |input|
  {
    && Clean(input, q, known, existing, splits) && !StepKeeps(input, q, known, existing, splits)
    && input[q].Step?
    && Breaks(v, CreatedBodies(input[q].bodyEvents), known, existing, Bodies(CreatedBy(input[..q])), splits)
  }

  /** Event `p` prepares a plan that has broken the rule. */
  ghost predicate Rejected(input: seq<PlanEvent>, p: nat, known: set<Uuid>, existing: set<Uuid>, splits: Splits)
    requires p < |input|
  {
    input[p].Prepared? && !Clean(input, p, known, existing, splits)
  }

  /**
   Forwards the events, at most `room` of them before the receiver hangs up. The first prepared plan
   after a broken step is replaced by a failure, and nothing follows it.
   */
  method Adopt(input: seq<PlanEvent>, known: set<Uuid>, existing: set<Uuid>, splits: Splits, room: nat)
    returns (output: seq<PlanEvent>)
    ensures |output| <= room
    ensures (forall p :: 0 <= p < |input| ==> !Rejected(input, p, known, existing, splits)) ==>
              output == if |input| <= room then input else input[..room]
    ensures forall p :: 0 <= p < |input| && Rejected(input, p, known, existing, splits)
                        && (forall q :: 0 <= q < p ==> !Rejected(input, q, known, existing, splits)) ==>
              if room <= p then output == input[..room]
              else
                && |output| == p + 1 && output[..p] == input[..p] && output[p].Failed? && output[p].error.Protocol?
                && exists q :: 0 <= q < p && BrokeAt(input, q, output[p].error.violation, known, existing, splits)
  {
    output := [];
    var seen: set<Uuid> := {};
    var violation: Option<Violation> := None;
    assert Bodies(CreatedBy(input[..0])) == {};
    for i := 0 to |input|
      invariant output == input[..i] && i <= room
      invariant violation.None? <==> Clean(input, i, known, existing, splits)
      invariant violation.Some? ==>
        exists q :: 0 <= q < i && BrokeAt(input, q, violation.value, known, existing, splits)
      invariant violation.None? ==> seen == Bodies(CreatedBy(input[..i]))
      invariant forall q :: 0 <= q < i ==> !Rejected(input, q, known, existing, splits)
    {
      var ev := input[i];
      assert input[..i + 1][..i] == input[..i];
      if violation.None? {
        if ev.Step? {
          violation, seen := ValidateCreated(ev.bodyEvents, known, existing, seen, splits);
          assert violation.Some? ==> BrokeAt(input, i, violation.value, known, existing, splits);
          BodiesConcat(CreatedBy(input[..i]), CreatedBodies(ev.bodyEvents));
        }
      }
      CleanStep(input, i, known, existing, splits);
      hide Clean, BrokeAt, StepKeeps;
      if ev.Prepared? && violation.Some? {
        assert Rejected(input, i, known, existing, splits);
        if i < room {
          output := output + [Failed(Protocol(violation.value))];
          assert output[..i] == input[..i] && output[i].error.violation == violation.value;
        }
        return;
      }
      if i == room {
        return;
      }
      output := output + [ev];
      assert output == input[..i + 1];
    }
    assert input[..|input|] == input;
  }

  lemma CleanStep(input: seq<PlanEvent>, i: nat, known: set<Uuid>, existing: set<Uuid>, splits: Splits)
    requires i < |input|
    ensures Clean(input, i + 1, known, existing, splits) <==>
      Clean(input, i, known, existing, splits) && StepKeeps(input, i, known, existing, splits)
  {
  }

  lemma BodiesConcat(xs: seq<Uuid>, ys: seq<Uuid>)
    ensures Bodies(xs + ys) == Bodies(xs) + Bodies(ys)
  {
    assert forall i :: 0 <= i < |ys| ==> (xs + ys)[|xs| + i] == ys[i];
    assert forall i :: 0 <= i < |xs| ==> (xs + ys)[i] == xs[i];
  }

  // ── A clean plan ───────────────────────────────────────────────────────────

  /** Each op's split children are numbered from zero within each of the first `n` steps. */
  ghost predicate StepsContiguous(input: seq<PlanEvent>, n: nat, splits: Splits)
    requires n <= |input|
  {
    forall i :: 0 <= i < n && input[i].Step? ==>
      forall op :: Contiguous(Bodies(CreatedBodies(input[i].bodyEvents)), splits, op)
  }

  /**
   All of a plan's steps are accepted exactly when the ids created across the whole plan are pairwise
   distinct, new to the document and of known ops, and each step's split children are contiguous.
   */
  lemma {:induction false} CleanPlan(
    input: seq<PlanEvent>, n: nat, known: set<Uuid>, existing: set<Uuid>, splits: Splits)
    requires n <= |input|
    ensures Clean(input, n, known, existing, splits) <==>
      var created := CreatedBy(input[..n]);
      && Distinct(created)
      && (forall b :: b in created ==> b !in existing && OpOf(splits, b) in known)
      && StepsContiguous(input, n, splits)
  {
    if n == 0 {
      assert CreatedBy(input[..0]) == [];
    } else {
      var m := n - 1;
      CleanPlan(input, m, known, existing, splits);
      CleanStep(input, m, known, existing, splits);
      assert input[..n][..m] == input[..m];
      var before, step := CreatedBy(input[..m]), if input[m].Step? then CreatedBodies(input[m].bodyEvents) else [];
      assert CreatedBy(input[..n]) == before + step;
      DistinctSplits(before, step);
    }
  }

  lemma DistinctSplits(xs: seq<Uuid>, ys: seq<Uuid>)
    ensures Distinct(xs + ys) <==> Distinct(xs) && Distinct(ys) && forall b :: b in ys ==> b !in Bodies(xs)
  {
    var zs := xs + ys;
    if Distinct(zs) {
      assert forall i :: 0 <= i < |xs| ==> zs[i] == xs[i];
      assert forall i :: 0 <= i < |ys| ==> zs[|xs| + i] == ys[i];
      forall i, j | 0 <= i < |xs| && 0 <= j < |ys|
        ensures xs[i] != ys[j]
      {
        assert zs[i] != zs[|xs| + j];
      }
    } else {
      var i, j :| 0 <= i < j < |zs| && zs[i] == zs[j];
      assert i < |xs| <= j ==> xs[i] in Bodies(xs) && ys[j - |xs|] in ys;
    }
  }
}
