/** The poison circuit: crashes counted per op, and plans refused once one of their ops crashed too often. */
module Poison {
  import opened Wrappers

  type Key = string

  // ── Keys ───────────────────────────────────────────────────────────────────

  datatype PlanRequest = PlanRequest(baseHash: string, ops: seq<string>)

  function OpKey(base: string, op: string, fingerprint: string): Key {
    base + "|" + op + "|" + fingerprint
  }

  /** One key for each op of the plan, in execution order. */
  function PlanOpKeys(req: PlanRequest, fingerprint: string): (keys: seq<Key>)
    ensures |keys| == |req.ops|
    ensures forall i :: 0 <= i < |keys| ==> keys[i] == req.baseHash + "|" + req.ops[i] + "|" + fingerprint
  {
    seq(|req.ops|, i requires 0 <= i < |req.ops| => OpKey(req.baseHash, req.ops[i], fingerprint))
  }

  /** Ops of one plan share a key only if they are the same op. */
  lemma KeysTellOpsApart(req: PlanRequest, fingerprint: string, i: nat, j: nat)
    requires i < |req.ops| && j < |req.ops|
    requires PlanOpKeys(req, fingerprint)[i] == PlanOpKeys(req, fingerprint)[j]
    ensures req.ops[i] == req.ops[j]
  {
    var b, f := req.baseHash + "|", "|" + fingerprint;
    var x, y := b + req.ops[i] + f, b + req.ops[j] + f;
    assert x == OpKey(req.baseHash, req.ops[i], fingerprint) && y == OpKey(req.baseHash, req.ops[j], fingerprint);
    assert |req.ops[i]| == |req.ops[j]|;
    assert x[|b|..|b| + |req.ops[i]|] == req.ops[i] && y[|b|..|b| + |req.ops[j]|] == req.ops[j];
  }

  // ── The circuit ────────────────────────────────────────────────────────────

  datatype Circuit = Circuit(counts: map<Key, nat>, open: set<Key>)

  /** A crash opens the circuit at the threshold, and never before the first crash. */
  function Limit(threshold: nat): nat {
    if threshold == 0 then 1 else threshold
  }

  function CountOf(c: Circuit, key: Key): nat {
    if key in c.counts then c.counts[key] else 0
  }

  function Crashed(threshold: nat, c: Circuit, key: Key): Circuit {
    if key in c.open then c
    else
      var n := CountOf(c, key) + 1;
      Circuit(c.counts[key := n], if n >= threshold then c.open + {key} else c.open)
  }

  function KeySet(keys: seq<Key>): set<Key> {
    set i | 0 <= i < |keys| :: keys[i]
  }

  function Healed(c: Circuit, keys: seq<Key>): Circuit {
    Circuit(c.counts - KeySet(keys), c.open - KeySet(keys))
  }

  predicate CircuitOpen(c: Circuit, keys: seq<Key>) {
    exists i :: 0 <= i < |keys| && keys[i] in c.open
  }

  /** How a plan's stream ends. */
  datatype Terminal = Prepared | WorkerError | LocalError | ConnectionLost(stepsReceived: nat)

  /** The op a lost connection is charged to: the one after the steps received, or the last. */
  function Blamed(keys: seq<Key>, stepsReceived: nat): Option<Key> {
    if keys == [] then None else Some(keys[if stepsReceived < |keys| then stepsReceived else |keys| - 1])
  }

  function Finished(threshold: nat, c: Circuit, keys: seq<Key>, t: Terminal): Circuit {
    match t
    case Prepared => Healed(c, keys)
    case ConnectionLost(steps) =>
      (match Blamed(keys, steps)
       case Some(key) => Crashed(threshold, c, key)
       case None => c)
    case _ => c
  }

  // ── What each terminal does to the circuit ─────────────────────────────────

  /** One crash more for a key that is not open; at the threshold it opens. An open key keeps its count. */
  ghost predicate Charges(threshold: nat, c: Circuit, c': Circuit, key: Key) {
    if key in c.open then c' == c
    else
      && key in c'.counts && c'.counts[key] == (if key in c.counts then c.counts[key] else 0) + 1
      && (forall k :: k != key ==> (k in c'.counts <==> k in c.counts))
      && (forall k :: k in c.counts && k != key ==> c'.counts[k] == c.counts[k])
      && (forall k :: k in c'.open <==> k in c.open || (k == key && c'.counts[key] >= threshold))
  }

  /** The keys of the plan lose their counts and their open flags, and no others do. */
  ghost predicate Heals(c: Circuit, c': Circuit, keys: seq<Key>) {
    && (forall k :: k in c'.counts <==> k in c.counts && k !in keys)
    && (forall k :: k in c'.counts ==> c'.counts[k] == c.counts[k])
    && (forall k :: k in c'.open <==> k in c.open && k !in keys)
  }

  /** A prepared plan heals; a lost connection charges the op after the steps received, or the last one. */
  ghost predicate Settles(threshold: nat, c: Circuit, c': Circuit, keys: seq<Key>, t: Terminal) {
    match t
    case Prepared => Heals(c, c', keys)
    case ConnectionLost(steps) =>
      if keys == [] then c' == c
      else if steps < |keys| then Charges(threshold, c, c', keys[steps])
      else Charges(threshold, c, c', keys[|keys| - 1])
    case WorkerError => c' == c
    case LocalError => c' == c
  }

  lemma HealsExactly(c: Circuit, keys: seq<Key>)
    ensures Heals(c, Healed(c, keys), keys)
  {
    assert forall k :: k in KeySet(keys) <==> k in keys;
  }

  lemma SettlesExactly(threshold: nat, c: Circuit, keys: seq<Key>, t: Terminal)
    ensures Settles(threshold, c, Finished(threshold, c, keys, t), keys, t)
  {
    HealsExactly(c, keys);
  }

  class PoisonCircuit {
    var counts: map<Key, nat>
    var open: set<Key>
    const threshold: nat

    ghost function View(): Circuit
      reads this
    {
      Circuit(counts, open)
    }

    constructor (threshold: nat)
      ensures View() == Circuit(map[], {}) && this.threshold == threshold
    {
      counts, open, this.threshold := map[], {}, threshold;
    }

    /** Whether this crash tripped the circuit. */
    method RecordCrash(key: Key) returns (tripped: bool)
      modifies this
      ensures View() == Crashed(threshold, old(View()), key)
      ensures Charges(threshold, old(View()), View(), key)
      ensures tripped <==> key in open && key !in old(open)
    {
      if key in open {
        return false;
      }
      if key !in counts {
        counts := counts[key := 0];
      }
      counts := counts[key := counts[key] + 1];
      if counts[key] >= threshold {
        open := open + {key};
        return true;
      }
      return false;
    }

    method RecordSuccess(keys: seq<Key>)
      modifies this
      ensures View() == Healed(old(View()), keys)
      ensures Heals(old(View()), View(), keys)
    {
      for i := 0 to |keys|
        invariant View() == Healed(old(View()), keys[..i])
      {
        assert KeySet(keys[..i + 1]) == KeySet(keys[..i]) + {keys[i]} by {
          assert forall j :: 0 <= j <= i ==> keys[..i + 1][j] == keys[j];
          assert forall j :: 0 <= j < i ==> keys[..i][j] == keys[j];
        }
        counts := counts - {keys[i]};
        open := open - {keys[i]};
      }
      assert keys[..|keys|] == keys;
      HealsExactly(old(View()), keys);
    }

    method PlanCircuitOpen(keys: seq<Key>) returns (r: bool)
      ensures r <==> CircuitOpen(View(), keys)
    {
      for i := 0 to |keys|
        invariant forall j :: 0 <= j < i ==> keys[j] !in open
      {
        if keys[i] in open {
          return true;
        }
      }
      return false;
    }

    /** Settles a plan that was sent; reports the key whose circuit just tripped. */
    method FinishPlan(keys: seq<Key>, t: Terminal) returns (tripped: Option<Key>)
      modifies this
      ensures View() == Finished(threshold, old(View()), keys, t)
      ensures Settles(threshold, old(View()), View(), keys, t)
      ensures tripped.Some? <==> open - old(open) != {}
      ensures tripped.Some? ==> open == old(open) + {tripped.value}
    {
      tripped := None;
      SettlesExactly(threshold, View(), keys, t);
      match t {
        case Prepared => RecordSuccess(keys);
        case ConnectionLost(steps) =>
          var key := Blamed(keys, steps);
          if key.Some? {
            var now := RecordCrash(key.value);
            if now {
              assert key.value in open - old(open);
              tripped := key;
            }
          }
        case _ =>
      }
    }
  }

  // ── Plans in flight ────────────────────────────────────────────────────────

  /** What was charged or healed, in order. */
  datatype Happening = Charged(key: Key) | Prospered(keys: seq<Key>)

  datatype System = System(circuit: Circuit, inFlight: map<nat, seq<Key>>, history: seq<Happening>)

  const QUIET := System(Circuit(map[], {}), map[], [])

  datatype Event = Start(id: nat, keys: seq<Key>, connected: bool) | Finish(id: nat, terminal: Terminal)

  predicate Enabled(s: System, e: Event) {
    match e
    case Start(id, _, _) => id !in s.inFlight
    case Finish(id, _) => id in s.inFlight
  }

  /** A plan is sent only past the circuit and to a connected worker. */
  predicate Sends(s: System, e: Event) {
    e.Start? && !CircuitOpen(s.circuit, e.keys) && e.connected
  }

  function Recorded(keys: seq<Key>, t: Terminal): seq<Happening> {
    match t
    case Prepared => [Prospered(keys)]
    case ConnectionLost(steps) => (match Blamed(keys, steps) case Some(key) => [Charged(key)] case None => [])
    case _ => []
  }

  function Next(threshold: nat, s: System, e: Event): System
    requires Enabled(s, e)
  {
    match e
    case Start(id, keys, _) => if Sends(s, e) then s.(inFlight := s.inFlight[id := keys]) else s
    case Finish(id, t) =>
      var keys := s.inFlight[id];
      System(Finished(threshold, s.circuit, keys, t), s.inFlight - {id}, s.history + Recorded(keys, t))
  }

  /** A plan is sent exactly if the worker is there and none of its keys is open; what it ends with settles it. */
  lemma NextExactly(threshold: nat, s: System, e: Event)
    requires Enabled(s, e)
    ensures e.Start? ==>
      Next(threshold, s, e) == s.(inFlight :=
        if e.connected && (forall k :: k in e.keys ==> k !in s.circuit.open) then s.inFlight[e.id := e.keys]
        else s.inFlight)
    ensures e.Finish? ==>
      var t, keys := Next(threshold, s, e), s.inFlight[e.id];
      && t.inFlight == s.inFlight - {e.id}
      && Settles(threshold, s.circuit, t.circuit, keys, e.terminal)
      && t.history == s.history + (
           match e.terminal
           case Prepared => [Prospered(keys)]
           case ConnectionLost(steps) =>
             if keys == [] then []
             else [Charged(if steps < |keys| then keys[steps] else keys[|keys| - 1])]
           case _ => [])
  {
    if e.Finish? {
      SettlesExactly(threshold, s.circuit, s.inFlight[e.id], e.terminal);
    }
  }

  ghost predicate Run(threshold: nat, events: seq<Event>, states: seq<System>) {
    && |states| == |events| + 1 && states[0] == QUIET
    && forall i :: 0 <= i < |events| ==>
      Enabled(states[i], events[i]) && states[i + 1] == Next(threshold, states[i], events[i])
  }

  /** Crashes charged to `key` since the last prepared plan that had it. */
  function CrashesSince(history: seq<Happening>, key: Key): nat {
    if history == [] then 0
    else
      var rest := CrashesSince(history[..|history| - 1], key);
      match history[|history| - 1]
      case Charged(k) => if k == key then rest + 1 else rest
      case Prospered(keys) => if key in keys then 0 else rest
  }

  function Min(a: nat, b: nat): nat {
    if a < b then a else b
  }

  ghost predicate Counted(threshold: nat, s: System) {
    && (forall k :: CountOf(s.circuit, k) == Min(CrashesSince(s.history, k), Limit(threshold)))
    && (forall k :: k in s.circuit.open <==> CountOf(s.circuit, k) == Limit(threshold))
  }

  lemma NextCounted(threshold: nat, s: System, e: Event)
    requires Enabled(s, e) && Counted(threshold, s)
    ensures Counted(threshold, Next(threshold, s, e))
  {
    if e.Finish? {
      var keys, h := s.inFlight[e.id], s.history;
      assert h + [] == h;
      match e.terminal {
        case Prepared =>
          assert (h + [Prospered(keys)])[..|h|] == h;
          assert forall k :: k in KeySet(keys) <==> k in keys;
        case ConnectionLost(steps) =>
          if keys != [] {
            var key := Blamed(keys, steps).value;
            assert (h + [Charged(key)])[..|h|] == h;
          }
        case _ =>
      }
    }
  }

  /**
   In every run, however plans overlap, a key's count is the crashes charged to it since a plan with it
   last prospered, up to the limit, and the key is open exactly at the limit.
   */
  lemma {:induction false} OpenAtTheLimit(threshold: nat, events: seq<Event>, states: seq<System>, i: nat)
    requires Run(threshold, events, states) && i < |states|
    ensures Counted(threshold, states[i])
  {
    if i > 0 {
      OpenAtTheLimit(threshold, events, states, i - 1);
      NextCounted(threshold, states[i - 1], events[i - 1]);
    }
  }

  /** An open key closes exactly when a plan that has it, sent before, is prepared. */
  lemma ClosesExactly(threshold: nat, s: System, e: Event, key: Key)
    requires Enabled(s, e) && key in s.circuit.open
    ensures key !in Next(threshold, s, e).circuit.open <==> e.Finish? && e.terminal.Prepared? && key in s.inFlight[e.id]
  {
  }

  // ── One plan at a time ─────────────────────────────────────────────────────

  ghost predicate OneAtATime(events: seq<Event>, states: seq<System>)
    requires |states| == |events| + 1
  {
    forall i :: 0 <= i < |events| && events[i].Start? ==> states[i].inFlight == map[]
  }

  /** Nothing that is open is in flight. */
  ghost predicate Apart(s: System) {
    && |s.inFlight| <= 1
    && forall id, key :: id in s.inFlight && key in s.inFlight[id] ==> key !in s.circuit.open
  }

  lemma NextApart(threshold: nat, s: System, e: Event)
    requires Enabled(s, e) && Apart(s) && (e.Start? ==> s.inFlight == map[])
    ensures Apart(Next(threshold, s, e)) && s.circuit.open <= Next(threshold, s, e).circuit.open
  {
    if e.Finish? {
      OnlyOne(s.inFlight, e.id);
      var keys := s.inFlight[e.id];
      assert forall k :: k in KeySet(keys) <==> k in keys;
    }
  }

  lemma OnlyOne<V>(m: map<nat, V>, id: nat)
    requires |m| <= 1 && id in m
    ensures m - {id} == map[]
  {
    assert m.Keys - {id} == {} by {
      assert |m.Keys - {id}| == |m.Keys| - 1;
    }
  }

  lemma {:induction false} RunApart(threshold: nat, events: seq<Event>, states: seq<System>, i: nat)
    requires Run(threshold, events, states) && OneAtATime(events, states) && i < |states|
    ensures Apart(states[i])
  {
    if i > 0 {
      RunApart(threshold, events, states, i - 1);
      NextApart(threshold, states[i - 1], events[i - 1]);
    }
  }

  /** When plans run one at a time, an open key stays open. */
  lemma {:induction false} OpenForever(threshold: nat, events: seq<Event>, states: seq<System>, i: nat, j: nat)
    requires Run(threshold, events, states) && OneAtATime(events, states) && i <= j < |states|
    ensures states[i].circuit.open <= states[j].circuit.open
    decreases j
  {
    if i < j {
      OpenForever(threshold, events, states, i, j - 1);
      RunApart(threshold, events, states, j - 1);
      NextApart(threshold, states[j - 1], events[j - 1]);
    }
  }

  /** ... and no plan that has it is sent again. */
  lemma NeverSentAgain(threshold: nat, events: seq<Event>, states: seq<System>, i: nat, j: nat, key: Key)
    requires Run(threshold, events, states) && OneAtATime(events, states) && i <= j < |events|
    requires key in states[i].circuit.open && events[j].Start? && key in events[j].keys
    ensures !Sends(states[j], events[j])
  {
    OpenForever(threshold, events, states, i, j);
    var k :| 0 <= k < |events[j].keys| && events[j].keys[k] == key;
    assert events[j].keys[k] in states[j].circuit.open;
  }

  /** ... and the count is exactly the crashes since a plan with the key last prospered. */
  lemma {:induction false} CountIsCrashes(threshold: nat, events: seq<Event>, states: seq<System>, i: nat, key: Key)
    requires Run(threshold, events, states) && OneAtATime(events, states) && i < |states|
    ensures CountOf(states[i].circuit, key) == CrashesSince(states[i].history, key) <= Limit(threshold)
  {
    hide Next, CrashesSince, Limit, CountOf;
    if i == 0 {
      NothingYet(threshold, key);
    } else {
      CountIsCrashes(threshold, events, states, i - 1, key);
      RunApart(threshold, events, states, i - 1);
      OpenAtTheLimit(threshold, events, states, i - 1);
      NextCharge(threshold, states[i - 1], events[i - 1], key);
      OpenAtTheLimit(threshold, events, states, i);
    }
  }

  lemma NothingYet(threshold: nat, key: Key)
    ensures CountOf(QUIET.circuit, key) == CrashesSince(QUIET.history, key) == 0 <= Limit(threshold)
  {
  }

  lemma NextCharge(threshold: nat, s: System, e: Event, key: Key)
    requires Enabled(s, e) && Apart(s) && Counted(threshold, s)
    requires CrashesSince(s.history, key) <= Limit(threshold)
    ensures CrashesSince(Next(threshold, s, e).history, key) <= Limit(threshold)
  {
    if e.Finish? {
      var keys, h := s.inFlight[e.id], s.history;
      assert h + [] == h;
      match e.terminal {
        case Prepared =>
          assert (h + [Prospered(keys)])[..|h|] == h;
        case ConnectionLost(steps) =>
          if keys != [] {
            var k := Blamed(keys, steps).value;
            assert (h + [Charged(k)])[..|h|] == h;
            assert k in keys;
          }
        case _ =>
      }
    }
  }

  /** Two plans at once are enough to close a circuit again: one crashes it open, the other is prepared. */
  lemma OverlapReopens(key: Key) returns (events: seq<Event>, states: seq<System>)
    ensures Run(1, events, states)
    ensures exists i, j :: 0 <= i < j < |events| && key in states[i].circuit.open
              && events[j].Start? && key in events[j].keys && Sends(states[j], events[j])
  {
    var first, second, third := Start(0, [key], true), Start(1, [key], true), Start(2, [key], true);
    var crash, prepared := Finish(0, ConnectionLost(0)), Finish(1, Prepared);
    events := [first, second, crash, prepared, third];
    var s1 := Next(1, QUIET, first);
    var s2 := Next(1, s1, second);
    var s3 := Next(1, s2, crash);
    var s4 := Next(1, s3, prepared);
    assert s2.inFlight == map[0 := [key], 1 := [key]];
    assert s3.circuit.open == {key};
    assert KeySet([key]) == {key} by {
      assert [key][0] == key;
    }
    assert s4.circuit.open == {};
    var s5 := Next(1, s4, third);
    states := [QUIET, s1, s2, s3, s4, s5];
    assert key in states[3].circuit.open && events[4].Start? && key in events[4].keys && Sends(states[4], events[4]);
  }
}
