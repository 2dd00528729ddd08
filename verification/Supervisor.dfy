/** The worker supervisor: one strike budget over failed starts and rapid deaths, and the deferred hook. */
module Supervisor {
  import opened Wrappers

  /** Delays between starts, and how many strikes in a row are forgiven. */
  datatype Config = Config(maxRapidDeaths: nat, backoff: seq<nat>)

  /** How one start ends: it fails, it dies within the healthy threshold or after it, or it is still up. */
  datatype Outcome = StartFails | DiesEarly | DiesLate | StaysUp

  datatype WorkerState = Starting | Ready | Restarting | Failed

  /** What the app sees, in order; a hook is recorded with the connection and epoch it met. */
  datatype Event =
    | Attempted
    | BecameReady(epoch: nat)
    | Hook(epoch: nat, connected: bool, current: nat)
    | Restarted(epoch: nat)
    | Slept(delay: nat)
    | GaveUp(strikes: nat)

  const DEFAULT_DELAY := 500

  datatype View = View(
    connected: bool, epoch: nat, state: WorkerState, log: seq<Event>, strikes: nat, pending: Option<nat>,
      panicked: bool)

  const INITIAL := View(false, 1, Starting, [], 0, None, false)

  predicate Strike(o: Outcome) {
    o.StartFails? || o.DiesEarly?
  }

  predicate Stopped(v: View) {
    v.state.Ready? || v.state.Failed? || v.panicked
  }

  function FirstDelay(c: Config): nat {
    if c.backoff == [] then DEFAULT_DELAY else c.backoff[0]
  }

  function Min(a: nat, b: nat): nat {
    if a < b then a else b
  }

  /** The delay after the `strikes`-th strike in a row. */
  function StrikeDelay(c: Config, strikes: nat): nat
    requires strikes > 0
  {
    if c.backoff == [] then DEFAULT_DELAY else c.backoff[Min(strikes - 1, |c.backoff| - 1)]
  }

  function Say(v: View, e: Event): View {
    v.(log := v.log + [e])
  }

  /** The worker is up: the connection is live, and a restart that was waiting for it is announced. */
  function Up(v: View): View {
    var up := Say(v.(connected := true, state := Ready), BecameReady(v.epoch));
    match v.pending
    case Some(e) => Say(up, Hook(e, up.connected, up.epoch)).(pending := None)
    case None => up
  }

  function Down(v: View): View {
    Say(v.(connected := false, epoch := v.epoch + 1, state := Restarting, pending := Some(v.epoch + 1)),
      Restarted(v.epoch + 1))
  }

  function StrikeView(c: Config, v: View, startFailed: bool): View {
    var n := v.strikes + 1;
    if n > c.maxRapidDeaths then Say(v.(strikes := n, state := Failed), GaveUp(n))
    else if startFailed && c.backoff == [] then v.(strikes := n, panicked := true)
    else Say(v.(strikes := n), Slept(StrikeDelay(c, n)))
  }

  function Step(c: Config, v: View, o: Outcome): View {
    if Stopped(v) then v
    else
      var tried := Say(v, Attempted);
      match o
      case StartFails => StrikeView(c, Say(tried.(state := Restarting), Restarted(v.epoch)), true)
      case DiesEarly => StrikeView(c, Down(Up(tried)), false)
      case DiesLate => Say(Down(Up(tried)).(strikes := 0), Slept(FirstDelay(c)))
      case StaysUp => Up(tried)
  }

  function Run(c: Config, script: seq<Outcome>): View {
    if script == [] then INITIAL else Step(c, Run(c, script[..|script| - 1]), script[|script| - 1])
  }

  // ── What each outcome does and says ────────────────────────────────────────

  /** The delay slept after strike `n` in a row: the backoff entry of that number, the last for all beyond it. */
  predicate DelayOf(c: Config, n: nat, delay: nat) {
    if c.backoff == [] then delay == 500
    else if 1 <= n <= |c.backoff| then delay == c.backoff[n - 1]
    else delay == c.backoff[|c.backoff| - 1]
  }

  /** What follows a strike: giving up past the budget, a failed index, or a sleep. */
  predicate StrikesOut(c: Config, n: nat, startFailed: bool, said: seq<Event>, state: WorkerState, panicked: bool) {
    if n > c.maxRapidDeaths then said == [GaveUp(n)] && state == Failed && !panicked
    else if startFailed && c.backoff == [] then said == [] && state == Restarting && panicked
    else |said| == 1 && said[0].Slept? && DelayOf(c, n, said[0].delay) && state == Restarting && !panicked
  }

  /** What is said when the worker comes up: that it is ready, and a restart that has waited for it. */
  function Announced(v: View): seq<Event> {
    [Attempted, BecameReady(v.epoch)] + if v.pending.Some? then [Hook(v.pending.value, true, v.epoch)] else []
  }

  /** One start of a supervisor that has not stopped: its whole state after it, and everything it says, in order. */
  ghost predicate Starts(c: Config, v: View, o: Outcome, w: View) {
    match o
    case StartFails =>
      && w.connected == v.connected && w.epoch == v.epoch && w.pending == v.pending && w.strikes == v.strikes + 1
      && exists said :: w.log == v.log + [Attempted, Restarted(v.epoch)] + said
                        && StrikesOut(c, w.strikes, true, said, w.state, w.panicked)
    case DiesEarly =>
      && !w.connected && w.epoch == v.epoch + 1 && w.pending == Some(w.epoch) && w.strikes == v.strikes + 1
      && exists said :: w.log == v.log + Announced(v) + [Restarted(w.epoch)] + said
                        && StrikesOut(c, w.strikes, false, said, w.state, w.panicked)
    case DiesLate =>
      && !w.connected && w.epoch == v.epoch + 1 && w.pending == Some(w.epoch) && w.strikes == 0
      && w.state == Restarting && !w.panicked
      && w.log == v.log + Announced(v) + [Restarted(w.epoch), Slept(if c.backoff == [] then 500 else c.backoff[0])]
    case StaysUp =>
      && w.connected && w.epoch == v.epoch && w.pending == None && w.strikes == v.strikes
      && w.state == Ready && !w.panicked && w.log == v.log + Announced(v)
  }

  lemma StrikeExactly(c: Config, v: View, startFailed: bool) returns (said: seq<Event>)
    requires v.state == Restarting && !v.panicked
    ensures var w := StrikeView(c, v, startFailed);
      && w == v.(strikes := v.strikes + 1, log := v.log + said, state := w.state, panicked := w.panicked)
      && StrikesOut(c, v.strikes + 1, startFailed, said, w.state, w.panicked)
  {
    var n := v.strikes + 1;
    if n > c.maxRapidDeaths {
      said := [GaveUp(n)];
    } else if startFailed && c.backoff == [] {
      said := [];
      assert v.log + [] == v.log;
    } else {
      said := [Slept(StrikeDelay(c, n))];
    }
  }

  lemma UpExactly(v: View)
    ensures Up(Say(v, Attempted))
      == v.(connected := true, state := Ready, pending := None, log := v.log + Announced(v))
  {
    var said := v.log + [Attempted] + [BecameReady(v.epoch)];
    if v.pending.Some? {
      assert said + [Hook(v.pending.value, true, v.epoch)] == v.log + Announced(v);
    } else {
      assert said == v.log + Announced(v);
    }
  }

  /** Every start, from any state that has not stopped, does and says exactly this. */
  lemma StartsExactly(c: Config, v: View, o: Outcome)
    requires !Stopped(v)
    ensures Starts(c, v, o, Step(c, v, o))
    ensures Stopped(Step(c, v, o)) <==>
      o.StaysUp? || Step(c, v, o).state.Failed? || Step(c, v, o).panicked
  {
    match o {
      case StartFails =>
        var tried := Say(Say(v, Attempted).(state := Restarting), Restarted(v.epoch));
        var said := StrikeExactly(c, tried, true);
        assert tried.log == v.log + [Attempted, Restarted(v.epoch)];
      case DiesEarly =>
        UpExactly(v);
        var down := Down(Up(Say(v, Attempted)));
        hide Up;
        var said := StrikeExactly(c, down, false);
        assert down.log == v.log + Announced(v) + [Restarted(v.epoch + 1)];
      case DiesLate =>
        UpExactly(v);
        assert [Restarted(v.epoch + 1)] + [Slept(FirstDelay(c))] == [Restarted(v.epoch + 1), Slept(FirstDelay(c))];
      case StaysUp =>
        UpExactly(v);
    }
  }

  /** Once it has stopped nothing happens. */
  lemma StopsForGood(c: Config, v: View, o: Outcome)
    requires v.state.Ready? || v.state.Failed? || v.panicked
    ensures Step(c, v, o) == v
  {
  }

  // ── The loop ───────────────────────────────────────────────────────────────

  class Shared {
    var connected: bool
    var epoch: nat
    var state: WorkerState
    var log: seq<Event>

    constructor ()
      ensures !connected && epoch == 1 && state == Starting && log == []
    {
      connected, epoch, state, log := false, 1, Starting, [];
    }

    method Emit(e: Event)
      modifies this`log
      ensures log == old(log) + [e]
    {
      log := log + [e];
    }

    /** A strike: gives up past the budget, fails on a start without any delay to take, and otherwise waits. */
    method Struck(
      c: Config, strikes: nat, ghost pending: Option<nat>, startFailed: bool) returns (flapStrikes: nat, panicked: bool)
      modifies this`state, this`log
      ensures View(connected, epoch, state, log, flapStrikes, pending, panicked)
        == StrikeView(c, View(connected, epoch, old(state), old(log), strikes, pending, false), startFailed)
    {
      flapStrikes, panicked := strikes + 1, false;
      if flapStrikes > c.maxRapidDeaths {
        state := Failed;
        Emit(GaveUp(flapStrikes));
      } else if startFailed {
        if |c.backoff| == 0 {
          panicked := true;
          return;
        }
        var idx := Min(flapStrikes - 1, |c.backoff| - 1);
        Emit(Slept(c.backoff[idx]));
      } else {
        var last := if |c.backoff| == 0 then 0 else |c.backoff| - 1;
        var idx := Min(flapStrikes - 1, last);
        var delay := if idx < |c.backoff| then c.backoff[idx] else FirstDelay(c);
        Emit(Slept(delay));
      }
    }

    /** The worker is ready; a restart that waits for it is announced. */
    method ComeUp(ghost strikes: nat, waiting: Option<nat>) returns (pending: Option<nat>)
      modifies this`connected, this`state, this`log
      ensures View(connected, epoch, state, log, strikes, pending, false)
        == Up(View(old(connected), epoch, old(state), old(log), strikes, waiting, false))
    {
      connected := true;
      state := Ready;
      Emit(BecameReady(epoch));
      pending := waiting;
      if waiting.Some? {
        Emit(Hook(waiting.value, connected, epoch));
        pending := None;
      }
    }

    method GoDown(ghost strikes: nat, ghost before: Option<nat>) returns (pending: Option<nat>)
      modifies this
      ensures View(connected, epoch, state, log, strikes, pending, false)
        == Down(View(old(connected), old(epoch), old(state), old(log), strikes, before, false))
    {
      connected := false;
      epoch := epoch + 1;
      state := Restarting;
      Emit(Restarted(epoch));
      pending := Some(epoch);
    }

    /** Supervises through the outcomes of the starts, in order, until there are no more or it stops. */
    method Supervise(
      c: Config, script: seq<Outcome>) returns (flapStrikes: nat, pendingRestartEpoch: Option<nat>, panicked: bool)
      requires !connected && epoch == 1 && state == Starting && log == []
      modifies this
      ensures View(connected, epoch, state, log, flapStrikes, pendingRestartEpoch, panicked) == Run(c, script)
    {
      flapStrikes, pendingRestartEpoch, panicked := 0, None, false;
      for i := 0 to |script|
        invariant View(connected, epoch, state, log, flapStrikes, pendingRestartEpoch, panicked) == Run(c, script[..i])
        invariant !state.Ready? && !state.Failed? && !panicked
      {
        assert script[..i + 1][..i] == script[..i];
        hide Up, Down, StrikeView;
        Emit(Attempted);
        match script[i] {
          case StartFails =>
            state := Restarting;
            Emit(Restarted(epoch));
            flapStrikes, panicked := Struck(c, flapStrikes, pendingRestartEpoch, true);
          case DiesEarly =>
            pendingRestartEpoch := ComeUp(flapStrikes, pendingRestartEpoch);
            pendingRestartEpoch := GoDown(flapStrikes, pendingRestartEpoch);
            flapStrikes, panicked := Struck(c, flapStrikes, pendingRestartEpoch, false);
          case DiesLate =>
            pendingRestartEpoch := ComeUp(flapStrikes, pendingRestartEpoch);
            pendingRestartEpoch := GoDown(flapStrikes, pendingRestartEpoch);
            flapStrikes := 0;
            Emit(Slept(FirstDelay(c)));
          case StaysUp =>
            pendingRestartEpoch := ComeUp(flapStrikes, pendingRestartEpoch);
        }
        if state.Ready? || state.Failed? || panicked {
          StoppedStays(c, script, i + 1);
          return;
        }
      }
      assert script[..|script|] == script;
    }
  }

  lemma {:induction false} StoppedStays(c: Config, script: seq<Outcome>, i: nat)
    requires i <= |script| && Stopped(Run(c, script[..i]))
    ensures Run(c, script) == Run(c, script[..i])
    decreases |script| - i
  {
    if i == |script| {
      assert script[..i] == script;
    } else {
      assert script[..i + 1][..i] == script[..i];
      StoppedStays(c, script, i + 1);
    }
  }

  // ── Epochs and the hook ────────────────────────────────────────────────────

  function CountAttempts(log: seq<Event>): nat {
    if log == [] then 0 else CountAttempts(log[..|log| - 1]) + if log[|log| - 1].Attempted? then 1 else 0
  }

  function CountDeaths(script: seq<Outcome>): nat {
    if script == [] then 0
    else
      CountDeaths(script[..|script| - 1])
      + if script[|script| - 1].DiesEarly? || script[|script| - 1].DiesLate? then 1 else 0
  }

  function CountHealthy(script: seq<Outcome>): nat {
    if script == [] then 0 else CountHealthy(script[..|script| - 1]) + if script[|script| - 1].DiesLate? then 1 else 0
  }

  /** The hooks fired, in order. */
  function Hooks(log: seq<Event>): seq<Event> {
    if log == [] then []
    else
      var rest, e := Hooks(log[..|log| - 1]), log[|log| - 1];
      if e.Hook? then rest + [e] else rest
  }

  /** Hooks for the epochs from 2 to `last`, each met by a live connection at that epoch. */
  function HooksUpTo(last: int): seq<Event> {
    if last < 2 then [] else HooksUpTo(last - 1) + [Hook(last, true, last)]
  }

  lemma SayCounts(log: seq<Event>, e: Event)
    ensures CountAttempts(log + [e]) == CountAttempts(log) + if e.Attempted? then 1 else 0
    ensures Hooks(log + [e]) == if e.Hook? then Hooks(log) + [e] else Hooks(log)
  {
    assert (log + [e])[..|log|] == log;
  }

  /** How far the script has been consumed: all of it, or up to where the run stopped. */
  function Consumed(c: Config, script: seq<Outcome>): (n: nat)
    ensures n <= |script|
  {
    if script == [] then 0
    else
      var before := script[..|script| - 1];
      if Stopped(Run(c, before)) then Consumed(c, before) else |script|
  }

  /** What holds after every run: see the theorems below. */
  ghost predicate Sound(c: Config, v: View, done: seq<Outcome>) {
    && v.epoch == 1 + CountDeaths(done)
    && CountAttempts(v.log) == |done|
    && v.connected == v.state.Ready?
    && (v.state.Ready? ==> v.pending == None && Hooks(v.log) == HooksUpTo(v.epoch))
    && (!v.state.Ready? ==>
          && v.pending == (if v.epoch == 1 then None else Some(v.epoch))
          && Hooks(v.log) == HooksUpTo(v.epoch - 1))
    && v.strikes == Trailing(done)
    && |done| <= CountHealthy(done) * (c.maxRapidDeaths + 1) + v.strikes + (if v.state.Ready? then 1 else 0)
    && (v.state.Failed? <==> v.strikes > c.maxRapidDeaths)
    && (v.state.Failed? ==> v.strikes == c.maxRapidDeaths + 1)
  }

  /** How many strikes in a row the outcomes end with; a worker that stays up leaves the count as it was. */
  function Trailing(done: seq<Outcome>): nat {
    if done == [] then 0
    else
      var rest, o := Trailing(done[..|done| - 1]), done[|done| - 1];
      if Strike(o) then rest + 1 else if o.DiesLate? then 0 else rest
  }

  lemma UpSound(v: View)
    requires !v.connected && !v.state.Ready?
    requires v.pending == (if v.epoch == 1 then None else Some(v.epoch)) && Hooks(v.log) == HooksUpTo(v.epoch - 1)
      && v.epoch >= 1
    ensures var u := Up(v);
      && u.connected && u.state.Ready? && u.pending == None && u.epoch == v.epoch && u.strikes == v.strikes
        && !u.panicked == !v.panicked
      && Hooks(u.log) == HooksUpTo(v.epoch) && CountAttempts(u.log) == CountAttempts(v.log)
  {
    SayCounts(v.log, BecameReady(v.epoch));
    SayCounts(v.log + [BecameReady(v.epoch)], Hook(v.epoch, true, v.epoch));
  }

  lemma Appended(done: seq<Outcome>, o: Outcome)
    ensures CountDeaths(done + [o]) == CountDeaths(done) + if o.DiesEarly? || o.DiesLate? then 1 else 0
    ensures CountHealthy(done + [o]) == CountHealthy(done) + if o.DiesLate? then 1 else 0
    ensures Trailing(done + [o]) == if Strike(o) then Trailing(done) + 1 else if o.DiesLate? then 0 else Trailing(done)
  {
    assert (done + [o])[..|done|] == done;
  }

  lemma OneMoreHealthy(h: nat, m: nat)
    ensures (h + 1) * (m + 1) == h * (m + 1) + m + 1
  {
  }

  lemma StepSound(c: Config, v: View, done: seq<Outcome>, o: Outcome)
    requires Sound(c, v, done) && !Stopped(v)
    ensures Sound(c, Step(c, v, o), done + [o])
  {
    hide CountDeaths, CountHealthy, Trailing, Hooks, CountAttempts, HooksUpTo;
    Appended(done, o);
    SayCounts(v.log, Attempted);
    var tried := Say(v, Attempted);
    OneMoreHealthy(CountHealthy(done), c.maxRapidDeaths);
    if o.StartFails? {
      var down := Say(tried.(state := Restarting), Restarted(v.epoch));
      SayCounts(tried.log, Restarted(v.epoch));
      hide StrikeView;
      StruckSays(c, down, true);
    } else {
      UpSound(tried);
      DownSays(Up(tried));
      hide StrikeView, Up, Down;
      StruckSays(c, Down(Up(tried)), false);
      SayCounts(Down(Up(tried)).log, Slept(FirstDelay(c)));
    }
  }

  lemma DownSays(v: View)
    ensures var d := Down(v);
      && !d.connected && d.epoch == v.epoch + 1 && d.state.Restarting? && d.pending == Some(v.epoch + 1)
      && d.strikes == v.strikes && d.panicked == v.panicked
      && CountAttempts(d.log) == CountAttempts(v.log) && Hooks(d.log) == Hooks(v.log)
  {
    SayCounts(v.log, Restarted(v.epoch + 1));
  }

  lemma StruckSays(c: Config, v: View, startFailed: bool)
    ensures var s := StrikeView(c, v, startFailed);
      && s.epoch == v.epoch && s.connected == v.connected && s.pending == v.pending && s.strikes == v.strikes + 1
      && CountAttempts(s.log) == CountAttempts(v.log) && Hooks(s.log) == Hooks(v.log)
      && (s.state == if v.strikes + 1 > c.maxRapidDeaths then Failed else v.state)
      && (s.panicked <==> v.panicked || (v.strikes + 1 <= c.maxRapidDeaths && startFailed && c.backoff == []))
  {
    SayCounts(v.log, GaveUp(v.strikes + 1));
    SayCounts(v.log, Slept(StrikeDelay(c, v.strikes + 1)));
  }

  lemma {:induction false} RunSound(c: Config, script: seq<Outcome>)
    ensures Sound(c, Run(c, script), script[..Consumed(c, script)])
    ensures Consumed(c, script) < |script| ==> Stopped(Run(c, script))
  {
    if script == [] {
      NothingRun(c);
    } else {
      hide Sound, Step, Stopped;
      var n := |script| - 1;
      RunSound(c, script[..n]);
      if Stopped(Run(c, script[..n])) {
        StoppedStays(c, script, n);
        assert script[..Consumed(c, script)] == script[..n][..Consumed(c, script[..n])];
      } else {
        assert script[..n][..n] == script[..n];
        StepSound(c, Run(c, script[..n]), script[..n], script[n]);
        assert script[..n] + [script[n]] == script;
        assert script[..|script|] == script;
      }
    }
  }

  lemma NothingRun(c: Config)
    ensures Sound(c, Run(c, []), [])
  {
  }

  /** The epoch is one more than the number of deaths, and every death bumps it. */
  lemma EpochCountsDeaths(c: Config, script: seq<Outcome>)
    ensures Run(c, script).epoch == 1 + CountDeaths(script[..Consumed(c, script)])
  {
    RunSound(c, script);
  }

  /**
   The restart hook fires once for each restarted epoch, in order, with a live connection and the epoch
   current; the latest epoch's is still pending until the worker is up.
   */
  lemma HooksFireOnce(c: Config, script: seq<Outcome>)
    ensures var v := Run(c, script); Hooks(v.log) == HooksUpTo(if v.state.Ready? then v.epoch else v.epoch - 1)
  {
    RunSound(c, script);
  }

  /** A run with `h` healthy deaths gives up, or is still trying, after at most `(h + 1) * (max + 1)` starts. */
  lemma AttemptsBounded(c: Config, script: seq<Outcome>)
    ensures var v, h := Run(c, script), CountHealthy(script[..Consumed(c, script)]);
      CountAttempts(v.log) <= (h + 1) * (c.maxRapidDeaths + 1)
  {
    RunSound(c, script);
    hide Run, CountHealthy, CountAttempts, Hooks, HooksUpTo, Consumed;
    var h := CountHealthy(script[..Consumed(c, script)]);
    assert (h + 1) * (c.maxRapidDeaths + 1) == h * (c.maxRapidDeaths + 1) + c.maxRapidDeaths + 1;
  }

  // ── When it gives up, and when it cannot go on ─────────────────────────────

  predicate AllDie(script: seq<Outcome>) {
    forall i :: 0 <= i < |script| ==> !script[i].StaysUp?
  }

  /** `k` strikes in a row from `i` on. */
  predicate StrikesFrom(script: seq<Outcome>, i: nat, k: nat) {
    i + k <= |script| && forall j :: i <= j < i + k ==> Strike(script[j])
  }

  /** Some `k` outcomes in a row are strikes. */
  ghost predicate InARow(script: seq<Outcome>, k: nat) {
    exists i :: 0 <= i < |script| && StrikesFrom(script, i, k)
  }

  lemma {:induction false} TrailingIsRow(script: seq<Outcome>, k: nat)
    requires AllDie(script)
    ensures Trailing(script) >= k <==> k <= |script| && StrikesFrom(script, |script| - k, k)
  {
    if script != [] && k > 0 {
      var n := |script| - 1;
      TrailingIsRow(script[..n], k - 1);
      if Strike(script[n]) {
        assert k <= |script| ==> (StrikesFrom(script, |script| - k, k) <==>
          StrikesFrom(script[..n], n - (k - 1), k - 1));
      }
    }
  }

  lemma RowsGrow(script: seq<Outcome>, max: nat)
    requires script != [] && AllDie(script)
    ensures var before := script[..|script| - 1];
      InARow(script, max + 1) <==> InARow(before, max + 1) || Trailing(script) > max
  {
    var n := |script| - 1;
    TrailingIsRow(script, max + 1);
    if InARow(script, max + 1) {
      var i :| 0 <= i < |script| && StrikesFrom(script, i, max + 1);
      if i + max + 1 <= n {
        assert StrikesFrom(script[..n], i, max + 1);
      } else {
        assert i == |script| - (max + 1);
      }
    }
    if InARow(script[..n], max + 1) {
      var i :| 0 <= i < n && StrikesFrom(script[..n], i, max + 1);
      assert StrikesFrom(script, i, max + 1);
    }
    if Trailing(script) > max {
      assert StrikesFrom(script, |script| - (max + 1), max + 1);
    }
  }

  /** Without a worker that stays up, the run has given up exactly if some `max + 1` outcomes in a row were strikes. */
  lemma {:induction false} GivesUpExactly(c: Config, script: seq<Outcome>)
    requires AllDie(script) && !Run(c, script).panicked
    ensures Run(c, script).state.Failed? <==> InARow(script, c.maxRapidDeaths + 1)
    ensures !Run(c, script).state.Ready?
  {
    hide Run, Step, InARow, StrikesFrom, Trailing;
    if script != [] {
      var n := |script| - 1;
      var before := script[..n];
      assert script == before + [script[n]];
      PanicStays(c, before, script[n]);
      GivesUpExactly(c, before);
      RowsGrow(script, c.maxRapidDeaths);
      if !Stopped(Run(c, before)) {
        LastStep(c, script);
      } else {
        StopsForGood(c, Run(c, before), script[n]);
      }
    } else {
      NothingYet(c, c.maxRapidDeaths + 1);
    }
  }

  lemma NothingYet(c: Config, k: nat)
    ensures !Run(c, []).state.Failed? && !Run(c, []).state.Ready? && !InARow([], k)
  {
  }

  lemma PanicStays(c: Config, before: seq<Outcome>, o: Outcome)
    ensures var script := before + [o]; Run(c, script) == Step(c, Run(c, before), o)
    ensures Run(c, before).panicked ==> Step(c, Run(c, before), o).panicked
  {
    assert (before + [o])[..|before|] == before;
  }

  /** After a step that did run, the count of strikes decides. */
  lemma LastStep(c: Config, script: seq<Outcome>)
    requires script != [] && AllDie(script) && !Stopped(Run(c, script[..|script| - 1]))
    ensures var v := Run(c, script);
      && (v.state.Failed? <==> Trailing(script) > c.maxRapidDeaths) && !v.state.Ready?
      && (v.panicked <==> c.backoff == [] && script[|script| - 1].StartFails? && Trailing(script) <= c.maxRapidDeaths)
  {
    var n := |script| - 1;
    RunSound(c, script[..n]);
    RunSound(c, script);
    assert script[..Consumed(c, script)] == script;
    assert script[..n][..Consumed(c, script[..n])] == script[..n];
    var v := Run(c, script[..n]);
    var tried := Say(v, Attempted);
    if script[n].StartFails? {
      StruckSays(c, Say(tried.(state := Restarting), Restarted(v.epoch)), true);
    } else {
      StruckSays(c, Down(Up(tried)), false);
    }
  }

  /** The loop fails outright exactly on a failed start within the budget with no delay to take. */
  lemma {:induction false} PanicsExactly(c: Config, script: seq<Outcome>)
    requires AllDie(script)
    ensures Run(c, script).panicked <==>
      c.backoff == [] && exists i ::
        && 0 <= i < |script| && script[i].StartFails?
        && !InARow(script[..i + 1], c.maxRapidDeaths + 1)
  {
    if script != [] {
      var n := |script| - 1;
      var before := script[..n];
      PanicsExactly(c, before);
      RowsGrow(script, c.maxRapidDeaths);
      assert script[..n + 1] == script;
      forall i | 0 <= i < n
        ensures before[..i + 1] == script[..i + 1] && before[i] == script[i]
      {
      }
      if Run(c, before).panicked {
        PanicStays(c, before, script[n]);
        assert before + [script[n]] == script;
        var i :| 0 <= i < n && before[i].StartFails? && !InARow(before[..i + 1], c.maxRapidDeaths + 1);
        assert script[i].StartFails? && !InARow(script[..i + 1], c.maxRapidDeaths + 1);
      } else {
        GivesUpExactly(c, before);
        if !Stopped(Run(c, before)) {
          LastStep(c, script);
        }
      }
    }
  }
}
