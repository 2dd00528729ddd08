/** The debounced autosave loop over a watched mutation tick: what it saves, how often, and what shutdown can lose. */
module Autosave {

  datatype Phase = Waiting | Debouncing | Saving | Done

  /** The tick's version and the last one the receiver has seen, and where the loop stands. */
  datatype View = View(version: nat, seen: nat, closed: bool, phase: Phase, savedAt: nat, attempts: nat)

  const INITIAL := View(0, 0, false, Waiting, 0, 0)

  /**
   What may happen next: a mutation ticks, the last sender is dropped, the loop is polled while it
   waits for a tick, the quiet period ends, or a save attempt ends.
   */
  datatype Event = Tick | Close | Polled | QuietEnds | SaveEnds

  function Step(v: View, e: Event): View {
    match e
    case Tick => if v.closed then v else v.(version := v.version + 1)
    case Close => v.(closed := true)
    case Polled =>
      if v.phase.Waiting? || v.phase.Debouncing? then
        if v.seen < v.version then v.(seen := v.version, phase := Debouncing)
        else if v.closed then v.(phase := Done)
        else v
      else v
    case QuietEnds =>
      if v.phase.Debouncing? then v.(phase := Saving, savedAt := v.version, attempts := v.attempts + 1) else v
    case SaveEnds => if v.phase.Saving? then v.(phase := Waiting) else v
  }

  function Run(events: seq<Event>): View {
    if events == [] then INITIAL else Step(Run(events[..|events| - 1]), events[|events| - 1])
  }

  /** What each event does, field by field, to a receiver that is not ahead. */
  lemma EventExactly(v: View, e: Event)
    requires v.seen <= v.version
    ensures var w := Step(v, e);
      && w.version == v.version + (if e.Tick? && !v.closed then 1 else 0)
      && w.closed == (v.closed || e.Close?)
      && w.seen == (if e.Polled? && (v.phase.Waiting? || v.phase.Debouncing?) then v.version else v.seen)
      && w.attempts == v.attempts + (if e.QuietEnds? && v.phase.Debouncing? then 1 else 0)
      && w.savedAt == (if e.QuietEnds? && v.phase.Debouncing? then v.version else v.savedAt)
      && (w.phase.Debouncing? <==>
            (v.phase.Debouncing? && !e.QuietEnds? && !(e.Polled? && v.seen == v.version && v.closed))
            || (v.phase.Waiting? && e.Polled? && v.seen < v.version))
      && (w.phase.Saving? <==> (v.phase.Debouncing? && e.QuietEnds?) || (v.phase.Saving? && !e.SaveEnds?))
      && (w.phase.Done? <==>
            v.phase.Done?
            || (e.Polled? && (v.phase.Waiting? || v.phase.Debouncing?) && v.seen == v.version && v.closed))
  {
  }

  // ── The loop ───────────────────────────────────────────────────────────────

  class AutosaveLoop {
    var version: nat
    var seen: nat
    var closed: bool
    var phase: Phase
    var savedAt: nat
    var attempts: nat

    ghost function Now(): View
      reads this
    {
      View(version, seen, closed, phase, savedAt, attempts)
    }

    constructor ()
      ensures Now() == INITIAL
    {
      version, seen, closed, phase, savedAt, attempts := 0, 0, false, Waiting, 0, 0;
    }

    /** A tick or a close, while the loop is waiting for something else. */
    method Outside(e: Event)
      requires e.Tick? || e.Close?
      modifies this`version, this`closed
      ensures Now() == Step(old(Now()), e)
    {
      match e {
        case Tick =>
          if !closed {
            version := version + 1;
          }
        case Close => closed := true;
      }
    }

    /** The receiver's wait, polled once: a newer tick is taken, or the end of all senders is noticed. */
    method PollChanged() returns (changed: bool, failed: bool)
      modifies this`seen
      ensures changed == (old(seen) < version) && failed == (!changed && closed)
      ensures seen == if changed then version else old(seen)
    {
      changed, failed := seen < version, false;
      if changed {
        seen := version;
      } else if closed {
        failed := true;
      }
    }

    /** Runs from a fresh start through the events, as far as they go. */
    method RunLoop(events: seq<Event>)
      requires Now() == INITIAL
      modifies this
      ensures Now() == Run(events)
    {
      var i := 0;
      NothingRun(events);
      hide Run;
      while i < |events|
        invariant 0 <= i <= |events|
        invariant phase == Waiting && Now() == Run(events[..i])
        decreases |events| - i
      {
        var got, failed := false, false;
        while i < |events| && !got
          invariant 0 <= i <= |events|
          invariant phase == (if got then Debouncing else Waiting) && Now() == Run(events[..i])
          decreases |events| - i
        {
          RunMore(events, i);
          match events[i] {
            case Polled =>
              got, failed := PollChanged();
              if failed {
                phase := Done;
                DoneStays(events, i + 1);
                return;
              }
              if got {
                phase := Debouncing;
              }
            case Tick => Outside(Tick);
            case Close => Outside(Close);
            case _ =>
          }
          i := i + 1;
        }
        if !got {
          break;
        }
        var quiet := false;
        while i < |events| && !quiet
          invariant 0 <= i <= |events|
          invariant phase == (if quiet then Saving else Debouncing) && Now() == Run(events[..i])
          decreases |events| - i
        {
          RunMore(events, i);
          match events[i] {
            case QuietEnds =>
              phase, savedAt, attempts, quiet := Saving, version, attempts + 1, true;
            case Polled =>
              got, failed := PollChanged();
              if failed {
                phase := Done;
                DoneStays(events, i + 1);
                return;
              }
            case Tick => Outside(Tick);
            case Close => Outside(Close);
            case SaveEnds =>
          }
          i := i + 1;
        }
        if !quiet {
          break;
        }
        var saved := false;
        while i < |events| && !saved
          invariant 0 <= i <= |events|
          invariant phase == (if saved then Waiting else Saving) && Now() == Run(events[..i])
          decreases |events| - i
        {
          RunMore(events, i);
          match events[i] {
            case SaveEnds =>
              phase, saved := Waiting, true;
            case Tick => Outside(Tick);
            case Close => Outside(Close);
            case _ =>
          }
          i := i + 1;
        }
        if !saved {
          break;
        }
      }
      assert events[..|events|] == events;
    }
  }

  lemma NothingRun(events: seq<Event>)
    ensures Run(events[..0]) == INITIAL
  {
  }

  lemma RunMore(events: seq<Event>, i: nat)
    requires i < |events|
    ensures Run(events[..i + 1]) == Step(Run(events[..i]), events[i])
  {
    assert events[..i + 1][..i] == events[..i];
  }

  lemma {:induction false} DoneStays(events: seq<Event>, i: nat)
    requires i <= |events| && Run(events[..i]).phase.Done? && Run(events[..i]).closed
    ensures Run(events) == Run(events[..i])
    decreases |events| - i
  {
    if i == |events| {
      assert events[..i] == events;
    } else {
      assert events[..i + 1][..i] == events[..i];
      DoneStays(events, i + 1);
    }
  }

  // ── No mutation is lost while the loop runs ────────────────────────────────

  /** Some tick is newer than the start of the last save attempt. */
  predicate Unsaved(v: View) {
    v.savedAt < v.version
  }

  /** The receiver still holds a tick it has not seen. */
  predicate Pending(v: View) {
    v.seen < v.version
  }

  ghost predicate Sound(v: View) {
    && v.seen <= v.version && v.savedAt <= v.version
    && (v.phase.Waiting? || v.phase.Saving? ==> v.seen <= v.savedAt)
    && (v.phase.Done? ==> v.closed && !Pending(v))
    && v.attempts + (if v.phase.Debouncing? then 1 else 0) <= v.seen
  }

  lemma {:induction false} RunSound(events: seq<Event>)
    ensures Sound(Run(events))
  {
    if events != [] {
      RunSound(events[..|events| - 1]);
    }
  }

  /** Whatever the interleaving, an unsaved mutation will be saved: the loop debounces, or has a tick to take. */
  lemma NoMutationLost(events: seq<Event>)
    ensures var v := Run(events); !v.phase.Done? && Unsaved(v) ==> v.phase.Debouncing? || Pending(v)
  {
    RunSound(events);
  }

  /** There are never more save attempts than ticks. */
  lemma AttemptsAtMostTicks(events: seq<Event>)
    ensures Run(events).attempts <= Run(events).version
  {
    RunSound(events);
  }

  function CountTicks(events: seq<Event>): nat {
    if events == [] then 0 else CountTicks(events[..|events| - 1]) + if events[|events| - 1].Tick? then 1 else 0
  }

  lemma {:induction false} VersionCountsTicks(events: seq<Event>)
    requires Close !in events
    ensures Run(events).version == CountTicks(events) && !Run(events).closed
  {
    if events != [] {
      var n := |events| - 1;
      assert forall i :: 0 <= i < n ==> events[i] == events[..n][i];
      VersionCountsTicks(events[..n]);
    }
  }

  // ── Left alone, it saves everything ────────────────────────────────────────

  /** The step the loop is waiting to take by itself, if no more ticks come. */
  function Due(v: View): Event {
    match v.phase
    case Debouncing => QuietEnds
    case Saving => SaveEnds
    case _ => Polled
  }

  predicate Idle(v: View) {
    Step(v, Due(v)) == v
  }

  /** How many of its own steps the loop can still take. */
  function Remaining(v: View): nat {
    (if Pending(v) then 4 else 0) + match v.phase case Debouncing => 3 case Saving => 2 case Waiting => 1 case Done => 0
  }

  /** At rest with a sender left, everything is saved. */
  lemma IdleIsSaved(events: seq<Event>)
    ensures var v := Run(events); Idle(v) && !v.closed ==> !Unsaved(v) && v.phase.Waiting?
  {
    RunSound(events);
  }

  function Settle(v: View): View
    requires Sound(v)
    decreases Remaining(v)
  {
    if Idle(v) then v
    else
      Settle(Step(v, Due(v)))
  }

  /** From any state with a sender left, its own steps alone bring the loop to rest with every mutation saved. */
  lemma {:induction false} SettlesSaved(v: View)
    requires Sound(v) && !v.closed
    ensures var w := Settle(v); w.phase.Waiting? && w.version == v.version && !Unsaved(w)
    decreases Remaining(v)
  {
    if !Idle(v) {
      SettlesSaved(Step(v, Due(v)));
    }
  }

  /**
   At shutdown an unsaved mutation is lost exactly when the loop notices the end of the senders before
   the quiet period ends.
   */
  lemma ShutdownLosesExactly(events: seq<Event>, e: Event)
    ensures var v, w := Run(events), Step(Run(events), e);
      !v.phase.Done? ==> (w.phase.Done? && Unsaved(w) <==>
        e.Polled? && v.phase.Debouncing? && v.closed && !Pending(v) && Unsaved(v))
  {
    RunSound(events);
  }

  lemma ShutdownMayLose()
    ensures var v := Run([Tick, Close, Polled, Polled]); v.phase.Done? && Unsaved(v)
  {
    var es := [Tick, Close, Polled, Polled];
    assert es[..3] == [Tick, Close, Polled];
    assert [Tick, Close, Polled][..2] == [Tick, Close];
    assert [Tick, Close][..1] == [Tick];
    assert [Tick][..0] == [];
    assert Run([Tick]) == View(1, 0, false, Waiting, 0, 0);
    assert Run([Tick, Close]) == View(1, 0, true, Waiting, 0, 0);
    assert Run([Tick, Close, Polled]) == View(1, 1, true, Debouncing, 0, 0);
  }
}
