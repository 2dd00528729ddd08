/** The document runtime and its fenced, three-phase regeneration. */
module Regen {

  // Phase 1 (under the lock) clones the regen session and captures the fencing tokens, phase 2 drives
  // the clone with the lock released, phase 3 (under the lock) commits only while the tokens stand.
  // Part one is the state and the operations on it, part two the class that updates it in place, and
  // part three the protocol: every interleaving of edits, restarts and overlapping regens.

  import opened Wrappers

  // ── State ──────────────────────────────────────────────────────────────────

  type BodyId = nat
  type MeshKey = nat

  datatype OperationRecord = OperationRecord(recordId: nat, op: string)

  datatype StepState = Valid | Dirty | Error(reason: string) | NeedsRepair | Suppressed

  /** Ordered records, the rollback cursor (applied count), and one state per record. */
  datatype Timeline = Timeline(records: seq<OperationRecord>, cursor: nat, states: seq<StepState>) {
    predicate WellFormed() {
      |states| == |records| && cursor <= |records|
    }

    /** Sets one step's state; an out-of-range step is an error the executor ignores. */
    function MarkState(step: nat, state: StepState): Timeline {
      if step < |states| then this.(states := states[step := state]) else this
    }

    function SetCursor(k: nat): Timeline {
      var k := if k <= |records| then k else |records|;
      Timeline(records, k, seq(|states|, i requires 0 <= i < |states| =>
        if cursor <= i < k && states[i] != Suppressed then Dirty else states[i]))
    }
  }

  function FromRecords(records: seq<OperationRecord>): Timeline {
    Timeline(records, |records|, seq(|records|, _ => Dirty))
  }

  /** Agreement on what is authoritative: the records and the cursor. */
  predicate SameHistory(a: Timeline, b: Timeline) {
    a.records == b.records && a.cursor == b.cursor
  }

  datatype Document = Document(timeline: Timeline, rest: string)

  datatype RegenSession = RegenSession(bodies: seq<BodyId>, timeline: Timeline, repair: seq<nat>, elements: set<nat>)

  datatype BodySnapshot = BodySnapshot(body: BodyId, meshKey: MeshKey)

  datatype ModelSnapshot = ModelSnapshot(id: nat, bodies: seq<BodySnapshot>)

  datatype Tokens = Tokens(revision: nat, epoch: nat)

  datatype DomainError = ReadOnly | Rejected(reason: string)

  datatype Outcome = Published(snap: ModelSnapshot) | Superseded | EngineFailed | Cancelled | NoOp

  datatype Prepared = Prepared(scratch: RegenSession, expected: Tokens, prior: seq<BodyId>)

  datatype Driven = Driven(outcome: Outcome, scratch: RegenSession, prior: seq<BodyId>, expected: Tokens)

  datatype RegenReport = RegenReport(
    outcome: Outcome, revision: nat, snapshotId: nat, changed: seq<BodySnapshot>, removed: seq<BodyId>)

  datatype DocumentChange = DocumentChange(
    revision: nat, snapshotId: nat, changed: seq<BodySnapshot>, removed: seq<BodyId>)

  datatype Runtime = Runtime(
    readOnly: bool,
    document: Document,
    regen: RegenSession,
    tokens: Tokens,
    dirty: bool,
    latest: Option<ModelSnapshot>,
    jobSeq: nat)

  // ── Operations on the state ────────────────────────────────────────────────

  function NewRuntime(
    document: Document, bodies: seq<BodyId>, repair: seq<nat>, elements: set<nat>, readOnly: bool): Runtime {
    Runtime(readOnly, document, RegenSession(bodies, document.timeline, repair, elements), Tokens(0, 1), false, None, 0)
  }

  /** The regen mirror of a session timeline: same records and cursor, every step dirty. */
  function MirrorOf(src: Timeline): Timeline {
    FromRecords(src.records).SetCursor(src.cursor)
  }

  /** A structural mutation: the session moves on, the mirror follows, the revision is bumped. */
  function Mutated(rt: Runtime, document: Document): Runtime {
    rt.(document := document,
        regen := rt.regen.(timeline := MirrorOf(document.timeline)),
        tokens := rt.tokens.(revision := rt.tokens.revision + 1),
        dirty := true)
  }

  /** A command's effect, given what the session makes of it: the next document, or a rejection. */
  function Edited(rt: Runtime, result: Result<Document, DomainError>): Runtime {
    if rt.readOnly || result.Err? then rt else Mutated(rt, result.value)
  }

  /** Undo and redo, given the document the session steps to, if it has a step to take. */
  function Stepped(rt: Runtime, next: Option<Document>): Runtime {
    if rt.readOnly || next.None? then rt else Mutated(rt, next.value)
  }

  function Restarted(rt: Runtime, epoch: nat): Runtime {
    rt.(tokens := rt.tokens.(epoch := epoch), dirty := true)
  }

  function Promoted(rt: Runtime, minted: set<nat>): Runtime {
    rt.(regen := rt.regen.(elements := rt.regen.elements + minted))
  }

  function BodyIds(bodies: seq<BodySnapshot>): seq<BodyId> {
    seq(|bodies|, i requires 0 <= i < |bodies| => bodies[i].body)
  }

  function Prior(rt: Runtime): seq<BodyId> {
    match rt.latest
    case Some(snap) => BodyIds(snap.bodies)
    case None => []
  }

  /** What phase 1 hands to phase 2. */
  function PreparedOf(rt: Runtime): Prepared {
    Prepared(rt.regen, rt.tokens, Prior(rt))
  }

  function MarkStates(timeline: Timeline, marks: seq<(nat, StepState)>): Timeline {
    if marks == [] then timeline
    else MarkStates(timeline, marks[..|marks| - 1]).MarkState(marks[|marks| - 1].0, marks[|marks| - 1].1)
  }

  /**
   Phase 2. The executor may end in any outcome and leave the clone with any bodies, repairs,
   elements and step states; the timeline it touches only through `mark_state`.
   */
  function Drive(
    p: Prepared, outcome: Outcome, marks: seq<(nat, StepState)>, bodies: seq<BodyId>, repair: seq<nat>,
      elements: set<nat>
  ): Driven {
    Driven(outcome, RegenSession(bodies, MarkStates(p.scratch.timeline, marks), repair, elements), p.prior, p.expected)
  }

  predicate Commits(rt: Runtime, d: Driven) {
    d.outcome.Published? && rt.tokens == d.expected
  }

  /** Phase 3. */
  function Finished(rt: Runtime, d: Driven): Runtime {
    if Commits(rt, d) then rt.(regen := d.scratch, latest := Some(d.outcome.snap), dirty := true) else rt
  }

  function RemovedBodies(prior: seq<BodyId>, current: seq<BodyId>): seq<BodyId> {
    if prior == [] then []
    else
      var rest := RemovedBodies(prior[..|prior| - 1], current);
      if prior[|prior| - 1] in current then rest else rest + [prior[|prior| - 1]]
  }

  function ReportOf(rt: Runtime, d: Driven): RegenReport {
    if Commits(rt, d) then
      RegenReport(d.outcome, rt.tokens.revision, d.outcome.snap.id, d.outcome.snap.bodies,
                  RemovedBodies(d.prior, BodyIds(d.outcome.snap.bodies)))
    else
      RegenReport(if d.outcome.Published? then Superseded else d.outcome, rt.tokens.revision, 0, [], [])
  }

  /** The `document-changed` payload, if the regen published. */
  function ChangeOf(report: RegenReport): Option<DocumentChange> {
    if report.outcome.Published?
    then Some(DocumentChange(report.revision, report.snapshotId, report.changed, report.removed))
    else None
  }

  // ── What a mutation leaves behind ──────────────────────────────────────────

  predicate SameRecords(a: Timeline, b: Timeline) {
    a.records == b.records && a.cursor == if b.cursor <= |b.records| then b.cursor else |b.records|
  }

  predicate AllDirty(t: Timeline) {
    |t.states| == |t.records| && forall i :: 0 <= i < |t.states| ==> t.states[i] == Dirty
  }

  /** The revision is one further, the mirror follows the document, and nothing but those and the flag moved. */
  predicate Stamped(before: Runtime, after: Runtime) {
    && after.tokens == Tokens(before.tokens.revision + 1, before.tokens.epoch)
    && after.dirty
    && AllDirty(after.regen.timeline) && SameRecords(after.regen.timeline, after.document.timeline)
    && after.regen.bodies == before.regen.bodies && after.regen.repair == before.regen.repair
    && after.regen.elements == before.regen.elements
    && after.readOnly == before.readOnly && after.latest == before.latest && after.jobSeq == before.jobSeq
  }

  // ── The runtime, updated in place ──────────────────────────────────────────

  /** The fencing tokens, shared with every regen in flight. */
  class FencingCell {
    var revision: nat
    var epoch: nat

    constructor (epoch: nat)
      ensures Get() == Tokens(0, epoch)
    {
      revision := 0;
      this.epoch := epoch;
    }

    function Get(): Tokens
      reads this
    {
      Tokens(revision, epoch)
    }

    method BumpRevision()
      modifies this`revision
      ensures Get() == old(Get()).(revision := old(Get()).revision + 1)
    {
      revision := revision + 1;
    }

    method SetEpoch(epoch: nat)
      modifies this`epoch
      ensures Get() == old(Get()).(epoch := epoch)
    {
      this.epoch := epoch;
    }
  }

  class DocumentRuntime {
    const readOnly: bool
    const fencing: FencingCell
    var document: Document
    var regen: RegenSession
    var dirty: bool
    var latestSnapshot: Option<ModelSnapshot>
    var jobSeq: nat

    ghost function View(): Runtime
      reads this, fencing
    {
      Runtime(readOnly, document, regen, fencing.Get(), dirty, latestSnapshot, jobSeq)
    }

    constructor FromDocument(doc: Document, bodies: seq<BodyId>, repair: seq<nat>, elements: set<nat>, readOnly: bool)
      ensures View() == NewRuntime(doc, bodies, repair, elements, readOnly)
      ensures fresh(fencing)
    {
      this.readOnly := readOnly;
      document := doc;
      regen := RegenSession(bodies, doc.timeline, repair, elements);
      fencing := new FencingCell(1);
      dirty := false;
      latestSnapshot := None;
      jobSeq := 0;
    }

    /** `result` is what the session makes of the command. */
    method Apply(result: Result<Document, DomainError>) returns (outcome: Result<(), DomainError>)
      modifies this, fencing
      ensures View() == Edited(old(View()), result)
      ensures outcome.Err? ==> View() == old(View())
      ensures outcome.Ok? ==> result.Ok? && document == result.value && Stamped(old(View()), View())
      ensures outcome == if readOnly then Err(ReadOnly) else if result.Err? then Err(result.error) else Ok(())
    {
      if readOnly {
        return Err(ReadOnly);
      }
      if result.Err? {
        return Err(result.error);
      }
      document := result.value;
      AfterMutation();
      outcome := Ok(());
    }

    /** `next` is the document the session undoes to, if it has a step to undo. */
    method Undo(next: Option<Document>) returns (undone: bool)
      modifies this, fencing
      ensures View() == Stepped(old(View()), next)
      ensures !undone ==> View() == old(View())
      ensures undone ==> next.Some? && document == next.value && Stamped(old(View()), View())
      ensures undone <==> !readOnly && next.Some?
    {
      if readOnly {
        return false;
      }
      undone := next.Some?;
      if undone {
        document := next.value;
        AfterMutation();
      }
    }

    /** `next` is what the session's redo answers: an error, nothing to redo, or a document. */
    method Redo(next: Result<Option<Document>, DomainError>) returns (redone: Result<bool, DomainError>)
      modifies this, fencing
      ensures View() == Stepped(old(View()), if next.Ok? then next.value else None)
      ensures redone != Ok(true) ==> View() == old(View())
      ensures redone == Ok(true) ==> next.Ok? && Some(document) == next.value && Stamped(old(View()), View())
      ensures redone == if readOnly then Ok(false) else if next.Err? then Err(next.error) else Ok(next.value.Some?)
    {
      if readOnly {
        return Ok(false);
      }
      if next.Err? {
        return Err(next.error);
      }
      if next.value.Some? {
        document := next.value.value;
        AfterMutation();
      }
      redone := Ok(next.value.Some?);
    }

    method AfterMutation()
      modifies this`regen, this`dirty, fencing`revision
      ensures View() == Mutated(old(View()), document)
      ensures document == old(document) && Stamped(old(View()), View())
    {
      SyncRegenTimeline();
      fencing.BumpRevision();
      dirty := true;
    }

    method SyncRegenTimeline()
      modifies this`regen
      ensures regen == old(regen).(timeline := MirrorOf(document.timeline))
      ensures AllDirty(regen.timeline) && SameRecords(regen.timeline, document.timeline)
    {
      var mirror := FromRecords(document.timeline.records);
      mirror := mirror.SetCursor(document.timeline.cursor);
      regen := regen.(timeline := mirror);
    }

    method OnWorkerRestart(epoch: nat)
      modifies this`dirty, fencing`epoch
      ensures View() == Restarted(old(View()), epoch)
      ensures fencing.epoch == epoch && dirty && View() == old(View()).(tokens := fencing.Get(), dirty := true)
    {
      fencing.SetEpoch(epoch);
      dirty := true;
    }

    method PromoteSelection(minted: set<nat>)
      modifies this`regen
      ensures View() == Promoted(old(View()), minted)
      ensures regen == old(regen).(elements := old(regen.elements) + minted)
    {
      regen := regen.(elements := regen.elements + minted);
    }

    /** Phase 1. `planEmpty` is the planner's verdict on the request. */
    method BeginRegen(planEmpty: bool) returns (prepared: Option<Prepared>)
      modifies this`jobSeq
      ensures prepared == if planEmpty then None else Some(PreparedOf(old(View())))
      ensures prepared.Some? ==>
        && prepared.value.scratch == regen && prepared.value.expected == Tokens(fencing.revision, fencing.epoch)
        && (latestSnapshot.None? ==> prepared.value.prior == [])
        && (latestSnapshot.Some? ==>
              && |prepared.value.prior| == |latestSnapshot.value.bodies|
              && forall i :: 0 <= i < |prepared.value.prior| ==>
                   prepared.value.prior[i] == latestSnapshot.value.bodies[i].body)
      ensures View() == old(View()).(jobSeq := old(jobSeq) + if planEmpty then 0 else 1)
    {
      if planEmpty {
        return None;
      }
      jobSeq := jobSeq + 1;
      var prior := if latestSnapshot.Some? then BodyIds(latestSnapshot.value.bodies) else [];
      prepared := Some(Prepared(regen, fencing.Get(), prior));
    }

    /** Phase 3. */
    method FinishRegen(driven: Driven) returns (report: RegenReport)
      modifies this`regen, this`latestSnapshot, this`dirty
      ensures View() == Finished(old(View()), driven)
      ensures report == ReportOf(old(View()), driven)
      ensures report.revision == fencing.revision
      ensures driven.outcome.Published? && driven.expected == Tokens(fencing.revision, fencing.epoch) ==>
        && regen == driven.scratch && latestSnapshot == Some(driven.outcome.snap) && dirty
        && report.outcome == driven.outcome && report.snapshotId == driven.outcome.snap.id
        && report.changed == driven.outcome.snap.bodies
        && forall b :: b in report.removed <==>
             b in driven.prior && forall i :: 0 <= i < |report.changed| ==> report.changed[i].body != b
      ensures !(driven.outcome.Published? && driven.expected == Tokens(fencing.revision, fencing.epoch)) ==>
        && View() == old(View()) && report.snapshotId == 0 && report.changed == [] && report.removed == []
        && report.outcome == if driven.outcome.Published? then Superseded else driven.outcome
    {
      if driven.outcome.Published? {
        if fencing.Get() == driven.expected {
          var changed, removed := CommitSnapshot(driven.scratch, driven.outcome.snap, driven.prior);
          RemovedExactly(driven.prior, driven.outcome.snap.bodies);
          return RegenReport(driven.outcome, fencing.revision, driven.outcome.snap.id, changed, removed);
        }
        return RegenReport(Superseded, fencing.revision, 0, [], []);
      }
      report := RegenReport(driven.outcome, fencing.revision, 0, [], []);
    }

    method CommitSnapshot(scratch: RegenSession, snap: ModelSnapshot, prior: seq<BodyId>)
      returns (changed: seq<BodySnapshot>, removed: seq<BodyId>)
      modifies this`regen, this`latestSnapshot, this`dirty
      ensures regen == scratch && latestSnapshot == Some(snap) && dirty
      ensures changed == snap.bodies && removed == RemovedBodies(prior, BodyIds(snap.bodies))
    {
      regen := scratch;
      latestSnapshot := Some(snap);
      dirty := true;
      changed := snap.bodies;
      removed := [];
      var current := BodyIds(snap.bodies);
      for i := 0 to |prior|
        invariant removed == RemovedBodies(prior[..i], current)
      {
        assert prior[..i + 1][..i] == prior[..i];
        if prior[i] !in current {
          removed := removed + [prior[i]];
        }
      }
      assert prior[..|prior|] == prior;
    }
  }

  // ── The protocol ───────────────────────────────────────────────────────────

  /** The runtime, the regens in flight, and the bodies a listener has put together from the payloads. */
  datatype System = System(rt: Runtime, prepared: seq<Prepared>, driven: seq<Driven>, shown: map<BodyId, MeshKey>)

  datatype Step =
    | Edit(result: Result<Document, DomainError>)
    | UndoRedo(next: Option<Document>)
    | WorkerRestart(epoch: nat)
    | Promote(minted: set<nat>)
    | Begin(planEmpty: bool)
    | DriveResult(which: nat, outcome: Outcome, marks: seq<(nat, StepState)>, bodies: seq<BodyId>, repair: seq<nat>,
      elements: set<nat>)
    | Finish(which: nat)
    | Abandon(which: nat)

  function Without<T>(xs: seq<T>, i: nat): (r: seq<T>)
    requires i < |xs|
    ensures forall x :: x in r ==> x in xs
  {
    xs[..i] + xs[i + 1..]
  }

  function FoldBodies(bodies: seq<BodySnapshot>): (m: map<BodyId, MeshKey>)
    ensures forall b :: b in m.Keys <==> exists i :: 0 <= i < |bodies| && bodies[i].body == b
  {
    if bodies == [] then map[]
    else FoldBodies(bodies[..|bodies| - 1])[bodies[|bodies| - 1].body := bodies[|bodies| - 1].meshKey]
  }

  /** A listener drops the removed bodies and takes the mesh key of every changed one. */
  function Shown(shown: map<BodyId, MeshKey>, change: Option<DocumentChange>): map<BodyId, MeshKey> {
    match change
    case None => shown
    case Some(c) => (shown - set b | b in c.removed) + FoldBodies(c.changed)
  }

  function Bodies(latest: Option<ModelSnapshot>): map<BodyId, MeshKey> {
    match latest
    case None => map[]
    case Some(snap) => FoldBodies(snap.bodies)
  }

  function Next(s: System, step: Step): System {
    match step
    case Edit(result) => s.(rt := Edited(s.rt, result))
    case UndoRedo(next) => s.(rt := Stepped(s.rt, next))
    case WorkerRestart(epoch) => s.(rt := Restarted(s.rt, epoch))
    case Promote(minted) => s.(rt := Promoted(s.rt, minted))
    case Begin(planEmpty) =>
      if planEmpty then s
      else s.(rt := s.rt.(jobSeq := s.rt.jobSeq + 1), prepared := s.prepared + [PreparedOf(s.rt)])
    case DriveResult(i, outcome, marks, bodies, repair, elements) =>
      if i < |s.prepared| then
        s.(prepared := Without(s.prepared, i),
           driven := s.driven + [Drive(s.prepared[i], outcome, marks, bodies, repair, elements)])
      else s
    case Finish(i) =>
      if i < |s.driven| then
        s.(rt := Finished(s.rt, s.driven[i]),
           driven := Without(s.driven, i),
           shown := Shown(s.shown, ChangeOf(ReportOf(s.rt, s.driven[i]))))
      else s
    case Abandon(i) =>
      if i < |s.prepared| then s.(prepared := Without(s.prepared, i)) else s
  }

  function Run(s: System, steps: seq<Step>): System {
    if steps == [] then s else Next(Run(s, steps[..|steps| - 1]), steps[|steps| - 1])
  }

  function Start(
    document: Document, bodies: seq<BodyId>, repair: seq<nat>, elements: set<nat>, readOnly: bool): System {
    System(NewRuntime(document, bodies, repair, elements, readOnly), [], [], map[])
  }

  // ── The mirror invariant ───────────────────────────────────────────────────

  /** The live regen timeline has the session timeline's records and cursor, and one state per record. */
  predicate Mirrored(rt: Runtime) {
    SameHistory(rt.regen.timeline, rt.document.timeline) && rt.regen.timeline.WellFormed()
  }

  /** A clone taken at the current revision still carries the current history. */
  predicate Fenced(rt: Runtime, expected: Tokens, scratch: RegenSession) {
    && expected.revision <= rt.tokens.revision
    && scratch.timeline.WellFormed()
    && (expected.revision == rt.tokens.revision ==> SameHistory(scratch.timeline, rt.document.timeline))
  }

  ghost predicate MirrorInv(s: System) {
    && Mirrored(s.rt)
    && (forall p :: p in s.prepared ==> Fenced(s.rt, p.expected, p.scratch))
    && (forall d :: d in s.driven ==> Fenced(s.rt, d.expected, d.scratch))
  }

  /** The documents a step installs are well formed. */
  predicate StepWellFormed(step: Step) {
    match step
    case Edit(Ok(doc)) => doc.timeline.WellFormed()
    case UndoRedo(Some(doc)) => doc.timeline.WellFormed()
    case _ => true
  }

  lemma MirrorOfFacts(src: Timeline)
    requires src.WellFormed()
    ensures SameHistory(MirrorOf(src), src) && MirrorOf(src).WellFormed()
    ensures forall i :: 0 <= i < |MirrorOf(src).states| ==> MirrorOf(src).states[i] == Dirty
  {
  }

  lemma {:induction false} MarkStatesKeepHistory(timeline: Timeline, marks: seq<(nat, StepState)>)
    ensures SameHistory(MarkStates(timeline, marks), timeline)
    ensures |MarkStates(timeline, marks).states| == |timeline.states|
  {
    if marks != [] {
      MarkStatesKeepHistory(timeline, marks[..|marks| - 1]);
    }
  }

  /** Marking sets the state of the step it names, if there is one, and no other. */
  lemma MarkOne(timeline: Timeline, step: nat, state: StepState, i: nat)
    requires i < |timeline.states|
    ensures |timeline.MarkState(step, state).states| == |timeline.states|
    ensures timeline.MarkState(step, state).states[i] == if i == step then state else timeline.states[i]
  {
  }

  lemma MirrorStep(s: System, step: Step)
    requires MirrorInv(s) && StepWellFormed(step)
    ensures MirrorInv(Next(s, step))
  {
    match step
    case Edit(result) =>
      if !s.rt.readOnly && result.Ok? { MirrorOfFacts(result.value.timeline); }
    case UndoRedo(next) =>
      if !s.rt.readOnly && next.Some? { MirrorOfFacts(next.value.timeline); }
    case DriveResult(i, outcome, marks, bodies, repair, elements) =>
      if i < |s.prepared| { MarkStatesKeepHistory(s.prepared[i].scratch.timeline, marks); }
    case _ =>
  }

  /**
   The mirror invariant over every run: whatever edits, undos, redos, restarts and overlapping
   regens interleave, the regen timeline is the session timeline.
   */
  lemma {:induction false} MirrorAlways(s: System, steps: seq<Step>)
    requires MirrorInv(s)
    requires forall i :: 0 <= i < |steps| ==> StepWellFormed(steps[i])
    ensures MirrorInv(Run(s, steps))
    ensures Mirrored(Run(s, steps).rt)
  {
    if steps != [] {
      MirrorAlways(s, steps[..|steps| - 1]);
      MirrorStep(Run(s, steps[..|steps| - 1]), steps[|steps| - 1]);
    }
  }

  lemma MirrorFromStart(
    document: Document, bodies: seq<BodyId>, repair: seq<nat>, elements: set<nat>, readOnly: bool, steps: seq<Step>)
    requires document.timeline.WellFormed()
    requires forall i :: 0 <= i < |steps| ==> StepWellFormed(steps[i])
    ensures Mirrored(Run(Start(document, bodies, repair, elements, readOnly), steps).rt)
  {
    MirrorAlways(Start(document, bodies, repair, elements, readOnly), steps);
  }

  // ── Equal tokens mean that nothing was edited in between ───────────────────

  /** Whether the step is a structural mutation of a runtime that accepts edits. */
  predicate Mutates(readOnly: bool, step: Step) {
    !readOnly && ((step.Edit? && step.result.Ok?) || (step.UndoRedo? && step.next.Some?))
  }

  function Mutations(readOnly: bool, steps: seq<Step>): nat {
    if steps == [] then 0
    else Mutations(readOnly, steps[..|steps| - 1]) + if Mutates(readOnly, steps[|steps| - 1]) then 1 else 0
  }

  /** What one step makes of document and tokens. */
  lemma OneStep(s: System, step: Step)
    ensures var rt, rt' := s.rt, Next(s, step).rt;
      && rt'.readOnly == rt.readOnly
      && rt'.tokens.revision == rt.tokens.revision + (if Mutates(rt.readOnly, step) then 1 else 0)
      && rt'.tokens.epoch == (if step.WorkerRestart? then step.epoch else rt.tokens.epoch)
      && (!Mutates(rt.readOnly, step) ==> rt'.document == rt.document)
  {
  }

  lemma BroughtIn(s: System, step: Step, doc: Document)
    requires Brings(s.rt.readOnly, step, doc)
    ensures Next(s, step).rt.document == doc
  {
  }

  lemma {:induction false} RevisionCountsMutations(s: System, steps: seq<Step>)
    ensures var t := Run(s, steps);
      && t.rt.readOnly == s.rt.readOnly
      && t.rt.tokens.revision == s.rt.tokens.revision + Mutations(s.rt.readOnly, steps)
      && (Mutations(s.rt.readOnly, steps) == 0 ==> t.rt.document == s.rt.document)
  {
    hide Next, Mutates;
    if steps != [] {
      var n := |steps| - 1;
      RevisionCountsMutations(s, steps[..n]);
      OneStep(Run(s, steps[..n]), steps[n]);
    }
  }

  /**
   A regen begun in `s` commits after `steps` only if none of them mutated the document, so the
   snapshot it publishes was computed from the document that is open when it is published.
   */
  lemma CommitMeansNoMutation(s: System, steps: seq<Step>, d: Driven)
    requires d.expected == s.rt.tokens
    requires Commits(Run(s, steps).rt, d)
    ensures Mutations(s.rt.readOnly, steps) == 0
    ensures Run(s, steps).rt.document == s.rt.document
  {
    RevisionCountsMutations(s, steps);
  }

  predicate Brings(readOnly: bool, step: Step, doc: Document) {
    !readOnly && (step == Edit(Ok(doc)) || step == UndoRedo(Some(doc)))
  }

  /** Over every run the document is what the last edit, undo or redo that was accepted brought ... */
  lemma {:induction false} DocumentIsLastBrought(s: System, steps: seq<Step>, i: nat, doc: Document)
    requires i < |steps| && Brings(s.rt.readOnly, steps[i], doc)
    requires forall j :: i < j < |steps| ==> !Mutates(s.rt.readOnly, steps[j])
    ensures Run(s, steps).rt.document == doc
  {
    hide Next, Brings, Mutates;
    var n := |steps| - 1;
    RevisionCountsMutations(s, steps[..n]);
    OneStep(Run(s, steps[..n]), steps[n]);
    if i < n {
      DocumentIsLastBrought(s, steps[..n], i, doc);
    } else {
      BroughtIn(Run(s, steps[..n]), steps[n], doc);
    }
  }

  /** ... and the first document as long as there was none. */
  lemma {:induction false} DocumentStays(s: System, steps: seq<Step>)
    requires forall i :: 0 <= i < |steps| ==> !Mutates(s.rt.readOnly, steps[i])
    ensures Run(s, steps).rt.document == s.rt.document
  {
    hide Next, Mutates;
    if steps != [] {
      var n := |steps| - 1;
      DocumentStays(s, steps[..n]);
      RevisionCountsMutations(s, steps[..n]);
      OneStep(Run(s, steps[..n]), steps[n]);
    }
  }

  /** The epoch is the one the last restart reported, ... */
  lemma {:induction false} EpochIsLastRestart(s: System, steps: seq<Step>, i: nat)
    requires i < |steps| && steps[i].WorkerRestart? && forall j :: i < j < |steps| ==> !steps[j].WorkerRestart?
    ensures Run(s, steps).rt.tokens.epoch == steps[i].epoch
  {
    hide Next;
    var n := |steps| - 1;
    OneStep(Run(s, steps[..n]), steps[n]);
    if i < n {
      EpochIsLastRestart(s, steps[..n], i);
    }
  }

  /** ... and the first epoch as long as there was none. */
  lemma {:induction false} EpochStays(s: System, steps: seq<Step>)
    requires forall i :: 0 <= i < |steps| ==> !steps[i].WorkerRestart?
    ensures Run(s, steps).rt.tokens.epoch == s.rt.tokens.epoch
  {
    hide Next;
    if steps != [] {
      var n := |steps| - 1;
      EpochStays(s, steps[..n]);
      OneStep(Run(s, steps[..n]), steps[n]);
    }
  }

  /**
   A regen begun in `s` and finished after `steps` commits exactly if it published, nothing was mutated
   in between, and the worker is still in the epoch it was in. Then what it computed is what is open.
   */
  lemma CommitsExactly(s: System, steps: seq<Step>, outcome: Outcome, marks: seq<(nat, StepState)>, bodies: seq<BodyId>,
                       repair: seq<nat>, elements: set<nat>)
    ensures var d, rt := Drive(PreparedOf(s.rt), outcome, marks, bodies, repair, elements), Run(s, steps).rt;
      && (Finished(rt, d).latest != rt.latest ==> outcome.Published?)
      && (Commits(rt, d) <==>
            outcome.Published? && Mutations(s.rt.readOnly, steps) == 0 && rt.tokens.epoch == s.rt.tokens.epoch)
      && (Commits(rt, d) ==>
            && Finished(rt, d).latest == Some(outcome.snap) && Finished(rt, d).regen.bodies == bodies
            && Finished(rt, d).regen.repair == repair && Finished(rt, d).regen.elements == elements
            && Finished(rt, d).document == s.rt.document && Finished(rt, d).dirty)
      && (!Commits(rt, d) ==> Finished(rt, d) == rt)
  {
    RevisionCountsMutations(s, steps);
  }

  /** Conversely one mutation is enough to supersede: the finish then changes nothing and reports nothing. */
  lemma MutationSupersedes(s: System, steps: seq<Step>, d: Driven)
    requires d.expected == s.rt.tokens
    requires Mutations(s.rt.readOnly, steps) > 0
    ensures var rt := Run(s, steps).rt;
      && Finished(rt, d) == rt
      && ReportOf(rt, d).outcome == (if d.outcome.Published? then Superseded else d.outcome)
      && ChangeOf(ReportOf(rt, d)) == None
  {
    RevisionCountsMutations(s, steps);
  }

  /** A run with the lock held throughout can never be superseded. */
  lemma InlineRunCommits(
    rt: Runtime, snap: ModelSnapshot, marks: seq<(nat, StepState)>, bodies: seq<BodyId>, repair: seq<nat>,
      elements: set<nat>)
    requires Mirrored(rt)
    ensures var d := Drive(PreparedOf(rt), Published(snap), marks, bodies, repair, elements);
      var rt' := Finished(rt.(jobSeq := rt.jobSeq + 1), d);
      && rt'.latest == Some(snap) && rt'.regen.bodies == bodies
      && Mirrored(rt') && rt'.document == rt.document && rt'.tokens == rt.tokens
  {
    MarkStatesKeepHistory(rt.regen.timeline, marks);
  }

  // ── Delta soundness ────────────────────────────────────────────────────────

  lemma {:induction false} RemovedBodiesFacts(prior: seq<BodyId>, current: seq<BodyId>)
    ensures forall b :: b in RemovedBodies(prior, current) <==> b in prior && b !in current
  {
    if prior != [] {
      var init := prior[..|prior| - 1];
      RemovedBodiesFacts(init, current);
      assert prior == init + [prior[|prior| - 1]];
    }
  }

  lemma RemovedExactly(prior: seq<BodyId>, bodies: seq<BodySnapshot>)
    ensures forall b :: b in RemovedBodies(prior, BodyIds(bodies)) <==>
      b in prior && forall i :: 0 <= i < |bodies| ==> bodies[i].body != b
  {
    RemovedBodiesFacts(prior, BodyIds(bodies));
    assert forall i :: 0 <= i < |bodies| ==> BodyIds(bodies)[i] == bodies[i].body;
  }

  /** A listener's entry for a body is the mesh key it is listed with last. */
  lemma {:induction false} LastMeshKey(bodies: seq<BodySnapshot>, i: nat)
    requires i < |bodies| && forall j :: i < j < |bodies| ==> bodies[j].body != bodies[i].body
    ensures bodies[i].body in FoldBodies(bodies) && FoldBodies(bodies)[bodies[i].body] == bodies[i].meshKey
  {
    if i < |bodies| - 1 {
      LastMeshKey(bodies[..|bodies| - 1], i);
    }
  }

  lemma FoldBodiesKeys(bodies: seq<BodySnapshot>, b: BodyId)
    ensures b in FoldBodies(bodies).Keys <==> b in BodyIds(bodies)
  {
    if b in FoldBodies(bodies).Keys {
      var i :| 0 <= i < |bodies| && bodies[i].body == b;
      assert BodyIds(bodies)[i] == b;
    }
    if b in BodyIds(bodies) {
      var i :| 0 <= i < |BodyIds(bodies)| && BodyIds(bodies)[i] == b;
      assert bodies[i].body == b;
    }
  }

  /**
   What a payload does to a listener: it ends up with exactly the committed bodies if and only if
   every body it showed that the snapshot lacks was among the regen's prior bodies.
   */
  lemma DeltaExact(rt: Runtime, d: Driven, shown: map<BodyId, MeshKey>)
    requires Commits(rt, d)
    ensures var current := BodyIds(d.outcome.snap.bodies);
      Shown(shown, ChangeOf(ReportOf(rt, d))) == Bodies(Finished(rt, d).latest)
      <==> forall b :: b in shown && b !in current ==> b in d.prior
  {
    var current := BodyIds(d.outcome.snap.bodies);
    var folded := FoldBodies(d.outcome.snap.bodies);
    var removed := RemovedBodies(d.prior, current);
    RemovedBodiesFacts(d.prior, current);
    forall b
      ensures b in folded <==> b in current
    {
      FoldBodiesKeys(d.outcome.snap.bodies, b);
    }
    var after := Shown(shown, ChangeOf(ReportOf(rt, d)));
    assert forall b :: b in after <==> b in current || (b in shown && !(b in d.prior && b !in current));
    assert forall b :: b in current ==> after[b] == folded[b];
    if forall b :: b in shown && b !in current ==> b in d.prior {
      assert after.Keys == folded.Keys;
      assert after == folded;
    } else {
      var b :| b in shown && b !in current && b !in d.prior;
      assert b in after && b !in folded;
    }
  }

  /** One at a time: nothing is in flight when a regen begins. */
  predicate OneAtATime(s: System, steps: seq<Step>) {
    steps == [] ||
    var init := steps[..|steps| - 1];
    && OneAtATime(s, init)
    && (steps[|steps| - 1] == Begin(false) ==> Run(s, init).prepared == [] && Run(s, init).driven == [])
  }

  ghost predicate DeltaInv(s: System) {
    && s.shown == Bodies(s.rt.latest)
    && |s.prepared| + |s.driven| <= 1
    && (forall p :: p in s.prepared ==> p.prior == Prior(s.rt))
    && (forall d :: d in s.driven ==> d.prior == Prior(s.rt))
  }

  lemma DeltaStep(s: System, step: Step)
    requires DeltaInv(s)
    requires step == Begin(false) ==> s.prepared == [] && s.driven == []
    ensures DeltaInv(Next(s, step))
  {
    FinishAddsUp(s, step);
    if step.Finish? && step.which < |s.driven| {
      assert Without(s.driven, step.which) == [];
    }
  }

  /** Driven one at a time, the payloads always add up to the bodies of the latest snapshot. */
  lemma {:induction false} DeltaSound(s: System, steps: seq<Step>)
    requires DeltaInv(s)
    requires OneAtATime(s, steps)
    ensures DeltaInv(Run(s, steps))
    ensures Run(s, steps).shown == Bodies(Run(s, steps).rt.latest)
  {
    if steps != [] {
      DeltaSound(s, steps[..|steps| - 1]);
      DeltaStep(Run(s, steps[..|steps| - 1]), steps[|steps| - 1]);
    }
  }

  /** Whatever overlaps, no regen commits after another has committed since it began. */
  ghost predicate FreshCommits(s: System, steps: seq<Step>) {
    steps == [] ||
    var init, last := steps[..|steps| - 1], steps[|steps| - 1];
    var t := Run(s, init);
    && FreshCommits(s, init)
    && (last.Finish? && last.which < |t.driven| && Commits(t.rt, t.driven[last.which]) ==>
          t.driven[last.which].prior == Prior(t.rt))
  }

  /** That is enough for the payloads to add up; regens that are superseded, fail or are dropped may overlap freely. */
  lemma {:induction false} FreshCommitsSound(s: System, steps: seq<Step>)
    requires s.shown == Bodies(s.rt.latest) && FreshCommits(s, steps)
    ensures Run(s, steps).shown == Bodies(Run(s, steps).rt.latest)
  {
    if steps != [] {
      FreshCommitsSound(s, steps[..|steps| - 1]);
      FinishAddsUp(Run(s, steps[..|steps| - 1]), steps[|steps| - 1]);
    }
  }

  lemma FinishAddsUp(s: System, step: Step)
    requires s.shown == Bodies(s.rt.latest)
    requires step.Finish? && step.which < |s.driven| && Commits(s.rt, s.driven[step.which]) ==>
      s.driven[step.which].prior == Prior(s.rt)
    ensures Next(s, step).shown == Bodies(Next(s, step).rt.latest)
  {
    if step.Finish? && step.which < |s.driven| && Commits(s.rt, s.driven[step.which]) {
      var d := s.driven[step.which];
      forall b | b in s.shown
        ensures b in d.prior
      {
        if s.rt.latest.Some? {
          FoldBodiesKeys(s.rt.latest.value.bodies, b);
        }
      }
      DeltaExact(s.rt, d, s.shown);
    }
  }

  /** Driven one at a time, every commit is fresh. */
  lemma {:induction false} OneAtATimeIsFresh(s: System, steps: seq<Step>)
    requires DeltaInv(s) && OneAtATime(s, steps)
    ensures FreshCommits(s, steps)
  {
    if steps != [] {
      OneAtATimeIsFresh(s, steps[..|steps| - 1]);
      DeltaSound(s, steps[..|steps| - 1]);
    }
  }

  lemma DeltaFromStart(
    document: Document, bodies: seq<BodyId>, repair: seq<nat>, elements: set<nat>, readOnly: bool, steps: seq<Step>)
    requires OneAtATime(Start(document, bodies, repair, elements, readOnly), steps)
    ensures var t := Run(Start(document, bodies, repair, elements, readOnly), steps);
      t.shown == Bodies(t.rt.latest)
  {
    DeltaSound(Start(document, bodies, repair, elements, readOnly), steps);
  }

  lemma RunSnoc(s: System, steps: seq<Step>, step: Step)
    ensures Run(s, steps + [step]) == Next(Run(s, steps), step)
  {
    assert (steps + [step])[..|steps + [step]| - 1] == steps;
  }

  /** Two regens begun on one revision. */
  lemma TwoBegun(s: System)
    ensures Run(s, [Begin(false), Begin(false)])
      == s.(rt := s.rt.(jobSeq := s.rt.jobSeq + 2), prepared := s.prepared + [PreparedOf(s.rt)] + [PreparedOf(s.rt)])
  {
    RunSnoc(s, [], Begin(false));
    RunSnoc(s, [Begin(false)], Begin(false));
    assert [] + [Begin(false)] == [Begin(false)];
    assert [Begin(false)] + [Begin(false)] == [Begin(false), Begin(false)];
    assert PreparedOf(s.rt.(jobSeq := s.rt.jobSeq + 1)) == PreparedOf(s.rt);
  }

  function Drives(body: BodyId): Step {
    DriveResult(0, Published(ModelSnapshot(body, [BodySnapshot(body, 0)])), [], [body], [], {})
  }

  /** The two regens drive and finish in turn, publishing body 7 and then body 8. */
  lemma TwoFinished(s: System, p: Prepared)
    requires s.prepared == [p, p] && s.driven == [] && s.shown == map[]
    requires p.expected == s.rt.tokens && p.prior == []
    ensures var t := Next(Next(Next(Next(s, Drives(7)), Drives(8)), Finish(0)), Finish(0));
      t.rt.latest == Some(ModelSnapshot(8, [BodySnapshot(8, 0)])) && 7 in t.shown && 7 !in Bodies(t.rt.latest)
  {
    var s2 := Next(Next(s, Drives(7)), Drives(8));
    var d7, d8 := s2.driven[0], s2.driven[1];
    assert FoldBodies([]) == map[];
    assert FoldBodies([BodySnapshot(7, 0)]) == map[7 := 0];
    assert FoldBodies([BodySnapshot(8, 0)]) == map[8 := 0];
    assert d7.prior == [] && d8.prior == [];
    assert Next(s2, Finish(0)).shown == map[7 := 0];
  }

  /**
   Two regens overlapping on one revision can both commit, and then the payloads do not add up:
   body 7 of the first snapshot stays shown, though the second snapshot does not have it.
   */
  lemma OverlapBreaksDeltas(s: System)
    returns (steps: seq<Step>)
    requires s.rt.latest == None && s.shown == map[] && s.prepared == [] && s.driven == []
    ensures Run(s, steps).rt.latest.Some? && 7 in Run(s, steps).shown && 7 !in Bodies(Run(s, steps).rt.latest)
    ensures !OneAtATime(s, steps)
  {
    var begun := [Begin(false), Begin(false)];
    TwoBegun(s);
    RunSnoc(s, begun, Drives(7));
    RunSnoc(s, begun + [Drives(7)], Drives(8));
    RunSnoc(s, begun + [Drives(7)] + [Drives(8)], Finish(0));
    RunSnoc(s, begun + [Drives(7)] + [Drives(8)] + [Finish(0)], Finish(0));
    steps := begun + [Drives(7)] + [Drives(8)] + [Finish(0)] + [Finish(0)];
    TwoFinished(Run(s, begun), PreparedOf(s.rt));
    if OneAtATime(s, steps) {
      DeltaSound(s, steps);
    }
  }
}
