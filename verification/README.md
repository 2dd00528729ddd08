# OneCAD verification model

A Dafny model of the parts of OneCAD whose correctness does not show in any one function: the fenced
regeneration protocol, the sketch marshaller and its reverse, loop detection, the MESH1 byte streams, the
worker supervisor and its poison circuit, body identity, the lathe preview, the drag projection, the
timestamp arithmetic, the mesh cache and the autosave loop. `dafny verify dfyconfig.toml` checks all of it.

Code that changes things in place is modelled by classes, methods and loops. Each such method is proved
equal to a function of the state before it, and the theorems are about that function and about whole runs.
Code made of expressions is modelled by functions and lemmas.

| module | what it models |
|---|---|
| `Regen` | the document runtime, its fencing tokens, three-phase regens and the payloads a listener folds |
| `SketchModel`, `SketchMarshal`, `SketchSteps`, `SketchSync` | the typed backend sketch, the upsert marshaller, and the simulation between the two sides |
| `SketchSettle`, `SketchSafety` | when a second upsert is silent; arbitrary upserts, and which batches are accepted |
| `SketchSolve` | the solver write-back on both sides, and the wire form read back |
| `ClosedLoop` | finding one closed loop in a soup of segments |
| `ChunkStream` | reassembly of a streamed mesh, and the integrity fields around it |
| `Mesh1`, `Mesh1Codec`, `Mesh1Parser` | the MESH1 encoder, its layout, the parser and the round trip |
| `Supervisor`, `Poison` | worker restarts under a strike budget; crash counts per op |
| `BodyAdoption`, `BodyIdWire` | adoption of worker-minted ids over a stream of steps; their wire form, interner and JSON rewrite |
| `Lathe`, `AxisDepth` | the swept mesh as a closed oriented surface; the closest approach of ray and axis |
| `Permutations`, `Wrappers` | lemmas about sequences with the same elements; option and result types |
| `Calendar`, `Decimal` | day counts, civil dates and RFC 3339 timestamps |
| `MeshCache`, `Autosave` | the LRU cache against its recency list; the debounced autosave loop |

Findings, each with a lemma that exhibits or delimits it:

- Two regens that overlap on one revision could both commit, and then the `document-changed` payloads would
  no longer add up to the published bodies (`Regen.OverlapBreaksDeltas`). The scheduler awaits or drops each
  job before it starts the next (`src-tauri/crates/onecad-core/src/regen/scheduler.rs:409-448`), so no caller
  makes such a run. Overlaps of which no two commit do no harm (`Regen.FreshCommitsSound`).
- Whatever is listed, replaying an upsert can fail only at a dimension: the batch is accepted exactly if every
  dimension it sets is still there (`SketchSafety.UpsertAcceptedExactly`). The document sketch drops a
  constraint with an entity it refers to (`src-tauri/crates/onecad-core/src/edit/session.rs:1184-1212`), so a
  changed radius listed after its circle is gone is turned away, and the whole batch with it, although the map
  has already let go of the circle (`SketchSafety.OrphanedRadiusRejected`). The length of a removed line
  refers to its points only, which stay, and can still be set (`SketchSafety.InStepAcceptedExactly`,
  `SketchSafety.PositionsStand`).
- The same list sent twice is silent the second time exactly if every dimension it lists has the value told
  last under its id (`SketchSettle.SecondUpsertSilentExactly`). Two different values under one mapped id are
  sent again on every call (`SketchSettle.SharedIdNeverSettles`).
- Removing `a` also forgets the points of an entity named `a.b`, and of no others
  (`SketchSync.PointsKeptExactly`). No such id is produced: the store counts `e1`, `e2`, ...
  (`src/stores/sketchStore.ts:42`), and the backend's ids are uuids.
- An empty chunk can make mesh reassembly depend on arrival order: exactly when the chunks tile, no empty
  chunk lies inside another, and one shares its start with a chunk that is not empty
  (`ChunkStream.OrderMattersExactly`).
- The MESH1 encoder accepts normals of any length; the parser takes the result exactly when the length is
  that of the positions (`Mesh1Parser.EncodeParses`).
- A lathe ring of one or two points is not a surface, and a full sweep of one or two segments folds onto
  itself (`Lathe.PartialSweepClosed`, `Lathe.FullSweepCloses`).
- For a ray that is not parallel to the axis, but whose determinant is at most 1e-9, the drag depth is that of
  the ray's origin. The determinant is that small if the ray is almost parallel to the axis or its direction
  is short, and the depth is then wrong by any amount (`AxisDepth.DepthOptimalExactly` gives the exact
  condition, `AxisDepth.NearParallelMisses` and `AxisDepth.ShortRayMisses` a ray for every error).
- With an empty backoff list a failed start stops the supervisor by an index failure
  (`Supervisor.PanicsExactly`); the documentation does not exclude such a list.
- A solver result that moves the center of an arc with ends leaves the two sides apart: the frontend keeps the end
  points, the backend the angles. It keeps them in step exactly if it moves no such center
  (`SketchSolve.SolveKeepsInStepExactly`).
- A circuit opened by a crash closes again if a plan with the same op, sent earlier, is prepared afterwards
  (`Poison.ClosesExactly`, `Poison.OverlapReopens`).
- Timestamps order as text exactly up to the year 9999 (`Calendar.OrderedExactly`).
- An unsaved mutation is lost at shutdown exactly when the end of the senders is noticed before the quiet
  period ends (`Autosave.ShutdownLosesExactly`).

## Model

| member | source | states |
|---|---|---|
| `ClosedLoop.OrderedClosedLoop` | src/ipc/mockSketch.ts:124-169 | a loop is returned exactly when there are at least three segments and they form one single cycle; its ids list every segment once and consecutive points are the two ends of each segment; the segments are the listed lines and arcs that have both ends, in list order |
| `ClosedLoop.SegmentsExactly` | src/ipc/mockSketch.ts:118-126 | each listed line or arc with both its ends gives exactly one segment, with its id and its ends in order, and nothing else gives one |
| `ClosedLoop.SameVertex` | src/ipc/mockSketch.ts:95-97 | two ends meet exactly when they round to the same cell of a grid of side 1e-6 |
| `ClosedLoop.CountDegrees` | src/ipc/mockSketch.ts:129-133 | the degree table holds, for exactly the touched vertices, how often they are an end, a self-loop counting twice |
| `ClosedLoop.FindNext` | src/ipc/mockSketch.ts:147-165 | the first remaining segment with an end at the cursor, or none if no remaining segment has one |
| `ClosedLoop.Walk` | src/ipc/mockSketch.ts:137-169 | with all degrees two, the greedy walk succeeds exactly on a single cycle, and the step guard never ends it |
| `ClosedLoop.FollowKeeps` | src/ipc/mockSketch.ts:149-164 | following a segment keeps the trail, the far ends and the partition into walked and remaining segments |
| `ClosedLoop.FullWalkIsCycle` | src/ipc/mockSketch.ts:168 | the final closing test is implied: a walk over all segments with all degrees two is closed and simple |
| `ClosedLoop.VertexCountImplied` | src/ipc/mockSketch.ts:135 | the vertex-count test is implied by the degree test (handshake argument) |
| `ClosedLoop.RejectedDegrees` | src/ipc/mockSketch.ts:134-135 | segments turned away by the degree or count test are no single cycle |
| `ClosedLoop.StrandedWalk` | src/ipc/mockSketch.ts:166 | a walk that is stuck with segments left has closed a smaller loop, so the segments are no single cycle |
| `ClosedLoop.CycleDegrees` | src/ipc/mockSketch.ts:134 | a single cycle passes the degree test |
| `Regen.FencingCell.BumpRevision` | src-tauri/src/document_runtime.rs:119-121 | the revision goes up by one and the epoch stays |
| `Regen.FencingCell.SetEpoch` | src-tauri/src/document_runtime.rs:123-125 | the epoch is replaced and the revision stays |
| `Regen.DocumentRuntime.FromDocument` | src-tauri/src/document_runtime.rs:304-351 | tokens start at (0, 1) and the regen session takes the document's timeline |
| `Regen.DocumentRuntime.Apply` | src-tauri/src/document_runtime.rs:430-437 | a read-only or rejected edit changes nothing; an accepted one leaves its own document open, mirrored with every step dirty, the revision one further, and everything else as it was |
| `Regen.DocumentRuntime.Undo` | src-tauri/src/document_runtime.rs:440-449 | a step is undone exactly when there is one and the document is writable; the document is then the one stepped to, mirrored, and counted |
| `Regen.DocumentRuntime.Redo` | src-tauri/src/document_runtime.rs:455-464 | as undo, and a failing redo is reported with nothing changed |
| `Regen.DocumentRuntime.AfterMutation` | src-tauri/src/document_runtime.rs:468-472 | mirror, revision and dirty flag move together |
| `Regen.DocumentRuntime.SyncRegenTimeline` | src-tauri/src/document_runtime.rs:477-482 | only the regen timeline changes, to the mirror of the session timeline |
| `Regen.DocumentRuntime.OnWorkerRestart` | src-tauri/src/document_runtime.rs:384-387 | a restart changes the epoch and the dirty flag only |
| `Regen.DocumentRuntime.PromoteSelection` | src-tauri/src/document_runtime.rs:1211-1214 | promotion adds elements and moves neither token |
| `Regen.DocumentRuntime.BeginRegen` | src-tauri/src/document_runtime.rs:514-571 | phase 1 clones the regen session, the tokens and the prior bodies, or does nothing for an empty plan |
| `Regen.DocumentRuntime.FinishRegen` | src-tauri/src/document_runtime.rs:582-625 | phase 3 commits a published outcome exactly while the tokens stand: the driven session and its snapshot become the live ones; otherwise nothing changes and no bodies are reported |
| `Regen.DocumentRuntime.CommitSnapshot` | src-tauri/src/document_runtime.rs:656-676 | the clone becomes the session; changed are all snapshot bodies, removed the prior ones it lacks |
| `Regen.MirrorOfFacts` | src-tauri/crates/onecad-core/src/history/timeline.rs:72-80 | the mirror has the session's records and cursor, one state per record, every state dirty |
| `Regen.MarkStatesKeepHistory` | src-tauri/crates/onecad-core/src/history/timeline.rs:208-217 | marking step states never changes records or cursor |
| `Regen.MirrorAlways` | src-tauri/src/document_runtime.rs:430-482 | in every interleaving of edits, undos, redos, restarts, promotions and overlapping regens the live regen timeline has the session's records and cursor |
| `Regen.MirrorFromStart` | src-tauri/src/document_runtime.rs:304-351 | the same from a freshly opened document |
| `Regen.DocumentIsLastBrought` | src-tauri/src/document_runtime.rs:430-472 | over every run the document open is the one the last accepted edit, undo or redo brought |
| `Regen.DocumentStays` | src-tauri/src/document_runtime.rs:430-472 | and the first one if none was accepted |
| `Regen.EpochIsLastRestart` | src-tauri/src/document_runtime.rs:384-387 | over every run the epoch is the one the last restart reported |
| `Regen.RevisionCountsMutations` | src-tauri/src/document_runtime.rs:468-472 | over every run the revision grows by exactly the number of structural mutations |
| `Regen.CommitMeansNoMutation` | src-tauri/src/document_runtime.rs:582-604 | a regen that commits was begun on the document still open: equal tokens mean no mutation in between |
| `Regen.CommitsExactly` | src-tauri/src/document_runtime.rs:582-625 | whatever ran in between, a regen commits exactly if it was published, nothing was mutated and the epoch is the same; then its own bodies, repairs, elements and snapshot are the live ones, and otherwise nothing is |
| `Regen.MutationSupersedes` | src-tauri/src/document_runtime.rs:606-616 | one mutation in between supersedes: session, regen state and snapshot stay, and no payload is sent |
| `Regen.InlineRunCommits` | src-tauri/src/document_runtime.rs:495-508 | a regen run under the lock always commits what was published |
| `Regen.DeltaExact` | src-tauri/src/document_runtime.rs:174-191 | one payload brings a listener to the committed bodies exactly when every stale body it showed was among the prior ones |
| `Regen.RemovedExactly` | src-tauri/src/document_runtime.rs:668-674 | removed are exactly the prior bodies that the snapshot has no body for |
| `Regen.DeltaSound` | src-tauri/src/lib.rs:61-97 | driven one at a time, folding every payload always gives exactly the bodies of the latest committed snapshot; nothing else contributes |
| `Regen.DeltaFromStart` | src-tauri/src/lib.rs:61-97 | the same for a listener that starts empty with a freshly opened document |
| `Regen.FreshCommitsSound` | src-tauri/src/document_runtime.rs:582-676 | whatever overlaps, the payloads add up if no regen commits after another has committed since it began |
| `Regen.OneAtATimeIsFresh` | src-tauri/src/lib.rs:61-97 | regens driven one at a time are such a run |
| `Regen.OverlapBreaksDeltas` | src-tauri/src/document_runtime.rs:514-571 | a run of two overlapping regens after which the payloads do not add up |
| `SketchModel.ApplyConcat` | src-tauri/crates/onecad-core/src/edit/session.rs:1141-1182 | applying two op lists in turn is applying their concatenation |
| `SketchModel.LoneCascade` | src-tauri/crates/onecad-core/src/edit/session.rs:1184-1212 | removing what nothing refers to takes it alone |
| `SketchModel.CascadeExactly` | src-tauri/crates/onecad-core/src/edit/session.rs:1191-1205 | what falls with a removal is the least set with it that no remaining entity refers to |
| `SketchModel.RemovalExactly` | src-tauri/crates/onecad-core/src/edit/session.rs:1186-1212 | a removal takes that least set and each constraint that refers to any of it, and leaves everything else as it is |
| `SketchModel.OpExactly` | src-tauri/crates/onecad-core/src/edit/session.rs:1141-1182 | when each of the other ops is accepted, and what it changes |
| `SketchModel.OpKeepsReferences` | src-tauri/crates/onecad-core/src/edit/session.rs:1141-1212 | no accepted op leaves a reference to what is not there |
| `SketchMarshal.OwnedIsPrefixTest` | src/ipc/sketchWireMap.ts:365 | the key prefix test drops the points of the removed id and of every id that extends it with a dot |
| `SketchMarshal.SketchIdMap.AddEntityInPlace` | src/ipc/sketchWireMap.ts:173-236 | ids are minted points first, recorded in the map, and sent in that order; an unmappable entity sends nothing |
| `SketchMarshal.SketchIdMap.UpsertConstraintInPlace` | src/ipc/sketchWireMap.ts:381-397 | a new expressible constraint is added, a changed dimension is set, an inexpressible one only uses up an id |
| `SketchMarshal.SketchIdMap.RemoveEntitiesInPlace` | src/ipc/sketchWireMap.ts:360-367 | every mapped id not listed is removed together with its point keys, in the map's order |
| `SketchMarshal.SketchIdMap.RemoveConstraintsInPlace` | src/ipc/sketchWireMap.ts:368-375 | every mapped constraint not listed is removed with its tracked value |
| `SketchMarshal.SketchIdMap.AddEntitiesInPlace` | src/ipc/sketchWireMap.ts:378-380 | exactly the unmapped listed entities are added, in list order |
| `SketchMarshal.SketchIdMap.UpsertConstraintsInPlace` | src/ipc/sketchWireMap.ts:381-397 | the constraints are upserted in list order against the map as it grows |
| `SketchMarshal.SketchIdMap.MarshalUpsert` | src/ipc/sketchWireMap.ts:352-400 | map and ops after an upsert, for some order of visiting the known ids |
| `SketchSync.UpsertInStep` | src/ipc/sketchWireMap.ts:352-400 | from a backend in step, a list that changes constraints only in value, keeps what the kept ones name and removes no dotted prefix leaves both sides in step |
| `SketchSync.InStepExactly` | src/ipc/sketchWireMap.ts:352-400 | among lists that change constraints only in value those conditions are also necessary |
| `SketchSync.PointsKeptExactly` | src/ipc/sketchWireMap.ts:360-367 | an entity that stays keeps its point keys exactly if its id extends no removed id with a dot |
| `SketchSync.BackendMatchesList` | src/ipc/sketchWireMap.ts:341-351 | with unique ids, after adds, removes and dimension changes the backend's mapped entities, constraints and dimension values are exactly the expressible part of the list, plus orphaned points; each constraint is wired kind by kind as `WiredExactly` says |
| `SketchSync.WiredExactly` | src/ipc/sketchWireMap.ts:244-332 | kind by kind, the references of a constraint's wire form: how many, which honour a position, and the value; a constraint has exactly that form or none |
| `SketchSync.PlaceIsThere` | src/ipc/sketchWireMap.ts:244-252 | in step, a reference to a position is a backend point at the coordinates of that position of the named entity |
| `SketchSettle.SecondUpsertSilentExactly` | src/ipc/sketchWireMap.ts:341-400 | from any map, the same list sent again emits no ops exactly if each dimension it lists has the value told last under its id |
| `SketchSettle.SecondUpsertSilent` | src/ipc/sketchWireMap.ts:341-400 | so it is silent with unique constraint ids |
| `SketchSettle.SharedDimensionsSilent` | src/ipc/sketchWireMap.ts:392-396 | where no id mixes dimensions with other kinds, it is silent exactly if dimensions that share a mapped id share their value |
| `SketchSettle.MixedKindsDisagree` | src/ipc/sketchWireMap.ts:381-397 | where kinds are mixed that is not enough |
| `SketchSettle.SharedIdNeverSettles` | src/ipc/sketchWireMap.ts:392-396 | in any list, two dimensions under one mapped id with different values are sent again, and the id stays mapped |
| `SketchSettle.SettledExactly` | src/ipc/sketchWireMap.ts:381-397 | what the map remembers after a list matches each of its dimensions exactly if they agree with the last told |
| `SketchSafety.UpsertAcceptedExactly` | src/ipc/sketchWireMap.ts:352-400 | for any list the batch is accepted exactly if each dimension it sets is still there; then mapped entities and points are live, and so is every constraint that did not fall with an entity |
| `SketchSafety.ConstraintsLand` | src/ipc/sketchWireMap.ts:381-397 | adding constraints is always accepted, and setting dimensions exactly if each is there to be set |
| `SketchSafety.AdditionsSound` | src/ipc/sketchWireMap.ts:378-380 | adding the unmapped listed entities is always accepted |
| `SketchSafety.AnyRunSound` | src/ipc/sketchWireMap.ts:341-400 | along any run of upserts and solver results mapped entities and points stay live, and the next list is accepted exactly as said |
| `SketchSafety.InStepAcceptedExactly` | src-tauri/crates/onecad-core/src/edit/session.rs:1155-1165 | in step and with unique ids, accepted exactly if no changed dimension refers to a removed entity |
| `SketchSafety.PositionsStand` | src/tools/sketch/dimensionTool.ts:105-111 | a dimension between named positions of lines, circles or arcs can be set whatever is removed |
| `SketchSafety.OrphanedRadiusRejected` | src-tauri/crates/onecad-core/src/edit/session.rs:1155-1165 | a circle and its radius, then the radius alone with a new value: the second batch is turned away |
| `SketchSync.ExpressibleIsWired` | src/ipc/sketchWireMap.ts:264-332 | a constraint has a wire form exactly when its kind is known and its references have the named positions |
| `SketchSteps.ToWireStable` | src/ipc/sketchWireMap.ts:244-251 | a wire form depends only on what the map says of the entities the constraint names |
| `SketchSteps.DropMore` | src-tauri/crates/onecad-core/src/edit/session.rs:1186-1212 | removing one mapped entity takes it and the constraints that name it, and nothing else |
| `SketchSteps.ExtendedIds` | src/ipc/sketchWireMap.ts:177-182 | minted ids stay distinct and references stay inside the sketch when an entity is added |
| `SketchSolve.SolveKeepsInStep` | src/ipc/sketchWireMap.ts:508-582 | a solver result applied to the backend's points and to the frontend's entities leaves both sides in step |
| `SketchSolve.SolveKeepsInStepExactly` | src/ipc/sketchWireMap.ts:566-582 | a solver result keeps both sides in step exactly if no arc that has ends has its center moved |
| `SketchSolve.WriteBackCommutes` | src-tauri/src/worker/wire.rs:963-978 | moving the backend and reading it back over the wire shows each entity as its own write-back moves it, up to ids; with an empty result this is the round trip |
| `SketchSolve.WireReads` | src-tauri/src/worker/wire.rs:1295-1345 | the list read back from the wire is the sketch, entity by entity |
| `SketchSolve.WireExactly` | src-tauri/src/worker/wire.rs:1295-1345 | the wire carries exactly, for each listed entity: a point, a line by its two points, a circle or arc with its center resolved, an arc with its start and end angle in order |
| `SketchSolve.ReadExactly` | src/ipc/sketchWireMap.ts:448-490 | exactly these are read: points, circles and arcs as sent, and lines whose points are both listed |
| `SketchSolve.FrontendEntitiesFromDto` | src/ipc/sketchWireMap.ts:448-490 | points are collected first, then every entity is read against them |
| `SketchSolve.FrontendSolvedPositions` | src/ipc/sketchWireMap.ts:508-526 | each solved position is reported under the first key, in map order, that stands for its point, and no other key is reported |
| `SketchSolve.ApplySolvedPositions` | src/ipc/sketchWireMap.ts:537-563 | every entity is moved by the positions under its own id, in list order |
| `SketchSolve.MovedExactly` | src/ipc/sketchWireMap.ts:566-582 | which solved position moves which coordinate of each kind of entity, and that nothing else of it changes |
| `SketchSolve.GroupByEntity` | src/ipc/sketchWireMap.ts:544-553 | positions are grouped by the entity their key names |
| `SketchSolve.KeySplits` | src/ipc/sketchWireMap.ts:546-549 | cutting a key at its last dot gives back entity and position, whatever dots the id has |
| `SketchSolve.MovedIds` | src-tauri/crates/onecad-core/src/sketch/mod.rs:499-510 | applying solved positions changes no id and no reference |
| `SketchSolve.SessionsStayInStep` | src/ipc/sketchWireMap.ts:352-582 | along every sequence of solver results and of upserts that meet the conditions of `UpsertInStep`, from an empty sketch, every op is accepted and both sides stay in step |
| `ChunkStream.StreamAcc.Apply` | src-tauri/src/worker/manager.rs:1034-1050 | a manifest replaces the fields; data is written over the grown buffer, which is always the last byte received at each position |
| `ChunkStream.StreamAcc.Finalize` | src-tauri/src/worker/manager.rs:1055-1077 | gap, overlap, short cover, or the payload with the manifest's fields |
| `ChunkStream.FinalizedIsMadeOf` | src-tauri/src/worker/manager.rs:1053-1077 | for every arrival order success means the chunks partition the payload, of the manifest's length if it has one, and every byte is that of the one chunk covering it |
| `ChunkStream.FinalizedExactly` | src-tauri/src/worker/manager.rs:1055-1077 | for any chunks, success is tiling the promised total with every empty chunk clear of the others, or ahead of the one whose start it shares |
| `ChunkStream.FinalizedIffTiles` | src-tauri/src/worker/manager.rs:1055-1077 | for non-empty chunks success is exactly tiling `[0, end)` |
| `ChunkStream.FirstFault` | src-tauri/src/worker/manager.rs:1055-1077 | for non-empty chunks the error tells the first fault: a hole with more behind it is a gap, a byte covered twice an overlap, and a cover that ends elsewhere than promised the rest |
| `ChunkStream.ArrivalOrderIrrelevant` | src-tauri/src/worker/manager.rs:1056-1070 | for non-empty chunks payload and error are the same in every arrival order |
| `ChunkStream.SuccessesAlike` | src-tauri/src/worker/manager.rs:1055-1077 | for any chunks, two orders that both succeed give the same payload |
| `ChunkStream.OrderMattersExactly` | src-tauri/src/worker/manager.rs:1056-1070 | the order decides between success and failure exactly if the chunks tile, none that is empty lies inside another, and one shares its start with a chunk that is not |
| `ChunkStream.EmptyChunkOrderMatters` | src-tauri/src/worker/manager.rs:1057 | an instance with two chunks |
| `ChunkStream.ScanEnd` | src-tauri/src/worker/manager.rs:1071-1076 | a scan that succeeds ends where the buffer does, so truncation never cuts |
| `ChunkStream.StreamedMeshExactly` | src-tauri/src/worker/manager.rs:1143-1195 | a streamed mesh is assembled into `blob` exactly when its chunks tile it, no empty chunk is in the way, and every size and digest claimed by manifest or response is the blob's own |
| `ChunkStream.InlineMeshExactly` | src-tauri/src/worker/manager.rs:1158-1194 | an inline mesh is assembled into `blob` exactly when the first section of that name lies within the tail, `blob` is its slice, and every size and digest claimed is the blob's own |
| `ChunkStream.JudgedExactly` | src-tauri/src/worker/manager.rs:1181-1234 | once the bytes are there, the first claim that fails is the error: differing totals, differing digests, length, digest, header |
| `ChunkStream.FailsAs` | src-tauri/src/worker/manager.rs:1149-1179 | the errors before that: no mesh, no handle, no frames, no section of that name, or one that leaves the tail |
| `ChunkStream.AssembledIsVouched` | src-tauri/src/worker/manager.rs:1200-1234 | inline or streamed, nothing is accepted that a claim contradicts |
| `Mesh1.WordRoundTrip` | src/ipc/mockMeshes.ts:174-179 | a 32-bit word survives its four little-endian bytes |
| `Mesh1.ReadBack` | src/ipc/mockMeshes.ts:174-179 | a typed-array view over a section's bytes is the list written |
| `Mesh1.GroupReads` | src/ipc/mockMeshes.ts:62-93 | ranges, offsets and characters give back each face's or edge's triples and id |
| `Mesh1Codec.EncodeMesh1` | src/ipc/mockMeshes.ts:58-170 | positions that are not triples are refused; otherwise the fresh buffer is the specified image |
| `Mesh1Codec.ImageBegins` | src/ipc/mockMeshes.ts:137-141 | the first eight bytes: the magic in little-endian order, version 1 and the flags |
| `Mesh1Codec.GroupArrays` | src/ipc/mockMeshes.ts:62-93 | the pushed arrays are the flattened triples, ranges, offsets and characters |
| `Mesh1Codec.ConcatBytes` | src/ipc/mockMeshes.ts:180-188 | the parts written at running offsets are their concatenation |
| `Mesh1Codec.Offsets` | src/ipc/mockMeshes.ts:124-131 | each section is placed at the aligned end of the one before |
| `Mesh1Codec.WriteHeader` | src/ipc/mockMeshes.ts:137-155 | the first sixteen words hold the header fields and nothing else is touched |
| `Mesh1Codec.WriteTable` | src/ipc/mockMeshes.ts:157-164 | the table follows the header, four words an entry |
| `Mesh1Codec.WriteSections` | src/ipc/mockMeshes.ts:166-167 | every section lands at its offset over zero padding |
| `Mesh1Parser.SectionIntact` | src/ipc/mockMeshes.ts:123-131 | every section is four-byte aligned, after the table, in bounds, and holds its own bytes |
| `Mesh1Parser.SectionsDisjoint` | src/ipc/mockMeshes.ts:125-130 | sections ascend without overlap, so no write clobbers another |
| `Mesh1Parser.HeaderParsed` | src/viewport/mesh/parseMeshPayload.ts:152-187 | the parser reads back flags, counts, lod modulo 65536, section count and box |
| `Mesh1Parser.TableParsed` | src/viewport/mesh/parseMeshPayload.ts:190-225 | every table entry passes the parser's checks and its view is its section |
| `Mesh1Parser.SectionsParsed` | src/viewport/mesh/parseMeshPayload.ts:227-297 | required and optional sections are viewed as they were written |
| `Mesh1Parser.AcceptedExactly` | src/viewport/mesh/parseMeshPayload.ts:132-297 | for any bytes: a blob is accepted exactly if its header, its section table and its sections are good |
| `Mesh1Parser.HeaderExactly` | src/viewport/mesh/parseMeshPayload.ts:143-190 | a header is good byte by byte; each refusal tells what was wrong first |
| `Mesh1Parser.TableExactly` | src/viewport/mesh/parseMeshPayload.ts:192-225 | a table is accepted exactly if its sections are aligned, in bounds, ascending and of different types; each is then viewed under its type, and nothing else is |
| `Mesh1Parser.SectionsExactly` | src/viewport/mesh/parseMeshPayload.ts:227-297 | sections are accepted exactly if each that the flags ask for is there with the length the counts ask for |
| `Mesh1Parser.EncodeParses` | src/viewport/mesh/parseMeshPayload.ts:132-325 | parsing an encoded mesh recovers positions, normals, every face and edge with its id, boxes and flags, exactly when normals are absent or as long as positions |
| `Mesh1Parser.RangeLookup` | src/viewport/mesh/faceRangeIndex.ts:18-33 | the binary search finds the range that owns the needle, or reports that none does |
| `Mesh1Parser.MemberFound` | src/viewport/mesh/faceRangeIndex.ts:18-33 | in an encoded mesh a pick finds the one group the triangle or point was emitted for |
| `Supervisor.Shared.Supervise` | src-tauri/src/worker/manager.rs:389-484 | the loop's state, events, strikes and pending restart after any outcomes of its starts |
| `Supervisor.Shared.Struck` | src-tauri/src/worker/manager.rs:439-460 | a strike gives up past the budget, and otherwise waits by the backoff entry of its number, capped at the last |
| `Supervisor.Shared.ComeUp` | src-tauri/src/worker/manager.rs:399-413 | a ready worker is connected before a waiting restart is announced |
| `Supervisor.Shared.GoDown` | src-tauri/src/worker/manager.rs:420-434 | a death drops the connection, bumps the epoch and defers the hook |
| `Supervisor.StartsExactly` | src-tauri/src/worker/manager.rs:396-482 | the whole state after each start and all it says, in order: strike `n` in a row sleeps by backoff entry `n`, those beyond the list by the last |
| `Supervisor.EpochCountsDeaths` | src-tauri/src/worker/manager.rs:421-422 | the epoch is always one plus the number of deaths |
| `Supervisor.HooksFireOnce` | src-tauri/src/worker/manager.rs:411-434 | hooks fire once for each epoch from 2 on, in order, connected and with the epoch current |
| `Supervisor.AttemptsBounded` | src-tauri/src/worker/manager.rs:437-482 | with `h` healthy deaths there are at most `(h + 1) * (max + 1)` start attempts |
| `Supervisor.GivesUpExactly` | src-tauri/src/worker/manager.rs:437-478 | the supervisor has failed exactly if some `max + 1` outcomes in a row were strikes |
| `Supervisor.PanicsExactly` | src-tauri/src/worker/manager.rs:479-480 | the backoff index fails exactly with an empty list and a failed start within the budget |
| `Poison.PoisonCircuit.RecordCrash` | src-tauri/src/worker/manager.rs:185-198 | one more crash of a closed key is counted, and the circuit opens at the threshold |
| `Poison.PoisonCircuit.RecordSuccess` | src-tauri/src/worker/manager.rs:202-208 | every key of a prepared plan loses its count and its open flag |
| `Poison.PoisonCircuit.PlanCircuitOpen` | src-tauri/src/worker/manager.rs:212-215 | a plan is refused exactly if one of its keys is open |
| `Poison.PoisonCircuit.FinishPlan` | src-tauri/src/worker/manager.rs:948-994 | only a prepared plan heals and only a lost connection charges, namely the op after the steps received or, beyond the last, the last; every count and flag after it |
| `Poison.SettlesExactly` | src-tauri/src/worker/manager.rs:948-994 | what each way to end does to every count and every flag |
| `Poison.NextExactly` | src-tauri/src/worker/manager.rs:860-994 | a plan is sent exactly if the worker is there and none of its keys is open, and what it ends with settles it |
| `Poison.KeysTellOpsApart` | src-tauri/src/worker/manager.rs:999-1011 | ops of one plan share a key only if they are the same op |
| `Poison.OpenAtTheLimit` | src-tauri/src/worker/manager.rs:185-208 | in every run a key is open exactly when its count is the limit, and the count is the crashes since its last success, capped |
| `Poison.ClosesExactly` | src-tauri/src/worker/manager.rs:202-208 | an open key closes exactly when a plan in flight that has it is prepared |
| `Poison.OpenForever` | src-tauri/src/worker/manager.rs:860-877 | with one plan at a time an open key stays open |
| `Poison.NeverSentAgain` | src-tauri/src/worker/manager.rs:866-874 | with one plan at a time no plan with an open key is ever sent |
| `Poison.CountIsCrashes` | src-tauri/src/worker/manager.rs:976-988 | with one plan at a time the count is exactly the crashes charged since the key's last success |
| `Poison.OverlapReopens` | src-tauri/src/worker/manager.rs:202-208 | two overlapping plans after which a plan with the crashed key is sent again |
| `BodyAdoption.ValidateCreated` | src-tauri/src/worker/mod.rs:233-281 | a step is accepted exactly when its created ids are new, distinct, of known ops, and each op's ordinals are `0..n-1`; an error names a violation the step commits |
| `BodyAdoption.CreatedExactly` | src-tauri/src/worker/mod.rs:243-246 | the created ids are those of the creation events, one each, in order |
| `BodyAdoption.FindGap` | src-tauri/src/worker/mod.rs:272-279 | some op's sorted ordinals are reported exactly if they do not count up from zero |
| `BodyAdoption.ContiguousIsCounting` | src-tauri/src/worker/mod.rs:272-279 | sorted ordinals count up from zero exactly when they are the numbers below their count |
| `BodyAdoption.AcceptedUnordered` | src-tauri/src/worker/mod.rs:233-281 | whether a step is accepted does not depend on the order of its events |
| `BodyAdoption.Adopt` | src-tauri/src/worker/mod.rs:315-350 | the stream is forwarded unchanged unless a prepared plan follows a broken step; that event becomes a failure with a violation of the first broken step, and nothing follows it |
| `BodyAdoption.CleanPlan` | src-tauri/src/worker/mod.rs:233-281 | all steps are accepted exactly when the ids of the whole plan are pairwise distinct, new, of known ops, and contiguous step by step |
| `BodyIdWire.UuidRoundTrip` | src-tauri/src/worker/wire.rs:130-135 | a displayed uuid parses back |
| `BodyIdWire.DisplayExactly` | src-tauri/src/worker/wire.rs:130-135 | a uuid is written in lower-case digits, with hyphens after 8, 12, 16 and 20 of them |
| `BodyIdWire.ParseExactly` | src-tauri/src/worker/wire.rs:144-161 | a text is read as a uuid exactly if it spells it plainly, hyphenated, in braces or behind `urn:uuid:`, in either case |
| `BodyIdWire.NameExactly` | src-tauri/src/worker/wire.rs:144-161 | what a text names: the prefix and a uuid, or the prefix, a uuid, the first colon and a machine word |
| `BodyIdWire.WireExactly` | src-tauri/src/worker/wire.rs:91-135 | an interned id is written as it was interned, any other behind the prefix, and a child is interned as its op and ordinal |
| `BodyIdWire.WireReadsBack` | src-tauri/src/worker/wire.rs:130-161 | in every reachable interner state an id's wire form parses to it and interns nothing new |
| `BodyIdWire.ParseCanonicalises` | src-tauri/src/worker/wire.rs:144-161 | parsing then printing gives the canonical spelling, unless a plain id is one a split child was interned under |
| `BodyIdWire.SplitPartsRecover` | src-tauri/src/worker/wire.rs:119-124 | op and ordinal are recovered for all interned children exactly when no two share a derived id |
| `BodyIdWire.InternKeepsEntries` | src-tauri/src/worker/wire.rs:91-97 | interning keeps every entry exactly when the new child shares its derived id with no other |
| `BodyIdWire.EntryOf` | src-tauri/src/worker/wire.rs:91-97 | every entry is the canonical form of a child interned under that id |
| `BodyIdWire.RewriteTouches` | src-tauri/src/worker/wire.rs:320-340 | at every place of a JSON value only a uuid text directly under a body key outside `intent` changes, into its wire form |
| `BodyIdWire.BodyKeyExactly` | src-tauri/src/worker/wire.rs:327 | the keys rewritten are `bodyId` and those that end in `BodyId` |
| `BodyIdWire.RewriteIdempotent` | src-tauri/src/worker/wire.rs:320-340 | in every reachable interner state rewriting again changes nothing, even if more was interned in between |
| `BodyIdWire.PrefixedIsNoUuid` | src-tauri/src/worker/wire.rs:312-313 | a prefixed id is no uuid in any accepted spelling |
| `Lathe.LatheLocal` | src/tools/preview/lathePreview.ts:75-159 | positions and indices of the sweep, with or without caps; from angle zero the first ring is the profile itself |
| `Lathe.SweptExactly` | src/tools/preview/lathePreview.ts:94-123 | the offset from the nearest axis point is the cosine times the ring point's own, and the height the sine times its side measure |
| `Lathe.StartsAtRing` | src/tools/preview/lathePreview.ts:115-123 | at angle zero a swept point is the ring point |
| `Lathe.FootIsNearest` | src/tools/preview/lathePreview.ts:102-109 | the foot is the one point of the axis nearest to the ring point |
| `Lathe.CentroidBalances` | src/tools/preview/lathePreview.ts:137-146 | a cap's center is the one point about which its ring balances |
| `Lathe.WallNumbers` | src/tools/preview/lathePreview.ts:125-134 | which vertex numbers the two triangles of each wall quad hold, and where |
| `Lathe.CapNumbers` | src/tools/preview/lathePreview.ts:137-156 | the same for the caps, the first wound against the ring, the second along it |
| `Lathe.WallIndices` | src/tools/preview/lathePreview.ts:125-134 | the nested loops emit the wall triangles row by row |
| `Lathe.Cap` | src/tools/preview/lathePreview.ts:137-153 | a cap is a fan around the ring's centroid, wound as asked |
| `Lathe.TrianglesExactly` | src/tools/preview/lathePreview.ts:125-156 | every triangle of the sweep is emitted, once |
| `Lathe.IndexInRange` | src/tools/preview/lathePreview.ts:115-158 | every index names a vertex |
| `Lathe.EdgesOnce` | src/tools/preview/lathePreview.ts:125-156 | on a ring of at least three points no directed edge occurs twice |
| `Lathe.EdgesMatched` | src/tools/preview/lathePreview.ts:125-156 | in a partial sweep every edge has its reverse; in a full one exactly those of the first and last ring have none |
| `Lathe.PartialSweepClosed` | src/tools/preview/lathePreview.ts:125-156 | a partial sweep is a closed oriented surface exactly for three points or more, with Euler number two |
| `Lathe.FullSweepCloses` | src/tools/preview/lathePreview.ts:68-74 | with the last ring welded to the first, the index buffer of a full sweep is closed exactly for three points and three segments or more |
| `Lathe.TwoSides` | src/tools/preview/lathePreview.ts:126-134 | with fewer points or segments two triangle sides run along one welded edge |
| `Lathe.SweptOnCircle` | src/tools/preview/lathePreview.ts:94-123 | turning about a unit axis keeps a point's foot and its distance from the axis |
| `Lathe.WholeTurnMeets` | src/tools/preview/lathePreview.ts:115-123 | a whole turn brings the last ring onto the first |
| `Lathe.AxisSplitsRegion` | src/tools/preview/lathePreview.ts:54-66 | the axis splits the region exactly if ring points lie clearly on both sides |
| `Lathe.SweepLeavesBySide` | src/tools/preview/lathePreview.ts:14-18 | a swept point leaves the plane in proportion to the side measure the legality test uses |
| `AxisDepth.DepthOptimalExactly` | src/tools/preview/depthProjection.ts:29-47 | for a unit axis the depth is that of a global minimiser exactly when the determinant exceeds the threshold, is zero, or the optimum is at the foot |
| `AxisDepth.OneOptimum` | src/tools/preview/depthProjection.ts:35-47 | lines that are not parallel have one optimal depth, given by the closed form |
| `AxisDepth.ParallelOptimal` | src/tools/preview/depthProjection.ts:44-45 | on parallel lines the foot of the ray origin is optimal |
| `AxisDepth.FallbackIsFoot` | src/tools/preview/depthProjection.ts:44-45 | the fallback is the point of the axis nearest the ray origin |
| `AxisDepth.NearParallelMisses` | src/tools/preview/depthProjection.ts:45 | for every `n` from 100000 a ray for which the fallback answers 0 and the one optimum is `n` |
| `AxisDepth.ShortRayMisses` | src/tools/preview/depthProjection.ts:45 | the same at half a right angle, for every `n`, if the direction is short |
| `Calendar.CivilIsTheDay` | src-tauri/src/api/mod.rs:841-852 | for every day count the date is valid, and its days counted give the count back |
| `Calendar.DayIsTheCivil` | src-tauri/src/api/mod.rs:841-852 | converting the count of a valid date gives the date |
| `Calendar.CivilSteps` | src-tauri/src/api/mod.rs:841-852 | the next count is the next day of the Gregorian calendar |
| `Calendar.CivilOrders` | src-tauri/src/api/mod.rs:841-852 | later counts are later dates |
| `Calendar.YearFound` | src-tauri/src/api/mod.rs:844-846 | the year of the era is the one whose days the day falls among |
| `Calendar.Rfc3339Injective` | src-tauri/src/api/mod.rs:832-838 | no two seconds share a timestamp |
| `Calendar.Rfc3339Reads` | src-tauri/src/api/mod.rs:832-838 | a timestamp says a valid date and a time of day, in two figures each and four or more for the year, that add up to the seconds |
| `Calendar.OrderedExactly` | src-tauri/src/api/mod.rs:832-838 | timestamps up to a bound are ordered as text exactly when the bound is in the year 9999 or before |
| `MeshCache.MeshCache.Touch` | src-tauri/src/mesh_cache.rs:101-106 | the key moves to the recent end and the others keep their order |
| `MeshCache.MeshCache.Get` | src-tauri/src/mesh_cache.rs:69-75 | a hit returns the value and touches the key; a miss changes nothing |
| `MeshCache.MeshCache.Put` | src-tauri/src/mesh_cache.rs:79-92 | the key is recent with its value, and at most one key, the least recent, gives way |
| `MeshCache.MeshCache.Clear` | src-tauri/src/mesh_cache.rs:95-98 | map and list are emptied |
| `MeshCache.RunConsistent` | src-tauri/src/mesh_cache.rs:69-106 | after any accesses the list has no repeats, its keys are the map's, and it is within capacity |
| `MeshCache.OrderIsRecency` | src-tauri/src/mesh_cache.rs:79-106 | the list is the most recent part of the keys by last touch, so the victim is always the least recently touched |
| `MeshCache.MoreCapacityKeepsHits` | src-tauri/src/mesh_cache.rs:69-92 | under any puts, gets and clears a larger cache hits whenever a smaller one does, with the same value |
| `MeshCache.RunIncluded` | src-tauri/src/mesh_cache.rs:69-92 | the smaller cache's keys are in the larger's, in the same order |
| `MeshCache.SmallerIsSuffix` | src-tauri/src/mesh_cache.rs:69-92 | with a put on every miss the smaller order is a suffix of the larger |
| `MeshCache.CachedIsLastPut` | src-tauri/src/mesh_cache.rs:69-92 | what is cached under a key is what was last put there |
| `Autosave.AutosaveLoop.RunLoop` | src-tauri/src/autosave.rs:158-188 | the nested loops' state after any interleaving of ticks, closing, polls, quiet periods and saves |
| `Autosave.EventExactly` | src-tauri/src/autosave.rs:168-187 | what each event does to every field of the loop |
| `Autosave.AutosaveLoop.PollChanged` | src-tauri/src/autosave.rs:170-172 | a newer tick is taken before the end of the senders is noticed |
| `Autosave.NoMutationLost` | src-tauri/src/autosave.rs:158-188 | while the loop runs, a tick newer than the start of the last attempt is being debounced or still unseen |
| `Autosave.AttemptsAtMostTicks` | src-tauri/src/autosave.rs:158-188 | there are never more save attempts than ticks |
| `Autosave.SettlesSaved` | src-tauri/src/autosave.rs:174-187 | left alone with a sender, the loop comes to rest with every mutation saved |
| `Autosave.ShutdownLosesExactly` | src-tauri/src/autosave.rs:176-182 | an unsaved mutation is lost exactly when the end of the senders is noticed while debouncing |

## Left out

- Core regen: the executor, planner, scheduler and the session's own undo stack are abstract; a session step is any document or a rejection, and a driven regen may end in any outcome but touches its timeline only by marking step states, as the executor does. Documents swapped while a regen is in flight are not modelled.
- Regen.RevisionCountsMutations: the revision is an unbounded number, without 64-bit wrap-around.
- SketchSafety.UpsertAcceptedExactly: the backend checks every op as it comes, where the document sketch checks duplicates and dangling references once after the batch; an upsert sends neither, so both turn away the same batches. A run ends at a batch that is turned away: the map has moved on then, the backend has not, and what follows is not modelled. Ids are minted in sequence and stand for fresh uuids; the order of the backend's lists is not kept.
- SketchSync.BackendMatchesList: coordinates of an entity already sent are never resent, so it asks that an entity that stays be listed as it was first sent or last solved; points whose entity is gone stay in the backend.
- SketchSolve.WriteBackCommutes: an arc's ends are the directions they lie in from its center, in place of angles and of end points derived from them; an arc with ends whose center moves is excluded, because the frontend keeps its end points (`SketchSolve.SolveKeepsInStepExactly` says that no other solver result is excluded); ellipses never reach the wire.
- Entity and constraint ids that are empty, and JavaScript's distinction between an absent and an undefined field beyond an optional value.
- ChunkStream.StreamAcc.Apply: offsets are unbounded numbers, without 64-bit overflow of offset plus length; SHA-256 and the header check are parameters; flow-control credit is left out.
- Mesh1Codec.EncodeMesh1: asks for a buffer below 2^31 bytes, where the alignment arithmetic on signed 32-bit numbers is exact; floats are the words of their bits, ids are bytes, and the bounding boxes are given, six words each. Text encoding and the computation of the boxes are not modelled.
- Mesh1Parser.EncodeParses: one blob at offset zero; the multi-blob container is left out.
- Lathe.LatheLocal: cosines and sines of the angles are given, the axis direction is already divided by its length, and vertices are records rather than a flat list; the segment-count heuristic is left out.
- AxisDepth.DepthOptimalExactly: over the reals; floating-point rounding is not modelled, and only unit axes, as the documentation demands, are covered.
- Supervisor.Shared.Supervise: spawning, pings and clocks are one outcome per start; the hook is always installed.
- Poison.OpenAtTheLimit: streams are sent and finished as single events; a plan whose receiver is dropped ends as a local error.
- BodyAdoption.ValidateCreated: the interner is fixed during a step; messages are reduced to their cause, and which of several gaps is reported is left open, as the map's order leaves it.
- BodyIdWire.WireReadsBack: the derived id is any function of op and ordinal; the repository truncates SHA-256, so derived ids are only assumed apart where a lemma says so.
- BodyIdWire.RewriteTouches: JSON is a value that is rewritten, not a tree updated in place; numbers are reals.
- Calendar.CivilIsTheDay: all integers, without 64-bit bounds.
- MeshCache: keys and values are opaque and the capacity is unbounded above; whether cached bytes match the requested snapshot is not a property of the cache.
- Autosave.NoMutationLost: a save attempt is an event that may fail or find no document; the debounce period is an event.
- React components, tool reducers, the mock undo stack, recents, file and process handling, and the C++ worker.
