# Verified model of the delivery tooling

This project models the parts of the repository's delivery tooling that must not be wrong,
and proves what they are for. The models are in Dafny 4.11; `dafny verify dfyconfig.toml`
checks all of them together.

| file | models | main results |
|---|---|---|
| `Leases.dfy`, `LeaseRuns.dfy`, `LeaseAgreement.dfy`, `LeaseRecovery.dfy`, `UnlockedReap.dfy` | the durable single-writer lease (`scripts/prime_state.py`) | safety over every run with a crash after any file write, when history and `active.json` agree and what repairs them, staleness and takeover, the reaper with and without its lock, reading the history |
| `Fencing.dfy`, `Packets.dfy`, `ProofGate.dfy` | the gates that consume a lease, and the proof gate (`scripts/prime_workflow.py`) | an overtaken writer is refused for ever; what an accepted proof bundle means |
| `Checkpoints.dfy` | lifecycle transitions and the durable checkpoint | evidence in order, no regression, which issues count as completed |
| `Watchdog.dfy` | the bounded watchdog and the restart loop (`scripts/prime_supervisor.py`) | stops in time, reports only real stalls, ignores artifact churn |
| `Redaction.dfy` | redaction of host paths (`scripts/record_home_prompt.py`) | the chunked scan refines a simple redaction; exactly when a path survives |
| `CastEvents.dfy`, `Scenario.dfy` | event grouping and scenario acceptance (`scripts/record_tui_demo.py`) | a unique segmentation, computed; greedy matching against an existential statement |
| `PythonAst.dfy`, `Graphs.dfy`, `ImportGraph.dfy`, `Scoping.dfy`, `References.dfy`, `Ratchet.dfy` | reachability, scoped references and the baselines (`scripts/check_reachability.py`) | worklist against paths of imports, visitor against scope chain and both against the import statements, what "only shrink" means for a history |
| `Certification.dfy`, `Publication.dfy` | the verdict, the rehearsal step and publishing (`scripts/certify_release.py`) | what CERTIFIED certifies; no published bundle is ever lost |
| `EvidenceBundle.dfy` | content-addressed evidence bundles (`scripts/evidence_bundle.py`) | canonical manifests, the create/verify round trip, content addressing |

**How state is modelled.** A lease store is a class over a map from issue to directory; each
operation is also described by the list of leases it persists (its plan), the class methods
are proved to follow their plans, and a run is any sequence of operations of which each may
stop after any of its file writes. Checkpoint files, certification directories and the
reference visitor are classes whose methods are proved against functions of the old state.
Loops of the source are loops here, each proved against a statement that does not mention
the loop. Clock readings are arbitrary reals and need not be monotone, except in the
watchdog, which reads a monotonic clock.

**Where code and documentation differ** the model follows the code, gives an input that shows
the difference, and states exactly when it occurs:

- The lease directory name "." is accepted, but it is the parent of all lease directories,
  so the reaper never lists it (`ReaperIsCompleteAndIdempotent`, `DotLeaseIsNeverReaped`).
- The pull request gate compares dispatch ids, not generations
  (`ReusedDispatchIdFoolsTheGate`, `OvertakenPacketIsRefusedIff`); the dispatch gate compares
  both.
- A crash between the two writes of a lease leaves the history ahead of `active.json`, which
  is the authority (`CrashLeavesHistoryAhead`, `AgreementHoldsIff`). The next successful
  operation repairs it, except a release under a half-written grant (`RepairsIff`).
- `lease-reap` takes no lock. A reap whose write is overtaken by a takeover puts
  `active.json` back, and a generation is granted twice (`LateReapGrantsTwice`,
  `LateWriteKeepsRankIff`, `LateReapKeepsGrantsFreshIff`).
- A checkpoint write for the stored issue replaces `completed_issues` by whatever it is
  given (`SameIssueWriteMayForget`, `CompletedIssuesAreThoseLeftAtDone`).
- A removed baseline can be seeded again (`RemovedBaselineIsReseeded`, `ShrinksIffFileKept`),
  and the burn-down of untriaged entries can be undone by relabelling a triaged entry
  (`RelabellingRefillsThePot`, `PotGrowsIff`, `UntriagedIsConserved`).
- An attempt that dies between the two renames lets a weaker bundle take the managed path
  (`DeathBetweenRenamesLetsOthersIn`, `EmptiedIff`, `OnlyCertifiedReplaces`); the displaced
  one survives in the history.
- A path that contains its own replacement byte can survive redaction (`OnePathSurvivesIff`,
  `SurvivesIff`), against the promise never to commit host paths.
- The test for an unfinished escape sequence misses a bare ESC after a sequence that has
  ended, and takes a BEL for the end of a DCS, which by the comment beside it ends at ST only
  (`TrailingEscapeIsMissed`, `BellInDcsIsMissed`, `EscapeTestIsWrongIff`). That is by the
  reading in which an introducer starts a new sequence whatever was open, as terminals do; by
  the reading in which only BEL or ST ends a string it can be wrong in both directions
  (`SwallowedIntroducers`, `StrictTestIsWrongIff`).
- `_safe_relative_path` accepts ".", which has no path parts (`DotNeverVerifies`).

## Model

| member | source | states |
|---|---|---|
| `Leases.LeaseStore.WriteFile` | scripts/prime_state.py:99-100 | one file write changes one file of one issue's directory and nothing else |
| `Leases.LeaseStore.PersistLease` | scripts/prime_state.py:96-103 | history file first, then `active.json`; the recorded order of writes is what a crash cuts short |
| `Leases.LeaseStore.AcquireLease` | scripts/prime_state.py:106-151 | outcome, disk and the exact sequence of file writes are those of the acquire plan, in every branch and for every refusal |
| `Leases.LeaseStore.HeartbeatLease` | scripts/prime_state.py:154-172 | the same for a heartbeat, with and without progress |
| `Leases.LeaseStore.ReleaseLease` | scripts/prime_state.py:175-183 | the same for a release; ACTIVE is not required |
| `Leases.LeaseStore.SupersedeStaleLeases` | scripts/prime_state.py:186-202 | the same for the reaper's loop over any listing, including the records at which it stops with an error |
| `LeaseRuns.LegalPersist` | scripts/prime_state.py:96-103 | the state between the two writes and the state after both keep the invariant; the rank shown by `active.json` does not move at the first write and never falls |
| `LeaseRuns.LegalPrefix` | scripts/prime_state.py:96-202 | the same after any number of file writes of an operation |
| `LeaseRuns.PrefixActive` | scripts/prime_state.py:96-103 | after any prefix of writes `active.json` is the old record or one of the leases being persisted |
| `LeaseRuns.StepKeeps` | scripts/prime_state.py:96-202 | every operation, crashing anywhere or completing, keeps the invariant and the order of ranks; completing keeps history and `active.json` equal |
| `LeaseRuns.RunsKeepInvariant` | scripts/prime_state.py:96-202 | over every run with crashes: the invariant holds, and what `active.json` shows of an issue only moves forward |
| `LeaseRuns.GrantIsActive` | scripts/prime_state.py:106-151 | a completed grant is what `active.json` then shows: ACTIVE, one generation above the old one |
| `LeaseRuns.GrantShowsRequest` | scripts/prime_state.py:106-151 | field by field, what `active.json` shows after a completed grant is what was asked for |
| `LeaseRuns.GenerationsStrictlyIncrease` | scripts/prime_state.py:106-151 | of two grants of one issue in any run, the later has the larger generation |
| `LeaseRuns.GenerationStep` | scripts/prime_state.py:96-202 | one operation, crashing or not, moves the generation an issue shows by one if it completes a grant of it, and not at all otherwise |
| `LeaseRuns.GenerationsCountGrants` | scripts/prime_state.py:96-202 | over every run with crashes, the generation shown grows by exactly the number of completed grants |
| `LeaseRuns.GrantStaysInStep` | scripts/prime_state.py:96-202 | an operation, crashing or not, that completes no grant of an issue leaves worker, working copy, dispatch id, supervisor, bound and acquisition time of its record |
| `LeaseRuns.GrantStaysInRun` | scripts/prime_state.py:96-202 | the same over every run with crashes |
| `LeaseRuns.FencingIsPermanent` | scripts/prime_state.py:96-202 | a generation shown as not ACTIVE, or overtaken, never reads ACTIVE again, whatever happens |
| `LeaseRuns.SingleActiveGeneration` | scripts/prime_state.py:96-202 | in every reachable state, crashes included, at most one generation reads ACTIVE, and it is the one in `active.json` when that is ACTIVE |
| `LeaseRuns.CrashFreeStoreIsExact` | scripts/prime_state.py:96-202 | in a run without crashes the history is exactly 1..g, `active.json` equals record g, and only g may be ACTIVE |
| `LeaseRuns.CrashLeavesHistoryAhead` | scripts/prime_state.py:96-103 | an input for which that agreement is lost: a heartbeat cut between its writes |
| `LeaseRuns.UnfinishedActive` | scripts/prime_state.py:96-103 | while the last write of an operation is missing, `active.json` does not show its last lease |
| `LeaseAgreement.HistoryWriteAgreesIff` | scripts/prime_state.py:99-100 | from agreement, the first write of a persist keeps it exactly when `active.json` already shows that very record |
| `LeaseAgreement.StepAgreesIff` | scripts/prime_state.py:96-202 | an operation that may crash anywhere keeps agreement exactly when it does not die between the two writes of a record that changes anything |
| `LeaseAgreement.AgreementHoldsIff` | scripts/prime_state.py:96-202 | over every run with crashes, history and `active.json` agree in every state exactly when no event does that |
| `LeaseAgreement.CrashFreeAgrees` | scripts/prime_state.py:96-202 | in particular a run without crashes agrees in every state |
| `LeaseAgreement.PersistRepairsIff` | scripts/prime_state.py:96-103 | in any state crashes may leave, a completed persist restores agreement of its issue exactly when no half-written grant of the next generation lies in the history |
| `LeaseAgreement.RepairsIff` | scripts/prime_state.py:106-183 | a completed acquire, heartbeat or release that succeeds restores agreement of its issue, except a release under a half-written grant, which never does |
| `LeaseAgreement.ReapRepairs` | scripts/prime_state.py:186-202 | a completed reap restores agreement of every issue it fences |
| `LeaseAgreement.AgreementStays` | scripts/prime_state.py:96-202 | once an issue agrees it stays so through any run of completed operations |
| `LeaseAgreement.ReleaseUnderGrantIsReachable` | scripts/prime_state.py:175-183 | the exception occurs: four operations, one of them cut short, after which a successful release leaves the two apart |
| `LeaseRecovery.LivenessIsNotProgress` | scripts/prime_state.py:82-202 | through any run of liveness heartbeats, reaps and foreign operations, staleness depends only on the last progress, only a late reap fences, and an acquire succeeds exactly when the lease is stale or fenced |
| `LeaseRecovery.AcquireSucceedsIff` | scripts/prime_state.py:106-151 | in any state that runs may leave, an acquire succeeds exactly when its arguments are proper and the issue is free, fenced, released or stale; a refusal writes nothing |
| `LeaseRecovery.HeartbeatSucceedsIff` | scripts/prime_state.py:154-172 | a heartbeat succeeds exactly for the generation that reads ACTIVE |
| `LeaseRecovery.ReleaseSucceedsIff` | scripts/prime_state.py:175-183 | a release succeeds exactly for the generation shown, ACTIVE or not |
| `LeaseRecovery.TakeoverLeavesRecord` | scripts/prime_state.py:130-140 | a completed takeover leaves the fenced writer's grant in the history, SUPERSEDED, with the reason |
| `LeaseRecovery.ReleaseIsShown` | scripts/prime_state.py:175-183 | a completed release shows the same grant, RELEASED, with the time |
| `LeaseRecovery.FencedRecord` | scripts/prime_state.py:197-201 | what the reaper persists is the same grant, SUPERSEDED, with the reason, other times kept |
| `LeaseRecovery.ProgressRenews` | scripts/prime_state.py:154-172 | after a progress heartbeat an acquire is refused as held until a full bound has passed since that beat, and granted after |
| `LeaseRecovery.ReleaseFreesTheIssue` | scripts/prime_state.py:175-183 | after a release the generation is fenced off and the next acquire gets the next generation at once |
| `LeaseRecovery.ReapEffect` | scripts/prime_state.py:186-202 | a reap over any duplicate-free listing fences exactly the ACTIVE stale leases in it, reports exactly those, and changes no other directory |
| `LeaseRecovery.ReaperIsCompleteAndIdempotent` | scripts/prime_state.py:186-202 | on any reachable store and any listing of the root, stray names included, no ACTIVE stale lease remains except under the name ".", other leases are untouched, and a second call reaps nothing |
| `LeaseRecovery.DotLeaseIsNeverReaped` | scripts/prime_state.py:186-202 | a lease can be granted under the name ".", its three files are then a listing of the root, and once stale it stays ACTIVE through a reap over any listing |
| `LeaseRecovery.ReadLeaseHistory` | scripts/prime_state.py:71-79 | for any listing order the records come back as generations 1..n in numeric order, crashes included |
| `UnlockedReap.LateHistoryWriteIsSafe` | scripts/prime_state.py:194-201 | the first write of a reap that runs without the lock may come after any run of other operations: the invariant holds and `active.json` shows the same |
| `UnlockedReap.LateWriteKeepsRankIff` | scripts/prime_state.py:194-201 | the second write, after any further run, keeps what `active.json` shows moving forward exactly when no event between the reaper's reading and that write completed a grant of the issue |
| `UnlockedReap.LateWriteKeepsInvIff` | scripts/prime_state.py:194-201 | it keeps the whole invariant exactly when the history does not read ACTIVE for the fenced generation and holds none beyond the next |
| `UnlockedReap.HeartbeatBetweenTheWrites` | scripts/prime_state.py:154-172 | an input that breaks the invariant without a takeover: a heartbeat of the fenced writer between the two writes |
| `UnlockedReap.LateReapKeepsGrantsFreshIff` | scripts/prime_state.py:194-201 | the next acquire is granted and goes back over exactly as many generations as grants were completed in between, so its generation is new exactly when there was none |
| `UnlockedReap.LateReapGrantsTwice` | scripts/prime_workflow.py:515-516 | an input that breaks it: with a takeover in between, generation 2 is granted to two writers |
| `Fencing.GateAdmitsOnlyTheNewestWriter` | scripts/prime_state.py:205-231 | in every reachable state the pull request gate admits exactly an ACTIVE, unstale holder of this dispatch (a snapshot must equal the current record), and that is the newest generation and the only ACTIVE one |
| `Fencing.DispatchAdmitsOnlyTheNewestWriter` | scripts/prime_workflow.py:364-404 | in every reachable state the dispatch gate admits exactly a valid packet whose generation holds the lease in the named working copy, and no newer generation was ever written |
| `Fencing.GrantedPacketIsAdmitted` | scripts/prime_workflow.py:364-404 | right after a grant the dispatch gate admits the matching packet exactly when it carries the granted generation and the bound has not passed |
| `Fencing.BeatIsShown` | scripts/prime_state.py:154-172 | field by field, what a completed heartbeat changes: its time, and the progress time if it reports progress |
| `Fencing.BeatsKeepTheGrant` | scripts/prime_state.py:154-172 | the same over any run of completed heartbeats |
| `Fencing.HolderStaysAdmitted` | scripts/prime_workflow.py:364-404 | through any run of completed heartbeats of the holder the dispatch gate admits its packet exactly until a bound has passed since the last reported progress |
| `Fencing.FencedGenerationIsRefusedForever` | scripts/prime_workflow.py:364-404 | once a generation is fenced off, every packet with it is refused by the dispatch gate and every snapshot of it by the pull request gate, in all later states |
| `Fencing.TakeoverFences` | scripts/prime_state.py:106-151 | a completed takeover fences off every earlier generation |
| `Fencing.FencedWriterCannotWrite` | scripts/prime_state.py:154-183 | a fenced writer's heartbeats write nothing in any later state, nor does its release once it was overtaken |
| `Fencing.DispatchStaysAway` | scripts/prime_state.py:96-202 | over any run, only an acquire with that dispatch id can make an issue be held by it |
| `Fencing.OvertakenPacketIsRefusedForever` | scripts/prime_state.py:205-231 | with distinct dispatch ids, the packet of an overtaken attempt is refused by the pull request gate in every later state, with or without a snapshot |
| `Fencing.DispatchChangesOnlyByGrant` | scripts/prime_state.py:96-202 | in any single step, crashing or not, only a completed grant to a dispatch id can make the issue be held by it |
| `Fencing.OvertakenPacketIsRefusedIff` | scripts/prime_state.py:205-231 | once another attempt holds the issue, the packet is refused through a whole run, at every clock reading and with every snapshot, exactly when no event completes a grant to its own dispatch id |
| `Fencing.ReusedDispatchIdFoolsTheGate` | scripts/prime_state.py:205-231 | with a reused id the pull request gate admits a packet of generation 1 under generation 2, which the dispatch gate refuses |
| `ProofGate.HashArtifacts` | scripts/prime_workflow.py:407-432 | passes exactly when every PASS gate's artifact has its recorded digest; collects exactly the artifacts so vouched for |
| `ProofGate.CheckReferences` | scripts/prime_workflow.py:407-432 | passes exactly when every acceptance reference is a vouched artifact |
| `ProofGate.ValidatePacket` | scripts/prime_workflow.py:107-211 | the loops accept exactly the valid packets |
| `ProofGate.ValidateProof` | scripts/prime_workflow.py:53-94 | the loops accept exactly the proofs of this head that are complete |
| `ProofGate.ValidatePacketProof` | scripts/prime_workflow.py:214-233 | the loop accepts exactly the proofs that fit the packet |
| `ProofGate.CheckBundle` | scripts/prime_workflow.py:407-432 | the loops accept exactly the bundles that satisfy the declarative statement of acceptance, and then every criterion of the packet is proven |
| `ProofGate.AcceptedMeansProven` | scripts/prime_workflow.py:53-233 | proven means: the criterion's evidence consists of artifacts of gates that passed with exit code 0 and whose digest is on record; every required gate ran exactly the packet's command; a gate that did not run was waived in the packet for the same reason by the same approver; proof and review name the current head and the review approves it; the acceptance gate was not waived |
| `Checkpoints.RunsSupplyAllEvidenceInOrder` | scripts/prime_workflow.py:324-340 | a run of transitions reaches a state exactly when it names every state on the way in order, each with its evidence flag |
| `Checkpoints.RunsWalkThePath` | scripts/prime_workflow.py:324-340 | from READY the ten states are walked in this order, each with this flag |
| `Checkpoints.CheckpointStore.WriteCheckpoint` | scripts/prime_state.py:315-338 | accepted exactly for a complete checkpoint that does not regress its issue; an accepted write stores everything it was given, except the completed list, which is stated case by case; a refused one changes nothing |
| `Checkpoints.NeverRegressesWithinAnIssue` | scripts/prime_state.py:315-338 | through any stretch of attempts on one issue the stored state never moves back |
| `Checkpoints.CompletedIssuesAreThoseLeftAtDone` | scripts/prime_state.py:315-338 | the stored list holds exactly the issues ever left at DONE, once each, all along a run exactly when every accepted write brings an empty list to a missing file and, for the stored issue, the stored issues in any order |
| `Checkpoints.RightAfterWriteIff` | scripts/prime_state.py:315-338 | one more write keeps a right list right exactly under that condition |
| `Checkpoints.SameIssueWriteMayForget` | scripts/prime_state.py:332-336 | an input that breaks it: a same-issue write that passes an empty list |
| `Watchdog.IdleIsOneTest` | scripts/prime_supervisor.py:491-510 | comparing the clock with one loop variable is the same as asking whether any observed progress in the whole history lies within the idle window |
| `Watchdog.RunAttempt` | scripts/prime_supervisor.py:491-510 | the loop ends at the first round with something to report, with the right reason, and within timeout/poll further rounds |
| `Watchdog.NoProgressMeansNothingChanged` | scripts/prime_supervisor.py:406-413 | NO_PROGRESS means that source state and receipt of every fingerprint in the idle window are equal |
| `Watchdog.ArtifactChurnIsInvisible` | scripts/prime_state.py:456-473 | two environments that differ only in artifacts end in the same round for the same reason |
| `Watchdog.Recover` | scripts/prime_supervisor.py:654-666 | attempts until the first success, at most max_restarts + 1, 0 exactly when the last one succeeded, and the successive statuses written |
| `Redaction.OrderGivesLongestMatch` | scripts/record_home_prompt.py:146-150 | ordering the paths by character count makes the first match the longest byte match, in either tie order, and drops no usable path |
| `Redaction.ScanParts` | scripts/record_home_prompt.py:157-166 | every emitted byte goes to the part of the chunk in which its input began |
| `Redaction.PartsAreTheRedaction` | scripts/record_home_prompt.py:137-167 | parts split by owner join back to the leftmost, first-in-order redaction of the whole stream |
| `Redaction.TokensTile` | scripts/record_home_prompt.py:157-166 | the scan's steps tile the stream |
| `Redaction.SanitizeChunks` | scripts/record_home_prompt.py:137-167 | chunk count and times are kept; the joined output is the redaction of the joined input for every chunking; before each chunk boundary lies exactly the output of what began before it, which with the former fixes every chunk; a recording in which nothing matches comes back unchanged |
| `Redaction.SanitizeRecording` | scripts/record_home_prompt.py:137-167 | for the working directory and home directory: of a path without markers, and of any text around it, nothing is left in the joined output |
| `Redaction.RedactionCanBeUndone` | scripts/record_home_prompt.py:157-166 | redaction only puts markers in the place of paths: undoing some of them gives the input back |
| `Redaction.SurvivesIff` | scripts/record_home_prompt.py:137-167 | some stream lets a byte string survive exactly when one of the finitely many texts obtained by undoing markers inside it redacts back to it, which is computed from the string and the paths alone |
| `Redaction.ReplacedPathNeverSurvives` | scripts/record_home_prompt.py:137-145 | a replaced path without marker bytes occurs in no output, across any chunk boundary |
| `Redaction.TextAroundItNeverSurvives` | scripts/record_home_prompt.py:137-145 | nor does any text that contains such a path, markers or not |
| `Redaction.HostPathsNeverSurvive` | scripts/record_home_prompt.py:137-167 | both for the working directory and the home directory as the program orders and encodes them, so a dotted directory below a home without markers is gone too |
| `Redaction.OnePathSurvivesIff` | scripts/record_home_prompt.py:137-167 | with one path to replace, it can survive exactly when it contains its own marker |
| `CastEvents.Coalesce` | scripts/record_tui_demo.py:139-156 | for any open test the loop returns the events of the one segmentation in which every proper prefix of an event is open and every event but the last is closed, each stamped with its first read |
| `CastEvents.CoalesceAtomic` | scripts/record_tui_demo.py:139-156 | the same with the code's own test, and the bytes are unchanged |
| `CastEvents.SegmentationIsUnique` | scripts/record_tui_demo.py:139-156 | a recording has only one such segmentation |
| `CastEvents.BytesArePreserved` | scripts/record_tui_demo.py:139-156 | grouping loses, adds and reorders no byte |
| `CastEvents.SyncIsOpenIff` | scripts/record_tui_demo.py:112-119 | a synchronized block is open exactly when its opening text occurs at more positions than its closing text |
| `CastEvents.CoalescingIsIdempotent` | scripts/record_tui_demo.py:139-156 | coalescing a coalesced recording changes nothing |
| `CastEvents.RFindIsLast` | scripts/record_tui_demo.py:122-136 | no occurrence lies after the one the open test looks at |
| `CastEvents.ScanIsLastIntroducer` | scripts/record_tui_demo.py:122-136 | a left-to-right scanner in which an introducer starts a new sequence, whatever was open, is in the middle of the sequence introduced last, or of nothing if that one has ended |
| `CastEvents.EscapeTestIsWrongIff` | scripts/record_tui_demo.py:122-136 | measured against that scanner, the test never takes a finished chunk for an unfinished one, and misses an unfinished one exactly when a bare ESC follows a sequence that had ended or a BEL lies inside a DCS that still waits for its ST |
| `CastEvents.StrictTestIsWrongIff` | scripts/record_tui_demo.py:122-136 | measured against a stricter scanner, in which an OSC or DCS swallows introducers until its own terminator: outside a string the same two families; where the last introducer lies inside a string, exactly when the bytes after it are open by one and not by the other of two readings: they hold no terminator that the test accepts for the introducer; they hold no terminator of the string, or end in a bare ESC |
| `CastEvents.SwallowedIntroducers` | scripts/record_tui_demo.py:122-136 | an input for each direction |
| `CastEvents.TrailingEscapeIsNoticedIff` | scripts/record_tui_demo.py:122-136 | a trailing ESC is noticed exactly when nothing was introduced before it or the chunk was unfinished already |
| `CastEvents.TrailingEscapeIsMissed` | scripts/record_tui_demo.py:129-136 | an input for the first reason |
| `CastEvents.BellInDcsIsMissed` | scripts/record_tui_demo.py:135-136 | an input for the second reason |
| `Scenario.CollectMilestones` | scripts/record_tui_demo.py:298-312 | two nodes are found live at once exactly when at some moment two were dispatched and not terminated; milestones are the wanted events, all of them, in order |
| `Scenario.MilestonesSuffice` | scripts/record_tui_demo.py:298-321 | dropping other events neither loses nor invents an ordered recovery |
| `Scenario.ScanInOrder` | scripts/record_tui_demo.py:313-321 | the greedy iterator scan succeeds exactly when positions i<j<k with failure, cooldown and reassignment exist |
| `Scenario.ValidateScenarioEvents` | scripts/record_tui_demo.py:298-321 | the verdict on any event list, stated over the events alone |
| `Graphs.Reach` | scripts/check_reachability.py:451-457 | the worklist stops despite repeated pushes and marks a module exactly when a path from a root leads to it |
| `ImportGraph.BuildGraph` | scripts/check_reachability.py:437-450 | edges and roots of the repository: tests skipped, later files win, entry points with their packages |
| `ImportGraph.OrphanModules` | scripts/check_reachability.py:437-467 | reports exactly the verdict files that no chain of imports and module names reaches from where production starts, in file order |
| `ImportGraph.EdgesAre` | scripts/check_reachability.py:437-446 | the edges followed are those of the last file outside the tests with that module name: the other modules its tree names |
| `ImportGraph.DependenciesAre` | scripts/check_reachability.py:410-434 | a tree depends on exactly what its nodes name wherever they stand: plain, from- and relative imports and module texts, each spelled out |
| `ImportGraph.ChildrenAreWithin` | scripts/check_reachability.py:415 | the walk passes no node over |
| `ImportGraph.DependenciesAreClosed` | scripts/check_reachability.py:405-434 | the dependencies of any tree contain all parent packages of each of them |
| `ImportGraph.ParentPackagesAreReached` | scripts/check_reachability.py:405-467 | whatever is reached through an import or an entry point has all its parent packages reached |
| `References.Visitor.Visit` | scripts/check_reachability.py:240-313 | visiting a node adds exactly the references that the scope chain gives, and restores all three pieces of scope state |
| `References.Visitor.VisitAll` | scripts/check_reachability.py:240-313 | the same for a list of nodes |
| `References.Visitor.VisitFunctionBody` | scripts/check_reachability.py:255-261 | a function body is resolved in a new function scope; state restored |
| `References.Visitor.VisitClassBody` | scripts/check_reachability.py:274-278 | a class body is resolved in a new class scope; state restored |
| `References.ReferencedNames` | scripts/check_reachability.py:200-315 | the visitor's result is that of a recursion that passes the scope chain down the tree, and consists of exactly what the nodes give where they stand, in terms of the import statements visible there |
| `Scoping.ScopeBindsLast` | scripts/check_reachability.py:209-236 | a scope resolves a name to what the last import clause of its body, outside nested definitions, binds it to: from-imports, plain and renamed imports spelled out, relative ones bind nothing |
| `Scoping.ClausesBelow` | scripts/check_reachability.py:209-236 | no import below a node that is not a definition is passed over |
| `Scoping.LookupIsVisible` | scripts/check_reachability.py:240-278 | walking outward finds exactly what the innermost body seen from a place binds; class bodies are not seen from functions in them |
| `References.OwnRefsAreGiven` | scripts/check_reachability.py:280-311 | what one node gives, spelled out for names, getattr calls and dotted names |
| `References.ChildrenAreRead` | scripts/check_reachability.py:245-278 | no node is passed over: with a node all its children are read, decorators and bases in the outer scope, bodies in their own |
| `References.FromImportIsReferenced` | scripts/check_reachability.py:219-222 | after `from m import n` a load of the name gives m.n and nothing else |
| `References.MirrorsFunction` | scripts/check_reachability.py:255-258 | the two dictionaries stay equal to outward lookup when a function is entered |
| `References.MirrorsClass` | scripts/check_reachability.py:274-275 | the same when a class is entered |
| `References.RefsFollowAnswers` | scripts/check_reachability.py:280-311 | references depend on the scopes only through what they resolve |
| `References.MethodsIgnoreClassImports` | scripts/check_reachability.py:245-278 | inside a method, at any depth, the imports of the class body make no difference |
| `Ratchet.LoadBaseline` | scripts/check_reachability.py:350-375 | accepts exactly lists of complete entries with distinct names |
| `Ratchet.NewEntries` | scripts/check_reachability.py:665-673 | silent exactly when the baseline gained no name, or the file was absent at the base |
| `Ratchet.StaleEntries` | scripts/check_reachability.py:599-603 | silent exactly when every baseline name is still a finding |
| `Ratchet.TouchedEntries` | scripts/check_reachability.py:687-705 | silent exactly when no untriaged entry lies in a touched module; counts the untriaged ones |
| `Ratchet.RuleErrors` | scripts/check_reachability.py:718-734 | silent exactly when no rule was dropped while its symbol exists, none grew, and none allows an unused module |
| `Ratchet.RunRatchet` | scripts/check_reachability.py:632-735 | reports nothing exactly when the whole promise between the two commits holds, spelled out entry by entry and rule by rule |
| `Ratchet.AcceptedBaselinesAreExact` | scripts/check_reachability.py:597-735 | in an accepted commit baseline names equal finding names and allowed modules equal real users |
| `Ratchet.FindingsOnlyShrink` | scripts/check_reachability.py:632-735 | along any accepted history that keeps the baseline files, findings and orphans only shrink |
| `Ratchet.UsersOnlyShrink` | scripts/check_reachability.py:718-734 | along any accepted history the production users of a symbol only shrink for as long as its rule is kept |
| `Ratchet.ShrinksIffFileKept` | scripts/check_reachability.py:660-673 | between accepted commits the findings shrink exactly when the baseline file was there to compare with or nothing is found any more |
| `Ratchet.RemovedBaselineIsReseeded` | scripts/check_reachability.py:665-667 | a removed baseline may be seeded again with any entries |
| `Ratchet.RulesOutliveTheirSymbols` | scripts/check_reachability.py:718-724 | a rule disappears only together with its public symbol |
| `Ratchet.CountIsConserved` | scripts/check_reachability.py:687-716 | between two lists, untriaged before plus relabelled equals untriaged after plus settled |
| `Ratchet.PotGrowsIff` | scripts/check_reachability.py:687-716 | an accepted commit changes the untriaged count by exactly what it relabels and settles, so the count grows exactly when more is relabelled than settled |
| `Ratchet.UntriagedIsConserved` | scripts/check_reachability.py:687-716 | the same account over any accepted history |
| `Ratchet.BurnBudget` | scripts/check_reachability.py:687-716 | n per commit that had to burn n or more, plus what is left, is at most the initial pot plus what other commits relabelled |
| `Ratchet.BurnsAreBounded` | scripts/check_reachability.py:706-716 | in any mixture of commits a pot of U pays for at most U/n burns of n or more, if the commits that need not burn n relabel nothing |
| `Ratchet.TrainsAreBounded` | scripts/check_reachability.py:706-716 | if every commit must burn n or more, a pot of U lasts at most U/n commits |
| `Ratchet.RelabellingRefillsThePot` | scripts/check_reachability.py:687-716 | otherwise a pot of one entry pays for any number of burns |
| `Certification.CertifiedMeansAllElevenPass` | scripts/certify_release.py:1169-1239 | CERTIFIED exactly when the required ids and no others are present, every step passed with its evidence, the tree was clean, and both test runs agree case by case; FAILED exactly when a step failed |
| `Certification.CertifiedEvidence` | scripts/certify_release.py:1148-1239 | what the evidence of each step then shows, and that the clean and the dirty test run have the same nonempty cases with the same outcomes |
| `Certification.CertifiedSteps` | scripts/certify_release.py:1169-1195 | each of the listed step ids is there and no other |
| `Certification.CertifiedHasElevenSteps` | scripts/certify_release.py:1169-1239 | those ids are eleven |
| `Certification.RehearseOne` | scripts/certify_release.py:942-1142 | one trip round the loop fails, or leaves a note, exactly under the stated defects |
| `Certification.StepRehearsals` | scripts/certify_release.py:942-1142 | PASS and the token go together and mean two rehearsals each vouched for: no problems, COMPLETE, the certified commit, and every verified statement is provenance of exactly the receipt's digest; attested runs that do not pass fall short in a stated way; local runs fail exactly for a stated defect and never pass |
| `Certification.CertifiedMeansAttestedRehearsals` | scripts/certify_release.py:926-1239 | over any list of steps in which only the token is genuine, CERTIFIED implies a clean and a chaos rehearsal that verified, completed, match the commit and their attested digest, without faults and with at least one injected failure respectively |
| `Certification.ForgedRehearsalNeverCertifies` | scripts/certify_release.py:1215-1220 | a rehearsal entry without the token rules CERTIFIED out, whatever it claims |
| `Certification.Manifest.WriteBundle` | scripts/certify_release.py:1530-1609 | the written verdict is CERTIFIED exactly when it was, git answered twice and the last answer was empty; otherwise a certificate becomes FAILED |
| `Publication.CertificationStore.Run` | scripts/certify_release.py:1775-1836 | the step-by-step attempt, dying anywhere, changes the store as the function of the old store says |
| `Publication.PublishedBundlesSurvive` | scripts/certify_release.py:1700-1721 | every bundle that ever stood at the managed path stays there or under .history, wherever later attempts die |
| `Publication.OccupantFate` | scripts/certify_release.py:1700-1721 | one attempt leaves the occupant, replaces it by a CERTIFIED bundle, or died between the renames |
| `Publication.SurvivorIsRecorded` | scripts/certify_release.py:1797-1836 | an attempt that lives to its end is recorded with its verdict, its bundle exists, and a CERTIFIED one is at the managed path |
| `Publication.DeadAttemptsReadAborted` | scripts/certify_release.py:1817-1826 | an attempt that dies is recorded ABORTED wherever a record could be written, and one that dies before publishing changes no bundle |
| `Publication.EmptiedIff` | scripts/certify_release.py:1700-1721 | an attempt empties an occupied path exactly when it is certified, meant for that path, draws a fresh history name and dies between the renames |
| `Publication.UncertifiedArrivesIff` | scripts/certify_release.py:1797-1816 | an uncertified bundle comes to the managed path exactly when the path was free and the attempt reached the second rename |
| `Publication.OnlyCertifiedReplaces` | scripts/certify_release.py:1797-1816 | over any run, an occupied path stays occupied throughout exactly when no attempt empties it, and then only CERTIFIED bundles take it over |
| `Publication.DeathBetweenRenamesLetsOthersIn` | scripts/certify_release.py:1700-1721 | a run in which that happens: an unfinished attempt takes the place of a certified bundle, which survives in the history |
| `Publication.CertifiedRecordsArePublished` | scripts/certify_release.py:1775-1836 | after any run, a record that reads CERTIFIED belongs to a published bundle, and every finished record to an existing one |
| `EvidenceBundle.ValidatedManifest` | scripts/evidence_bundle.py:110-140 | accepts exactly valid manifests and returns the canonical form |
| `EvidenceBundle.SortingSorts` | scripts/evidence_bundle.py:110-140 | the canonical listing is sorted and has the same records |
| `EvidenceBundle.LessIs` | scripts/evidence_bundle.py:78 | the order of the listing is that of the texts, character by character |
| `EvidenceBundle.SortedIsUnique` | scripts/evidence_bundle.py:68-79 | one set of records has one sorted listing |
| `EvidenceBundle.ManifestDependsOnlyOnRecords` | scripts/evidence_bundle.py:24-29 | manifest bytes and bundle name depend only on the set of records |
| `EvidenceBundle.OneCatalogue` | scripts/evidence_bundle.py:68-79 | a directory has at most one canonical manifest of its files |
| `EvidenceBundle.CollectEvidence` | scripts/evidence_bundle.py:50-79 | refused exactly when something in the directory is not allowed, otherwise that one manifest, for every listing order |
| `EvidenceBundle.CheckMember` | scripts/evidence_bundle.py:162-199 | an archive member passes exactly when it is a file with the recorded content |
| `EvidenceBundle.VerifyArchive` | scripts/evidence_bundle.py:162-199 | accepts exactly archives without duplicates that hold the manifest and the listed files as recorded |
| `EvidenceBundle.VerifyBundle` | scripts/evidence_bundle.py:202-230 | accepts exactly when manifest, directory and archive agree in names, sizes and digests |
| `EvidenceBundle.CreateBundle` | scripts/evidence_bundle.py:233-269 | whatever it creates verifies; it succeeds whenever the records are those of the directory |
| `EvidenceBundle.FreshBundleVerifies` | scripts/evidence_bundle.py:233-269 | the round trip: records of an unchanged directory give a bundle that verifies on disk and in the archive |
| `EvidenceBundle.CollectCreateVerify` | scripts/evidence_bundle.py:68-269 | collecting, creating and verifying succeeds exactly on directories that hold nothing but allowed files |
| `EvidenceBundle.DotNeverVerifies` | scripts/evidence_bundle.py:32-47 | the path "." passes the path check, yet no verified manifest lists it |
| `EvidenceBundle.PathsAre` | scripts/evidence_bundle.py:32-65 | the two path checks let through exactly paths of plain names with one of the five suffixes, other than the manifest's |
| `EvidenceBundle.VerifiedPathsArePlain` | scripts/evidence_bundle.py:202-230 | everything a verified manifest lists is such a path, and the file there has the recorded size and digest |
| `EvidenceBundle.EqualFilesEqualManifests` | scripts/evidence_bundle.py:202-230 | verified directories with equal files have equal manifests, byte for byte |
| `EvidenceBundle.VerifiedDirectoriesAgree` | scripts/evidence_bundle.py:202-230 | if neither the two manifests nor two files of one name collide, two verified directories have the same bundle name exactly when they hold the same files |

## Left out

- Foreign calls: subprocesses, git, `gh`, terminals, HTTP and signals. Their answers are parameters.
- SHA-256, JSON and tar encodings are parameters; that they can be read back, or that two given contents do not collide, is assumed only where a contract says so.
- `flock` and `merge_guard`: in the run model each lease operation is one step that may crash but does not interleave with another. For the unlocked `lease-reap` this is an assumption; `UnlockedReap.dfy` states what one late reap of one issue does without it, and several unlocked reaps at once are not modelled.
- The `lease.lock` marker, ISO forms of times, and lease records whose fields have the wrong JSON type.
- The `verdict/orchestration` runtime is not part of this model.
- Controller selection, session economics, cooldowns and bundle wiring in `scripts/prime_supervisor.py`.
- `classify_ci`, `classify_merge_state`, `ci_recovery_action`, `select_ready`, `validate_receipt`: decision tables over one record each, with no state and no interplay with the parts modelled here.
- `contracts/index.ts`, renderers, recorders, smoke scripts, benchmarks and documentation checkers.
- `to_asciicast` and `trim_leading_idle`: decoding is library code and the rest is a short filter.
- Finding unreferenced symbols (`vulture`, stub defaults, the bodies of `check` that fill the finding lists): the findings of a commit are given.
- Baselines at a path other than the default one, and the working tree differing from the commit it is checked as.
- Directory listings are given as sequences; case-insensitive file systems and names that are not text are not modelled.
- Attempts of certification started as a library call, which record INCOMPLETE and publish nothing, and the symbolic-link and ignore checks of `prepare_bundle_dir`; one commit's directories are modelled.
- Floating-point times are reals.
- CrashFreeStoreIsExact: is about runs without crashes; `AgreementHoldsIff` and `RepairsIff` cover the others.
- An issue whose name is that of a file of the "." lease, such as `active.json`: its directory could not be made.
