/** The gates that consume a lease, and the fencing guarantee over whole runs: no writer
    whose generation was overtaken gets past them again. */
module Fencing {
  import opened Prelude
  import opened Leases
  import opened LeaseRuns
  import opened Packets

  datatype GateError =
    | LeaseError(error: Error)
    | NoActiveLease
    | NotActive
    | AttemptMismatch
    | Superseding
    | StaleLease
    | InvalidPacket
    | WrongWorktree
    | StalePacket
    | WrongBranch
    | StaleBase
    | GenerationSuperseded
    | ForeignLease

  /** `require_lease_for_pr`. */
  function RequireLeaseForPr(disk: Disk, packet: Packet, now: real, hint: Option<Lease>): Result<Lease, GateError> {
    if !ValidIssue(packet.issue) then Err(LeaseError(InvalidIssue))
    else
      var active := DirOf(disk, packet.issue).active;
      var lease := if hint.Some? then hint else active;
      if lease.None? then Err(NoActiveLease)
      else if lease.value.status != ACTIVE then Err(NotActive)
      else if lease.value.dispatchId != packet.attemptId then Err(AttemptMismatch)
      else if lease != active then Err(Superseding)
      else match LeaseIsStale(lease.value, now)
        case Err(e) => Err(LeaseError(e))
        case Ok(stale) => if stale then Err(StaleLease) else Ok(lease.value)
  }

  /** What the dispatcher observes: the repository it runs in, the issue revision and git. */
  datatype Dispatch = Dispatch(
    repo: string, issueUpdatedAt: string, checkedOut: string, baseIsAncestor: bool, now: real)

  /** `validate_dispatch`; `resolve` is path resolution. */
  function ValidateDispatch(disk: Disk, packet: Packet, d: Dispatch, resolve: string -> string)
    : Result<Lease, GateError>
  {
    if !ValidPacket(packet) then Err(InvalidPacket)
    else if resolve(packet.worktree) != resolve(d.repo) then Err(WrongWorktree)
    else if packet.issueUpdatedAt != d.issueUpdatedAt then Err(StalePacket)
    else if d.checkedOut != packet.branch then Err(WrongBranch)
    else if !d.baseIsAncestor then Err(StaleBase)
    else match RequireLeaseForPr(disk, packet, d.now, None)
      case Err(e) => Err(e)
      case Ok(lease) =>
        if lease.generation != packet.lease.generation then Err(GenerationSuperseded)
        else if IsAbsolute(lease.worktree) && resolve(lease.worktree) == resolve(d.repo)
                && lease.branch == packet.branch then Ok(lease)
        else Err(ForeignLease)
  }

  /** The record in `active.json` is an ACTIVE one, dispatched for this packet and not stale. */
  predicate HeldFor(dir: Dir, packet: Packet, now: real) {
    && HoldsActive(dir)
    && dir.active.value.dispatchId == packet.attemptId
    && now - dir.active.value.lastProgressAt <= dir.active.value.staleAfter
  }

  /** In any reachable state, crashes included, the pull request gate admits exactly the
      holder of the lease (a snapshot must equal the current record), and what it returns is
      that record: at least as new as every generation ever written to the history, and the
      only one that reads ACTIVE there. */
  lemma GateAdmitsOnlyTheNewestWriter(es: seq<Event>, packet: Packet, now: real, hint: Option<Lease>)
    ensures var dir := DirOf(Exec(map[], es), packet.issue);
            var answer := RequireLeaseForPr(Exec(map[], es), packet, now, hint);
            && (answer.Ok? <==> HeldFor(dir, packet, now) && (hint.Some? ==> hint == dir.active))
            && (answer.Ok? ==>
                  && dir.active == Some(answer.value)
                  && (forall g :: g in dir.history ==> g <= answer.value.generation)
                  && (forall g :: g in dir.history && dir.history[g].status == ACTIVE ==> g == answer.value.generation))
  {
    RunsKeepInvariant(map[], es, packet.issue);
    if packet.issue in Exec(map[], es) {
      assert DirInv(packet.issue, DirOf(Exec(map[], es), packet.issue));
    }
  }

  /** The working copy is the one that the packet and its holder name (`worktree` and `branch`
      are the holder's), at the issue's current revision. */
  predicate SameWork(
      packet: Packet, d: Dispatch, worktree: string, branch: string, resolve: string -> string) {
    && packet.issueUpdatedAt == d.issueUpdatedAt && d.baseIsAncestor
    && d.checkedOut == packet.branch == branch
    && IsAbsolute(worktree)
    && resolve(packet.worktree) == resolve(d.repo) == resolve(worktree)
  }

  /** The dispatch gate in any reachable state: it admits exactly a valid packet whose
      generation is the one that holds the lease, in the right working copy; and then no
      generation above the packet's was ever written. */
  lemma DispatchAdmitsOnlyTheNewestWriter(es: seq<Event>, packet: Packet, d: Dispatch, resolve: string -> string)
    ensures var dir := DirOf(Exec(map[], es), packet.issue);
            var answer := ValidateDispatch(Exec(map[], es), packet, d, resolve);
            && (answer.Ok? <==>
                  && ValidPacket(packet) && HeldFor(dir, packet, d.now)
                  && packet.lease.generation == ActiveGeneration(dir)
                  && SameWork(packet, d, dir.active.value.worktree, dir.active.value.branch, resolve))
            && (answer.Ok? ==> forall g :: g in dir.history ==> g <= packet.lease.generation)
  {
    GateAdmitsOnlyTheNewestWriter(es, packet, d.now, None);
  }

  /** The other direction for the dispatch gate: right after a grant, the packet of that
      very attempt is admitted for as long as the bound has not passed, and no longer; with
      any other generation it is refused. */
  lemma GrantedPacketIsAdmitted(disk: Disk, e: Event, packet: Packet, d: Dispatch, resolve: string -> string)
    requires Inv(disk) && e.op.Acquire? && Completes(disk, e) && PlanOf(disk, e.op).outcome.Granted?
    requires ValidPacket(packet) && packet.issue == e.op.issue && packet.attemptId == e.op.dispatchId
    requires SameWork(packet, d, e.op.worktree, e.op.branch, resolve)
    ensures ValidateDispatch(Step(disk, e), packet, d, resolve).Ok? <==>
              && packet.lease.generation == ActiveGeneration(DirOf(disk, e.op.issue)) + 1
              && d.now - e.op.now <= e.op.staleAfter
  {
    GrantIsActive(disk, e);
  }

  /** A completed heartbeat of the holder. */
  predicate IsBeat(e: Event, issue: string, g: int) {
    e.op.Heartbeat? && e.op.issue == issue && e.op.generation == g && e.reached >= 2
  }

  /** When the last of the beats that report progress was, or `start` if none does. */
  function LastProgressTime(es: seq<Event>, start: real): real {
    if es == [] then start
    else
      var last := es[|es| - 1];
      if last.op.Heartbeat? && last.op.progress then last.op.now else LastProgressTime(es[..|es| - 1], start)
  }

  /** What beats leave in `active.json`: the same grant, ACTIVE, with the time of the last beat
      and of the last progress. */
  lemma {:induction false} BeatsKeepTheGrant(disk: Disk, es: seq<Event>, issue: string, start: Lease)
    requires Inv(disk) && DirOf(disk, issue).active == Some(start) && start.status == ACTIVE
    requires forall i :: 0 <= i < |es| ==> IsBeat(es[i], issue, start.generation)
    ensures var active := DirOf(Exec(disk, es), issue).active;
            && active.Some? && SameGrant(active.value, start) && active.value.status == ACTIVE
            && active.value.lastProgressAt == LastProgressTime(es, start.lastProgressAt)
            && active.value.heartbeatAt == (if es == [] then start.heartbeatAt else es[|es| - 1].op.now)
    decreases |es|
  {
    if es != [] {
      var init, last := es[..|es| - 1], es[|es| - 1];
      BeatsKeepTheGrant(disk, init, issue, start);
      RunsKeepInvariant(disk, init, issue);
      assert es == init + [last];
      ExecConcat(disk, init, [last]);
      assert [last][1..] == [] && Exec(Exec(disk, init), [last]) == Step(Exec(disk, init), last);
      BeatIsShown(Exec(disk, init), last, issue);
    }
  }

  /** Spelled out: a completed heartbeat changes the time of the heartbeat, that of the progress
      if it reports any, and nothing else. */
  lemma BeatIsShown(disk: Disk, e: Event, issue: string)
    requires Inv(disk) && HoldsActive(DirOf(disk, issue))
    requires IsBeat(e, issue, ActiveGeneration(DirOf(disk, issue)))
    ensures var before, after := DirOf(disk, issue).active.value, DirOf(Step(disk, e), issue).active;
            && after.Some? && SameGrant(after.value, before) && after.value.status == ACTIVE
            && after.value.heartbeatAt == e.op.now && after.value.heartbeatIso == Some(e.op.now)
            && after.value.lastProgressAt == (if e.op.progress then e.op.now else before.lastProgressAt)
            && after.value.progressIso == (if e.op.progress then Some(e.op.now) else before.progressIso)
            && after.value.supersededReason == before.supersededReason && after.value.releasedAt == before.releasedAt
  {
    DirOfInv(disk, issue);
    OneLeaseIsStored(disk, e, PlanOf(disk, e.op).leases[0]);
  }

  /** Through any run of completed heartbeats of the holder its packet stays admitted, exactly
      until a bound has passed since the last progress it reported. */
  lemma HolderStaysAdmitted(
      disk: Disk, e: Event, es: seq<Event>, packet: Packet, d: Dispatch, resolve: string -> string)
    requires Inv(disk) && Grants(disk, e, packet.issue)
    requires var g := ActiveGeneration(DirOf(disk, e.op.issue)) + 1;
             && packet.lease.generation == g
             && forall i :: 0 <= i < |es| ==> IsBeat(es[i], packet.issue, g)
    requires ValidPacket(packet) && packet.attemptId == e.op.dispatchId
    requires SameWork(packet, d, e.op.worktree, e.op.branch, resolve)
    ensures ValidateDispatch(Exec(Step(disk, e), es), packet, d, resolve).Ok? <==>
              d.now - LastProgressTime(es, e.op.now) <= e.op.staleAfter
  {
    GrantShowsRequest(disk, e);
    StepKeeps(disk, e, packet.issue);
    var lease := DirOf(Step(disk, e), packet.issue).active.value;
    BeatsKeepTheGrant(Step(disk, e), es, packet.issue, lease);
    AdmittedWhileFresh(Exec(Step(disk, e), es), packet, d, resolve);
  }

  /** The dispatch gate for the packet of the current holder. */
  lemma AdmittedWhileFresh(disk: Disk, packet: Packet, d: Dispatch, resolve: string -> string)
    requires ValidIssue(packet.issue) && HoldsActive(DirOf(disk, packet.issue)) && ValidPacket(packet)
    requires var lease := DirOf(disk, packet.issue).active.value;
             && lease.staleAfter > 0.0 && lease.dispatchId == packet.attemptId
             && lease.generation == packet.lease.generation
             && SameWork(packet, d, lease.worktree, lease.branch, resolve)
    ensures ValidateDispatch(disk, packet, d, resolve).Ok? <==>
              var lease := DirOf(disk, packet.issue).active.value;
              d.now - lease.lastProgressAt <= lease.staleAfter
  {
  }

  /** Once generation `g` of an issue is fenced off, it is refused in every later state,
      whatever happens in between: as a packet by the dispatch gate, as a lease snapshot by
      the pull request gate. */
  lemma FencedGenerationIsRefusedForever(disk: Disk, es: seq<Event>, packet: Packet, g: int,
                                         d: Dispatch, resolve: string -> string, now: real, snapshot: Lease)
    requires Inv(disk) && FencedOff(disk, packet.issue, g)
    ensures packet.lease.generation == g ==> ValidateDispatch(Exec(disk, es), packet, d, resolve).Err?
    ensures snapshot.generation == g ==> RequireLeaseForPr(Exec(disk, es), packet, now, Some(snapshot)).Err?
  {
    FencingIsPermanent(disk, es, packet.issue, g);
  }

  /** A completed takeover fences off every earlier generation. */
  lemma TakeoverFences(disk: Disk, e: Event, g: int)
    requires Inv(disk) && e.op.Acquire? && Completes(disk, e) && PlanOf(disk, e.op).outcome.Granted?
    requires g < PlanOf(disk, e.op).outcome.lease.generation
    ensures FencedOff(Step(disk, e), e.op.issue, g)
  {
    GrantIsActive(disk, e);
  }

  /** A writer that was fenced off cannot even keep its own record up to date: every later
      heartbeat under that generation is refused, and once overtaken so is its release. */
  lemma FencedWriterCannotWrite(disk: Disk, es: seq<Event>, issue: string, g: int, progress: bool, now: real)
    requires Inv(disk) && FencedOff(disk, issue, g)
    ensures PlanOf(Exec(disk, es), Heartbeat(issue, g, progress, now)).leases == []
    ensures ActiveGeneration(DirOf(disk, issue)) > g ==> PlanOf(Exec(disk, es), Release(issue, g, now)).leases == []
  {
    RunsKeepInvariant(disk, es, issue);
  }

  // --- Matching by dispatch id --------------------------------------------------------------

  predicate HeldBy(disk: Disk, issue: string, dispatchId: string) {
    var active := DirOf(disk, issue).active;
    active.Some? && active.value.dispatchId == dispatchId
  }

  lemma {:induction false} DispatchStaysAway(disk: Disk, es: seq<Event>, issue: string, id: string)
    requires Inv(disk) && !HeldBy(disk, issue, id)
    requires forall k :: 0 <= k < |es| && es[k].op.Acquire? && es[k].op.issue == issue ==> es[k].op.dispatchId != id
    ensures !HeldBy(Exec(disk, es), issue, id)
    decreases es
  {
    if es != [] {
      DispatchChangesOnlyByGrant(disk, es[0], issue, id);
      StepKeeps(disk, es[0], issue);
      DispatchStaysAway(Step(disk, es[0]), es[1..], issue, id);
    }
  }

  /** Every attempt to acquire one issue uses its own dispatch id. */
  ghost predicate DistinctDispatches(es: seq<Event>, issue: string) {
    forall i, j :: 0 <= i < j < |es| && es[i].op.Acquire? && es[j].op.Acquire?
                   && es[i].op.issue == issue && es[j].op.issue == issue ==>
      es[i].op.dispatchId != es[j].op.dispatchId
  }

  /** The pull request gate matches by dispatch id only. Given distinct dispatch ids, the
      packet of attempt i is refused in every state after the takeover by attempt j, with or
      without a lease snapshot. */
  lemma OvertakenPacketIsRefusedForever(disk: Disk, es: seq<Event>, i: nat, j: nat, k: nat,
                                        packet: Packet, now: real, hint: Option<Lease>)
    requires Inv(disk) && i < j < k <= |es|
    requires es[i].op.Acquire? && es[i].op.issue == packet.issue && es[i].op.dispatchId == packet.attemptId
    requires es[j].op.Acquire? && es[j].op.issue == packet.issue
    requires Completes(Exec(disk, es[..j]), es[j]) && PlanOf(Exec(disk, es[..j]), es[j].op).outcome.Granted?
    requires DistinctDispatches(es, packet.issue)
    ensures RequireLeaseForPr(Exec(disk, es[..k]), packet, now, hint).Err?
  {
    var before := Exec(disk, es[..j]);
    RunsKeepInvariant(disk, es[..j], packet.issue);
    GrantIsActive(before, es[j]);
    StepKeeps(before, es[j], packet.issue);
    var later := es[j + 1..k];
    forall x | 0 <= x < |later| && later[x].op.Acquire? && later[x].op.issue == packet.issue
      ensures later[x].op.dispatchId != packet.attemptId
    {
      assert later[x] == es[j + 1 + x];
    }
    assert es[j].op.dispatchId != packet.attemptId;
    DispatchStaysAway(Step(before, es[j]), later, packet.issue, packet.attemptId);
    ExecSplitAt(disk, es, j, k);
    NotHeldMeansRefused(Exec(disk, es[..k]), packet, now, hint);
  }

  lemma NotHeldMeansRefused(disk: Disk, packet: Packet, now: real, hint: Option<Lease>)
    requires !HeldBy(disk, packet.issue, packet.attemptId)
    ensures RequireLeaseForPr(disk, packet, now, hint).Err?
  {
  }

  // --- Exactly when an id can come back -------------------------------------------------------

  /** The event completes a grant of the issue to that dispatch id. */
  predicate Regrants(disk: Disk, e: Event, issue: string, id: string) {
    Grants(disk, e, issue) && e.op.dispatchId == id
  }

  lemma DispatchChangesOnlyByGrant(disk: Disk, e: Event, issue: string, id: string)
    requires Inv(disk) && !HeldBy(disk, issue, id) && !Regrants(disk, e, issue, id)
    ensures !HeldBy(Step(disk, e), issue, id)
  {
    if Grants(disk, e, issue) {
      GrantIsActive(disk, e);
    } else {
      GrantStaysInStep(disk, e, issue);
    }
  }

  /** The pull request gate refuses the packet at every clock reading, with every snapshot. */
  ghost predicate AlwaysRefused(disk: Disk, packet: Packet) {
    forall now, hint :: RequireLeaseForPr(disk, packet, now, hint).Err?
  }

  ghost predicate RefusedThroughout(disk: Disk, es: seq<Event>, packet: Packet)
    decreases es
  {
    AlwaysRefused(disk, packet) && (es == [] || RefusedThroughout(Step(disk, es[0]), es[1..], packet))
  }

  predicate NeverRegrants(disk: Disk, es: seq<Event>, issue: string, id: string)
    decreases es
  {
    es == [] || (!Regrants(disk, es[0], issue, id) && NeverRegrants(Step(disk, es[0]), es[1..], issue, id))
  }

  /** Once another attempt holds the issue, the packet is refused through a whole run, crashes
      included, exactly when no event of the run completes a grant to its own dispatch id. */
  lemma {:induction false} OvertakenPacketIsRefusedIff(disk: Disk, es: seq<Event>, packet: Packet)
    requires Inv(disk) && !HeldBy(disk, packet.issue, packet.attemptId)
    ensures RefusedThroughout(disk, es, packet) <==> NeverRegrants(disk, es, packet.issue, packet.attemptId)
    decreases es
  {
    forall now, hint ensures RequireLeaseForPr(disk, packet, now, hint).Err? {
      NotHeldMeansRefused(disk, packet, now, hint);
    }
    if es != [] {
      StepKeeps(disk, es[0], packet.issue);
      if Regrants(disk, es[0], packet.issue, packet.attemptId) {
        RegrantIsAdmitted(disk, es[0], packet);
      } else {
        DispatchChangesOnlyByGrant(disk, es[0], packet.issue, packet.attemptId);
        OvertakenPacketIsRefusedIff(Step(disk, es[0]), es[1..], packet);
      }
    }
  }

  lemma RegrantIsAdmitted(disk: Disk, e: Event, packet: Packet)
    requires Inv(disk) && Regrants(disk, e, packet.issue, packet.attemptId)
    ensures RequireLeaseForPr(Step(disk, e), packet, e.op.now, None).Ok?
  {
    GrantIsActive(disk, e);
  }

  /** Without distinct ids the gate cannot tell the attempts apart: a packet written for
      generation 1 passes the pull request gate under generation 2 with a reused id, while
      the dispatch gate, which also compares generations, refuses it. */
  lemma ReusedDispatchIdFoolsTheGate(packet: Packet, first: Op, second: Op, d: Dispatch, resolve: string -> string)
    requires first.Acquire? && second.Acquire? && first.issue == second.issue == packet.issue
    requires first.dispatchId == second.dispatchId == packet.attemptId && packet.lease.generation == 1
    requires AcquirePlan(map[], first).outcome.Granted?
    requires second.now - first.now > first.staleAfter && second.staleAfter > 0.0 && second.workerId != ""
    ensures var disk := Exec(map[], [Event(first, 2), Event(second, 4)]);
            && RequireLeaseForPr(disk, packet, second.now, None).Ok?
            && ValidateDispatch(disk, packet, d, resolve).Err?
  {
    var e1, e2 := Event(first, 2), Event(second, 4);
    var mid := Step(map[], e1);
    PersistOne(map[], NewLease(first, 1));
    GrantIsActive(map[], e1);
    StepKeeps(map[], e1, packet.issue);
    var taken := [Superseded(NewLease(first, 1)), NewLease(second, 2)];
    assert PlanOf(mid, second) == Plan(taken, Granted(taken[1]));
    FourWrites(taken[0], taken[1]);
    GrantIsActive(mid, e2);
    ExecTwo(map[], e1, e2);
  }

  lemma FourWrites(a: Lease, b: Lease)
    ensures |WritesOf([a, b])| == 4
  {
    PersistOne(map[], b);
    assert [a, b][1..] == [b];
  }
}
