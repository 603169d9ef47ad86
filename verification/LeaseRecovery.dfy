/** Staleness, takeover and the reaper: liveness without progress never keeps a lease
    alive, and reading the history back gives the generations in numeric order. */
module LeaseRecovery {
  import opened Prelude
  import opened Leases
  import opened LeaseRuns

  // --- Liveness is not progress --------------------------------------------------------

  /** The event neither grants nor releases `issue`, nor reports progress on it. Heartbeats
      that only prove liveness, reaps and everything on other issues are all quiet. */
  predicate Quiet(e: Event, issue: string) {
    match e.op
    case Acquire(x, _, _, _, _, _, _, _) => x != issue
    case Heartbeat(x, _, progress, _) => x != issue || !progress
    case Release(x, _, _) => x != issue
    case Reap(_, _) => true
  }

  /** A reap that ran after the lease `start` had become stale. */
  predicate LateReap(e: Event, start: Lease) {
    e.op.Reap? && e.op.now - start.lastProgressAt > start.staleAfter
  }

  /** What quiet events leave of the lease `start`: its generation, progress time and bound,
      and ACTIVE unless a late reap fenced it. */
  predicate StalledLease(lease: Lease, start: Lease, late: bool) {
    && lease.generation == start.generation
    && lease.lastProgressAt == start.lastProgressAt
    && lease.staleAfter == start.staleAfter
    && (lease.status == ACTIVE || (late && lease.status == SUPERSEDED))
  }

  predicate Stalled(disk: Disk, issue: string, start: Lease, late: bool) {
    var active := DirOf(disk, issue).active;
    active.Some? && StalledLease(active.value, start, late)
  }

  lemma {:induction false} ReapIsQuiet(
      disk: Disk, issue: string, listing: seq<string>, now: real, start: Lease, late: bool)
    requires Inv(disk) && Stalled(disk, issue, start, late)
    requires now - start.lastProgressAt > start.staleAfter ==> late
    ensures forall l :: l in ReapPlan(disk, listing, now).leases && l.issue == issue ==>
              StalledLease(l, start, late)
    decreases listing
  {
    if listing != [] {
      var active := DirOf(disk, listing[0]).active;
      if active.Some? && ActiveAndStale(active.value, now) && ValidIssue(active.value.issue) {
        var fenced := Superseded(active.value);
        assert DirInv(listing[0], disk[listing[0]]);
        LegalPersist(disk, fenced, issue);
        ReapIsQuiet(Persisted(disk, fenced), issue, listing[1..], now, start, late);
      } else if active.None? || active.value.status != ACTIVE || LeaseIsStale(active.value, now) == Ok(false) {
        ReapIsQuiet(disk, issue, listing[1..], now, start, late);
      }
    }
  }

  lemma QuietPlan(disk: Disk, op: Op, issue: string, start: Lease, late: bool, lease: Lease)
    requires Inv(disk) && Quiet(Event(op, 0), issue) && Stalled(disk, issue, start, late)
    requires LateReap(Event(op, 0), start) ==> late
    requires lease in PlanOf(disk, op).leases && lease.issue == issue
    ensures StalledLease(lease, start, late)
  {
    assert forall x :: x in disk ==> DirInv(x, disk[x]);
    if op.Reap? {
      ReapIsQuiet(disk, issue, op.listing, op.now, start, late);
    }
  }

  lemma QuietStep(disk: Disk, e: Event, issue: string, start: Lease, late: bool)
    requires Inv(disk) && Quiet(e, issue) && Stalled(disk, issue, start, late)
    requires LateReap(e, start) ==> late
    ensures Inv(Step(disk, e)) && Stalled(Step(disk, e), issue, start, late)
  {
    StepKeeps(disk, e, issue);
    var leases := PlanOf(disk, e.op).leases;
    PrefixActive(disk, leases, Min(e.reached, |WritesOf(leases)|), issue);
    var active := DirOf(Step(disk, e), issue).active;
    if active != DirOf(disk, issue).active {
      QuietPlan(disk, e.op, issue, start, late, active.value);
    }
  }

  /** Through any run of quiet events of any length, crashing or not, the lease of `issue`
      becomes stale exactly when the time since its last progress exceeds its bound, it is
      fenced only by a reap that came after that, and a well-formed acquire succeeds exactly
      when it is stale or already fenced. */
  lemma {:induction false} LivenessIsNotProgress(
      disk: Disk, es: seq<Event>, issue: string, start: Lease, acquire: Op)
    requires Inv(disk) && DirOf(disk, issue).active == Some(start) && start.status == ACTIVE
    requires forall i :: 0 <= i < |es| ==> Quiet(es[i], issue)
    requires WellFormedAcquire(acquire, issue)
    ensures var after := Exec(disk, es);
            && Inv(after)
            && Stalled(after, issue, start, exists i :: 0 <= i < |es| && LateReap(es[i], start))
            && (LeaseIsStale(after[issue].active.value, acquire.now)
                == Ok(acquire.now - start.lastProgressAt > start.staleAfter))
            && (AcquirePlan(after, acquire).outcome.Granted?
                <==> acquire.now - start.lastProgressAt > start.staleAfter
                     || after[issue].active.value.status == SUPERSEDED)
            && (AcquirePlan(after, acquire).outcome.Granted? ==>
                  AcquirePlan(after, acquire).outcome.lease.generation == start.generation + 1)
  {
    QuietRun(disk, es, issue, start, exists i :: 0 <= i < |es| && LateReap(es[i], start));
    assert DirInv(issue, Exec(disk, es)[issue]);
  }

  lemma {:induction false} QuietRun(disk: Disk, es: seq<Event>, issue: string, start: Lease, late: bool)
    requires Inv(disk) && Stalled(disk, issue, start, late)
    requires forall i :: 0 <= i < |es| ==> Quiet(es[i], issue) && (LateReap(es[i], start) ==> late)
    ensures Inv(Exec(disk, es)) && Stalled(Exec(disk, es), issue, start, late)
    decreases es
  {
    if es != [] {
      QuietStep(disk, es[0], issue, start, late);
      QuietRun(Step(disk, es[0]), es[1..], issue, start, late);
    }
  }

  /** A well-formed attempt to acquire `issue`. */
  predicate WellFormedAcquire(op: Op, issue: string) {
    op.Acquire? && op.issue == issue && op.staleAfter > 0.0 && op.dispatchId != "" && op.workerId != ""
  }

  /** Progress is what renews a lease: after a completed progress heartbeat of the current
      holder, nobody can acquire the issue until a full bound has passed since that beat. */
  lemma ProgressRenews(disk: Disk, e: Event, acquire: Op)
    requires Inv(disk) && e.op.Heartbeat? && e.op.progress && Completes(disk, e)
    requires var dir := DirOf(disk, e.op.issue); HoldsActive(dir) && ActiveGeneration(dir) == e.op.generation
    requires WellFormedAcquire(acquire, e.op.issue)
    ensures var held := DirOf(disk, e.op.issue).active.value;
            var outcome := AcquirePlan(Step(disk, e), acquire).outcome;
            && outcome.Granted? == (acquire.now - e.op.now > held.staleAfter)
            && (!outcome.Granted? ==> outcome == Refused(LeaseHeld(e.op.generation)))
  {
    assert DirInv(e.op.issue, DirOf(disk, e.op.issue));
    OneLeaseIsStored(disk, e, PlanOf(disk, e.op).leases[0]);
  }

  /** Spelled out: what a completed release shows is the same grant, RELEASED at that time. */
  lemma ReleaseIsShown(disk: Disk, e: Event)
    requires Inv(disk) && e.op.Release? && Completes(disk, e)
    requires var dir := DirOf(disk, e.op.issue); dir.active.Some? && ActiveGeneration(dir) == e.op.generation
    ensures var before, after := DirOf(disk, e.op.issue).active.value, DirOf(Step(disk, e), e.op.issue).active;
            && after.Some? && SameGrant(after.value, before)
            && after.value.status == RELEASED && after.value.releasedAt == Some(e.op.now)
            && after.value.lastProgressAt == before.lastProgressAt && after.value.heartbeatAt == before.heartbeatAt
  {
    assert DirInv(e.op.issue, DirOf(disk, e.op.issue));
    OneLeaseIsStored(disk, e, PlanOf(disk, e.op).leases[0]);
  }

  /** Spelled out: fencing by the reaper keeps the grant and records why. */
  lemma FencedRecord(lease: Lease)
    ensures SameGrant(Superseded(lease), lease) && Superseded(lease).status == SUPERSEDED
    ensures Superseded(lease).supersededReason == Some("stale_progress")
    ensures Superseded(lease).lastProgressAt == lease.lastProgressAt
    ensures Superseded(lease).heartbeatAt == lease.heartbeatAt && Superseded(lease).releasedAt == lease.releasedAt
  {
  }

  /** A completed release by the current generation, whatever its status, frees the issue at
      once: any well-formed acquire is granted the next generation. */
  lemma ReleaseFreesTheIssue(disk: Disk, e: Event, acquire: Op)
    requires Inv(disk) && e.op.Release? && Completes(disk, e)
    requires var dir := DirOf(disk, e.op.issue); dir.active.Some? && ActiveGeneration(dir) == e.op.generation
    requires WellFormedAcquire(acquire, e.op.issue)
    ensures FencedOff(Step(disk, e), e.op.issue, e.op.generation)
    ensures AcquirePlan(Step(disk, e), acquire).outcome == Granted(NewLease(acquire, e.op.generation + 1))
  {
    assert DirInv(e.op.issue, DirOf(disk, e.op.issue));
    OneLeaseIsStored(disk, e, PlanOf(disk, e.op).leases[0]);
  }

  // --- When an operation succeeds, spelled out ---------------------------------------------

  /** The name can be one directory: not empty, no slash, no two dots in a row. */
  predicate OneComponent(issue: string) {
    issue != "" && '/' !in issue && !exists i :: 0 < i < |issue| && issue[i - 1] == '.' == issue[i]
  }

  lemma ValidIssueIs(issue: string)
    ensures ValidIssue(issue) <==> OneComponent(issue)
  {
    if !ValidIssue(issue) && issue != "" && '/' !in issue {
      var i :| 0 <= i < |issue| - 1 && issue[i] == '.' && issue[i + 1] == '.';
      var j := i + 1;
      assert issue[j - 1] == '.' == issue[j];
    }
  }

  /** In any state that runs may leave: an acquire succeeds exactly when it names itself, its
      bound and an issue properly, and the issue is free, fenced, released or stale. A refused
      operation of any kind writes nothing. */
  lemma AcquireSucceedsIff(disk: Disk, op: Op)
    requires Inv(disk) && op.Acquire?
    ensures AcquirePlan(disk, op).outcome.Granted? <==>
              && op.dispatchId != "" && op.workerId != "" && op.staleAfter > 0.0 && OneComponent(op.issue)
              && var active := DirOf(disk, op.issue).active;
                 || active.None? || active.value.status != ACTIVE
                 || op.now - active.value.lastProgressAt > active.value.staleAfter
    ensures !AcquirePlan(disk, op).outcome.Granted? ==> AcquirePlan(disk, op).leases == []
  {
    ValidIssueIs(op.issue);
    if ValidIssue(op.issue) { DirOfInv(disk, op.issue); }
  }

  /** A heartbeat succeeds exactly for the generation that reads ACTIVE in `active.json`. */
  lemma HeartbeatSucceedsIff(disk: Disk, op: Op)
    requires Inv(disk) && op.Heartbeat?
    ensures var plan, active := HeartbeatPlan(disk, op), DirOf(disk, op.issue).active;
            && (plan.outcome.Granted? <==>
                  active.Some? && active.value.status == ACTIVE && active.value.generation == op.generation)
            && (!plan.outcome.Granted? ==> plan.leases == [])
  {
    if op.issue in disk { assert DirInv(op.issue, disk[op.issue]); }
  }

  /** A release succeeds exactly for the generation that `active.json` shows, ACTIVE or not. */
  lemma ReleaseSucceedsIff(disk: Disk, op: Op)
    requires Inv(disk) && op.Release?
    ensures var plan, active := ReleasePlan(disk, op), DirOf(disk, op.issue).active;
            && (plan.outcome.Granted? <==> active.Some? && active.value.generation == op.generation)
            && (!plan.outcome.Granted? ==> plan.leases == [])
  {
    if op.issue in disk { assert DirInv(op.issue, disk[op.issue]); }
  }

  /** A completed takeover leaves the record of the writer it fences: the same grant,
      SUPERSEDED, with the reason. */
  lemma TakeoverLeavesRecord(disk: Disk, e: Event)
    requires Inv(disk) && e.op.Acquire? && Completes(disk, e) && PlanOf(disk, e.op).outcome.Granted?
    requires HoldsActive(DirOf(disk, e.op.issue))
    ensures var before, history := DirOf(disk, e.op.issue).active.value, DirOf(Step(disk, e), e.op.issue).history;
            && before.generation in history && SameGrant(history[before.generation], before)
            && history[before.generation].status == SUPERSEDED
            && history[before.generation].supersededReason == Some("stale_progress")
            && history[before.generation].lastProgressAt == before.lastProgressAt
  {
    DirOfInv(disk, e.op.issue);
    var leases := PlanOf(disk, e.op).leases;
    assert |leases| == 2 && leases[1..] == [leases[1]];
    assert WritesOf(leases)[..|WritesOf(leases)|] == WritesOf(leases);
    PersistFirst(disk, leases);
    PersistOne(Persisted(disk, leases[0]), leases[1]);
  }

  // --- The reaper ------------------------------------------------------------------------

  /** `sorted(root.iterdir())`: each name once, among them every lease directory, and possibly
      others: a directory that a crash left empty, or the files of a lease named ".". That
      name passes `lease_dir`, yet it denotes the root itself, which no listing of the root
      contains. */
  ghost predicate Enumerates(listing: seq<string>, disk: Disk) {
    Distinct(listing) && "." !in listing && forall x :: x in disk && x != "." ==> x in listing
  }

  predicate NeedsReaping(disk: Disk, issue: string, now: real) {
    var active := DirOf(disk, issue).active;
    active.Some? && ActiveAndStale(active.value, now)
  }

  /** The part of the listing whose lease is ACTIVE and stale, in listing order. */
  function StaleIn(disk: Disk, listing: seq<string>, now: real): seq<string> {
    if listing == [] then []
    else (if NeedsReaping(disk, listing[0], now) then [listing[0]] else []) + StaleIn(disk, listing[1..], now)
  }

  lemma {:induction false} StaleInSame(a: Disk, b: Disk, listing: seq<string>, now: real)
    requires forall x :: x in listing ==> DirOf(a, x) == DirOf(b, x)
    ensures StaleIn(a, listing, now) == StaleIn(b, listing, now)
  {
    if listing != [] {
      assert listing[0] in listing;
      StaleInSame(a, b, listing[1..], now);
    }
  }

  lemma {:induction false} StaleInEmpty(disk: Disk, listing: seq<string>, now: real)
    requires forall x :: x in listing ==> !NeedsReaping(disk, x, now)
    ensures StaleIn(disk, listing, now) == []
  {
    if listing != [] {
      assert listing[0] in listing;
      StaleInEmpty(disk, listing[1..], now);
    }
  }

  /** `after` is `disk` with exactly the ACTIVE stale leases of the listing fenced. */
  ghost predicate FencedExactly(disk: Disk, listing: seq<string>, now: real, after: Disk) {
    && Inv(after)
    && (forall x :: x in listing && NeedsReaping(disk, x, now) ==>
          DirOf(after, x).active == Some(Superseded(DirOf(disk, x).active.value)))
    && (forall x :: x !in listing || !NeedsReaping(disk, x, now) ==> DirOf(after, x) == DirOf(disk, x))
  }

  lemma ReapHead(disk: Disk, listing: seq<string>, now: real, mid: Disk, after: Disk)
    requires Inv(disk) && listing != [] && listing[0] !in listing[1..] && NeedsReaping(disk, listing[0], now)
    requires mid == Persisted(disk, Superseded(DirOf(disk, listing[0]).active.value))
    requires FencedExactly(mid, listing[1..], now, after)
    ensures FencedExactly(disk, listing, now, after)
  {
    var head, tail := listing[0], listing[1..];
    assert DirInv(head, disk[head]);
    assert forall x :: x in listing <==> x == head || x in tail;
    assert forall x :: x != head ==> DirOf(mid, x) == DirOf(disk, x);
    assert DirOf(after, head) == DirOf(mid, head);
  }

  lemma ReapPlanHead(disk: Disk, listing: seq<string>, now: real)
    requires Inv(disk) && listing != [] && NeedsReaping(disk, listing[0], now)
    ensures var fenced := Superseded(DirOf(disk, listing[0]).active.value);
            var plan, rest := ReapPlan(disk, listing, now), ReapPlan(Persisted(disk, fenced), listing[1..], now);
            && (rest.outcome.Reaped? ==> plan.outcome == Reaped([listing[0]] + rest.outcome.issues))
            && ApplyAll(disk, WritesOf(plan.leases)) == ApplyAll(Persisted(disk, fenced), WritesOf(rest.leases))
  {
    assert DirInv(listing[0], disk[listing[0]]);
    var fenced := Superseded(disk[listing[0]].active.value);
    var leases := ReapPlan(disk, listing, now).leases;
    assert leases == [fenced] + ReapPlan(Persisted(disk, fenced), listing[1..], now).leases;
    PersistFirst(disk, leases);
  }

  lemma {:induction false} ReapReports(disk: Disk, listing: seq<string>, now: real)
    requires Inv(disk) && Distinct(listing)
    ensures ReapPlan(disk, listing, now).outcome == Reaped(StaleIn(disk, listing, now))
    decreases listing
  {
    if listing != [] {
      var head, tail := listing[0], listing[1..];
      if head in disk { assert DirInv(head, disk[head]); }
      if NeedsReaping(disk, head, now) {
        var mid := Persisted(disk, Superseded(disk[head].active.value));
        PersistKeepsInv(disk, Superseded(disk[head].active.value));
        ReapReports(mid, tail, now);
        StaleInSame(disk, mid, tail, now);
        ReapPlanHead(disk, listing, now);
      } else {
        ReapReports(disk, tail, now);
      }
    }
  }

  lemma {:induction false} ReapFences(disk: Disk, listing: seq<string>, now: real)
    requires Inv(disk) && Distinct(listing)
    ensures FencedExactly(disk, listing, now, ApplyAll(disk, WritesOf(ReapPlan(disk, listing, now).leases)))
    decreases listing
  {
    if listing != [] {
      var head, tail := listing[0], listing[1..];
      assert head !in tail;
      if head in disk { assert DirInv(head, disk[head]); }
      if NeedsReaping(disk, head, now) {
        var mid := Persisted(disk, Superseded(disk[head].active.value));
        PersistKeepsInv(disk, Superseded(disk[head].active.value));
        ReapFences(mid, tail, now);
        ReapPlanHead(disk, listing, now);
        ReapHead(disk, listing, now, mid, ApplyAll(mid, WritesOf(ReapPlan(mid, tail, now).leases)));
      } else {
        ReapFences(disk, tail, now);
        assert forall x :: x in listing <==> x == head || x in tail;
      }
    }
  }

  /** A reap over any duplicate-free listing fences exactly the ACTIVE stale leases in it,
      reports exactly those issues, and leaves every other directory as it was. */
  lemma ReapEffect(disk: Disk, listing: seq<string>, now: real)
    requires Inv(disk) && Distinct(listing)
    ensures ReapPlan(disk, listing, now).outcome == Reaped(StaleIn(disk, listing, now))
    ensures FencedExactly(disk, listing, now, ApplyAll(disk, WritesOf(ReapPlan(disk, listing, now).leases)))
  {
    ReapReports(disk, listing, now);
    ReapFences(disk, listing, now);
  }

  /** `supersede_stale_leases` on a reachable store: afterwards the only issue that can
      still hold an ACTIVE stale lease is "." (if it did before); issues whose lease was not
      ACTIVE and stale are untouched; a second call at the same time reaps nothing. */
  lemma ReaperIsCompleteAndIdempotent(es: seq<Event>, listing: seq<string>, now: real, issue: string)
    requires Enumerates(listing, Exec(map[], es))
    ensures var disk := Exec(map[], es);
            var plan := ReapPlan(disk, listing, now);
            var after := ApplyAll(disk, WritesOf(plan.leases));
            && plan.outcome.Reaped?
            && (issue in plan.outcome.issues <==> issue != "." && NeedsReaping(disk, issue, now))
            && (NeedsReaping(after, issue, now) <==> issue == "." && NeedsReaping(disk, issue, now))
            && (issue == "." || !NeedsReaping(disk, issue, now) ==> DirOf(after, issue) == DirOf(disk, issue))
            && ReapPlan(after, listing, now) == Plan([], Reaped([]))
  {
    var disk := Exec(map[], es);
    RunsKeepInvariant(map[], es, issue);
    ReapEffect(disk, listing, now);
    StaleInMembers(disk, listing, now, issue);
    var after := ApplyAll(disk, WritesOf(ReapPlan(disk, listing, now).leases));
    StaleInEmpty(after, listing, now);
    ReapNothing(after, listing, now);
  }

  /** What `iterdir` returns while "." is the only lease: the files of that lease. */
  const DOT_FILES: seq<string> := ["active.json", "generation-1.json", "lease.lock"]

  /** The exception is real: a lease can be granted under the name ".", its files are then
      what the reaper walks, and once it is stale no listing gets it fenced. */
  lemma DotLeaseIsNeverReaped(grant: Op, listing: seq<string>, now: real)
    requires WellFormedAcquire(grant, ".") && now - grant.now > grant.staleAfter
    ensures var disk := Exec(map[], [Event(grant, 2)]);
            var after := ApplyAll(disk, WritesOf(ReapPlan(disk, listing, now).leases));
            && Enumerates(DOT_FILES, disk)
            && (Enumerates(listing, disk) ==>
                  DirOf(after, ".").active == Some(NewLease(grant, 1)) && NeedsReaping(after, ".", now))
  {
    var e := Event(grant, 2);
    assert PlanOf(map[], grant).leases == [NewLease(grant, 1)];
    OneLeaseIsStored(map[], e, NewLease(grant, 1));
    assert [e][1..] == [] && Exec(map[], [e]) == Step(map[], e);
    DotFilesAreDistinct();
    if Enumerates(listing, Exec(map[], [e])) {
      ReaperIsCompleteAndIdempotent([e], listing, now, ".");
    }
  }

  lemma DotFilesAreDistinct()
    ensures Distinct(DOT_FILES) && "." !in DOT_FILES
  {
    assert DOT_FILES[0][0] == 'a' && DOT_FILES[1][0] == 'g' && DOT_FILES[2][0] == 'l';
  }

  lemma {:induction false} StaleInMembers(disk: Disk, listing: seq<string>, now: real, issue: string)
    ensures issue in StaleIn(disk, listing, now) <==> issue in listing && NeedsReaping(disk, issue, now)
  {
    if listing != [] {
      StaleInMembers(disk, listing[1..], now, issue);
    }
  }

  lemma {:induction false} ReapNothing(disk: Disk, listing: seq<string>, now: real)
    requires Inv(disk) && StaleIn(disk, listing, now) == []
    ensures ReapPlan(disk, listing, now) == Plan([], Reaped([]))
  {
    if listing != [] {
      if listing[0] in disk { assert DirInv(listing[0], disk[listing[0]]); }
      ReapNothing(disk, listing[1..], now);
    }
  }

  // --- Reading the history back ------------------------------------------------------------

  function InsertByGeneration(sorted: seq<Lease>, lease: Lease): seq<Lease> {
    if sorted == [] || sorted[|sorted| - 1].generation <= lease.generation then sorted + [lease]
    else InsertByGeneration(sorted[..|sorted| - 1], lease) + [sorted[|sorted| - 1]]
  }

  predicate Increasing(s: seq<Lease>) {
    forall i, j :: 0 <= i < j < |s| ==> s[i].generation < s[j].generation
  }

  lemma {:induction false} InsertKeepsOrder(sorted: seq<Lease>, lease: Lease)
    requires Increasing(sorted)
    requires forall i :: 0 <= i < |sorted| ==> sorted[i].generation != lease.generation
    ensures Increasing(InsertByGeneration(sorted, lease))
    ensures Elements(InsertByGeneration(sorted, lease)) == Elements(sorted) + {lease}
    ensures |InsertByGeneration(sorted, lease)| == |sorted| + 1
  {
    if sorted != [] && sorted[|sorted| - 1].generation > lease.generation {
      var init, last := sorted[..|sorted| - 1], sorted[|sorted| - 1];
      assert Increasing(init);
      InsertKeepsOrder(init, lease);
      var ins := InsertByGeneration(init, lease);
      forall i | 0 <= i < |ins| ensures ins[i].generation < last.generation {
        assert ins[i] in Elements(init) + {lease};
      }
      assert Elements(sorted) == Elements(init) + {last};
      assert Elements(ins + [last]) == Elements(ins) + {last};
    } else {
      assert forall i :: 0 <= i < |sorted| ==> sorted[i].generation < lease.generation;
      assert Elements(sorted + [lease]) == Elements(sorted) + {lease};
    }
  }

  /** Generations as large as their position forces, bounded by the count, are 1..n. */
  lemma {:induction false} IncreasingFillsRange(s: seq<Lease>, i: nat)
    requires Increasing(s) && i < |s|
    requires forall k :: 0 <= k < |s| ==> 1 <= s[k].generation <= |s|
    ensures s[i].generation == i + 1
  {
    AtLeastPosition(s, i);
    AtMostPosition(s, i);
  }

  lemma {:induction false} AtLeastPosition(s: seq<Lease>, i: nat)
    requires Increasing(s) && i < |s| && forall k :: 0 <= k < |s| ==> 1 <= s[k].generation
    ensures s[i].generation >= i + 1
  {
    if i > 0 { AtLeastPosition(s, i - 1); }
  }

  lemma {:induction false} AtMostPosition(s: seq<Lease>, i: nat)
    requires Increasing(s) && i < |s| && forall k :: 0 <= k < |s| ==> s[k].generation <= |s|
    ensures s[i].generation <= i + 1
    decreases |s| - i
  {
    if i + 1 < |s| { AtMostPosition(s, i + 1); }
  }

  lemma {:induction false} RangeCount(keys: set<int>, n: nat)
    requires forall k :: k in keys <==> 1 <= k <= n
    ensures |keys| == n
  {
    if n == 0 {
      assert forall k :: k !in keys;
    } else {
      RangeCount(keys - {n}, n - 1);
    }
  }

  /** `read_lease_history` on any reachable directory, crashes included: whatever order the
      directory lists its generation files in ("generation-10" sorts before "generation-2"),
      the records come back as generations 1..n in numeric order. */
  method ReadLeaseHistory(dir: Dir, listing: seq<int>, ghost issue: string, ghost n: nat)
    returns (records: seq<Lease>)
    requires DirInv(issue, dir)
    requires Distinct(listing) && Elements(listing) == dir.history.Keys
    requires n == |dir.history|
    ensures |records| == n
    ensures forall i :: 0 <= i < n ==> i + 1 in dir.history && records[i] == dir.history[i + 1]
  {
    records := [];
    for i := 0 to |listing|
      invariant Increasing(records) && |records| == i
      invariant forall r :: r in records <==>
                  exists k :: 0 <= k < i && listing[k] in dir.history && r == dir.history[listing[k]]
    {
      assert listing[i] in Elements(listing);
      forall j | 0 <= j < |records| ensures records[j].generation != listing[i] {
        assert records[j] in records;
      }
      InsertKeepsOrder(records, dir.history[listing[i]]);
      ghost var was := records;
      records := InsertByGeneration(records, dir.history[listing[i]]);
      forall r ensures r in records <==> r in was || r == dir.history[listing[i]] {
        assert r in records <==> r in Elements(was) + {dir.history[listing[i]]};
      }
    }
    DistinctCount(listing);
    assert |dir.history.Keys| == n;
    ghost var top := HistoryRange(issue, dir);
    RangeCount(dir.history.Keys, top);
    forall k | 0 <= k < |records| ensures 1 <= records[k].generation <= n && records[k].generation in dir.history
                                          && records[k] == dir.history[records[k].generation] {
      assert records[k] in records;
    }
    forall i | 0 <= i < n ensures i + 1 in dir.history && records[i] == dir.history[i + 1] {
      IncreasingFillsRange(records, i);
    }
  }

  lemma HistoryRange(issue: string, dir: Dir) returns (top: nat)
    requires DirInv(issue, dir)
    ensures forall k :: k in dir.history.Keys <==> 1 <= k <= top
  {
    var g := ActiveGeneration(dir);
    top := if g + 1 in dir.history then g + 1 else g;
  }
}
