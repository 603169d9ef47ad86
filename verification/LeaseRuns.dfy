/** Safety of the lease protocol over every run of acquire, heartbeat, release and reap
    steps, at arbitrary clock readings, when each step may crash after any of its file
    writes. The authority is `active.json`; the history files may run ahead of it. */
module LeaseRuns {
  import opened Prelude
  import opened Leases

  // --- Runs -------------------------------------------------------------------------

  /** One operation, of which only the first `reached` file writes hit the disk. */
  datatype Event = Event(op: Op, reached: nat)

  function WritesOfOp(disk: Disk, op: Op): seq<Write> {
    WritesOf(PlanOf(disk, op).leases)
  }

  predicate Completes(disk: Disk, e: Event) {
    |WritesOfOp(disk, e.op)| <= e.reached
  }

  function Step(disk: Disk, e: Event): Disk {
    var ws := WritesOfOp(disk, e.op);
    ApplyAll(disk, ws[..Min(e.reached, |ws|)])
  }

  function Exec(disk: Disk, es: seq<Event>): Disk
    decreases es
  {
    if es == [] then disk else Exec(Step(disk, es[0]), es[1..])
  }

  /** No event of the run crashes. */
  predicate CrashFree(disk: Disk, es: seq<Event>)
    decreases es
  {
    es == [] || (Completes(disk, es[0]) && CrashFree(Step(disk, es[0]), es[1..]))
  }

  lemma {:induction false} ExecConcat(disk: Disk, a: seq<Event>, b: seq<Event>)
    ensures Exec(disk, a + b) == Exec(Exec(disk, a), b)
    decreases a
  {
    if a == [] {
      assert a + b == b;
    } else {
      assert (a + b)[0] == a[0] && (a + b)[1..] == a[1..] + b;
      ExecConcat(Step(disk, a[0]), a[1..], b);
    }
  }

  /** The state after event `j` and the events up to `k`. */
  lemma ExecSplitAt(disk: Disk, es: seq<Event>, j: nat, k: nat)
    requires j < k <= |es|
    ensures Exec(disk, es[..k]) == Exec(Step(Exec(disk, es[..j]), es[j]), es[j + 1..k])
  {
    var tail := [es[j]] + es[j + 1..k];
    assert es[..k] == es[..j] + tail;
    ExecConcat(disk, es[..j], tail);
    assert tail[1..] == es[j + 1..k];
  }

  lemma ExecTwo(disk: Disk, a: Event, b: Event)
    ensures Exec(disk, [a, b]) == Step(Step(disk, a), b)
  {
    assert [a, b][1..] == [b] && [b][1..] == [];
    assert Exec(Step(disk, a), [b]) == Exec(Step(Step(disk, a), b), []);
  }

  /** A completed operation that persists one lease leaves exactly that record. */
  lemma OneLeaseIsStored(disk: Disk, e: Event, lease: Lease)
    requires PlanOf(disk, e.op).leases == [lease] && (Completes(disk, e) || e.reached >= 2)
    ensures Completes(disk, e) && Step(disk, e) == Persisted(disk, lease)
  {
    PersistOne(disk, lease);
    assert WritesOf([lease])[..2] == WritesOf([lease]);
  }

  // --- The invariant that survives crashes ------------------------------------------------

  function ActiveGeneration(dir: Dir): int {
    if dir.active.Some? then dir.active.value.generation else 0
  }

  predicate HoldsActive(dir: Dir) {
    dir.active.Some? && dir.active.value.status == ACTIVE
  }

  /** Orders what `active.json` may show: (generation, then non-ACTIVE after ACTIVE). */
  function Rank(dir: Dir): int {
    2 * ActiveGeneration(dir) + if HoldsActive(dir) then 0 else 1
  }

  /** History generations are 1..g, or 1..g+1 while a grant is half written; only a
      generation that nothing has overtaken may read ACTIVE. */
  ghost predicate DirInv(issue: string, dir: Dir) {
    var g := ActiveGeneration(dir);
    && ValidIssue(issue)
    && (dir.active.Some? ==>
          g >= 1 && dir.active.value.issue == issue && dir.active.value.staleAfter > 0.0)
    && (forall k :: 1 <= k <= g ==> k in dir.history)
    && (forall k :: k in dir.history ==> 1 <= k <= g + 1)
    && (g + 1 in dir.history ==> !HoldsActive(dir))
    && (forall k :: k in dir.history ==> dir.history[k].generation == k && dir.history[k].issue == issue)
    && (forall k :: k in dir.history && k < g ==> dir.history[k].status != ACTIVE)
    && (g >= 1 && !HoldsActive(dir) ==> dir.history[g].status != ACTIVE)
  }

  ghost predicate Inv(disk: Disk) {
    forall issue :: issue in disk ==> DirInv(issue, disk[issue])
  }

  /** Without crashes the newest history record and `active.json` are the same record. */
  ghost predicate Exact(disk: Disk) {
    forall issue :: issue in disk ==> ExactDir(disk[issue])
  }

  ghost predicate ExactDir(dir: Dir) {
    && (forall k :: k in dir.history ==> k <= ActiveGeneration(dir))
    && (dir.active.Some? ==>
          dir.active.value.generation in dir.history && dir.history[dir.active.value.generation] == dir.active.value)
  }

  /** Which leases may be persisted next in a directory: the current generation without
      reviving it, or the next generation once the current one is not ACTIVE. */
  predicate LegalIn(dir: Dir, lease: Lease) {
    || (dir.active.Some? && lease.generation == ActiveGeneration(dir) && (lease.status == ACTIVE ==> HoldsActive(dir)))
    || (lease.generation == ActiveGeneration(dir) + 1 && !HoldsActive(dir))
  }

  predicate Legal(disk: Disk, lease: Lease) {
    ValidIssue(lease.issue) && lease.staleAfter > 0.0 && LegalIn(DirOf(disk, lease.issue), lease)
  }

  ghost predicate LegalAll(disk: Disk, leases: seq<Lease>)
    decreases leases
  {
    leases == [] || (Legal(disk, leases[0]) && LegalAll(Persisted(disk, leases[0]), leases[1..]))
  }

  lemma DirOfInv(disk: Disk, issue: string)
    requires Inv(disk) && ValidIssue(issue)
    ensures DirInv(issue, DirOf(disk, issue))
  {
  }

  lemma HistoryWriteInDir(dir: Dir, lease: Lease)
    requires DirInv(lease.issue, dir) && LegalIn(dir, lease)
    ensures DirInv(lease.issue, dir.(history := dir.history[lease.generation := lease]))
  {
  }

  lemma LegalHistoryWrite(disk: Disk, lease: Lease)
    requires Inv(disk) && Legal(disk, lease)
    ensures Inv(Apply(disk, Write(HistoryFile, lease)))
    ensures Legal(Apply(disk, Write(HistoryFile, lease)), lease)
  {
    var dir := DirOf(disk, lease.issue);
    DirOfInv(disk, lease.issue);
    HistoryWriteInDir(dir, lease);
    var after := Apply(disk, Write(HistoryFile, lease));
    assert after == disk[lease.issue := dir.(history := dir.history[lease.generation := lease])];
  }

  lemma LegalActiveWrite(disk: Disk, lease: Lease)
    requires Inv(disk) && Legal(disk, lease)
    requires lease.generation in DirOf(disk, lease.issue).history
    requires DirOf(disk, lease.issue).history[lease.generation] == lease
    ensures Inv(Apply(disk, Write(ActiveFile, lease)))
  {
    assert DirInv(lease.issue, DirOf(disk, lease.issue));
    assert DirInv(lease.issue, DirOf(Apply(disk, Write(ActiveFile, lease)), lease.issue));
  }

  lemma PersistKeepsInv(disk: Disk, lease: Lease)
    requires Inv(disk) && Legal(disk, lease)
    ensures Inv(Apply(disk, Write(HistoryFile, lease))) && Inv(Persisted(disk, lease))
  {
    LegalHistoryWrite(disk, lease);
    LegalActiveWrite(Apply(disk, Write(HistoryFile, lease)), lease);
  }

  lemma PersistKeepsExact(disk: Disk, lease: Lease)
    requires Inv(disk) && Legal(disk, lease) && Exact(disk)
    ensures Exact(Persisted(disk, lease))
  {
    DirOfInv(disk, lease.issue);
    assert ExactDir(DirOf(disk, lease.issue));
  }

  /** Both intermediate and final states of one persist are safe, and ranks only grow. */
  lemma LegalPersist(disk: Disk, lease: Lease, issue: string)
    requires Inv(disk) && Legal(disk, lease)
    ensures Inv(Apply(disk, Write(HistoryFile, lease))) && Inv(Persisted(disk, lease))
    ensures Rank(DirOf(Apply(disk, Write(HistoryFile, lease)), issue)) == Rank(DirOf(disk, issue))
    ensures Rank(DirOf(disk, issue)) <= Rank(DirOf(Persisted(disk, lease), issue))
    ensures Exact(disk) ==> Exact(Persisted(disk, lease))
  {
    PersistKeepsInv(disk, lease);
    if Exact(disk) { PersistKeepsExact(disk, lease); }
  }

  /** The first `n` writes of a list of leases are the two of the first lease and then the rest. */
  lemma PrefixLater(disk: Disk, leases: seq<Lease>, n: nat)
    requires leases != [] && 2 <= n <= |WritesOf(leases)|
    ensures n - 2 <= |WritesOf(leases[1..])|
    ensures ApplyAll(disk, WritesOf(leases)[..n]) ==
              ApplyAll(Persisted(disk, leases[0]), WritesOf(leases[1..])[..n - 2])
  {
    var first, tail := PersistWrites(leases[0]), WritesOf(leases[1..]);
    assert WritesOf(leases)[..n] == first + tail[..n - 2];
    ApplyAllConcat(disk, first, tail[..n - 2]);
    PersistBoth(disk, leases[0]);
  }

  lemma FirstWrite(disk: Disk, leases: seq<Lease>)
    requires leases != []
    ensures |WritesOf(leases)| >= 2
    ensures ApplyAll(disk, WritesOf(leases)[..1]) == Apply(disk, Write(HistoryFile, leases[0]))
  {
    assert WritesOf(leases)[..1] == [Write(HistoryFile, leases[0])];
    ApplyOne(disk, Write(HistoryFile, leases[0]));
  }

  lemma {:induction false} LegalPrefix(disk: Disk, leases: seq<Lease>, n: nat, issue: string)
    requires Inv(disk) && LegalAll(disk, leases) && n <= |WritesOf(leases)|
    ensures Inv(ApplyAll(disk, WritesOf(leases)[..n]))
    ensures Rank(DirOf(disk, issue)) <= Rank(DirOf(ApplyAll(disk, WritesOf(leases)[..n]), issue))
    decreases leases
  {
    if n > 0 {
      LegalPersist(disk, leases[0], issue);
      if n == 1 {
        FirstWrite(disk, leases);
      } else {
        PrefixLater(disk, leases, n);
        LegalPrefix(Persisted(disk, leases[0]), leases[1..], n - 2, issue);
      }
    }
  }

  lemma {:induction false} LegalExact(disk: Disk, leases: seq<Lease>)
    requires Inv(disk) && LegalAll(disk, leases) && Exact(disk)
    ensures Exact(ApplyAll(disk, WritesOf(leases)))
    decreases leases
  {
    if leases != [] {
      LegalPersist(disk, leases[0], leases[0].issue);
      PersistFirst(disk, leases);
      LegalExact(Persisted(disk, leases[0]), leases[1..]);
    }
  }

  /** After any prefix of the writes, `active.json` is what it was or one of the leases. */
  lemma {:induction false} PrefixActive(disk: Disk, leases: seq<Lease>, n: nat, issue: string)
    requires n <= |WritesOf(leases)|
    ensures var after := DirOf(ApplyAll(disk, WritesOf(leases)[..n]), issue).active;
            || after == DirOf(disk, issue).active
            || (after.Some? && after.value in leases && after.value.issue == issue)
    decreases leases
  {
    if n == 1 {
      FirstWrite(disk, leases);
    } else if n >= 2 {
      PrefixLater(disk, leases, n);
      PrefixActive(Persisted(disk, leases[0]), leases[1..], n - 2, issue);
      assert forall l :: l in leases[1..] ==> l in leases;
    }
  }

  /** As long as the last write is missing, it is not the last lease that `active.json` shows. */
  lemma UnfinishedActive(disk: Disk, init: seq<Lease>, last: Lease, n: nat, issue: string)
    requires n < |WritesOf(init + [last])|
    ensures var after := DirOf(ApplyAll(disk, WritesOf(init + [last])[..n]), issue).active;
            || after == DirOf(disk, issue).active
            || (after.Some? && after.value in init && after.value.issue == issue)
  {
    var ws := WritesOf(init);
    WritesOfAppend(init, last);
    if n <= |ws| {
      assert WritesOf(init + [last])[..n] == ws[..n];
      PrefixActive(disk, init, n, issue);
    } else {
      var half := Write(HistoryFile, last);
      assert WritesOf(init + [last])[..n] == ws + [half];
      ApplyAllConcat(disk, ws, [half]);
      ApplyOne(ApplyAll(disk, ws), half);
      assert ws[..|ws|] == ws;
      PrefixActive(disk, init, |ws|, issue);
    }
  }

  // --- Every operation plans only legal writes ------------------------------------------

  lemma LegalTwo(disk: Disk, a: Lease, b: Lease)
    requires Legal(disk, a) && Legal(Persisted(disk, a), b)
    ensures LegalAll(disk, [a, b])
  {
    assert [a, b][1..] == [b] && [b][1..] == [];
    assert LegalAll(Persisted(disk, a), [b]);
  }

  lemma AcquireIsLegal(disk: Disk, op: Op)
    requires Inv(disk) && op.Acquire?
    ensures LegalAll(disk, AcquirePlan(disk, op).leases)
  {
    var leases := AcquirePlan(disk, op).leases;
    if |leases| == 1 {
      assert leases[1..] == [];
    } else if |leases| == 2 {
      var dir := DirOf(disk, op.issue);
      assert DirInv(op.issue, dir);
      assert leases[0].issue == op.issue;
      assert DirOf(Persisted(disk, leases[0]), op.issue).active == Some(leases[0]);
      LegalTwo(disk, leases[0], leases[1]);
    }
  }

  lemma {:induction false} ReapIsLegal(disk: Disk, listing: seq<string>, now: real)
    requires Inv(disk)
    ensures LegalAll(disk, ReapPlan(disk, listing, now).leases)
    decreases listing
  {
    if listing != [] {
      var active := DirOf(disk, listing[0]).active;
      if active.Some? && ActiveAndStale(active.value, now) && ValidIssue(active.value.issue) {
        var fenced := Superseded(active.value);
        assert DirInv(listing[0], disk[listing[0]]);
        assert Legal(disk, fenced);
        LegalPersist(disk, fenced, fenced.issue);
        ReapIsLegal(Persisted(disk, fenced), listing[1..], now);
        var rest := ReapPlan(Persisted(disk, fenced), listing[1..], now).leases;
        assert ([fenced] + rest)[1..] == rest;
      } else if active.None? || active.value.status != ACTIVE || LeaseIsStale(active.value, now) == Ok(false) {
        ReapIsLegal(disk, listing[1..], now);
      }
    }
  }

  lemma OpIsLegal(disk: Disk, op: Op)
    requires Inv(disk)
    ensures LegalAll(disk, PlanOf(disk, op).leases)
  {
    match op
    case Acquire(_, _, _, _, _, _, _, _) => AcquireIsLegal(disk, op);
    case Reap(listing, now) => ReapIsLegal(disk, listing, now);
    case _ =>
      var leases := PlanOf(disk, op).leases;
      if leases != [] {
        assert DirInv(op.issue, DirOf(disk, op.issue));
        assert leases[1..] == [];
      }
  }

  lemma StepKeeps(disk: Disk, e: Event, issue: string)
    requires Inv(disk)
    ensures Inv(Step(disk, e))
    ensures Rank(DirOf(disk, issue)) <= Rank(DirOf(Step(disk, e), issue))
    ensures Exact(disk) && Completes(disk, e) ==> Exact(Step(disk, e))
  {
    var leases := PlanOf(disk, e.op).leases;
    OpIsLegal(disk, e.op);
    LegalPrefix(disk, leases, Min(e.reached, |WritesOf(leases)|), issue);
    if Exact(disk) && Completes(disk, e) {
      LegalExact(disk, leases);
      assert WritesOf(leases)[..|WritesOf(leases)|] == WritesOf(leases);
    }
  }

  // --- Theorems over runs --------------------------------------------------------------

  /** Every reachable state satisfies the crash invariant, and what `active.json` shows for
      an issue only ever moves forward: a generation seen non-ACTIVE stays so, an overtaken
      one stays overtaken. */
  lemma {:induction false} RunsKeepInvariant(disk: Disk, es: seq<Event>, issue: string)
    requires Inv(disk)
    ensures Inv(Exec(disk, es))
    ensures Rank(DirOf(disk, issue)) <= Rank(DirOf(Exec(disk, es), issue))
    decreases es
  {
    if es != [] {
      StepKeeps(disk, es[0], issue);
      RunsKeepInvariant(Step(disk, es[0]), es[1..], issue);
    }
  }

  /** A completed grant is what `active.json` shows afterwards. */
  lemma GrantIsActive(disk: Disk, e: Event)
    requires Inv(disk) && e.op.Acquire? && Completes(disk, e)
    requires PlanOf(disk, e.op).outcome.Granted?
    ensures DirOf(Step(disk, e), e.op.issue).active == Some(PlanOf(disk, e.op).outcome.lease)
    ensures PlanOf(disk, e.op).outcome.lease.generation == ActiveGeneration(DirOf(disk, e.op.issue)) + 1
    ensures HoldsActive(DirOf(Step(disk, e), e.op.issue))
  {
    var leases := PlanOf(disk, e.op).leases;
    assert WritesOf(leases)[..|WritesOf(leases)|] == WritesOf(leases);
    PersistFirst(disk, leases);
    if |leases| == 2 {
      PersistOne(Persisted(disk, leases[0]), leases[1]);
      assert leases[1..] == [leases[1]];
    } else {
      PersistOne(disk, leases[0]);
      assert leases == [leases[0]];
    }
  }

  /** Spelled out: what `active.json` shows after a completed grant is what was asked for. */
  lemma GrantShowsRequest(disk: Disk, e: Event)
    requires Inv(disk) && e.op.Acquire? && Completes(disk, e) && PlanOf(disk, e.op).outcome.Granted?
    ensures ValidIssue(e.op.issue) && e.op.staleAfter > 0.0
    ensures var active := DirOf(Step(disk, e), e.op.issue).active;
            && active.Some? && active.value.status == ACTIVE
            && active.value.generation == ActiveGeneration(DirOf(disk, e.op.issue)) + 1
            && active.value.issue == e.op.issue && active.value.dispatchId == e.op.dispatchId
            && active.value.workerId == e.op.workerId && active.value.supervisorId == e.op.supervisorId
            && active.value.worktree == e.op.worktree && active.value.branch == e.op.branch
            && active.value.staleAfter == e.op.staleAfter
            && active.value.acquiredAt == active.value.heartbeatAt == active.value.lastProgressAt == e.op.now
            && active.value.supersededReason == None && active.value.releasedAt == None
  {
    GrantIsActive(disk, e);
  }

  /** The generations that acquire returns strictly increase per issue, in every run with
      crashes: event i completed, event j is any later grant of the same issue. */
  lemma GenerationsStrictlyIncrease(disk: Disk, es: seq<Event>, i: nat, j: nat)
    requires Inv(disk) && i < j < |es|
    requires es[i].op.Acquire? && es[j].op.Acquire? && es[i].op.issue == es[j].op.issue
    requires Completes(Exec(disk, es[..i]), es[i])
    requires PlanOf(Exec(disk, es[..i]), es[i].op).outcome.Granted?
    requires PlanOf(Exec(disk, es[..j]), es[j].op).outcome.Granted?
    ensures PlanOf(Exec(disk, es[..i]), es[i].op).outcome.lease.generation
            < PlanOf(Exec(disk, es[..j]), es[j].op).outcome.lease.generation
  {
    var issue := es[i].op.issue;
    var before := Exec(disk, es[..i]);
    RunsKeepInvariant(disk, es[..i], issue);
    GrantIsActive(before, es[i]);
    StepKeeps(before, es[i], issue);
    ExecSplitAt(disk, es, i, j);
    RunsKeepInvariant(Step(before, es[i]), es[i + 1..j], issue);
  }

  // --- Generations count grants ---------------------------------------------------------

  /** The event completes a grant of the issue. */
  predicate Grants(disk: Disk, e: Event, issue: string) {
    e.op.Acquire? && e.op.issue == issue && Completes(disk, e) && PlanOf(disk, e.op).outcome.Granted?
  }

  function GrantCount(disk: Disk, es: seq<Event>, issue: string): nat
    decreases es
  {
    if es == [] then 0
    else (if Grants(disk, es[0], issue) then 1 else 0) + GrantCount(Step(disk, es[0]), es[1..], issue)
  }

  /** The same grant: all that a grant fixes is equal. */
  predicate SameGrant(a: Lease, b: Lease) {
    && a.issue == b.issue && a.generation == b.generation && a.dispatchId == b.dispatchId
    && a.workerId == b.workerId && a.worktree == b.worktree && a.branch == b.branch
    && a.acquiredAt == b.acquiredAt && a.staleAfter == b.staleAfter && a.supervisorId == b.supervisorId
  }

  predicate ShowsGrant(disk: Disk, lease: Lease) {
    var active := DirOf(disk, lease.issue).active;
    active.Some? && SameGrant(active.value, lease)
  }

  /** `active.json` of the issue still shows the grant it showed, or still shows none. */
  predicate GrantStays(before: Option<Lease>, after: Option<Lease>) {
    (before.Some? <==> after.Some?) && (before.Some? ==> SameGrant(before.value, after.value))
  }

  lemma {:induction false} ReapKeepsGrant(disk: Disk, listing: seq<string>, now: real, lease: Lease)
    requires Inv(disk) && lease in ReapPlan(disk, listing, now).leases
    ensures ShowsGrant(disk, lease)
    decreases listing
  {
    var active := DirOf(disk, listing[0]).active;
    if active.Some? && ActiveAndStale(active.value, now) && ValidIssue(active.value.issue) {
      assert DirInv(listing[0], disk[listing[0]]);
      var fenced := Superseded(active.value);
      if lease != fenced {
        PersistKeepsInv(disk, fenced);
        ReapKeepsGrant(Persisted(disk, fenced), listing[1..], now, lease);
      }
    } else {
      ReapKeepsGrant(disk, listing[1..], now, lease);
    }
  }

  /** An acquire that does not complete a grant persists at most the record it found. */
  lemma UnfinishedAcquireKeepsGrant(disk: Disk, e: Event, issue: string)
    requires Inv(disk) && e.op.Acquire? && !(Completes(disk, e) && PlanOf(disk, e.op).outcome.Granted?)
    ensures GrantStays(DirOf(disk, issue).active, DirOf(Step(disk, e), issue).active)
  {
    var leases := PlanOf(disk, e.op).leases;
    if leases == [] {
      assert Step(disk, e) == disk;
    } else {
      var init, last := leases[..|leases| - 1], leases[|leases| - 1];
      assert leases == init + [last];
      UnfinishedActive(disk, init, last, e.reached, issue);
      DirOfInv(disk, e.op.issue);
      assert init == [] || init == [Superseded(DirOf(disk, e.op.issue).active.value)];
    }
  }

  lemma OtherStepKeepsGrant(disk: Disk, e: Event, issue: string)
    requires Inv(disk) && !(e.op.Acquire? && e.op.issue == issue)
    ensures GrantStays(DirOf(disk, issue).active, DirOf(Step(disk, e), issue).active)
  {
    var leases := PlanOf(disk, e.op).leases;
    PrefixActive(disk, leases, Min(e.reached, |WritesOf(leases)|), issue);
    var active := DirOf(Step(disk, e), issue).active;
    if active != DirOf(disk, issue).active {
      assert forall x :: x in disk ==> DirInv(x, disk[x]);
      if e.op.Reap? {
        ReapKeepsGrant(disk, e.op.listing, e.op.now, active.value);
      }
    }
  }

  /** One operation, crashing or not, that completes no grant of the issue leaves the grant in
      `active.json`: worker, working copy, dispatch, supervisor, bound and acquisition time. */
  lemma GrantStaysInStep(disk: Disk, e: Event, issue: string)
    requires Inv(disk) && !Grants(disk, e, issue)
    ensures GrantStays(DirOf(disk, issue).active, DirOf(Step(disk, e), issue).active)
  {
    if e.op.Acquire? && e.op.issue == issue {
      UnfinishedAcquireKeepsGrant(disk, e, issue);
    } else {
      OtherStepKeepsGrant(disk, e, issue);
    }
  }

  /** The same over every run with crashes. */
  lemma {:induction false} GrantStaysInRun(disk: Disk, es: seq<Event>, issue: string)
    requires Inv(disk) && GrantCount(disk, es, issue) == 0
    ensures GrantStays(DirOf(disk, issue).active, DirOf(Exec(disk, es), issue).active)
    decreases es
  {
    if es != [] {
      GrantStaysInStep(disk, es[0], issue);
      StepKeeps(disk, es[0], issue);
      GrantStaysInRun(Step(disk, es[0]), es[1..], issue);
    }
  }

  /** One operation, crashing or not, moves the generation of an issue by one if it completes a
      grant of it, and not at all otherwise. */
  lemma GenerationStep(disk: Disk, e: Event, issue: string)
    requires Inv(disk)
    ensures ActiveGeneration(DirOf(Step(disk, e), issue)) ==
              ActiveGeneration(DirOf(disk, issue)) + if Grants(disk, e, issue) then 1 else 0
  {
    if Grants(disk, e, issue) {
      GrantIsActive(disk, e);
    } else {
      GrantStaysInStep(disk, e, issue);
    }
  }

  /** Over every run with crashes, the generation in `active.json` is the number of completed
      grants: none is skipped and none is given twice. */
  lemma {:induction false} GenerationsCountGrants(disk: Disk, es: seq<Event>, issue: string)
    requires Inv(disk)
    ensures ActiveGeneration(DirOf(Exec(disk, es), issue)) ==
              ActiveGeneration(DirOf(disk, issue)) + GrantCount(disk, es, issue)
    decreases es
  {
    if es != [] {
      GenerationStep(disk, es[0], issue);
      StepKeeps(disk, es[0], issue);
      GenerationsCountGrants(Step(disk, es[0]), es[1..], issue);
    }
  }

  // --- Fencing --------------------------------------------------------------------------

  /** `active.json` of the issue shows generation `g` as not ACTIVE, or a later one. */
  predicate FencedOff(disk: Disk, issue: string, g: int) {
    var dir := DirOf(disk, issue);
    ActiveGeneration(dir) > g || (ActiveGeneration(dir) == g && !HoldsActive(dir))
  }

  /** Fencing is permanent: no crash, release, reap or later grant revives generation `g`. */
  lemma FencingIsPermanent(disk: Disk, es: seq<Event>, issue: string, g: int)
    requires Inv(disk) && FencedOff(disk, issue, g)
    ensures FencedOff(Exec(disk, es), issue, g)
  {
    RunsKeepInvariant(disk, es, issue);
  }

  /** Single writer: in every reachable state, crashes included, at most one generation
      reads ACTIVE in the history, and while `active.json` is ACTIVE no other one does. */
  lemma SingleActiveGeneration(es: seq<Event>, issue: string, j: int, k: int)
    requires var dir := DirOf(Exec(map[], es), issue);
             && j in dir.history && dir.history[j].status == ACTIVE
             && ((k in dir.history && dir.history[k].status == ACTIVE)
                 || (HoldsActive(dir) && k == ActiveGeneration(dir)))
    ensures j == k
  {
    RunsKeepInvariant(map[], es, issue);
    assert DirInv(issue, DirOf(Exec(map[], es), issue));
  }

  /** Without crashes, from an empty disk: the history is exactly 1..g, `active.json` is the
      generation-g record, and only generation g may be ACTIVE. */
  lemma CrashFreeStoreIsExact(es: seq<Event>, issue: string)
    requires CrashFree(map[], es)
    ensures var dir := DirOf(Exec(map[], es), issue);
            && (forall k :: k in dir.history <==> 1 <= k <= ActiveGeneration(dir))
            && (dir.active.Some? ==>
                  ActiveGeneration(dir) in dir.history && dir.history[ActiveGeneration(dir)] == dir.active.value)
            && (forall k :: k in dir.history && dir.history[k].status == ACTIVE ==>
                  k == ActiveGeneration(dir) && HoldsActive(dir))
  {
    CrashFreeKeepsExact(map[], es);
    RunsKeepInvariant(map[], es, issue);
    var disk := Exec(map[], es);
    if issue in disk {
      assert DirInv(issue, disk[issue]) && ExactDir(disk[issue]);
    }
  }

  lemma {:induction false} CrashFreeKeepsExact(disk: Disk, es: seq<Event>)
    requires Inv(disk) && Exact(disk) && CrashFree(disk, es)
    ensures Exact(Exec(disk, es))
    decreases es
  {
    if es != [] {
      StepKeeps(disk, es[0], "");
      CrashFreeKeepsExact(Step(disk, es[0]), es[1..]);
    }
  }

  /** With a crash the agreement is really lost: a heartbeat that dies between its two
      writes leaves the history record ahead of `active.json`. */
  lemma CrashLeavesHistoryAhead(grant: Op, beat: real)
    requires grant.Acquire? && AcquirePlan(map[], grant).outcome.Granted? && beat != grant.now
    ensures var es := [Event(grant, 2), Event(Heartbeat(grant.issue, 1, false, beat), 1)];
            var dir := DirOf(Exec(map[], es), grant.issue);
            dir.active.Some? && 1 in dir.history && dir.history[1] != dir.active.value
  {
    var first, second := Event(grant, 2), Event(Heartbeat(grant.issue, 1, false, beat), 1);
    var es := [first, second];
    var lease := NewLease(grant, 1);
    var disk := Step(map[], first);
    PersistOne(map[], lease);
    assert WritesOf([lease])[..2] == WritesOf([lease]);
    assert disk == Persisted(map[], lease);
    var updated := HeartbeatPlan(disk, second.op).leases[0];
    PersistOne(disk, updated);
    assert PlanOf(disk, second.op).leases == [updated];
    assert WritesOf([updated])[..1] == [Write(HistoryFile, updated)];
    ApplyOne(disk, Write(HistoryFile, updated));
    assert Step(disk, second) == Apply(disk, Write(HistoryFile, updated));
    ExecTwo(map[], first, second);
  }
}
