/** What the lock is for: the command `lease-reap` takes no lock, so its writes may reach the
    disk after other operations have run (scripts/prime_workflow.py). This module says which
    delayed writes are harmless, and what the others break. */
module UnlockedReap {
  import opened Prelude
  import opened Leases
  import opened LeaseRuns
  import opened LeaseRecovery

  /** The reaper has read the ACTIVE stale record `read` of `issue`; its write comes later. */
  ghost predicate Reads(disk: Disk, issue: string, read: Lease, now: real) {
    Inv(disk) && DirOf(disk, issue).active == Some(read) && ActiveAndStale(read, now)
  }

  function Late(disk: Disk, read: Lease, slot: Slot): Disk {
    Apply(disk, Write(slot, Superseded(read)))
  }

  lemma ReadIsOwn(disk: Disk, issue: string, read: Lease, now: real)
    requires Reads(disk, issue, read, now)
    ensures ValidIssue(issue) && read.issue == issue && read.generation == ActiveGeneration(DirOf(disk, issue))
    ensures Rank(DirOf(disk, issue)) == 2 * read.generation && read.staleAfter > 0.0
  {
    assert DirInv(issue, disk[issue]);
  }

  /** The state in which the second write arrives: other operations, crashing or not, ran
      before the first write and between the two. */
  function BeforeSecond(disk: Disk, read: Lease, es: seq<Event>, more: seq<Event>): Disk {
    Exec(Late(Exec(disk, es), read, HistoryFile), more)
  }

  /** The first write is always harmless: the invariant holds and `active.json` shows the same. */
  lemma LateHistoryWriteIsSafe(disk: Disk, issue: string, read: Lease, now: real, es: seq<Event>)
    requires Reads(disk, issue, read, now)
    ensures var mid := Exec(disk, es);
            && Inv(Late(mid, read, HistoryFile))
            && DirOf(Late(mid, read, HistoryFile), issue).active == DirOf(mid, issue).active
            && Rank(DirOf(Late(mid, read, HistoryFile), issue)) >= 2 * read.generation
  {
    ReadIsOwn(disk, issue, read, now);
    RunsKeepInvariant(disk, es, issue);
    var mid := Exec(disk, es);
    DirOfInv(mid, issue);
    HistoryWriteStays(DirOf(mid, issue), Superseded(read));
    assert Late(mid, read, HistoryFile)[issue] ==
           DirOf(mid, issue).(history := DirOf(mid, issue).history[read.generation := Superseded(read)]);
  }

  lemma HistoryWriteStays(dir: Dir, fenced: Lease)
    requires DirInv(fenced.issue, dir) && fenced.status != ACTIVE && 1 <= fenced.generation <= ActiveGeneration(dir)
    ensures DirInv(fenced.issue, dir.(history := dir.history[fenced.generation := fenced]))
  {
  }

  /** How many grants of the issue the other operations completed between the reaper's reading
      and its second write: the takeovers that it does not know of. */
  function Takeovers(disk: Disk, read: Lease, es: seq<Event>, more: seq<Event>): nat {
    GrantCount(disk, es, read.issue) + GrantCount(Late(Exec(disk, es), read, HistoryFile), more, read.issue)
  }

  lemma SecondWriteComesLater(
      disk: Disk, issue: string, read: Lease, now: real, es: seq<Event>, more: seq<Event>)
    requires Reads(disk, issue, read, now)
    ensures read.issue == issue && read.generation >= 1
    ensures var mid := BeforeSecond(disk, read, es, more);
            && Inv(mid) && DirInv(issue, DirOf(mid, issue))
            && ActiveGeneration(DirOf(mid, issue)) == read.generation + Takeovers(disk, read, es, more)
  {
    ReadIsOwn(disk, issue, read, now);
    assert DirInv(issue, disk[issue]);
    LateHistoryWriteIsSafe(disk, issue, read, now, es);
    var first := Late(Exec(disk, es), read, HistoryFile);
    RunsKeepInvariant(first, more, issue);
    GenerationsCountGrants(disk, es, issue);
    GenerationsCountGrants(first, more, issue);
    DirOfInv(BeforeSecond(disk, read, es, more), issue);
  }

  /** The second write keeps what `active.json` shows moving forward exactly when no event in
      between completed a takeover. Crashed takeovers, heartbeats, releases and other reaps do
      no harm to this order. */
  lemma LateWriteKeepsRankIff(
      disk: Disk, issue: string, read: Lease, now: real, es: seq<Event>, more: seq<Event>)
    requires Reads(disk, issue, read, now)
    ensures var mid := BeforeSecond(disk, read, es, more);
            Rank(DirOf(mid, issue)) <= Rank(DirOf(Late(mid, read, ActiveFile), issue))
            <==> Takeovers(disk, read, es, more) == 0
  {
    SecondWriteComesLater(disk, issue, read, now, es, more);
  }

  /** What a caller sees: the next acquire after the late reap is always granted, and it goes
      back over as many generations as there were takeovers in between. So it returns a
      generation that was never granted before exactly when there was none. */
  lemma LateReapKeepsGrantsFreshIff(
      disk: Disk, issue: string, read: Lease, now: real, es: seq<Event>, more: seq<Event>, acquire: Op)
    requires Reads(disk, issue, read, now) && WellFormedAcquire(acquire, issue)
    ensures var mid := BeforeSecond(disk, read, es, more);
            var outcome := AcquirePlan(Late(mid, read, ActiveFile), acquire).outcome;
            var shown := ActiveGeneration(DirOf(mid, issue));
            && outcome.Granted?
            && outcome.lease.generation + Takeovers(disk, read, es, more) == shown + 1
            && (outcome.lease.generation > shown <==> Takeovers(disk, read, es, more) == 0)
  {
    SecondWriteComesLater(disk, issue, read, now, es, more);
    ReadIsOwn(disk, issue, read, now);
  }

  /** The second write keeps the invariant exactly when the history does not read ACTIVE for the
      fenced generation and holds no generation beyond the next. */
  lemma LateWriteKeepsInvIff(
      disk: Disk, issue: string, read: Lease, now: real, es: seq<Event>, more: seq<Event>)
    requires Reads(disk, issue, read, now)
    ensures var mid := BeforeSecond(disk, read, es, more);
            var history := DirOf(mid, issue).history;
            && read.generation in history
            && (Inv(Late(mid, read, ActiveFile)) <==>
                  && history[read.generation].status != ACTIVE
                  && forall g :: g in history ==> g <= read.generation + 1)
  {
    SecondWriteComesLater(disk, issue, read, now, es, more);
    ReadIsOwn(disk, issue, read, now);
    var mid := BeforeSecond(disk, read, es, more);
    ActiveWriteIff(DirOf(mid, issue), Superseded(read));
    var after := Late(mid, read, ActiveFile);
    assert after[issue] == DirOf(mid, issue).(active := Some(Superseded(read)));
    assert forall x :: x in after && x != issue ==> x in mid && after[x] == mid[x];
  }

  lemma ActiveWriteIff(dir: Dir, fenced: Lease)
    requires DirInv(fenced.issue, dir) && fenced.status != ACTIVE && fenced.staleAfter > 0.0
    requires 1 <= fenced.generation <= ActiveGeneration(dir)
    ensures DirInv(fenced.issue, dir.(active := Some(fenced))) <==>
              && dir.history[fenced.generation].status != ACTIVE
              && forall g :: g in dir.history ==> g <= fenced.generation + 1
  {
  }

  lemma AfterFirstGrant(first: Op, now: real)
    requires first.Acquire? && AcquirePlan(map[], first).outcome.Granted? && now - first.now > first.staleAfter
    ensures var read, before := NewLease(first, 1), Exec(map[], [Event(first, 2)]);
            before == Persisted(map[], read) && Reads(before, first.issue, read, now)
  {
    var read, e := NewLease(first, 1), Event(first, 2);
    assert PlanOf(map[], first).leases == [read];
    OneLeaseIsStored(map[], e, read);
    assert [e][1..] == [] && Exec(map[], [e]) == Step(map[], e);
    RunsKeepInvariant(map[], [e], first.issue);
  }

  /** An input that breaks the invariant without a takeover: the fenced writer's heartbeat slips
      in between the two writes, so the history reads ACTIVE under a fenced generation. */
  lemma HeartbeatBetweenTheWrites(first: Op, now: real, t: real)
    requires first.Acquire? && AcquirePlan(map[], first).outcome.Granted? && now - first.now > first.staleAfter
    ensures var read, before := NewLease(first, 1), Exec(map[], [Event(first, 2)]);
            var more := [Event(Heartbeat(first.issue, 1, false, t), 2)];
            && Reads(before, first.issue, read, now)
            && Takeovers(before, read, [], more) == 0
            && !Inv(Late(BeforeSecond(before, read, [], more), read, ActiveFile))
  {
    AfterFirstGrant(first, now);
    var issue, read, before := first.issue, NewLease(first, 1), Exec(map[], [Event(first, 2)]);
    var beat := Event(Heartbeat(issue, 1, false, t), 2);
    var fenced := Late(before, read, HistoryFile);
    assert DirOf(fenced, issue).active == Some(read);
    var updated := HeartbeatPlan(fenced, beat.op).leases[0];
    OneLeaseIsStored(fenced, beat, updated);
    assert [beat][1..] == [] && Exec(fenced, [beat]) == Step(fenced, beat);
    assert GrantCount(Step(fenced, beat), [beat][1..], issue) == 0;
    LateWriteKeepsInvIff(before, issue, read, now, [], [beat]);
    assert DirOf(Step(fenced, beat), issue).history[1] == updated;
  }

  /** The failing input: a takeover between the reaper's reading and its writing. Generation 2
      is granted twice, to two writers. */
  lemma LateReapGrantsTwice(first: Op, second: Op, third: Op, now: real)
    requires first.Acquire? && AcquirePlan(map[], first).outcome.Granted?
    requires WellFormedAcquire(second, first.issue) && WellFormedAcquire(third, first.issue)
    requires second.now - first.now > first.staleAfter && now - first.now > first.staleAfter
    ensures var read := NewLease(first, 1);
            var before := Exec(map[], [Event(first, 2)]);
            var mid := Step(before, Event(second, 4));
            && Reads(before, first.issue, read, now)
            && PlanOf(before, second).outcome == Granted(NewLease(second, 2))
            && DirOf(mid, first.issue).active == Some(NewLease(second, 2))
            && AcquirePlan(Persisted(mid, Superseded(read)), third).outcome == Granted(NewLease(third, 2))
  {
    AfterFirstGrant(first, now);
    var read, before := NewLease(first, 1), Exec(map[], [Event(first, 2)]);
    var taken := [Superseded(read), NewLease(second, 2)];
    assert PlanOf(before, second) == Plan(taken, Granted(taken[1]));
    PersistOne(map[], taken[1]);
    assert taken[1..] == [taken[1]];
    assert |WritesOf(taken)| == 4;
    GrantIsActive(before, Event(second, 4));
  }
}
