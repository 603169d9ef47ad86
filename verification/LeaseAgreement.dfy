/** When the history files and `active.json` agree: exactly which crashes part them, and
    exactly which later operations bring them together again. */
module LeaseAgreement {
  import opened Prelude
  import opened Leases
  import opened LeaseRuns

  // --- One write, one directory ---------------------------------------------------------

  function WithHistory(dir: Dir, lease: Lease): Dir {
    dir.(history := dir.history[lease.generation := lease])
  }

  function WithBoth(dir: Dir, lease: Lease): Dir {
    Dir(Some(lease), dir.history[lease.generation := lease])
  }

  lemma DirAfterWrites(disk: Disk, lease: Lease, x: string)
    ensures DirOf(Apply(disk, Write(HistoryFile, lease)), x) ==
              if x == lease.issue then WithHistory(DirOf(disk, x), lease) else DirOf(disk, x)
    ensures DirOf(Persisted(disk, lease), x) ==
              if x == lease.issue then WithBoth(DirOf(disk, x), lease) else DirOf(disk, x)
  {
  }

  /** The first write of a persist parts the two exactly when it changes anything. */
  lemma HistoryWriteAgreesInDir(dir: Dir, lease: Lease)
    requires DirInv(lease.issue, dir) && ExactDir(dir) && LegalIn(dir, lease)
    ensures ExactDir(WithHistory(dir, lease)) <==> dir.active == Some(lease)
  {
    assert lease.generation in WithHistory(dir, lease).history;
  }

  lemma HistoryWriteAgreesIff(disk: Disk, lease: Lease)
    requires Inv(disk) && Exact(disk) && Legal(disk, lease)
    ensures Exact(Apply(disk, Write(HistoryFile, lease))) <==> DirOf(disk, lease.issue).active == Some(lease)
  {
    var after := Apply(disk, Write(HistoryFile, lease));
    DirOfInv(disk, lease.issue);
    assert ExactDir(DirOf(disk, lease.issue));
    HistoryWriteAgreesInDir(DirOf(disk, lease.issue), lease);
    assert after[lease.issue] == WithHistory(DirOf(disk, lease.issue), lease);
    assert forall x :: x in after && x != lease.issue ==> x in disk && after[x] == disk[x];
  }

  /** A completed persist brings the two together exactly when no half-written grant of the
      next generation is left in the history. */
  lemma PersistRepairsInDir(dir: Dir, lease: Lease)
    requires DirInv(lease.issue, dir) && LegalIn(dir, lease)
    ensures ExactDir(WithBoth(dir, lease)) <==> lease.generation + 1 !in dir.history
  {
    if lease.generation + 1 in dir.history {
      assert lease.generation + 1 in WithBoth(dir, lease).history;
    }
  }

  // --- Crashes that part them -----------------------------------------------------------

  /** After `n` of the writes, the history holds a record that `active.json` does not show. */
  predicate HalfWritten(disk: Disk, leases: seq<Lease>, n: nat) {
    n % 2 == 1 && n / 2 < |leases| &&
    DirOf(ApplyAll(disk, WritesOf(leases[..n / 2])), leases[n / 2].issue).active != Some(leases[n / 2])
  }

  lemma {:induction false} TwoWritesEach(leases: seq<Lease>)
    ensures |WritesOf(leases)| == 2 * |leases|
  {
    if leases != [] { TwoWritesEach(leases[1..]); }
  }

  lemma HalfWrittenLater(disk: Disk, leases: seq<Lease>, n: nat)
    requires leases != [] && n >= 2
    ensures HalfWritten(disk, leases, n) <==> HalfWritten(Persisted(disk, leases[0]), leases[1..], n - 2)
  {
    var rest, k := leases[1..], n / 2;
    assert (n - 2) / 2 == k - 1 && (n - 2) % 2 == n % 2;
    if k < |leases| {
      assert leases[..k][0] == leases[0] && leases[..k][1..] == rest[..k - 1];
      PersistFirst(disk, leases[..k]);
      assert leases[k] == rest[k - 1];
    }
  }

  lemma {:induction false} CutAgreesIff(disk: Disk, leases: seq<Lease>, n: nat)
    requires Inv(disk) && Exact(disk) && LegalAll(disk, leases) && n <= |WritesOf(leases)|
    ensures Exact(ApplyAll(disk, WritesOf(leases)[..n])) <==> !HalfWritten(disk, leases, n)
    decreases leases
  {
    if n == 1 {
      var first := Write(HistoryFile, leases[0]);
      assert WritesOf(leases)[..1] == [first];
      ApplyOne(disk, first);
      HistoryWriteAgreesIff(disk, leases[0]);
      assert leases[..0] == [] && ApplyAll(disk, WritesOf(leases[..0])) == disk;
    } else if n >= 2 {
      PersistKeepsInv(disk, leases[0]);
      PersistKeepsExact(disk, leases[0]);
      PrefixLater(disk, leases, n);
      HalfWrittenLater(disk, leases, n);
      CutAgreesIff(Persisted(disk, leases[0]), leases[1..], n - 2);
    }
  }

  /** The event dies between the two writes of a record that changes anything. */
  predicate Parts(disk: Disk, e: Event) {
    HalfWritten(disk, PlanOf(disk, e.op).leases, Min(e.reached, |WritesOfOp(disk, e.op)|))
  }

  /** One operation, crashing anywhere: agreement survives exactly when the event does not
      part the two. */
  lemma StepAgreesIff(disk: Disk, e: Event)
    requires Inv(disk) && Exact(disk)
    ensures Exact(Step(disk, e)) <==> !Parts(disk, e)
  {
    OpIsLegal(disk, e.op);
    CutAgreesIff(disk, PlanOf(disk, e.op).leases, Min(e.reached, |WritesOfOp(disk, e.op)|));
  }

  ghost predicate AgreesThroughout(disk: Disk, es: seq<Event>)
    decreases es
  {
    Exact(disk) && (es == [] || AgreesThroughout(Step(disk, es[0]), es[1..]))
  }

  predicate NeverParts(disk: Disk, es: seq<Event>)
    decreases es
  {
    es == [] || (!Parts(disk, es[0]) && NeverParts(Step(disk, es[0]), es[1..]))
  }

  /** Over every run with crashes: history and `active.json` agree in every state exactly when
      no event dies between the two writes of a record that changes anything. Crashes before
      the first write or between two records do no harm. */
  lemma {:induction false} AgreementHoldsIff(disk: Disk, es: seq<Event>)
    requires Inv(disk) && Exact(disk)
    ensures AgreesThroughout(disk, es) <==> NeverParts(disk, es)
    decreases es
  {
    if es != [] {
      StepAgreesIff(disk, es[0]);
      StepKeeps(disk, es[0], "");
      if !Parts(disk, es[0]) {
        AgreementHoldsIff(Step(disk, es[0]), es[1..]);
      } else {
        assert !Exact(Step(disk, es[0]));
      }
    }
  }

  lemma CompletedNeverParts(disk: Disk, e: Event)
    requires Completes(disk, e)
    ensures !Parts(disk, e)
  {
    TwoWritesEach(PlanOf(disk, e.op).leases);
  }

  lemma {:induction false} CrashFreeNeverParts(disk: Disk, es: seq<Event>)
    requires CrashFree(disk, es)
    ensures NeverParts(disk, es)
    decreases es
  {
    if es != [] {
      CompletedNeverParts(disk, es[0]);
      CrashFreeNeverParts(Step(disk, es[0]), es[1..]);
    }
  }

  /** In particular a run without crashes agrees in every state it goes through. */
  lemma CrashFreeAgrees(disk: Disk, es: seq<Event>)
    requires Inv(disk) && Exact(disk) && CrashFree(disk, es)
    ensures AgreesThroughout(disk, es)
  {
    CrashFreeNeverParts(disk, es);
    AgreementHoldsIff(disk, es);
  }

  // --- What brings them together --------------------------------------------------------

  lemma PersistKeepsExactDir(disk: Disk, lease: Lease, x: string)
    requires Inv(disk) && Legal(disk, lease) && ExactDir(DirOf(disk, x))
    ensures ExactDir(DirOf(Persisted(disk, lease), x))
  {
    DirAfterWrites(disk, lease, x);
    if x == lease.issue {
      DirOfInv(disk, x);
      PersistRepairsInDir(DirOf(disk, x), lease);
    }
  }

  lemma {:induction false} AllKeepExactDir(disk: Disk, leases: seq<Lease>, x: string)
    requires Inv(disk) && LegalAll(disk, leases) && ExactDir(DirOf(disk, x))
    ensures ExactDir(DirOf(ApplyAll(disk, WritesOf(leases)), x))
    decreases leases
  {
    if leases != [] {
      PersistKeepsInv(disk, leases[0]);
      PersistFirst(disk, leases);
      PersistKeepsExactDir(disk, leases[0], x);
      AllKeepExactDir(Persisted(disk, leases[0]), leases[1..], x);
    }
  }

  lemma CompletedStep(disk: Disk, e: Event)
    requires Completes(disk, e)
    ensures Step(disk, e) == ApplyAll(disk, WritesOfOp(disk, e.op))
  {
    var ws := WritesOfOp(disk, e.op);
    assert ws[..|ws|] == ws;
  }

  /** A run of completed operations keeps an issue that agrees in agreement, whatever state
      the other issues are in. */
  lemma {:induction false} AgreementStays(disk: Disk, es: seq<Event>, x: string)
    requires Inv(disk) && ExactDir(DirOf(disk, x)) && CrashFree(disk, es)
    ensures ExactDir(DirOf(Exec(disk, es), x))
    decreases es
  {
    if es != [] {
      OpIsLegal(disk, es[0].op);
      CompletedStep(disk, es[0]);
      AllKeepExactDir(disk, PlanOf(disk, es[0].op).leases, x);
      StepKeeps(disk, es[0], x);
      AgreementStays(Step(disk, es[0]), es[1..], x);
    }
  }

  /** A release of a generation over which a half-written grant already lies. */
  predicate ReleasesUnderGrant(disk: Disk, op: Op) {
    op.Release? && op.generation + 1 in DirOf(disk, op.issue).history
  }

  lemma PersistRepairsIff(disk: Disk, lease: Lease)
    requires Inv(disk) && Legal(disk, lease)
    ensures ExactDir(DirOf(Persisted(disk, lease), lease.issue)) <==>
              lease.generation + 1 !in DirOf(disk, lease.issue).history
  {
    DirOfInv(disk, lease.issue);
    DirAfterWrites(disk, lease, lease.issue);
    PersistRepairsInDir(DirOf(disk, lease.issue), lease);
  }

  /** Whatever follows the first record of a plan, agreement reached there is kept. */
  lemma FirstRepairs(disk: Disk, first: Lease, rest: seq<Lease>)
    requires Inv(disk) && Legal(disk, first) && LegalAll(Persisted(disk, first), rest)
    requires first.generation + 1 !in DirOf(disk, first.issue).history
    ensures ExactDir(DirOf(ApplyAll(Persisted(disk, first), WritesOf(rest)), first.issue))
  {
    PersistRepairsIff(disk, first);
    PersistKeepsInv(disk, first);
    AllKeepExactDir(Persisted(disk, first), rest, first.issue);
  }

  lemma AcquireRepairs(disk: Disk, op: Op)
    requires Inv(disk) && op.Acquire? && AcquirePlan(disk, op).outcome.Granted?
    ensures ExactDir(DirOf(ApplyAll(disk, WritesOf(AcquirePlan(disk, op).leases)), op.issue))
  {
    var leases := AcquirePlan(disk, op).leases;
    DirOfInv(disk, op.issue);
    AcquireIsLegal(disk, op);
    FirstRepairs(disk, leases[0], leases[1..]);
    PersistFirst(disk, leases);
  }

  lemma OnlyRepairsIff(disk: Disk, op: Op, lease: Lease)
    requires Inv(disk) && PlanOf(disk, op).leases == [lease]
    ensures ExactDir(DirOf(ApplyAll(disk, WritesOf(PlanOf(disk, op).leases)), lease.issue)) <==>
              lease.generation + 1 !in DirOf(disk, lease.issue).history
  {
    OpIsLegal(disk, op);
    assert [lease][0] == lease;
    PersistRepairsIff(disk, lease);
    PersistOne(disk, lease);
  }

  /** In any state that crashes may have left: a completed acquire, heartbeat or release that
      succeeds brings its issue back to agreement, with one exception, and there it fails. */
  lemma RepairsIff(disk: Disk, e: Event)
    requires Inv(disk) && !e.op.Reap? && Completes(disk, e) && PlanOf(disk, e.op).outcome.Granted?
    ensures ExactDir(DirOf(Step(disk, e), e.op.issue)) <==> !ReleasesUnderGrant(disk, e.op)
  {
    CompletedStep(disk, e);
    DirOfInv(disk, e.op.issue);
    if e.op.Acquire? {
      AcquireRepairs(disk, e.op);
    } else {
      OnlyRepairsIff(disk, e.op, PlanOf(disk, e.op).leases[0]);
    }
  }

  /** A completed reap brings every issue it fences back to agreement. */
  lemma {:induction false} ReapRepairs(disk: Disk, listing: seq<string>, now: real, x: string)
    requires Inv(disk)
    requires ExactDir(DirOf(disk, x)) || exists l :: l in ReapPlan(disk, listing, now).leases && l.issue == x
    ensures ExactDir(DirOf(ApplyAll(disk, WritesOf(ReapPlan(disk, listing, now).leases)), x))
    decreases listing
  {
    if listing != [] {
      var active := DirOf(disk, listing[0]).active;
      if active.Some? && ActiveAndStale(active.value, now) && ValidIssue(active.value.issue) {
        var fenced := Superseded(active.value);
        assert DirInv(listing[0], disk[listing[0]]);
        PersistKeepsInv(disk, fenced);
        var leases, mid := ReapPlan(disk, listing, now).leases, Persisted(disk, fenced);
        assert leases == [fenced] + ReapPlan(mid, listing[1..], now).leases;
        PersistFirst(disk, leases);
        FenceRepairs(disk, fenced, x);
        ReapRepairs(mid, listing[1..], now, x);
      } else if active.None? || active.value.status != ACTIVE || LeaseIsStale(active.value, now) == Ok(false) {
        ReapRepairs(disk, listing[1..], now, x);
      }
    }
  }

  lemma FenceRepairs(disk: Disk, fenced: Lease, x: string)
    requires Inv(disk) && Legal(disk, fenced) && HoldsActive(DirOf(disk, fenced.issue))
    requires fenced.generation == ActiveGeneration(DirOf(disk, fenced.issue))
    ensures ExactDir(DirOf(disk, x)) || x == fenced.issue ==> ExactDir(DirOf(Persisted(disk, fenced), x))
  {
    DirOfInv(disk, fenced.issue);
    DirAfterWrites(disk, fenced, x);
    PersistRepairsInDir(DirOf(disk, fenced.issue), fenced);
  }

  /** The exception is reachable: an attempt dies after the first write of its grant, then the
      generation before it is released once more. */
  lemma ReleaseUnderGrantIsReachable(grant: Op, again: Op, t: real)
    requires grant.Acquire? && AcquirePlan(map[], grant).outcome.Granted?
    requires again.Acquire? && again.issue == grant.issue && again.staleAfter > 0.0
    requires again.dispatchId != "" && again.workerId != ""
    ensures var release := Event(Release(grant.issue, 1, t), 2);
            var disk := Exec(map[], [Event(grant, 2), release, Event(again, 1)]);
            && ReleasesUnderGrant(disk, release.op) && Completes(disk, release)
            && PlanOf(disk, release.op).outcome.Granted?
            && !ExactDir(DirOf(Step(disk, release), grant.issue))
  {
    var issue, release := grant.issue, Event(Release(grant.issue, 1, t), 2);
    var first := Step(map[], Event(grant, 2));
    var lease := NewLease(grant, 1);
    OneLeaseIsStored(map[], Event(grant, 2), lease);
    DirAfterWrites(map[], lease, issue);
    var released := lease.(status := RELEASED, releasedAt := Some(t));
    OneLeaseIsStored(first, release, released);
    DirAfterWrites(first, released, issue);
    var second := Step(first, release);
    var next := NewLease(again, 2);
    assert PlanOf(second, again).leases == [next];
    PersistOne(second, next);
    assert WritesOf([next])[..1] == [Write(HistoryFile, next)];
    ApplyOne(second, Write(HistoryFile, next));
    DirAfterWrites(second, next, issue);
    var third := Step(second, Event(again, 1));
    var es := [Event(grant, 2), release, Event(again, 1)];
    ExecThree(map[], es[0], es[1], es[2]);
    RunsKeepInvariant(map[], es, issue);
    PersistOne(third, released);
    assert PlanOf(third, release.op).leases == [released];
    RepairsIff(third, release);
  }

  lemma ExecThree(disk: Disk, a: Event, b: Event, c: Event)
    ensures Exec(disk, [a, b, c]) == Step(Step(Step(disk, a), b), c)
  {
    assert [a, b, c][1..] == [b, c];
    ExecTwo(Step(disk, a), b, c);
  }
}
