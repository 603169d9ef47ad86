/** The durable single-writer lease of an issue: records on disk and the four operations
    that change them (scripts/prime_state.py).

    The disk is a map from issue to its lease directory; a directory holds an optional
    `active.json` and one `generation-N.json` per generation. Every operation is first
    described by the list of leases it persists, so that a crash between any two file
    writes can be expressed as a prefix of that list of writes. */
module Leases {
  import opened Prelude

  datatype Status = ACTIVE | SUPERSEDED | RELEASED

  datatype Lease = Lease(
    issue: string,
    dispatchId: string,
    workerId: string,
    worktree: string,
    branch: string,
    generation: int,
    status: Status,
    acquiredAt: real,
    heartbeatAt: real,
    heartbeatIso: Option<real>,
    lastProgressAt: real,
    progressIso: Option<real>,
    staleAfter: real,
    supervisorId: string,
    supersededReason: Option<string>,
    releasedAt: Option<real>)

  datatype Error =
    | InvalidIssue
    | MissingIdentity
    | NonPositiveBound
    | LeaseHeld(generation: int)
    | NoLease
    | Fenced
    | NotCurrentGeneration
    | BadStalenessBound

  datatype Dir = Dir(active: Option<Lease>, history: map<int, Lease>)

  type Disk = map<string, Dir>

  const EMPTY_DIR := Dir(None, map[])

  function DirOf(disk: Disk, issue: string): Dir {
    if issue in disk then disk[issue] else EMPTY_DIR
  }

  /** `lease_dir`: the name must be usable as one directory component. */
  predicate ValidIssue(issue: string) {
    && issue != ""
    && '/' !in issue
    && forall i :: 0 <= i < |issue| - 1 ==> !(issue[i] == '.' && issue[i + 1] == '.')
  }

  /** `lease_is_stale`; a record without a positive bound is an error, not an answer. */
  function LeaseIsStale(lease: Lease, now: real): Result<bool, Error> {
    if lease.staleAfter <= 0.0 then Err(BadStalenessBound)
    else Ok(now - lease.lastProgressAt > lease.staleAfter)
  }

  predicate ActiveAndStale(lease: Lease, now: real) {
    lease.status == ACTIVE && LeaseIsStale(lease, now) == Ok(true)
  }

  // --- File writes ------------------------------------------------------------------

  datatype Slot = HistoryFile | ActiveFile

  /** One `atomic_write_json` of a lease into its own directory. */
  datatype Write = Write(slot: Slot, lease: Lease)

  function Apply(disk: Disk, w: Write): Disk {
    var dir := DirOf(disk, w.lease.issue);
    disk[w.lease.issue :=
      match w.slot
      case HistoryFile => dir.(history := dir.history[w.lease.generation := w.lease])
      case ActiveFile => dir.(active := Some(w.lease))]
  }

  function ApplyAll(disk: Disk, ws: seq<Write>): Disk
    decreases ws
  {
    if ws == [] then disk else ApplyAll(Apply(disk, ws[0]), ws[1..])
  }

  /** `_persist_lease`: history first, then the authoritative pointer. */
  function PersistWrites(lease: Lease): seq<Write> {
    [Write(HistoryFile, lease), Write(ActiveFile, lease)]
  }

  function Persisted(disk: Disk, lease: Lease): Disk {
    Apply(Apply(disk, Write(HistoryFile, lease)), Write(ActiveFile, lease))
  }

  function WritesOf(leases: seq<Lease>): seq<Write> {
    if leases == [] then [] else PersistWrites(leases[0]) + WritesOf(leases[1..])
  }

  // --- Operations -------------------------------------------------------------------

  datatype Op =
    | Acquire(issue: string, dispatchId: string, workerId: string, worktree: string,
              branch: string, staleAfter: real, supervisorId: string, now: real)
    | Heartbeat(issue: string, generation: int, progress: bool, now: real)
    | Release(issue: string, generation: int, now: real)
    | Reap(listing: seq<string>, now: real)

  datatype Outcome = Granted(lease: Lease) | Reaped(issues: seq<string>) | Refused(error: Error)

  /** The leases an operation persists, in order, and what it returns when it completes. */
  datatype Plan = Plan(leases: seq<Lease>, outcome: Outcome)

  function Superseded(lease: Lease): Lease {
    lease.(status := SUPERSEDED, supersededReason := Some("stale_progress"))
  }

  function NewLease(op: Op, generation: int): Lease
    requires op.Acquire?
  {
    Lease(op.issue, op.dispatchId, op.workerId, op.worktree, op.branch, generation, ACTIVE,
          op.now, op.now, None, op.now, None, op.staleAfter, op.supervisorId, None, None)
  }

  function AcquirePlan(disk: Disk, op: Op): Plan
    requires op.Acquire?
  {
    if op.dispatchId == "" || op.workerId == "" then Plan([], Refused(MissingIdentity))
    else if op.staleAfter <= 0.0 then Plan([], Refused(NonPositiveBound))
    else if !ValidIssue(op.issue) then Plan([], Refused(InvalidIssue))
    else match DirOf(disk, op.issue).active
      case None =>
        var lease := NewLease(op, 1);
        Plan([lease], Granted(lease))
      case Some(existing) =>
        var lease := NewLease(op, existing.generation + 1);
        if existing.status != ACTIVE then Plan([lease], Granted(lease))
        else match LeaseIsStale(existing, op.now)
          case Err(e) => Plan([], Refused(e))
          case Ok(stale) =>
            if stale then Plan([Superseded(existing), lease], Granted(lease))
            else Plan([], Refused(LeaseHeld(existing.generation)))
  }

  function HeartbeatPlan(disk: Disk, op: Op): Plan
    requires op.Heartbeat?
  {
    if !ValidIssue(op.issue) then Plan([], Refused(InvalidIssue))
    else match DirOf(disk, op.issue).active
      case None => Plan([], Refused(NoLease))
      case Some(active) =>
        if active.generation != op.generation || active.status != ACTIVE then Plan([], Refused(Fenced))
        else
          var beat := active.(heartbeatAt := op.now, heartbeatIso := Some(op.now));
          var updated := if op.progress
                         then beat.(lastProgressAt := op.now, progressIso := Some(op.now))
                         else beat;
          Plan([updated], Granted(updated))
  }

  function ReleasePlan(disk: Disk, op: Op): Plan
    requires op.Release?
  {
    if !ValidIssue(op.issue) then Plan([], Refused(InvalidIssue))
    else match DirOf(disk, op.issue).active
      case None => Plan([], Refused(NoLease))
      case Some(active) =>
        if active.generation != op.generation then Plan([], Refused(NotCurrentGeneration))
        else
          var released := active.(status := RELEASED, releasedAt := Some(op.now));
          Plan([released], Granted(released))
  }

  /** The reaper walks the listing; a malformed record stops it where it stands. */
  function ReapPlan(disk: Disk, listing: seq<string>, now: real): Plan
    decreases listing
  {
    if listing == [] then Plan([], Reaped([]))
    else match DirOf(disk, listing[0]).active
      case None => ReapPlan(disk, listing[1..], now)
      case Some(lease) =>
        if lease.status != ACTIVE then ReapPlan(disk, listing[1..], now)
        else match LeaseIsStale(lease, now)
          case Err(e) => Plan([], Refused(e))
          case Ok(stale) =>
            if !stale then ReapPlan(disk, listing[1..], now)
            else if !ValidIssue(lease.issue) then Plan([], Refused(InvalidIssue))
            else
              var rest := ReapPlan(Persisted(disk, Superseded(lease)), listing[1..], now);
              Plan([Superseded(lease)] + rest.leases,
                   if rest.outcome.Reaped? then Reaped([lease.issue] + rest.outcome.issues)
                   else rest.outcome)
  }

  function PlanOf(disk: Disk, op: Op): Plan {
    match op
    case Acquire(_, _, _, _, _, _, _, _) => AcquirePlan(disk, op)
    case Heartbeat(_, _, _, _) => HeartbeatPlan(disk, op)
    case Release(_, _, _) => ReleasePlan(disk, op)
    case Reap(listing, now) => ReapPlan(disk, listing, now)
  }

  lemma {:induction false} ApplyAllConcat(disk: Disk, a: seq<Write>, b: seq<Write>)
    ensures ApplyAll(disk, a + b) == ApplyAll(ApplyAll(disk, a), b)
    decreases |a|
  {
    if a == [] {
      assert a + b == b;
    } else {
      assert (a + b)[0] == a[0] && (a + b)[1..] == a[1..] + b;
      ApplyAllConcat(Apply(disk, a[0]), a[1..], b);
    }
  }

  lemma ApplyOne(disk: Disk, w: Write)
    ensures ApplyAll(disk, [w]) == Apply(disk, w)
  {
    assert [w][1..] == [];
    assert ApplyAll(Apply(disk, w), []) == Apply(disk, w);
  }

  lemma PersistBoth(disk: Disk, lease: Lease)
    ensures ApplyAll(disk, PersistWrites(lease)) == Persisted(disk, lease)
  {
    var ws := PersistWrites(lease);
    assert ws[1..] == [ws[1]] && ws[1..][1..] == [];
    assert ApplyAll(disk, ws) == ApplyAll(Apply(disk, ws[0]), ws[1..]);
  }

  /** Persisting a list of leases one at a time is applying all their writes. */
  lemma PersistFirst(disk: Disk, leases: seq<Lease>)
    requires leases != []
    ensures ApplyAll(disk, WritesOf(leases)) == ApplyAll(Persisted(disk, leases[0]), WritesOf(leases[1..]))
  {
    PersistBoth(disk, leases[0]);
    ApplyAllConcat(disk, PersistWrites(leases[0]), WritesOf(leases[1..]));
  }

  lemma PersistOne(disk: Disk, lease: Lease)
    ensures ApplyAll(disk, WritesOf([lease])) == Persisted(disk, lease)
    ensures WritesOf([lease]) == PersistWrites(lease)
  {
    PersistBoth(disk, lease);
    assert [lease][1..] == [];
    assert WritesOf([]) == [];
    assert WritesOf([lease]) == PersistWrites(lease) + [];
    assert PersistWrites(lease) + [] == PersistWrites(lease);
  }

  // --- The store, in the imperative form of the source ---------------------------------

  /** `written` records every file write in order: a crash leaves the disk as some prefix
      of it would, which is what the run model of LeaseRuns quantifies over. */
  class LeaseStore {
    var disk: Disk
    ghost var written: seq<Write>

    constructor (initial: Disk)
      ensures disk == initial && written == []
    {
      disk := initial;
      written := [];
    }

    /** The state after an operation is exactly what its plan says. */
    ghost predicate Follows(before: Disk, writtenBefore: seq<Write>, plan: Plan)
      reads this
    {
      && written == writtenBefore + WritesOf(plan.leases)
      && disk == ApplyAll(before, WritesOf(plan.leases))
    }

    method WriteFile(slot: Slot, lease: Lease)
      modifies this
      ensures disk == Apply(old(disk), Write(slot, lease))
      ensures written == old(written) + [Write(slot, lease)]
    {
      var dir := if lease.issue in disk then disk[lease.issue] else EMPTY_DIR;
      if slot == HistoryFile {
        dir := dir.(history := dir.history[lease.generation := lease]);
      } else {
        dir := dir.(active := Some(lease));
      }
      disk := disk[lease.issue := dir];
      written := written + [Write(slot, lease)];
    }

    method PersistLease(lease: Lease)
      modifies this
      ensures disk == Persisted(old(disk), lease)
      ensures written == old(written) + PersistWrites(lease)
    {
      WriteFile(HistoryFile, lease);
      WriteFile(ActiveFile, lease);
    }

    method AcquireLease(op: Op) returns (r: Outcome)
      requires op.Acquire?
      modifies this
      ensures r == AcquirePlan(old(disk), op).outcome
      ensures Follows(old(disk), old(written), AcquirePlan(old(disk), op))
    {
      if op.dispatchId == "" || op.workerId == "" { return Refused(MissingIdentity); }
      if op.staleAfter <= 0.0 { return Refused(NonPositiveBound); }
      if !ValidIssue(op.issue) { return Refused(InvalidIssue); }
      var existing := DirOf(disk, op.issue).active;
      var generation := 1;
      ghost var takeover := false;
      if existing.Some? {
        generation := existing.value.generation + 1;
        if existing.value.status == ACTIVE {
          var stale := LeaseIsStale(existing.value, op.now);
          if stale.Err? { return Refused(stale.error); }
          if !stale.value { return Refused(LeaseHeld(existing.value.generation)); }
          PersistLease(Superseded(existing.value));
          takeover := true;
        }
      }
      var lease := NewLease(op, generation);
      PersistLease(lease);
      PersistOne(old(disk), lease);
      if takeover {
        ghost var both := [Superseded(existing.value), lease];
        assert both[1..] == [lease];
        PersistFirst(old(disk), both);
        PersistOne(Persisted(old(disk), both[0]), lease);
      }
      return Granted(lease);
    }

    method HeartbeatLease(op: Op) returns (r: Outcome)
      requires op.Heartbeat?
      modifies this
      ensures r == HeartbeatPlan(old(disk), op).outcome
      ensures Follows(old(disk), old(written), HeartbeatPlan(old(disk), op))
    {
      if !ValidIssue(op.issue) { return Refused(InvalidIssue); }
      var active := DirOf(disk, op.issue).active;
      if active.None? { return Refused(NoLease); }
      if active.value.generation != op.generation || active.value.status != ACTIVE { return Refused(Fenced); }
      var updated := active.value.(heartbeatAt := op.now, heartbeatIso := Some(op.now));
      if op.progress {
        updated := updated.(lastProgressAt := op.now, progressIso := Some(op.now));
      }
      PersistLease(updated);
      PersistOne(old(disk), updated);
      return Granted(updated);
    }

    method ReleaseLease(op: Op) returns (r: Outcome)
      requires op.Release?
      modifies this
      ensures r == ReleasePlan(old(disk), op).outcome
      ensures Follows(old(disk), old(written), ReleasePlan(old(disk), op))
    {
      if !ValidIssue(op.issue) { return Refused(InvalidIssue); }
      var active := DirOf(disk, op.issue).active;
      if active.None? { return Refused(NoLease); }
      if active.value.generation != op.generation { return Refused(NotCurrentGeneration); }
      var released := active.value.(status := RELEASED, releasedAt := Some(op.now));
      PersistLease(released);
      PersistOne(old(disk), released);
      return Granted(released);
    }

    method SupersedeStaleLeases(listing: seq<string>, now: real) returns (r: Outcome)
      modifies this
      ensures r == ReapPlan(old(disk), listing, now).outcome
      ensures Follows(old(disk), old(written), ReapPlan(old(disk), listing, now))
    {
      var reaped: seq<string> := [];
      ghost var plan := ReapPlan(disk, listing, now);
      ghost var done: seq<Lease> := [];
      for i := 0 to |listing|
        invariant Remains(plan, done, reaped, disk, listing[i..], now)
        invariant written == old(written) + WritesOf(done)
        invariant disk == ApplyAll(old(disk), WritesOf(done))
      {
        RemainsStep(plan, done, reaped, disk, listing[i..], now);
        assert listing[i..][1..] == listing[i + 1..];
        var lease := DirOf(disk, listing[i]).active;
        if lease.Some? && lease.value.status == ACTIVE {
          var stale := LeaseIsStale(lease.value, now);
          if stale.Err? { return Refused(stale.error); }
          if stale.value {
            if !ValidIssue(lease.value.issue) { return Refused(InvalidIssue); }
            PersistLease(Superseded(lease.value));
            reaped := reaped + [lease.value.issue];
            PersistNext(old(disk), done, Superseded(lease.value));
            done := done + [Superseded(lease.value)];
          }
        }
      }
      assert plan.leases == done;
      return Reaped(reaped);
    }
  }

  /** Of the whole reaper's plan, `done` and `reaped` lie behind and `rest` lies ahead. */
  ghost predicate Remains(
      plan: Plan, done: seq<Lease>, reaped: seq<string>, disk: Disk, rest: seq<string>, now: real) {
    && plan.leases == done + ReapPlan(disk, rest, now).leases
    && plan.outcome == Resume(reaped, ReapPlan(disk, rest, now).outcome)
  }

  lemma RemainsStep(
      plan: Plan, done: seq<Lease>, reaped: seq<string>, disk: Disk, rest: seq<string>, now: real)
    requires rest != [] && Remains(plan, done, reaped, disk, rest, now)
    ensures var active := DirOf(disk, rest[0]).active;
            if active.None? || active.value.status != ACTIVE || LeaseIsStale(active.value, now) == Ok(false)
            then Remains(plan, done, reaped, disk, rest[1..], now)
            else if LeaseIsStale(active.value, now).Err?
            then plan == Plan(done, Refused(LeaseIsStale(active.value, now).error))
            else if !ValidIssue(active.value.issue) then plan == Plan(done, Refused(InvalidIssue))
            else Remains(plan, done + [Superseded(active.value)], reaped + [active.value.issue],
                         Persisted(disk, Superseded(active.value)), rest[1..], now)
  {
    var active := DirOf(disk, rest[0]).active;
    if active.Some? && ActiveAndStale(active.value, now) && ValidIssue(active.value.issue) {
      var fenced := Superseded(active.value);
      var later := ReapPlan(Persisted(disk, fenced), rest[1..], now);
      assert done + ([fenced] + later.leases) == (done + [fenced]) + later.leases;
    }
  }

  lemma PersistNext(disk: Disk, done: seq<Lease>, lease: Lease)
    ensures WritesOf(done + [lease]) == WritesOf(done) + PersistWrites(lease)
    ensures ApplyAll(disk, WritesOf(done + [lease])) == Persisted(ApplyAll(disk, WritesOf(done)), lease)
  {
    WritesOfAppend(done, lease);
    PersistBoth(ApplyAll(disk, WritesOf(done)), lease);
    ApplyAllConcat(disk, WritesOf(done), PersistWrites(lease));
  }

  /** What the whole reaper returns once `reaped` issues are already done. */
  ghost function Resume(reaped: seq<string>, rest: Outcome): Outcome {
    if rest.Reaped? then Reaped(reaped + rest.issues) else rest
  }

  lemma {:induction false} WritesOfAppend(leases: seq<Lease>, lease: Lease)
    ensures WritesOf(leases + [lease]) == WritesOf(leases) + PersistWrites(lease)
  {
    if leases == [] {
      PersistOne(map[], lease);
      assert leases + [lease] == [lease];
    } else {
      WritesOfAppend(leases[1..], lease);
      assert (leases + [lease])[1..] == leases[1..] + [lease];
    }
  }
}
