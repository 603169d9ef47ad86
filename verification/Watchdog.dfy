/** The bounded watchdog around a controller process and the restart loop
    (scripts/prime_supervisor.py). The process, its fingerprints and the monotonic clock
    are an arbitrary environment, read round by round. */
module Watchdog {
  import opened Prelude

  datatype Fingerprint = Fingerprint(substantive: string, artifact: string, receipt: string)

  /** `is_progress`: artifact churn alone does not count. */
  predicate IsProgress(previous: Fingerprint, current: Fingerprint) {
    current.substantive != previous.substantive || current.receipt != previous.receipt
  }

  datatype Reason = EXIT | DEADLINE | NO_PROGRESS

  /** What one trip round the polling loop observes: whether the process has ended, its
      fingerprint, and the clock as read when recording progress and when testing for a stall. */
  datatype Round = Round(exited: bool, fingerprint: Fingerprint, progressClock: real, stallClock: real)

  datatype Environment = Environment(started: real, first: Fingerprint, round: nat -> Round)

  /** The clock never runs backwards and every round sleeps at least `poll`. */
  ghost predicate Paced(env: Environment, poll: real) {
    env.started <= env.round(0).progressClock && forall k: nat :: PacedAt(env, poll, k)
  }

  predicate PacedAt(env: Environment, poll: real, k: nat) {
    env.round(k).progressClock <= env.round(k).stallClock <= env.round(k + 1).progressClock - poll
  }

  function StallReason(now: real, started: real, progress: real, idle: real, timeout: real): Option<Reason> {
    if now - started >= timeout then Some(DEADLINE)
    else if now - progress >= idle then Some(NO_PROGRESS)
    else None
  }

  // --- What the watchdog is meant to report ----------------------------------------------

  /** The fingerprint seen before round `k`. */
  function Seen(env: Environment, k: nat): Fingerprint {
    if k == 0 then env.first else env.round(k - 1).fingerprint
  }

  /** Between the last look and round `k`, the source state or the receipt changed. */
  predicate ProgressAt(env: Environment, k: nat) {
    var (before, now) := (Seen(env, k), env.round(k).fingerprint);
    before.substantive != now.substantive || before.receipt != now.receipt
  }

  /** At round `k`, neither the start nor any observed progress is younger than `idle`. */
  ghost predicate IdleFor(env: Environment, k: nat, idle: real) {
    && env.round(k).stallClock - env.started >= idle
    && forall j: nat {:trigger ProgressAt(env, j)} :: j <= k && ProgressAt(env, j) ==> !Recent(env, k, j, idle)
  }

  /** Round `j` lies within the idle window that ends at round `k`. */
  predicate Recent(env: Environment, k: nat, j: nat, idle: real) {
    env.round(k).stallClock - env.round(j).progressClock < idle
  }

  ghost function EndsAt(env: Environment, k: nat, idle: real, timeout: real): Option<Reason> {
    if env.round(k).exited then Some(EXIT)
    else if env.round(k).stallClock - env.started >= timeout then Some(DEADLINE)
    else if IdleFor(env, k, idle) then Some(NO_PROGRESS)
    else None
  }

  /** Round `k` is the first one at which there is something to report, namely `reason`. */
  ghost predicate FirstEnd(env: Environment, idle: real, timeout: real, reason: Reason, k: nat) {
    && EndsAt(env, k, idle, timeout) == Some(reason)
    && forall j: nat :: j < k ==> EndsAt(env, j, idle, timeout) == None
  }

  lemma {:induction false} ClockIsMonotone(env: Environment, poll: real, j: nat, k: nat)
    requires Paced(env, poll) && poll >= 0.0 && j <= k
    ensures env.round(j).progressClock <= env.round(k).progressClock <= env.round(k).stallClock
    decreases k - j
  {
    assert PacedAt(env, poll, k);
    if j < k {
      ClockIsMonotone(env, poll, j, k - 1);
      assert PacedAt(env, poll, k - 1);
    }
  }

  /** After `k` rounds at least `k` polls have passed. */
  lemma {:induction false} ClockAdvances(env: Environment, poll: real, k: nat)
    requires Paced(env, poll)
    ensures env.started + k as real * poll <= env.round(k).progressClock <= env.round(k).stallClock
  {
    assert PacedAt(env, poll, k);
    if k > 0 {
      ClockAdvances(env, poll, k - 1);
      assert PacedAt(env, poll, k - 1);
      assert k as real * poll == (k - 1) as real * poll + poll by {
        assert k as real == (k - 1) as real + 1.0;
      }
    } else {
      assert k as real * poll == 0.0;
    }
  }

  /** The loop variable `progress` after `n` rounds. */
  ghost function LastProgress(env: Environment, n: nat): real {
    if n == 0 then env.started
    else if ProgressAt(env, n - 1) then env.round(n - 1).progressClock
    else LastProgress(env, n - 1)
  }

  /** It is the latest of the start and all observed progress. */
  lemma {:induction false} LastProgressIsLatest(env: Environment, poll: real, n: nat, j: nat)
    requires Paced(env, poll) && poll >= 0.0
    ensures env.started <= LastProgress(env, n)
    ensures j < n && ProgressAt(env, j) ==> env.round(j).progressClock <= LastProgress(env, n)
  {
    if n > 0 {
      LastProgressIsLatest(env, poll, n - 1, j);
      ClockIsMonotone(env, poll, 0, n - 1);
      if j < n {
        ClockIsMonotone(env, poll, j, n - 1);
      }
    }
  }

  lemma {:induction false} LastProgressIsObserved(env: Environment, n: nat) returns (j: nat)
    ensures LastProgress(env, n) == env.started
            || (j < n && ProgressAt(env, j) && LastProgress(env, n) == env.round(j).progressClock)
  {
    j := 0;
    if n > 0 {
      if ProgressAt(env, n - 1) { j := n - 1; } else { j := LastProgressIsObserved(env, n - 1); }
    }
  }

  /** So testing one variable is testing the whole history of observations. */
  lemma IdleIsOneTest(env: Environment, poll: real, k: nat, idle: real)
    requires Paced(env, poll) && poll >= 0.0
    ensures IdleFor(env, k, idle) <==> env.round(k).stallClock - LastProgress(env, k + 1) >= idle
  {
    LastProgressIsLatest(env, poll, k + 1, 0);
    forall j: nat | j <= k && ProgressAt(env, j) ensures env.round(j).progressClock <= LastProgress(env, k + 1) {
      LastProgressIsLatest(env, poll, k + 1, j);
    }
    var j := LastProgressIsObserved(env, k + 1);
  }

  /** The polling loop of `run_attempt`: it stops at the first round with something to
      report, and within timeout/poll further rounds whatever the process does. */
  method RunAttempt(env: Environment, idle: real, timeout: real, poll: real) returns (reason: Reason, k: nat)
    requires poll > 0.0 && Paced(env, poll)
    ensures FirstEnd(env, idle, timeout, reason, k)
    ensures k == 0 || (k - 1) as real * poll < timeout
  {
    var progress := env.started;
    var previous := env.first;
    k := 0;
    ghost var limit := RoundLimit(timeout, poll);
    while !env.round(k).exited
      invariant previous == Seen(env, k) && progress == LastProgress(env, k)
      invariant forall j: nat {:trigger EndsAt(env, j, idle, timeout)} ::
                  j < k ==> EndsAt(env, j, idle, timeout) == None
      invariant k == 0 || (k - 1) as real * poll < timeout
      decreases limit - k
    {
      var round := env.round(k);
      if IsProgress(previous, round.fingerprint) {
        previous, progress := round.fingerprint, round.progressClock;
      } else {
        previous := round.fingerprint;
      }
      var stalled := StallReason(round.stallClock, env.started, progress, idle, timeout);
      IdleIsOneTest(env, poll, k, idle);
      if stalled.Some? {
        return stalled.value, k;
      }
      ClockAdvances(env, poll, k);
      LimitIsLate(timeout, poll, k);
      k := k + 1;
    }
    reason := EXIT;
  }

  ghost function RoundLimit(timeout: real, poll: real): nat
    requires poll > 0.0
  {
    if timeout <= 0.0 then 0 else (timeout / poll).Floor + 1
  }

  lemma LimitIsLate(timeout: real, poll: real, k: nat)
    requires poll > 0.0 && k as real * poll < timeout
    ensures k < RoundLimit(timeout, poll)
  {
    assert timeout > 0.0;
    var quotient := timeout / poll;
    assert quotient * poll == timeout;
    assert (quotient - k as real) * poll > 0.0;
    assert quotient > k as real;
  }

  /** What a NO_PROGRESS report says: back through the whole idle window, every fingerprint
      has the same source state and the same receipt; at most artifacts changed. */
  lemma {:induction false} NoProgressMeansNothingChanged(
      env: Environment, idle: real, timeout: real, k: nat, j: nat, i: nat)
    requires EndsAt(env, k, idle, timeout) == Some(NO_PROGRESS)
    requires j <= i <= k && forall m: nat :: j <= m <= k ==> Recent(env, k, m, idle)
    ensures env.round(i).fingerprint.substantive == Seen(env, j).substantive
    ensures env.round(i).fingerprint.receipt == Seen(env, j).receipt
    decreases i - j
  {
    assert !ProgressAt(env, i);
    if j < i {
      NoProgressMeansNothingChanged(env, idle, timeout, k, j, i - 1);
    }
  }

  ghost predicate SameButArtifacts(a: Environment, b: Environment) {
    && a.started == b.started
    && a.first.substantive == b.first.substantive && a.first.receipt == b.first.receipt
    && forall k: nat ::
         var (x, y) := (a.round(k), b.round(k));
         && x.exited == y.exited && x.progressClock == y.progressClock && x.stallClock == y.stallClock
         && x.fingerprint.substantive == y.fingerprint.substantive && x.fingerprint.receipt == y.fingerprint.receipt
  }

  /** A hung worker that rewrites logs cannot buy time: two environments that differ only in
      artifacts end in the same round for the same reason. */
  lemma ArtifactChurnIsInvisible(a: Environment, b: Environment, idle: real, timeout: real,
                                 ra: Reason, ka: nat, rb: Reason, kb: nat)
    requires SameButArtifacts(a, b)
    requires FirstEnd(a, idle, timeout, ra, ka) && FirstEnd(b, idle, timeout, rb, kb)
    ensures ra == rb && ka == kb
  {
    forall k: nat ensures EndsAt(a, k, idle, timeout) == EndsAt(b, k, idle, timeout) {
      assert forall j: nat :: ProgressAt(a, j) <==> ProgressAt(b, j);
    }
  }

  // --- Restarts ------------------------------------------------------------------------------

  datatype Attempt = Attempt(reason: Reason, returncode: int)

  predicate Success(a: Attempt) {
    a.reason == EXIT && a.returncode == 0
  }

  datatype SupervisorStatus = STOPPED | RECOVERING | BLOCKED

  /** `recover`: attempts until the first success, at most `maxRestarts` + 1 of them; exit
      code 0 exactly when the last attempt made succeeded. `statuses` are the successive
      contents of supervisor.json. */
  method Recover(attempt: nat -> Attempt, maxRestarts: int)
    returns (code: int, made: nat, statuses: seq<SupervisorStatus>)
    ensures maxRestarts < 0 ==> made == 0 && code == 2
    ensures maxRestarts >= 0 ==> 1 <= made <= maxRestarts + 1
    ensures forall i :: 0 <= i < made - 1 ==> !Success(attempt(i))
    ensures code == (if made > 0 && Success(attempt(made - 1)) then 0 else 2)
    ensures code == 2 && maxRestarts >= 0 ==> made == maxRestarts + 1
    ensures |statuses| == made
    ensures forall i :: 0 <= i < made - 1 ==> statuses[i] == RECOVERING
    ensures made > 0 ==> statuses[made - 1] == if code == 0 then STOPPED else BLOCKED
  {
    made, statuses := 0, [];
    while made < maxRestarts + 1
      invariant made == 0 || made <= maxRestarts + 1
      invariant |statuses| == made
      invariant forall i :: 0 <= i < made ==> !Success(attempt(i))
      invariant forall i :: 0 <= i < made ==> statuses[i] == if i < maxRestarts then RECOVERING else BLOCKED
    {
      var result := attempt(made);
      var success := Success(result);
      var status := if success then STOPPED else if made < maxRestarts then RECOVERING else BLOCKED;
      statuses := statuses + [status];
      made := made + 1;
      if success {
        return 0, made, statuses;
      }
    }
    code := 2;
  }
}
