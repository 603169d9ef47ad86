/** The issue lifecycle and the durable checkpoint (scripts/prime_workflow.py `transition`,
    scripts/prime_state.py `write_checkpoint`). */
module Checkpoints {
  import opened Prelude

  datatype State =
    | READY | HYDRATED | IMPLEMENTING | LOCAL_VALIDATION | PROOF_COMPLETE | REVIEW_APPROVED
    | PR_OPEN | CI_GREEN | MERGED | MAIN_VERIFIED | DONE

  function Index(s: State): nat {
    match s
    case READY => 0 case HYDRATED => 1 case IMPLEMENTING => 2 case LOCAL_VALIDATION => 3
    case PROOF_COMPLETE => 4 case REVIEW_APPROVED => 5 case PR_OPEN => 6 case CI_GREEN => 7
    case MERGED => 8 case MAIN_VERIFIED => 9 case DONE => 10
  }

  // --- Transitions --------------------------------------------------------------------

  function Needed(target: State): string {
    match target
    case READY => ""  // never a target: no state precedes it
    case HYDRATED => "packet_valid"
    case IMPLEMENTING => "worker_admitted"
    case LOCAL_VALIDATION => "receipt_valid"
    case PROOF_COMPLETE => "proof_valid"
    case REVIEW_APPROVED => "review_valid"
    case PR_OPEN => "pr_verified"
    case CI_GREEN => "ci_verified"
    case MERGED => "merge_verified"
    case MAIN_VERIFIED => "main_verified"
    case DONE => "linear_updated"
  }

  /** A requested move; `evidence` holds the flags that are literally true. */
  datatype Move = Move(target: State, evidence: set<string>)

  function Transition(current: State, move: Move): Result<State, string> {
    if Index(move.target) != Index(current) + 1 then Err("cannot skip lifecycle states")
    else if Needed(move.target) !in move.evidence then Err("missing " + Needed(move.target))
    else Ok(move.target)
  }

  function RunMoves(current: State, moves: seq<Move>): Result<State, string>
    decreases moves
  {
    if moves == [] then Ok(current)
    else match Transition(current, moves[0])
      case Err(e) => Err(e)
      case Ok(next) => RunMoves(next, moves[1..])
  }

  /** A run reaches `goal` exactly when it names every state on the way, one by one and in
      order, each with its own evidence flag. */
  lemma {:induction false} RunsSupplyAllEvidenceInOrder(start: State, moves: seq<Move>, goal: State)
    ensures RunMoves(start, moves) == Ok(goal)
            <==> && Index(goal) == Index(start) + |moves|
                 && (forall i :: 0 <= i < |moves| ==> Index(moves[i].target) == Index(start) + i + 1)
                 && (forall i :: 0 <= i < |moves| ==> Needed(moves[i].target) in moves[i].evidence)
    decreases moves
  {
    if moves != [] {
      var rest := moves[1..];
      assert forall i :: 0 <= i < |rest| ==> rest[i] == moves[i + 1];
      assert forall i :: 1 <= i < |moves| ==> moves[i] == rest[i - 1];
      if Transition(start, moves[0]).Ok? {
        RunsSupplyAllEvidenceInOrder(moves[0].target, rest, goal);
      }
    }
  }

  /** The states after READY, in order, and what each of them demands. */
  const PATH: seq<(State, string)> := [
    (HYDRATED, "packet_valid"), (IMPLEMENTING, "worker_admitted"), (LOCAL_VALIDATION, "receipt_valid"),
    (PROOF_COMPLETE, "proof_valid"), (REVIEW_APPROVED, "review_valid"), (PR_OPEN, "pr_verified"),
    (CI_GREEN, "ci_verified"), (MERGED, "merge_verified"), (MAIN_VERIFIED, "main_verified"),
    (DONE, "linear_updated")]

  /** Spelled out for runs from READY: the path is walked from its beginning, each state named
      with its own flag. */
  lemma RunsWalkThePath(moves: seq<Move>, n: nat)
    requires n < |PATH|
    ensures RunMoves(READY, moves) == Ok(PATH[n].0) <==>
              && |moves| == n + 1
              && forall i :: 0 <= i <= n ==> moves[i].target == PATH[i].0 && PATH[i].1 in moves[i].evidence
  {
    forall k | 0 <= k < |PATH| ensures Index(PATH[k].0) == k + 1 && Needed(PATH[k].0) == PATH[k].1 {
      PathEntry(k);
    }
    WalkAlong(moves, n, PATH);
  }

  lemma WalkAlong(moves: seq<Move>, n: nat, path: seq<(State, string)>)
    requires n < |path|
    requires forall k :: 0 <= k < |path| ==> Index(path[k].0) == k + 1 && Needed(path[k].0) == path[k].1
    ensures RunMoves(READY, moves) == Ok(path[n].0) <==>
              && |moves| == n + 1
              && forall i :: 0 <= i <= n ==> moves[i].target == path[i].0 && path[i].1 in moves[i].evidence
  {
    RunsSupplyAllEvidenceInOrder(READY, moves, path[n].0);
    forall i | 0 <= i < |moves| && i <= n
      ensures Index(moves[i].target) == i + 1 <==> moves[i].target == path[i].0
    {
      IndexIsInjective(moves[i].target, path[i].0);
    }
  }

  lemma IndexIsInjective(a: State, b: State)
    ensures Index(a) == Index(b) <==> a == b
  {
  }

  lemma PathEntry(k: nat)
    requires k < |PATH|
    ensures Index(PATH[k].0) == k + 1 && Needed(PATH[k].0) == PATH[k].1
  {
  }

  // --- Checkpoints -----------------------------------------------------------------------

  /** Absent, or a state name (None when it is not one of the lifecycle) with its digest. */
  datatype Verified = NotVerified | Verified(state: Option<State>, digest: string)

  datatype Checkpoint = Checkpoint(
    schemaVersion: int, issue: string, state: Option<State>, nextAction: string,
    verified: Verified, completed: seq<string>)

  datatype File = Missing | Unreadable | Stored(checkpoint: Checkpoint)

  /** `validate_checkpoint` raises nothing. */
  predicate ValidCheckpoint(c: Checkpoint) {
    && c.schemaVersion == 1 && c.issue != "" && c.state.Some? && c.nextAction != ""
    && (c.verified.Verified? ==> c.verified.state.Some? && c.verified.digest != "")
  }

  predicate Regresses(previous: Checkpoint, c: Checkpoint)
    requires c.state.Some?
  {
    previous.issue == c.issue && previous.state.Some? && Index(previous.state.value) > Index(c.state.value)
  }

  /** What the file holds after an accepted `write_checkpoint`. */
  function Merged(file: File, c: Checkpoint): Checkpoint {
    match file
    case Missing => c
    case Unreadable => c.(completed := [])
    case Stored(previous) =>
      if previous.issue == c.issue then c
      else if previous.state == Some(DONE) && previous.issue !in previous.completed
        then c.(completed := previous.completed + [previous.issue])
      else c.(completed := previous.completed)
  }

  predicate Accepts(file: File, c: Checkpoint) {
    ValidCheckpoint(c) && (file.Stored? ==> !Regresses(file.checkpoint, c))
  }

  function AfterWrite(file: File, c: Checkpoint): File {
    if Accepts(file, c) then Stored(Merged(file, c)) else file
  }

  class CheckpointStore {
    var file: File

    constructor ()
      ensures file == Missing
    {
      file := Missing;
    }

    method WriteCheckpoint(c: Checkpoint) returns (ok: bool)
      modifies this
      ensures file == AfterWrite(old(file), c)
      ensures ok <==>
                && c.schemaVersion == 1 && c.issue != "" && c.state.Some? && c.nextAction != ""
                && (c.verified.Verified? ==> c.verified.state.Some? && c.verified.digest != "")
                && !(old(file).Stored? && old(file).checkpoint.issue == c.issue && old(file).checkpoint.state.Some?
                     && Index(old(file).checkpoint.state.value) > Index(c.state.value))
      ensures !ok ==> file == old(file)
      ensures ok ==> file.Stored? && file.checkpoint == c.(completed := file.checkpoint.completed)
      ensures ok && old(file).Unreadable? ==> file.checkpoint.completed == []
      ensures ok && (old(file).Missing? || (old(file).Stored? && old(file).checkpoint.issue == c.issue)) ==>
                file.checkpoint.completed == c.completed
      ensures ok && old(file).Stored? && old(file).checkpoint.issue != c.issue ==>
                file.checkpoint.completed ==
                  old(file).checkpoint.completed
                  + if old(file).checkpoint.state == Some(DONE)
                       && old(file).checkpoint.issue !in old(file).checkpoint.completed
                    then [old(file).checkpoint.issue] else []
    {
      if !ValidCheckpoint(c) { return false; }
      var written := c;
      if file != Missing {
        if file.Stored? && Regresses(file.checkpoint, c) { return false; }
        if file.Unreadable? || file.checkpoint.issue != c.issue {
          var completed := if file.Stored? then file.checkpoint.completed else [];
          if file.Stored? && file.checkpoint.state == Some(DONE) && file.checkpoint.issue !in completed {
            completed := completed + [file.checkpoint.issue];
          }
          written := c.(completed := completed);
        }
      }
      file := Stored(written);
      return true;
    }
  }

  /** The file after a run of write attempts, refused ones included. */
  function After(file: File, ws: seq<Checkpoint>): File {
    if ws == [] then file else AfterWrite(After(file, ws[..|ws| - 1]), ws[|ws| - 1])
  }

  ghost predicate AtIssue(file: File, issue: string) {
    file.Stored? && file.checkpoint.issue == issue && file.checkpoint.state.Some?
  }

  /** Through any stretch of attempts during which the stored issue stays the same, the
      stored state never moves backwards. */
  lemma {:induction false} NeverRegressesWithinAnIssue(file: File, ws: seq<Checkpoint>, issue: string, i: nat, j: nat)
    requires i <= j <= |ws|
    requires forall k :: i <= k <= j ==> AtIssue(After(file, ws[..k]), issue)
    ensures var (early, late) := (After(file, ws[..i]), After(file, ws[..j]));
            && AtIssue(early, issue) && AtIssue(late, issue)
            && Index(early.checkpoint.state.value) <= Index(late.checkpoint.state.value)
    decreases j - i
  {
    if i < j {
      NeverRegressesWithinAnIssue(file, ws, issue, i, j - 1);
      assert ws[..j][..j - 1] == ws[..j - 1];
      assert AtIssue(After(file, ws[..j - 1]), issue) && AtIssue(After(file, ws[..j]), issue);
    }
  }

  /** Between these two states of the file, `issue` was left while it stood at DONE. */
  predicate LeftAtDone(before: File, after: File, issue: string) {
    && before.Stored? && before.checkpoint.issue == issue && before.checkpoint.state == Some(DONE)
    && after.Stored? && after.checkpoint.issue != issue
  }

  /** The write at position `k` left `issue` at DONE. */
  predicate DepartsAt(ws: seq<Checkpoint>, k: int, issue: string) {
    0 <= k < |ws| && LeftAtDone(After(Missing, ws[..k]), After(Missing, ws[..k + 1]), issue)
  }

  ghost predicate EverLeftAtDone(ws: seq<Checkpoint>, issue: string) {
    exists k :: DepartsAt(ws, k, issue)
  }

  /** The stored list holds exactly the issues that were left at DONE, once each. */
  ghost predicate ListIsRight(ws: seq<Checkpoint>) {
    var file := After(Missing, ws);
    file.Stored? ==>
      && Distinct(file.checkpoint.completed)
      && forall x :: x in file.checkpoint.completed <==> EverLeftAtDone(ws, x)
  }

  /** The caller's side, one write at a time: if it is accepted, it brings an empty list to a
      missing file, and the stored issues, in any order but once each, to the stored issue. */
  predicate Disciplined(file: File, c: Checkpoint) {
    Accepts(file, c) ==>
      && (file.Missing? ==> c.completed == [])
      && (file.Stored? && file.checkpoint.issue == c.issue ==>
            Distinct(c.completed) && Elements(c.completed) == Elements(file.checkpoint.completed))
  }

  predicate LastIsDisciplined(ws: seq<Checkpoint>) {
    ws == [] || Disciplined(After(Missing, ws[..|ws| - 1]), ws[|ws| - 1])
  }

  ghost predicate AllAlong(ws: seq<Checkpoint>, p: seq<Checkpoint> -> bool) {
    forall k :: 0 <= k <= |ws| ==> p(ws[..k])
  }

  lemma AllAlongStep(ws: seq<Checkpoint>, p: seq<Checkpoint> -> bool)
    requires ws != []
    ensures AllAlong(ws, p) <==> AllAlong(ws[..|ws| - 1], p) && p(ws)
  {
    var n := |ws| - 1;
    var init := ws[..n];
    assert ws[..n + 1] == ws;
    forall k | 0 <= k <= n ensures init[..k] == ws[..k] {
    }
    if AllAlong(ws, p) {
      assert p(ws[..n + 1]);
      forall k | 0 <= k <= n ensures p(init[..k]) {
        assert p(ws[..k]);
      }
    }
    if AllAlong(init, p) && p(ws) {
      forall k | 0 <= k <= n + 1 ensures p(ws[..k]) {
        if k <= n { assert p(init[..k]); }
      }
    }
  }

  /** From no file: the list is right all along the run exactly when the caller keeps to that
      discipline all along. */
  lemma {:induction false} CompletedIssuesAreThoseLeftAtDone(ws: seq<Checkpoint>)
    ensures AllAlong(ws, ListIsRight) <==> AllAlong(ws, LastIsDisciplined)
    decreases |ws|
  {
    if ws == [] {
      assert ListIsRight([]) && LastIsDisciplined([]);
      assert ws[..0] == [];
    } else {
      var init := ws[..|ws| - 1];
      CompletedIssuesAreThoseLeftAtDone(init);
      AllAlongStep(ws, ListIsRight);
      AllAlongStep(ws, LastIsDisciplined);
      if AllAlong(init, ListIsRight) {
        assert init[..|init|] == init;
        assert ListIsRight(init[..|init|]);
        RightAfterWriteIff(ws);
      }
    }
  }

  lemma {:induction false} NeverUnreadable(ws: seq<Checkpoint>)
    ensures !After(Missing, ws).Unreadable?
    ensures After(Missing, ws).Missing? ==> forall x :: !EverLeftAtDone(ws, x)
    decreases |ws|
  {
    if ws != [] {
      var init := ws[..|ws| - 1];
      NeverUnreadable(init);
      forall x ensures After(Missing, ws).Missing? ==> !EverLeftAtDone(ws, x) {
        EverLeftLast(ws, x);
      }
    }
  }

  /** One more write keeps a right list right exactly when it is disciplined. */
  lemma RightAfterWriteIff(ws: seq<Checkpoint>)
    requires ws != [] && ListIsRight(ws[..|ws| - 1])
    ensures ListIsRight(ws) <==> LastIsDisciplined(ws)
  {
    var init, c := ws[..|ws| - 1], ws[|ws| - 1];
    var file, after := After(Missing, init), After(Missing, ws);
    NeverUnreadable(init);
    forall x ensures EverLeftAtDone(ws, x) <==>
      (file.Stored? && x in file.checkpoint.completed) || LeftAtDone(file, after, x)
    {
      EverLeftLast(ws, x);
    }
    CompletedAfterWrite(file, c);
  }

  /** The history of departures grows by what the last write left. */
  lemma EverLeftLast(ws: seq<Checkpoint>, x: string)
    requires ws != []
    ensures EverLeftAtDone(ws, x) <==>
              || EverLeftAtDone(ws[..|ws| - 1], x)
              || LeftAtDone(After(Missing, ws[..|ws| - 1]), After(Missing, ws), x)
  {
    var n := |ws| - 1;
    DepartsLast(ws, x);
    if k :| DepartsAt(ws[..n], k, x) {
      DepartsPrefix(ws, k, x);
      assert DepartsAt(ws, k, x);
    }
    if k :| DepartsAt(ws, k, x) {
      DepartsPrefix(ws, k, x);
      assert k < n ==> DepartsAt(ws[..n], k, x);
    }
  }

  lemma DepartsLast(ws: seq<Checkpoint>, x: string)
    requires ws != []
    ensures DepartsAt(ws, |ws| - 1, x) <==> LeftAtDone(After(Missing, ws[..|ws| - 1]), After(Missing, ws), x)
  {
    assert ws[..|ws| - 1 + 1] == ws;
  }

  lemma DepartsPrefix(ws: seq<Checkpoint>, k: int, x: string)
    requires ws != []
    ensures k < |ws| - 1 ==> (DepartsAt(ws[..|ws| - 1], k, x) <==> DepartsAt(ws, k, x))
  {
    var init := ws[..|ws| - 1];
    if 0 <= k < |init| {
      assert init[..k] == ws[..k] && init[..k + 1] == ws[..k + 1];
    }
  }

  /** What one write makes of a duplicate-free list: the issue it leaves at DONE is added, and
      nothing else changes, exactly when the write is disciplined. */
  lemma CompletedAfterWrite(file: File, c: Checkpoint)
    requires !file.Unreadable? && (file.Stored? ==> Distinct(file.checkpoint.completed))
    ensures var after := AfterWrite(file, c);
            Disciplined(file, c) <==>
              (after.Stored? ==>
                && Distinct(after.checkpoint.completed)
                && forall x :: x in after.checkpoint.completed <==>
                     (file.Stored? && x in file.checkpoint.completed) || LeftAtDone(file, after, x))
  {
    var after := AfterWrite(file, c);
    if Accepts(file, c) && (file.Missing? || file.checkpoint.issue == c.issue) {
      assert after == Stored(c);
      var stored := if file.Stored? then file.checkpoint.completed else [];
      assert forall x :: !LeftAtDone(file, after, x);
      SameElements(c.completed, stored);
      NoElements(c.completed);
    }
  }

  lemma SameElements(a: seq<string>, b: seq<string>)
    ensures Elements(a) == Elements(b) <==> forall x :: x in a <==> x in b
  {
    if Elements(a) == Elements(b) {
      forall x ensures x in a <==> x in b {
        assert x in a <==> x in Elements(a);
        assert x in b <==> x in Elements(b);
      }
    }
  }

  lemma NoElements(a: seq<string>)
    ensures a == [] <==> forall x :: x !in a
  {
    assert a != [] ==> a[0] in a;
  }

  /** Without it the list is not durable: a same-issue write replaces it by whatever the
      caller passes, so a completed issue can be forgotten. */
  lemma SameIssueWriteMayForget(a: string, b: string)
    requires a != "" && b != "" && a != b
    ensures var ws := [Checkpoint(1, a, Some(DONE), "next", NotVerified, []),
                       Checkpoint(1, b, Some(READY), "next", NotVerified, []),
                       Checkpoint(1, b, Some(HYDRATED), "next", NotVerified, [])];
            EverLeftAtDone(ws, a) && After(Missing, ws).Stored? && After(Missing, ws).checkpoint.completed == []
  {
    var c1 := Checkpoint(1, a, Some(DONE), "next", NotVerified, []);
    var c2 := Checkpoint(1, b, Some(READY), "next", NotVerified, []);
    var c3 := Checkpoint(1, b, Some(HYDRATED), "next", NotVerified, []);
    var ws := [c1, c2, c3];
    assert ws[..0] == [] && ws[..1] == [c1] && ws[..2] == [c1, c2];
    assert [c1][..0] == [] && [c1, c2][..1] == [c1];
    assert After(Missing, ws[..1]) == Stored(c1);
    assert After(Missing, ws[..2]) == Stored(c2.(completed := [a]));
    assert DepartsAt(ws, 1, a);
  }
}
