/** Publishing certification bundles of one commit (scripts/certify_release.py `main` and
    `publish_bundle`): the managed path, the retained history, the attempt records, and
    attempts that may die at any point. */
module Publication {
  import opened Prelude
  import opened Certification

  datatype Bundle = Bundle(attempt: string, verdict: Verdict)

  datatype Record = ABORTED | Finished(verdict: Verdict)

  /** `managed` is artifacts/certification/<sha>; `history` is .history/<sha>; `retained`
      are the .attempts/<sha>/<id>.bundle directories; `custom` are user-chosen paths. */
  datatype Store = Store(
    managed: Option<Bundle>, history: map<string, Bundle>, retained: map<string, Bundle>,
    custom: map<string, Bundle>, records: map<string, Record>)

  const EMPTY_STORE := Store(None, map[], map[], map[], map[])

  /** Where an attempt dies, if it does. */
  datatype Death =
    | Survives
    | BeforeRecord     // refused before any record was written
    | BeforePublish    // while running or writing the bundle
    | BetweenRenames   // publishing only: the old bundle is out of the way, the new one not in place
    | BeforeFinalRecord

  /** `handled`: the process lived to write its ABORTED record. `historyId` is the fresh
      name drawn for a displaced bundle. */
  datatype Attempt = Attempt(
    id: string, verdict: Verdict, historyId: string, toCustom: bool, death: Death, handled: bool)

  // --- One attempt, in the order of the source -------------------------------------------------

  class CertificationStore {
    var managed: Option<Bundle>
    var history: map<string, Bundle>
    var retained: map<string, Bundle>
    var custom: map<string, Bundle>
    var records: map<string, Record>

    constructor ()
      ensures Contents() == EMPTY_STORE
    {
      managed, history, retained, custom, records := None, map[], map[], map[], map[];
    }

    function Contents(): Store
      reads this
    {
      Store(managed, history, retained, custom, records)
    }

    method RecordAborted(a: Attempt)
      modifies this`records
      ensures records == if a.handled then old(records)[a.id := ABORTED] else old(records)
    {
      if a.handled { records := records[a.id := ABORTED]; }
    }

    /** `main`, from the first check to the final record. */
    method Run(a: Attempt)
      modifies this
      ensures Contents() == AfterAttempt(old(Contents()), a)
    {
      if a.death == BeforeRecord {
        RecordAborted(a);
        return;
      }
      records := records[a.id := ABORTED];
      if a.death == BeforePublish {
        RecordAborted(a);
        return;
      }
      var bundle := Bundle(a.id, a.verdict);
      if a.toCustom {
        if a.death == BetweenRenames {
          RecordAborted(a);
          return;
        }
        custom := custom[a.id := bundle];
      } else if a.verdict != CERTIFIED && managed.Some? {
        if a.id in retained {
          RecordAborted(a);
          return;
        }
        retained := retained[a.id := bundle];
      } else {
        if managed.Some? {
          if a.historyId in history {
            RecordAborted(a);
            return;
          }
          history := history[a.historyId := managed.value];
          managed := None;
        }
        if a.death == BetweenRenames {
          RecordAborted(a);
          return;
        }
        managed := Some(bundle);
      }
      if a.death == BeforeFinalRecord {
        RecordAborted(a);
        return;
      }
      records := records[a.id := Finished(a.verdict)];
    }
  }

  // --- The same, as a function of the store ----------------------------------------------------

  function Published(s: Store, a: Attempt): Store {
    var bundle := Bundle(a.id, a.verdict);
    if a.toCustom then (if a.death == BetweenRenames then s else s.(custom := s.custom[a.id := bundle]))
    else if a.verdict != CERTIFIED && s.managed.Some? then s.(retained := s.retained[a.id := bundle])
    else
      var moved := if s.managed.None? then s
                   else s.(history := s.history[a.historyId := s.managed.value], managed := None);
      if a.death == BetweenRenames then moved else moved.(managed := Some(bundle))
  }

  /** A rename onto a directory that already has contents is an error. */
  predicate NameTaken(s: Store, a: Attempt) {
    && !a.toCustom && s.managed.Some?
    && if a.verdict != CERTIFIED then a.id in s.retained else a.historyId in s.history
  }

  predicate DiesPublishing(s: Store, a: Attempt) {
    || NameTaken(s, a)
    || (a.death == BetweenRenames && (a.toCustom || a.verdict == CERTIFIED || s.managed.None?))
  }

  function AfterAttempt(s: Store, a: Attempt): Store {
    if a.death == BeforeRecord then
      if a.handled then s.(records := s.records[a.id := ABORTED]) else s
    else
      var started := s.(records := s.records[a.id := ABORTED]);
      if a.death == BeforePublish || NameTaken(s, a) then started
      else if DiesPublishing(s, a) || a.death == BeforeFinalRecord then Published(started, a)
      else Published(started, a).(records := started.records[a.id := Finished(a.verdict)])
  }

  function Exec(s: Store, attempts: seq<Attempt>): Store {
    if attempts == [] then s else AfterAttempt(Exec(s, attempts[..|attempts| - 1]), attempts[|attempts| - 1])
  }

  // --- Nothing that was ever published is lost -----------------------------------------------------

  /** The bundle is at the managed path or under .history. */
  ghost predicate Kept(s: Store, b: Bundle) {
    s.managed == Some(b) || exists h :: h in s.history && s.history[h] == b
  }

  lemma AttemptKeeps(s: Store, a: Attempt, b: Bundle)
    requires Kept(s, b)
    ensures Kept(AfterAttempt(s, a), b)
  {
    var after := AfterAttempt(s, a);
    if h :| h in s.history && s.history[h] == b {
      assert h in after.history && after.history[h] == b;
    } else if after.managed != Some(b) {
      assert a.historyId in after.history && after.history[a.historyId] == b;
    }
  }

  /** Every bundle that stood at the managed path at some moment still exists there or under
      .history at every later moment, wherever any attempt in between died. */
  lemma {:induction false} PublishedBundlesSurvive(attempts: seq<Attempt>, i: nat, j: nat, b: Bundle)
    requires i <= j <= |attempts| && Exec(EMPTY_STORE, attempts[..i]).managed == Some(b)
    ensures Kept(Exec(EMPTY_STORE, attempts[..j]), b)
    decreases j
  {
    if i < j {
      PublishedBundlesSurvive(attempts, i, j - 1, b);
      assert attempts[..j][..j - 1] == attempts[..j - 1];
      AttemptKeeps(Exec(EMPTY_STORE, attempts[..j - 1]), attempts[j - 1], b);
    }
  }

  // --- Only certified bundles displace ---------------------------------------------------------------

  /** One attempt on an occupied path: the occupant stays, or a CERTIFIED bundle replaces
      it, or the attempt died between the renames and left the path empty. */
  lemma OccupantFate(s: Store, a: Attempt)
    requires s.managed.Some?
    ensures var after := AfterAttempt(s, a).managed;
            || after == s.managed
            || (after == Some(Bundle(a.id, CERTIFIED)) && a.verdict == CERTIFIED)
            || (after == None && a.death == BetweenRenames && a.verdict == CERTIFIED)
  {
  }

  /** An attempt that lives to its end and draws a fresh name keeps its promise: its record
      names its verdict, its bundle exists, and a CERTIFIED one now stands at the managed path,
      while any other verdict leaves an occupied path alone. */
  lemma SurvivorIsRecorded(s: Store, a: Attempt)
    requires a.death == Survives && !NameTaken(s, a)
    ensures var after := AfterAttempt(s, a);
            && a.id in after.records && after.records[a.id] == Finished(a.verdict)
            && BundleExists(after, Bundle(a.id, a.verdict))
            && (!a.toCustom && (a.verdict == CERTIFIED || s.managed.None?) ==>
                  after.managed == Some(Bundle(a.id, a.verdict)))
            && (a.toCustom || (a.verdict != CERTIFIED && s.managed.Some?) ==> after.managed == s.managed)
  {
    OwnRecordIsTrue(s, a);
  }

  /** A certified attempt for the managed path that dies after it moved the occupant away. */
  predicate Vacates(s: Store, a: Attempt) {
    a.death == BetweenRenames && a.verdict == CERTIFIED && !a.toCustom && a.historyId !in s.history
  }

  /** Exactly these attempts empty an occupied path. */
  lemma EmptiedIff(s: Store, a: Attempt)
    requires s.managed.Some?
    ensures AfterAttempt(s, a).managed == None <==> Vacates(s, a)
  {
  }

  /** A bundle that is not CERTIFIED comes to stand at the managed path exactly when the path
      was free and the attempt got as far as the second rename. */
  lemma UncertifiedArrivesIff(s: Store, a: Attempt)
    requires a.verdict != CERTIFIED && s.managed != Some(Bundle(a.id, a.verdict))
    ensures AfterAttempt(s, a).managed == Some(Bundle(a.id, a.verdict)) <==>
              s.managed.None? && !a.toCustom && (a.death == Survives || a.death == BeforeFinalRecord)
  {
  }

  /** Occupied at every moment from the first `i` attempts on to the first `j`. */
  ghost predicate StaysOccupied(attempts: seq<Attempt>, i: nat, j: nat)
    requires i <= j <= |attempts|
  {
    forall k :: i <= k <= j ==> Exec(EMPTY_STORE, attempts[..k]).managed.Some?
  }

  ghost predicate NoneVacates(attempts: seq<Attempt>, i: nat, j: nat)
    requires i <= j <= |attempts|
  {
    forall k :: i <= k < j ==> !Vacates(Exec(EMPTY_STORE, attempts[..k]), attempts[k])
  }

  lemma ExecLast(attempts: seq<Attempt>, j: nat)
    requires 0 < j <= |attempts|
    ensures Exec(EMPTY_STORE, attempts[..j]) == AfterAttempt(Exec(EMPTY_STORE, attempts[..j - 1]), attempts[j - 1])
  {
    assert attempts[..j][..j - 1] == attempts[..j - 1];
  }

  /** Over a whole run: an occupied managed path stays occupied throughout exactly when no
      attempt vacates it. Other deaths, of custom-path attempts and of attempts that are
      merely retained, do no harm. While it stays occupied, whoever takes it is CERTIFIED. */
  lemma {:induction false} OnlyCertifiedReplaces(attempts: seq<Attempt>, i: nat, j: nat)
    requires i <= j <= |attempts| && Exec(EMPTY_STORE, attempts[..i]).managed.Some?
    ensures StaysOccupied(attempts, i, j) <==> NoneVacates(attempts, i, j)
    ensures StaysOccupied(attempts, i, j) ==>
              var before := Exec(EMPTY_STORE, attempts[..i]).managed;
              var after := Exec(EMPTY_STORE, attempts[..j]).managed;
              after.Some? && (after == before || after.value.verdict == CERTIFIED)
    decreases j
  {
    if i < j {
      OnlyCertifiedReplaces(attempts, i, j - 1);
      OccupiedStep(attempts, i, j);
      if StaysOccupied(attempts, i, j - 1) {
        var s := Exec(EMPTY_STORE, attempts[..j - 1]);
        ExecLast(attempts, j);
        EmptiedIff(s, attempts[j - 1]);
        OccupantFate(s, attempts[j - 1]);
      }
    }
  }

  lemma OccupiedStep(attempts: seq<Attempt>, i: nat, j: nat)
    requires i < j <= |attempts|
    ensures StaysOccupied(attempts, i, j) <==>
              StaysOccupied(attempts, i, j - 1) && Exec(EMPTY_STORE, attempts[..j]).managed.Some?
    ensures NoneVacates(attempts, i, j) <==>
              NoneVacates(attempts, i, j - 1) && !Vacates(Exec(EMPTY_STORE, attempts[..j - 1]), attempts[j - 1])
  {
  }

  /** Such a death really matters: it empties the path, and then even an unfinished attempt
      may take the place of a certified bundle (which survives under .history). */
  lemma DeathBetweenRenamesLetsOthersIn(h: string)
    ensures var good := Attempt("1", CERTIFIED, h, false, Survives, true);
            var dies := Attempt("2", CERTIFIED, h, false, BetweenRenames, true);
            var weak := Attempt("3", UNFINISHED, h, false, Survives, true);
            && Exec(EMPTY_STORE, [good]).managed == Some(Bundle("1", CERTIFIED))
            && Exec(EMPTY_STORE, [good, dies, weak]).managed == Some(Bundle("3", UNFINISHED))
            && Kept(Exec(EMPTY_STORE, [good, dies, weak]), Bundle("1", CERTIFIED))
  {
    var good := Attempt("1", CERTIFIED, h, false, Survives, true);
    var dies := Attempt("2", CERTIFIED, h, false, BetweenRenames, true);
    var weak := Attempt("3", UNFINISHED, h, false, Survives, true);
    var attempts := [good, dies, weak];
    assert attempts[..1] == [good] && attempts[..3] == attempts;
    var first := AfterAttempt(EMPTY_STORE, good);
    var second := AfterAttempt(first, dies);
    assert first.managed == Some(Bundle("1", CERTIFIED)) && first.history == map[];
    assert second.managed == None;
    ExecThree(EMPTY_STORE, good, dies, weak);
    PublishedBundlesSurvive(attempts, 1, 3, Bundle("1", CERTIFIED));
  }

  lemma ExecAppend(s: Store, attempts: seq<Attempt>, a: Attempt)
    ensures Exec(s, attempts + [a]) == AfterAttempt(Exec(s, attempts), a)
  {
    assert (attempts + [a])[..|attempts|] == attempts;
  }

  lemma ExecThree(s: Store, a: Attempt, b: Attempt, c: Attempt)
    ensures Exec(s, [a]) == AfterAttempt(s, a)
    ensures Exec(s, [a, b, c]) == AfterAttempt(AfterAttempt(AfterAttempt(s, a), b), c)
  {
    ExecAppend(s, [], a);
    assert [] + [a] == [a] && [a] + [b] == [a, b] && [a, b] + [c] == [a, b, c];
    ExecAppend(s, [a], b);
    ExecAppend(s, [a, b], c);
  }

  // --- Attempt records tell the truth -----------------------------------------------------------------

  /** The bundle of an attempt exists; a CERTIFIED one was published, not merely retained. */
  ghost predicate BundleExists(s: Store, b: Bundle) {
    || Kept(s, b)
    || (b.attempt in s.custom && s.custom[b.attempt] == b)
    || (b.verdict != CERTIFIED && b.attempt in s.retained && s.retained[b.attempt] == b)
  }

  /** A record that names a verdict belongs to a bundle that exists. */
  ghost predicate RecordsAreTrue(s: Store) {
    forall id :: id in s.records && s.records[id].Finished? ==> BundleExists(s, Bundle(id, s.records[id].verdict))
  }

  lemma OthersBundlesStay(s: Store, a: Attempt, b: Bundle)
    requires BundleExists(s, b) && (b.attempt != a.id || a.death == BeforeRecord)
    ensures BundleExists(AfterAttempt(s, a), b)
  {
    if Kept(s, b) { AttemptKeeps(s, a, b); }
  }

  lemma AttemptRecordsTruth(s: Store, a: Attempt)
    requires RecordsAreTrue(s)
    ensures RecordsAreTrue(AfterAttempt(s, a))
  {
    var after := AfterAttempt(s, a);
    forall id | id in after.records && after.records[id].Finished?
      ensures BundleExists(after, Bundle(id, after.records[id].verdict))
    {
      if id != a.id || a.death == BeforeRecord {
        assert id in s.records && s.records[id] == after.records[id];
        OthersBundlesStay(s, a, Bundle(id, s.records[id].verdict));
      } else {
        OwnRecordIsTrue(s, a);
      }
    }
  }

  lemma OwnRecordIsTrue(s: Store, a: Attempt)
    requires a.death != BeforeRecord && AfterAttempt(s, a).records[a.id].Finished?
    ensures AfterAttempt(s, a).records[a.id] == Finished(a.verdict)
    ensures BundleExists(AfterAttempt(s, a), Bundle(a.id, a.verdict))
  {
  }

  /** The other direction: an attempt that died after its first record reads ABORTED, and so does
      one that died before it and lived to say so; one that did not leaves no trace. */
  lemma DeadAttemptsReadAborted(s: Store, a: Attempt)
    ensures a.death != BeforeRecord && (a.death == BeforePublish || a.death == BeforeFinalRecord || NameTaken(s, a)) ==>
              var after := AfterAttempt(s, a); a.id in after.records && after.records[a.id] == ABORTED
    ensures a.death == BetweenRenames && (a.toCustom || a.verdict == CERTIFIED || s.managed.None?) ==>
              var after := AfterAttempt(s, a); a.id in after.records && after.records[a.id] == ABORTED
    ensures a.death == BeforeRecord ==>
              AfterAttempt(s, a) == if a.handled then s.(records := s.records[a.id := ABORTED]) else s
    ensures a.death == BeforePublish || NameTaken(s, a) ==>
              var after := AfterAttempt(s, a);
              && after.managed == s.managed && after.history == s.history
              && after.retained == s.retained && after.custom == s.custom
  {
  }

  /** After any run of attempts, dying anywhere: whoever reads CERTIFIED in an attempt record
      finds that attempt's bundle published. */
  lemma {:induction false} CertifiedRecordsArePublished(attempts: seq<Attempt>)
    ensures RecordsAreTrue(Exec(EMPTY_STORE, attempts))
    ensures var s := Exec(EMPTY_STORE, attempts);
            forall id :: id in s.records && s.records[id] == Finished(CERTIFIED) ==>
              Kept(s, Bundle(id, CERTIFIED)) || (id in s.custom && s.custom[id] == Bundle(id, CERTIFIED))
  {
    if attempts != [] {
      CertifiedRecordsArePublished(attempts[..|attempts| - 1]);
      AttemptRecordsTruth(Exec(EMPTY_STORE, attempts[..|attempts| - 1]), attempts[|attempts| - 1]);
    }
  }
}
