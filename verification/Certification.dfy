/** The certification verdict and the rehearsal step that only attested evidence can pass
    (scripts/certify_release.py). */
module Certification {
  import opened Prelude

  /** The step ids the verdict knows, and any other. */
  datatype StepId =
    | TestClean | TestDirty | RuffCheck | RuffFormat | Mypy | Build | PackageSmoke | Security
    | DocsCheck | GitClean | Rehearsals | Unlisted(name: string)

  datatype Status = PASS | FAIL | SKIPPED | INCOMPLETE

  datatype Verdict = CERTIFIED | UNFINISHED | FAILED

  /** Object identity of a module-private value: no serialized evidence can carry it. */
  datatype Token = NoToken | VerifiedRehearsals

  datatype Junit = Junit(totals: seq<Option<int>>, testcases: Option<map<string, string>>)

  /** The evidence fields that the verdict reads, with their truth values. */
  datatype Evidence = Evidence(
    command: bool, exitCode: Option<int>, junit: Option<Junit>, artifacts: bool, commands: nat,
    helpHasUsage: bool, banditReport: bool, pipAuditReport: bool)

  const NO_EVIDENCE := Evidence(false, None, None, false, 0, false, false, false)

  datatype Step = Step(id: StepId, status: Status, evidence: Evidence, token: Token)

  const REQUIRED: set<StepId> := {
    TestClean, TestDirty, RuffCheck, RuffFormat, Mypy, Build, PackageSmoke,
    Security, DocsCheck, GitClean, Rehearsals}

  const COMMAND_STEPS: set<StepId> := {
    TestClean, TestDirty, RuffCheck, RuffFormat, Mypy, Build, DocsCheck}

  function Ids(steps: seq<Step>): set<StepId> {
    set s | s in steps :: s.id
  }

  // --- Verdict ---------------------------------------------------------------------------

  /** The report kept for an id when a dictionary is built from the list: the last one. */
  function ReportOf(steps: seq<Step>, id: StepId): Option<Option<Junit>> {
    if steps == [] then None
    else if steps[|steps| - 1].id == id then Some(steps[|steps| - 1].evidence.junit)
    else ReportOf(steps[..|steps| - 1], id)
  }

  /** `junit_parity`: the same test cases with the same outcomes, not just the same totals. */
  predicate JunitParity(steps: seq<Step>) {
    match (ReportOf(steps, TestClean), ReportOf(steps, TestDirty))
    case (Some(Some(clean)), Some(Some(dirty))) =>
      && clean.totals == dirty.totals
      && clean.testcases.Some? && clean.testcases.value != map[]
      && clean.testcases == dirty.testcases
    case _ => false
  }

  predicate EvidenceComplete(s: Step) {
    && (s.id in COMMAND_STEPS ==> s.evidence.command && s.evidence.exitCode.Some?)
    && (s.id == TestClean || s.id == TestDirty ==> s.evidence.junit.Some?)
    && (s.id == Rehearsals ==> s.token == VerifiedRehearsals)
    && (s.id == Build ==> s.evidence.artifacts)
    && (s.id == PackageSmoke ==> s.evidence.commands == 3 && s.evidence.helpHasUsage)
    && (s.id == Security ==> s.evidence.banditReport && s.evidence.pipAuditReport)
  }

  function ComputeVerdict(steps: seq<Step>, gitDirty: bool): Verdict {
    var hasFailures := exists s :: s in steps && s.status == FAIL;
    var hasIncomplete := exists s :: s in steps && (s.status == INCOMPLETE || s.status == SKIPPED);
    var missing := exists s :: s in steps && !EvidenceComplete(s);
    var bothReports := ReportOf(steps, TestClean).Some? && ReportOf(steps, TestDirty).Some?;
    if hasFailures then FAILED
    else if hasIncomplete || gitDirty || Ids(steps) != REQUIRED || missing || (bothReports && !JunitParity(steps))
    then UNFINISHED
    else CERTIFIED
  }

  lemma {:induction false} ReportExists(steps: seq<Step>, id: StepId)
    ensures id in Ids(steps) <==> ReportOf(steps, id).Some?
  {
    if steps != [] {
      var init, last := steps[..|steps| - 1], steps[|steps| - 1];
      ReportExists(init, id);
      assert Ids(steps) == Ids(init) + {last.id};
    }
  }

  /** CERTIFIED means: exactly the eleven required steps are there, every listed step passed
      with its evidence, the tree was clean, and both test runs agree case by case. */
  lemma CertifiedMeansAllElevenPass(steps: seq<Step>, gitDirty: bool)
    ensures ComputeVerdict(steps, gitDirty) == CERTIFIED <==>
              && !gitDirty && Ids(steps) == REQUIRED
              && (forall s :: s in steps ==> s.status == PASS && EvidenceComplete(s))
              && JunitParity(steps)
    ensures ComputeVerdict(steps, gitDirty) == FAILED <==> exists s :: s in steps && s.status == FAIL
  {
    if Ids(steps) == REQUIRED {
      BothReportsExist(steps);
    }
  }

  /** Position `i` is the last step of that id. */
  ghost predicate LastOf(steps: seq<Step>, id: StepId, i: int) {
    0 <= i < |steps| && steps[i].id == id && forall j :: i < j < |steps| ==> steps[j].id != id
  }

  lemma {:induction false} ReportIsLast(steps: seq<Step>, id: StepId, report: Option<Junit>)
    ensures ReportOf(steps, id) == Some(report) <==>
              exists i :: LastOf(steps, id, i) && steps[i].evidence.junit == report
  {
    if steps != [] {
      var n := |steps| - 1;
      var init := steps[..n];
      ReportIsLast(init, id, report);
      if steps[n].id == id {
        assert LastOf(steps, id, n);
        assert forall i :: LastOf(steps, id, i) ==> i == n;
      } else {
        assert forall i :: LastOf(steps, id, i) <==> LastOf(init, id, i);
      }
    }
  }

  /** What the evidence of each step shows in a certified list, step by step: commands that were
      run and answered, the same nonempty set of test cases with the same outcomes in a clean
      and in a dirty shell, built artifacts, three smoke commands one of which printed its
      usage, and both security reports. */
  lemma CertifiedEvidence(steps: seq<Step>, gitDirty: bool)
    requires ComputeVerdict(steps, gitDirty) == CERTIFIED
    ensures forall s :: s in steps ==>
              && s.status == PASS
              && (s.id in {TestClean, TestDirty, RuffCheck, RuffFormat, Mypy, Build, DocsCheck} ==>
                    s.evidence.command && s.evidence.exitCode.Some?)
              && (s.id == Build ==> s.evidence.artifacts)
              && (s.id == PackageSmoke ==> s.evidence.commands == 3 && s.evidence.helpHasUsage)
              && (s.id == Security ==> s.evidence.banditReport && s.evidence.pipAuditReport)
              && (s.id == Rehearsals ==> s.token == VerifiedRehearsals)
    ensures exists i, j ::
              && LastOf(steps, TestClean, i) && LastOf(steps, TestDirty, j)
              && SameTests(steps[i].evidence.junit, steps[j].evidence.junit)
  {
    CertifiedMeansAllElevenPass(steps, gitDirty);
    BothReportsExist(steps);
    var clean, dirty := ReportOf(steps, TestClean).value, ReportOf(steps, TestDirty).value;
    ReportIsLast(steps, TestClean, clean);
    ReportIsLast(steps, TestDirty, dirty);
  }

  predicate SameTests(clean: Option<Junit>, dirty: Option<Junit>) {
    && clean.Some? && dirty.Some?
    && clean.value.totals == dirty.value.totals
    && clean.value.testcases.Some? && clean.value.testcases.value != map[]
    && dirty.value.testcases == clean.value.testcases
  }

  /** Which steps those are. */
  lemma CertifiedSteps(steps: seq<Step>, gitDirty: bool, id: StepId)
    requires ComputeVerdict(steps, gitDirty) == CERTIFIED
    ensures (exists s :: s in steps && s.id == id) <==> !id.Unlisted?
  {
    CertifiedMeansAllElevenPass(steps, gitDirty);
    assert id in Ids(steps) <==> exists s :: s in steps && s.id == id;
    assert id in REQUIRED <==> !id.Unlisted?;
  }

  lemma CertifiedHasElevenSteps(steps: seq<Step>, gitDirty: bool)
    requires ComputeVerdict(steps, gitDirty) == CERTIFIED
    ensures |Ids(steps)| == 11
  {
    CertifiedMeansAllElevenPass(steps, gitDirty);
    RequiredIsEleven();
  }

  lemma BothReportsExist(steps: seq<Step>)
    requires Ids(steps) == REQUIRED
    ensures ReportOf(steps, TestClean).Some? && ReportOf(steps, TestDirty).Some?
  {
    assert TestClean in REQUIRED && TestDirty in REQUIRED;
    ReportExists(steps, TestClean);
    ReportExists(steps, TestDirty);
  }

  lemma RequiredIsEleven()
    ensures |REQUIRED| == 11
  {
    var names := [TestClean, TestDirty, RuffCheck, RuffFormat, Mypy, Build, PackageSmoke,
                  Security, DocsCheck, GitClean, Rehearsals];
    assert REQUIRED == Elements(names);
    DistinctCount(names);
  }

  // --- Rehearsals --------------------------------------------------------------------------

  datatype RunAttempt = RunAttempt(faultInjected: bool, failed: bool)

  datatype Receipt = Receipt(
    problems: bool, outcome: string, claimedOutcome: string, attempts: seq<RunAttempt>,
    producerSha: Option<string>, treeChanged: Option<bool>, digest: string)

  /** A verified statement: its predicate type is SLSA provenance, and its subjects' digests
      (None for one that is not exactly a SHA-256 digest). */
  datatype Statement = Statement(isProvenance: bool, subjects: Option<seq<Option<string>>>)

  datatype Attestation =
    | NoBundle | SymlinkedBundle | VerifierUnavailable | VerifierRefused | VerifierAnswered(entries: seq<Statement>)

  datatype Rehearsal = Rehearsal(
    name: string, isDir: bool, hasFiles: bool, receipt: Option<Receipt>, attestation: Attestation)

  /** `_verified_subject_digest`: at least one statement, and each one names exactly this
      digest as its only subject. */
  predicate VerifiedSubjectDigest(entries: seq<Statement>, expected: string) {
    && entries != []
    && forall e :: e in entries ==> e.isProvenance && e.subjects == Some([Some(expected)])
  }

  predicate ValidName(name: string) {
    name != "" && '/' !in name && name[0] != '.'
  }

  function InjectedFailures(attempts: seq<RunAttempt>): nat {
    if attempts == [] then 0
    else InjectedFailures(attempts[..|attempts| - 1])
         + if attempts[|attempts| - 1].faultInjected && attempts[|attempts| - 1].failed then 1 else 0
  }

  /** The receipt is sound for a rehearsal of this name. */
  predicate SoundReceipt(name: string, r: Receipt) {
    && !r.problems && r.outcome == "COMPLETE" && r.claimedOutcome == "COMPLETE"
    && (name == "chaos" ==> InjectedFailures(r.attempts) > 0)
    && (name == "clean" ==> forall a :: a in r.attempts ==> !a.faultInjected)
  }

  /** A rehearsal whose defect makes the whole step FAIL. */
  predicate Broken(run: Rehearsal, attested: bool, sha: Option<string>) {
    || !ValidName(run.name) || !run.isDir || !run.hasFiles || run.receipt.None?
    || !SoundReceipt(run.name, run.receipt.value)
    || (attested && (sha.None? || run.receipt.value.producerSha != sha
                     || run.attestation.SymlinkedBundle? || run.attestation.VerifierRefused?
                     || (run.attestation.VerifierAnswered?
                         && !VerifiedSubjectDigest(run.attestation.entries, run.receipt.value.digest))))
  }

  /** A rehearsal that leaves a note, so that the step cannot pass. */
  predicate Inconclusive(run: Rehearsal, attested: bool, sha: Option<string>)
    requires run.receipt.Some?
  {
    if attested then run.attestation.NoBundle? || run.attestation.VerifierUnavailable?
    else run.receipt.value.producerSha.None? || sha.None? || run.receipt.value.treeChanged != Some(false)
  }

  /** The inputs: named local runs, or the directory of attested ones (clean and chaos). */
  datatype Inputs = Inputs(locals: seq<Rehearsal>, attested: Option<(Rehearsal, Rehearsal)>, sha: Option<string>)

  predicate AttestedNames(inputs: Inputs) {
    inputs.attested.Some? ==> inputs.attested.value.0.name == "clean" && inputs.attested.value.1.name == "chaos"
  }

  function RunsOf(inputs: Inputs): seq<Rehearsal> {
    if inputs.attested.Some? then [inputs.attested.value.0, inputs.attested.value.1] else inputs.locals
  }

  /** What passing the rehearsal step is supposed to certify of one run. */
  predicate Attested(run: Rehearsal, sha: Option<string>) {
    && run.receipt.Some? && SoundReceipt(run.name, run.receipt.value)
    && sha.Some? && run.receipt.value.producerSha == sha
    && run.attestation.VerifierAnswered?
    && VerifiedSubjectDigest(run.attestation.entries, run.receipt.value.digest)
  }

  /** The step's result as a function of what it was given. */
  ghost predicate RehearsalOutcome(inputs: Inputs, step: Step) {
    var attested := inputs.attested.Some?;
    && step.id == Rehearsals
    && (step.token == VerifiedRehearsals <==> step.status == PASS)
    && step.status ==
         if attested && inputs.locals != [] then FAIL
         else if RunsOf(inputs) == [] then SKIPPED
         else if exists r :: r in RunsOf(inputs) && Broken(r, attested, inputs.sha) then FAIL
         else if attested && Attested(inputs.attested.value.0, inputs.sha)
                 && Attested(inputs.attested.value.1, inputs.sha) then PASS
         else INCOMPLETE
  }

  /** Spelled out: the receipt has no problems and claims what it reached, COMPLETE; it comes from
      the certified commit; the verifier answered with at least one statement; and every
      statement is provenance of exactly that receipt, by digest, and of nothing else. */
  ghost predicate Vouched(run: Rehearsal, sha: Option<string>) {
    && run.receipt.Some? && sha.Some?
    && !run.receipt.value.problems
    && run.receipt.value.outcome == "COMPLETE" && run.receipt.value.claimedOutcome == "COMPLETE"
    && run.receipt.value.producerSha == sha
    && run.attestation.VerifierAnswered? && run.attestation.entries != []
    && forall e :: e in run.attestation.entries ==>
         e.isProvenance && e.subjects == Some([Some(run.receipt.value.digest)])
  }

  /** What the answer of the rehearsal step says of its inputs: the token and PASS go together
      and mean two vouched rehearsals; attested runs that do not pass fall short somewhere; and
      local runs never pass, and fail exactly when one of them has a defect. */
  ghost predicate AnswerMeans(inputs: Inputs, step: Step) {
    && (step.token == VerifiedRehearsals <==> step.status == PASS)
    && (step.status == PASS ==>
          && inputs.locals == [] && inputs.attested.Some?
          && var (clean, chaos) := (inputs.attested.value.0, inputs.attested.value.1);
             && Vouched(clean, inputs.sha) && Vouched(chaos, inputs.sha)
             && (forall a :: a in clean.receipt.value.attempts ==> !a.faultInjected)
             && (exists a :: a in chaos.receipt.value.attempts && a.faultInjected && a.failed))
    && (inputs.attested.Some? && inputs.locals == [] && step.status != PASS ==>
          exists r :: r in RunsOf(inputs) && FallsShort(r, inputs.sha))
    && (inputs.attested.None? ==>
          && step.status == (if inputs.locals == [] then SKIPPED
                             else if exists r :: r in inputs.locals && HasDefect(r) then FAIL
                             else INCOMPLETE))
  }

  /** A defect of a local rehearsal, spelled out. */
  ghost predicate HasDefect(run: Rehearsal) {
    || run.name == "" || '/' in run.name || run.name[0] == '.'
    || !run.isDir || !run.hasFiles || run.receipt.None? || run.receipt.value.problems
    || run.receipt.value.outcome != "COMPLETE" || run.receipt.value.claimedOutcome != "COMPLETE"
    || (run.name == "clean" && exists a :: a in run.receipt.value.attempts && a.faultInjected)
    || (run.name == "chaos" && !exists a :: a in run.receipt.value.attempts && a.faultInjected && a.failed)
  }

  lemma OutcomeMeans(inputs: Inputs, step: Step)
    requires AttestedNames(inputs) && RehearsalOutcome(inputs, step)
    ensures AnswerMeans(inputs, step)
  {
    if inputs.attested.Some? {
      var (clean, chaos) := (inputs.attested.value.0, inputs.attested.value.1);
      assert RunsOf(inputs)[0] == clean && RunsOf(inputs)[1] == chaos;
      if step.status == PASS {
        SomeInjected(chaos.receipt.value.attempts);
      } else if inputs.locals == [] {
        if !FallsShort(clean, inputs.sha) { StandsFirm(clean, inputs.sha); }
        if !FallsShort(chaos, inputs.sha) { StandsFirm(chaos, inputs.sha); }
        assert clean in RunsOf(inputs) && chaos in RunsOf(inputs);
      }
    } else {
      forall r | r in inputs.locals ensures Broken(r, false, inputs.sha) <==> HasDefect(r) {
        if r.receipt.Some? { SomeInjected(r.receipt.value.attempts); }
      }
    }
  }

  /** Some reason, spelled out, why a rehearsal does not count. */
  ghost predicate FallsShort(run: Rehearsal, sha: Option<string>) {
    || !run.isDir || !run.hasFiles || !Vouched(run, sha)
    || (run.name == "clean" && exists a :: a in run.receipt.value.attempts && a.faultInjected)
    || (run.name == "chaos" && !exists a :: a in run.receipt.value.attempts && a.faultInjected && a.failed)
  }

  lemma StandsFirm(run: Rehearsal, sha: Option<string>)
    requires !FallsShort(run, sha) && (run.name == "clean" || run.name == "chaos")
    ensures Attested(run, sha) && !Broken(run, true, sha)
  {
    assert ValidName("clean") && ValidName("chaos");
    SomeInjected(run.receipt.value.attempts);
  }

  /** `step_rehearsals`: the loop over the runs, with its early failures and its notes. */
  method StepRehearsals(inputs: Inputs) returns (step: Step)
    requires AttestedNames(inputs)
    ensures RehearsalOutcome(inputs, step) && AnswerMeans(inputs, step)
  {
    step := RehearseAll(inputs);
    OutcomeMeans(inputs, step);
  }

  method RehearseAll(inputs: Inputs) returns (step: Step)
    requires AttestedNames(inputs)
    ensures RehearsalOutcome(inputs, step)
  {
    var attested := inputs.attested.Some?;
    if attested && inputs.locals != [] { return Step(Rehearsals, FAIL, NO_EVIDENCE, NoToken); }
    var runs := RunsOf(inputs);
    if runs == [] { return Step(Rehearsals, SKIPPED, NO_EVIDENCE, NoToken); }
    var proof: set<string> := {};
    var notes := 0;
    for i := 0 to |runs|
      invariant forall k :: 0 <= k < i ==> !Broken(runs[k], attested, inputs.sha)
      invariant notes == 0 <==> forall k :: 0 <= k < i ==> !Inconclusive(runs[k], attested, inputs.sha)
      invariant proof == set k | 0 <= k < i :: runs[k].name
    {
      var run := runs[i];
      var failed, note := RehearseOne(run, attested, inputs.sha);
      if failed {
        assert run in runs;
        return Step(Rehearsals, FAIL, NO_EVIDENCE, NoToken);
      }
      proof := proof + {run.name};
      if note { notes := notes + 1; }
    }
    assert forall r :: r in runs ==> !Broken(r, attested, inputs.sha);
    if attested {
      assert runs == [inputs.attested.value.0, inputs.attested.value.1];
      NotBrokenNotInconclusive(runs[0], inputs.sha);
      NotBrokenNotInconclusive(runs[1], inputs.sha);
      assert proof == {runs[0].name, runs[1].name};
    }
    if attested && notes == 0 && proof == {"clean", "chaos"} {
      return Step(Rehearsals, PASS, NO_EVIDENCE, VerifiedRehearsals);
    }
    return Step(Rehearsals, INCOMPLETE, NO_EVIDENCE, NoToken);
  }

  lemma NotBrokenNotInconclusive(run: Rehearsal, sha: Option<string>)
    requires !Broken(run, true, sha)
    ensures Attested(run, sha) <==> !Inconclusive(run, true, sha)
  {
  }

  /** One trip round the loop: does the run fail the step, does it leave a note? */
  method RehearseOne(run: Rehearsal, attested: bool, sha: Option<string>) returns (failed: bool, note: bool)
    ensures failed <==> Broken(run, attested, sha)
    ensures !failed ==> (note <==> Inconclusive(run, attested, sha))
  {
    if !ValidName(run.name) || !run.isDir || !run.hasFiles || run.receipt.None? { return true, false; }
    var receipt := run.receipt.value;
    if receipt.problems || receipt.outcome != "COMPLETE" || receipt.claimedOutcome != "COMPLETE" { return true, false; }
    if run.name == "chaos" && InjectedFailures(receipt.attempts) == 0 { return true, false; }
    if run.name == "clean" && exists a :: a in receipt.attempts && a.faultInjected { return true, false; }
    if attested && (sha.None? || receipt.producerSha != sha) { return true, false; }
    note := receipt.producerSha.None? || sha.None? || (!attested && receipt.treeChanged != Some(false));
    if attested {
      match run.attestation
      case NoBundle => return false, true;
      case SymlinkedBundle => return true, note;
      case VerifierUnavailable => return false, true;
      case VerifierRefused => return true, note;
      case VerifierAnswered(entries) =>
        if !VerifiedSubjectDigest(entries, receipt.digest) { return true, note; }
    }
    failed := false;
  }

  lemma {:induction false} SomeInjected(attempts: seq<RunAttempt>)
    ensures InjectedFailures(attempts) > 0 <==> exists a :: a in attempts && a.faultInjected && a.failed
  {
    if attempts != [] { SomeInjected(attempts[..|attempts| - 1]); }
  }

  /** The token is an object that only `step_rehearsals` hands out: whatever carries it is what
      that function returned for these inputs. Every other step is arbitrary, including a
      rehearsal entry that merely claims to have passed. */
  ghost predicate TokensAreGenuine(steps: seq<Step>, inputs: Inputs) {
    forall s :: s in steps && s.id == Rehearsals && s.token == VerifiedRehearsals ==> RehearsalOutcome(inputs, s)
  }

  /** From the verdict back to the evidence, over any list of steps: CERTIFIED means that a
      clean and a chaos rehearsal both verified, completed, came from the certified commit and
      carry a statement about exactly their receipt; the clean one had no injected fault and
      the chaos one had at least one injected failure. */
  lemma CertifiedMeansAttestedRehearsals(steps: seq<Step>, gitDirty: bool, inputs: Inputs)
    requires AttestedNames(inputs)
    requires TokensAreGenuine(steps, inputs)
    requires ComputeVerdict(steps, gitDirty) == CERTIFIED
    ensures inputs.attested.Some? && inputs.locals == []
    ensures var (clean, chaos) := (inputs.attested.value.0, inputs.attested.value.1);
            && clean.name == "clean" && chaos.name == "chaos"
            && Vouched(clean, inputs.sha) && Vouched(chaos, inputs.sha)
            && (forall a :: a in clean.receipt.value.attempts ==> !a.faultInjected)
            && (exists a :: a in chaos.receipt.value.attempts && a.faultInjected && a.failed)
  {
    CertifiedMeansAllElevenPass(steps, gitDirty);
    assert Rehearsals in REQUIRED;
    var s :| s in steps && s.id == Rehearsals;
    assert EvidenceComplete(s);
    SomeInjected(inputs.attested.value.1.receipt.value.attempts);
  }

  /** So a self-asserted PASS cannot certify: with a rehearsal entry that lacks the token the
      verdict is never CERTIFIED, whatever the entry and all the others say. */
  lemma ForgedRehearsalNeverCertifies(steps: seq<Step>, gitDirty: bool, forged: Step)
    requires forged in steps && forged.id == Rehearsals && forged.token != VerifiedRehearsals
    ensures ComputeVerdict(steps, gitDirty) != CERTIFIED
  {
    assert !EvidenceComplete(forged);
  }

  // --- The last look at git -------------------------------------------------------------------

  datatype GitStatus = GitStatus(returncode: int, output: string)

  predicate Blank(s: string) {
    forall c :: c in s ==> c in " \t\n\r"
  }

  /** The first `git_clean` step, or the length of the list. */
  function GitStepIndex(steps: seq<Step>): (k: nat)
    ensures k <= |steps|
    ensures k < |steps| ==> steps[k].id == GitClean
    ensures k == |steps| ==> GitClean !in Ids(steps)
  {
    if steps == [] then 0
    else if steps[0].id == GitClean then 0
    else
      assert Ids(steps) == {steps[0].id} + Ids(steps[1..]);
      1 + GitStepIndex(steps[1..])
  }

  lemma FailingStepFails(steps: seq<Step>, k: nat, step: Step, gitDirty: bool)
    requires k < |steps| && step.status == FAIL
    ensures ComputeVerdict(steps[k := step], gitDirty) == FAILED
  {
    assert steps[k := step][k] in steps[k := step];
  }

  lemma CertifiedHasGitStep(steps: seq<Step>, gitDirty: bool)
    requires ComputeVerdict(steps, gitDirty) == CERTIFIED
    ensures GitStepIndex(steps) < |steps|
  {
    CertifiedMeansAllElevenPass(steps, gitDirty);
    assert GitClean in REQUIRED;
  }

  class Manifest {
    var steps: seq<Step>
    var verdict: Verdict
    const gitDirty: bool

    constructor (steps: seq<Step>, gitDirty: bool)
      ensures this.steps == steps && this.gitDirty == gitDirty && verdict == ComputeVerdict(steps, gitDirty)
    {
      this.steps, this.gitDirty := steps, gitDirty;
      this.verdict := ComputeVerdict(steps, gitDirty);
    }

    /** `write_bundle`: two git status calls around the last write. The published verdict is
        CERTIFIED exactly when it was before, git answered both times, and the final answer
        was an empty one; a tree found dirty turns a certificate into FAILED. */
    method WriteBundle(first: GitStatus, final: GitStatus)
      requires verdict == ComputeVerdict(steps, gitDirty)
      modifies this
      ensures verdict == ComputeVerdict(steps, gitDirty)
      ensures verdict == CERTIFIED <==>
                && old(verdict) == CERTIFIED
                && first.returncode == 0 && final.returncode == 0 && Blank(final.output)
      ensures old(verdict) == CERTIFIED && verdict != CERTIFIED ==> verdict == FAILED
    {
      var status := if final.returncode != 0 || final.output != first.output then final else first;
      var k := GitStepIndex(steps);
      if verdict == CERTIFIED { CertifiedHasGitStep(steps, gitDirty); }
      if k < |steps| && (first.returncode != 0 || status.returncode != 0 || !Blank(status.output)) {
        var failed := steps[k].(status := FAIL, evidence := NO_EVIDENCE);
        FailingStepFails(steps, k, failed, gitDirty);
        steps := steps[k := failed];
        verdict := ComputeVerdict(steps, gitDirty);
      }
    }
  }
}
