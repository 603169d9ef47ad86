/** Dispatch packets, proofs and reviews, with the checks of scripts/prime_workflow.py. */
module Packets {
  import opened Prelude

  datatype GateName = STATIC | UNIT | INTEGRATION | ACCEPTANCE_PROOF

  const GATE_ORDER: seq<GateName> := [STATIC, UNIT, INTEGRATION, ACCEPTANCE_PROOF]

  /** Required packet texts that no other check looks at. */
  const DETAIL_KEYS: seq<string> := [
    "issue_url", "project", "team", "objective", "ownership", "provider", "routing_evidence",
    "available_at", "spec", "plan", "tasks", "return_evidence"]

  const VAGUE_MODELS: seq<string> := ["auto", "default", "best", "best-coding"]

  datatype LeaseMeta = LeaseMeta(
    dispatchId: string, workerId: string, generation: int, staleAfter: real, heartbeatExpectation: string)

  datatype Criterion = Criterion(id: string, text: string, verification: string)

  datatype Dependency = Dependency(status: string, issue: string, evidence: string, observedAt: string)

  datatype Requirement = Requirement(required: bool, command: string, reason: string, approvedBy: string)

  datatype Budgets = Budgets(wall: int, idle: int, ci: int)

  datatype Packet = Packet(
    schemaVersion: int,
    issue: string,
    issueUpdatedAt: string,
    worktree: string,
    branch: string,
    baseSha: string,
    model: string,
    attemptId: string,
    details: map<string, string>,
    context: Option<map<string, string>>,
    lease: LeaseMeta,
    criteria: seq<Criterion>,
    allowedFiles: seq<string>,
    constraints: seq<string>,
    dependencies: seq<Dependency>,
    requirements: map<GateName, Requirement>,
    budgets: Budgets)

  predicate IsAbsolute(path: string) {
    path != "" && path[0] == '/'
  }

  predicate ValidRequirement(name: GateName, r: Requirement) {
    || (r.required && r.command != "")
    || (name != ACCEPTANCE_PROOF && !r.required && r.reason != "" && r.approvedBy != "")
  }

  function CriterionIds(p: Packet): set<string> {
    set c | c in p.criteria :: c.id
  }

  /** `validate_packet` raises nothing. */
  predicate ValidPacket(p: Packet) {
    && p.schemaVersion == 1
    && p.issue != "" && p.issueUpdatedAt != "" && p.worktree != "" && p.branch != ""
    && p.model != "" && p.attemptId != ""
    && (forall k :: k in DETAIL_KEYS ==> k in p.details && p.details[k] != "")
    && IsAbsolute(p.worktree)
    && IsHex(p.baseSha, 40, 64)
    && (forall part :: part in Split(p.model, '/') ==> part !in VAGUE_MODELS)
    && p.criteria != [] && p.allowedFiles != [] && p.constraints != []
    && p.context.Some?
    && p.lease.dispatchId != "" && p.lease.workerId != "" && p.lease.heartbeatExpectation != ""
    && p.lease.dispatchId == p.attemptId
    && p.lease.generation > 0
    && p.lease.staleAfter > 0.0
    && (forall c :: c in p.criteria ==> c.id != "" && c.text != "" && c.verification != "")
    && |CriterionIds(p)| == |p.criteria|
    && (forall d :: d in p.dependencies ==>
          d.status == "SATISFIED" && d.issue != "" && d.evidence != "" && d.observedAt != "")
    && (forall n: GateName :: n in p.requirements && ValidRequirement(n, p.requirements[n]))
    && p.budgets.wall > 0 && p.budgets.idle > 0 && p.budgets.ci > 0
  }

  datatype Gate = Gate(
    status: string, exitCode: Option<int>, command: string, artifact: string, sha256: string,
    reason: string, approvedBy: string)

  datatype Proof = Proof(
    schemaVersion: int,
    headSha: string,
    issue: string,
    gates: map<GateName, Gate>,
    criteria: seq<string>,
    acceptance: map<string, seq<string>>)

  datatype Review = Review(headSha: string, decision: string, reviewer: string, artifact: string)

  predicate ValidGate(name: GateName, gate: Gate) {
    if gate.status == "N/A" then
      name != ACCEPTANCE_PROOF && gate.reason != "" && gate.approvedBy != ""
    else
      && gate.status == "PASS" && gate.exitCode == Some(0)
      && gate.command != "" && gate.artifact != "" && IsHex(gate.sha256, 64, 64)
  }

  /** `validate_proof` raises nothing. */
  predicate ValidProof(proof: Proof, head: string) {
    && proof.schemaVersion == 1
    && IsHex(head, 40, 64)
    && proof.headSha == head
    && proof.issue != ""
    && (forall n: GateName :: n in proof.gates && ValidGate(n, proof.gates[n]))
    && proof.criteria != []
    && (forall c :: c in proof.criteria ==> c != "")
    && |Elements(proof.criteria)| == |proof.criteria|
    && proof.acceptance.Keys == Elements(proof.criteria)
    && (forall c :: c in proof.acceptance ==>
          proof.acceptance[c] != [] && forall r :: r in proof.acceptance[c] ==> r != "")
  }

  /** `validate_review` raises nothing. */
  predicate ValidReview(review: Review, head: string) {
    review.headSha == head && review.decision == "APPROVED" && review.reviewer != "" && review.artifact != ""
  }

  /** `validate_packet_proof` raises nothing. */
  predicate ProofFitsPacket(packet: Packet, proof: Proof)
    requires forall n: GateName :: n in packet.requirements && n in proof.gates
  {
    && proof.issue == packet.issue
    && Elements(proof.criteria) == CriterionIds(packet)
    && forall n: GateName :: GateFits(packet.requirements[n], proof.gates[n])
  }

  predicate GateFits(want: Requirement, gate: Gate) {
    if want.required then gate.status == "PASS" && gate.command == want.command
    else gate.status == "N/A" ==> gate.reason == want.reason && gate.approvedBy == want.approvedBy
  }
}
