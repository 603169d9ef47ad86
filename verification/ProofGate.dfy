/** `check_bundle`: the proof gate in front of a pull request. Git answers, the evidence
    directory and SHA-256 are parameters. */
module ProofGate {
  import opened Prelude
  import opened Packets

  datatype Files = Files(read: string -> Option<Bytes>, digest: Bytes -> string)

  /** The artifact of a passing gate whose recorded digest is that of the file. */
  predicate Vouches(files: Files, gate: Gate, artifact: string) {
    && gate.status == "PASS" && gate.artifact == artifact
    && files.read(artifact).Some? && files.digest(files.read(artifact).value) == gate.sha256
  }

  ghost predicate Backed(files: Files, gates: map<GateName, Gate>, artifact: string)
    requires forall n: GateName :: n in gates
  {
    exists n: GateName :: Vouches(files, gates[n], artifact)
  }

  /** What acceptance of a bundle is supposed to mean to a reader of the pull request. */
  ghost predicate Accepted(clean: bool, sameWorktree: bool, head: string, packet: Packet, proof: Proof,
                           review: Review, files: Files, reviewFiles: Files) {
    && clean && sameWorktree
    && ValidPacket(packet) && ValidProof(proof, head) && ValidReview(review, head)
    && ProofFitsPacket(packet, proof)
    && (forall n: GateName :: proof.gates[n].status == "PASS" ==>
          Vouches(files, proof.gates[n], proof.gates[n].artifact))
    && (forall c, r :: c in proof.acceptance && r in proof.acceptance[c] ==> Backed(files, proof.gates, r))
    && reviewFiles.read(review.artifact).Some?
  }

  // --- The validators, as loops that stop at the first complaint ---------------------------------

  /** `validate_packet`. */
  method ValidatePacket(p: Packet) returns (ok: bool)
    ensures ok <==> ValidPacket(p)
  {
    if p.schemaVersion != 1 { return false; }
    if p.issue == "" || p.issueUpdatedAt == "" || p.worktree == "" || p.branch == "" { return false; }
    if p.model == "" || p.attemptId == "" { return false; }
    for i := 0 to |DETAIL_KEYS|
      invariant forall k :: k in DETAIL_KEYS[..i] ==> k in p.details && p.details[k] != ""
    {
      assert DETAIL_KEYS[i] in DETAIL_KEYS;
      if DETAIL_KEYS[i] !in p.details || p.details[DETAIL_KEYS[i]] == "" { return false; }
    }
    assert DETAIL_KEYS[..|DETAIL_KEYS|] == DETAIL_KEYS;
    if p.worktree[0] != '/' || !IsHex(p.baseSha, 40, 64) { return false; }
    var parts := Split(p.model, '/');
    for i := 0 to |parts|
      invariant forall k :: 0 <= k < i ==> parts[k] !in VAGUE_MODELS
    {
      if parts[i] in VAGUE_MODELS {
        assert parts[i] in parts;
        return false;
      }
    }
    if p.criteria == [] || p.allowedFiles == [] || p.constraints == [] || p.context.None? { return false; }
    if p.lease.dispatchId == "" || p.lease.workerId == "" || p.lease.heartbeatExpectation == "" { return false; }
    if p.lease.dispatchId != p.attemptId || p.lease.generation <= 0 || p.lease.staleAfter <= 0.0 { return false; }
    var ok2 := ValidateLists(p);
    return ok2 && p.budgets.wall > 0 && p.budgets.idle > 0 && p.budgets.ci > 0;
  }

  /** The checks on criteria, dependencies and proof requirements. */
  method ValidateLists(p: Packet) returns (ok: bool)
    ensures ok <==>
              && (forall c :: c in p.criteria ==> c.id != "" && c.text != "" && c.verification != "")
              && |CriterionIds(p)| == |p.criteria|
              && (forall d :: d in p.dependencies ==>
                    d.status == "SATISFIED" && d.issue != "" && d.evidence != "" && d.observedAt != "")
              && (forall n: GateName :: n in p.requirements && ValidRequirement(n, p.requirements[n]))
  {
    var ids: set<string> := {};
    for i := 0 to |p.criteria|
      invariant forall k :: 0 <= k < i ==>
                  p.criteria[k].id != "" && p.criteria[k].text != "" && p.criteria[k].verification != ""
      invariant ids == set c | c in p.criteria[..i] :: c.id
    {
      var c := p.criteria[i];
      assert c in p.criteria && p.criteria[..i + 1] == p.criteria[..i] + [c];
      if c.id == "" || c.text == "" || c.verification == "" { return false; }
      ids := ids + {c.id};
    }
    assert p.criteria[..|p.criteria|] == p.criteria;
    if |ids| != |p.criteria| { return false; }
    for i := 0 to |p.dependencies|
      invariant forall k :: 0 <= k < i ==>
                  && p.dependencies[k].status == "SATISFIED" && p.dependencies[k].issue != ""
                  && p.dependencies[k].evidence != "" && p.dependencies[k].observedAt != ""
    {
      var d := p.dependencies[i];
      assert d in p.dependencies;
      if d.status != "SATISFIED" || d.issue == "" || d.evidence == "" || d.observedAt == "" { return false; }
    }
    for i := 0 to |GATE_ORDER|
      invariant forall n: GateName :: n in GATE_ORDER[..i] ==>
                  n in p.requirements && ValidRequirement(n, p.requirements[n])
    {
      var n := GATE_ORDER[i];
      assert GATE_ORDER[..i + 1] == GATE_ORDER[..i] + [n];
      if n !in p.requirements || !ValidRequirement(n, p.requirements[n]) { return false; }
    }
    assert GATE_ORDER[..|GATE_ORDER|] == GATE_ORDER;
    AllGatesAreListed();
    ok := true;
  }

  lemma AllGatesAreListed()
    ensures forall n: GateName :: n in GATE_ORDER
  {
    forall n: GateName ensures n in GATE_ORDER {
      match n
      case STATIC => assert GATE_ORDER[0] == n;
      case UNIT => assert GATE_ORDER[1] == n;
      case INTEGRATION => assert GATE_ORDER[2] == n;
      case ACCEPTANCE_PROOF => assert GATE_ORDER[3] == n;
    }
  }

  /** `validate_proof`. */
  method ValidateProof(proof: Proof, head: string) returns (ok: bool)
    ensures ok <==> ValidProof(proof, head)
  {
    if proof.schemaVersion != 1 || !IsHex(head, 40, 64) || proof.headSha != head { return false; }
    if proof.issue == "" { return false; }
    for i := 0 to |GATE_ORDER|
      invariant forall n: GateName :: n in GATE_ORDER[..i] ==> n in proof.gates && ValidGate(n, proof.gates[n])
    {
      var n := GATE_ORDER[i];
      assert GATE_ORDER[..i + 1] == GATE_ORDER[..i] + [n];
      if n !in proof.gates { return false; }
      var gate := proof.gates[n];
      if gate.status == "N/A" {
        if n == ACCEPTANCE_PROOF || gate.reason == "" || gate.approvedBy == "" { return false; }
      } else {
        if gate.status != "PASS" || gate.exitCode != Some(0) { return false; }
        if gate.command == "" || gate.artifact == "" || !IsHex(gate.sha256, 64, 64) { return false; }
      }
    }
    assert GATE_ORDER[..|GATE_ORDER|] == GATE_ORDER;
    AllGatesAreListed();
    if proof.criteria == [] || "" in proof.criteria { return false; }
    if |Elements(proof.criteria)| != |proof.criteria| { return false; }
    if proof.acceptance.Keys != Elements(proof.criteria) { return false; }
    ok := forall c :: c in proof.acceptance ==> proof.acceptance[c] != [] && "" !in proof.acceptance[c];
  }

  /** `validate_packet_proof`. */
  method ValidatePacketProof(packet: Packet, proof: Proof) returns (ok: bool)
    requires forall n: GateName :: n in packet.requirements && n in proof.gates
    ensures ok <==> ProofFitsPacket(packet, proof)
  {
    if proof.issue != packet.issue || Elements(proof.criteria) != CriterionIds(packet) { return false; }
    for i := 0 to |GATE_ORDER|
      invariant forall n: GateName :: n in GATE_ORDER[..i] ==> GateFits(packet.requirements[n], proof.gates[n])
    {
      assert GATE_ORDER[..i + 1] == GATE_ORDER[..i] + [GATE_ORDER[i]];
      var want, gate := packet.requirements[GATE_ORDER[i]], proof.gates[GATE_ORDER[i]];
      if want.required {
        if gate.status != "PASS" || gate.command != want.command { return false; }
      } else if gate.status == "N/A" {
        if gate.reason != want.reason || gate.approvedBy != want.approvedBy { return false; }
      }
    }
    assert GATE_ORDER[..|GATE_ORDER|] == GATE_ORDER;
    AllGatesAreListed();
    ok := true;
  }

  /** First loop of `check_bundle`: re-hash the artifact of every passing gate. */
  method HashArtifacts(gates: map<GateName, Gate>, files: Files) returns (ok: bool, hashed: set<string>)
    requires forall n: GateName :: n in gates
    ensures ok <==> forall n: GateName :: gates[n].status == "PASS" ==> Vouches(files, gates[n], gates[n].artifact)
    ensures ok ==> forall a :: a in hashed <==> Backed(files, gates, a)
  {
    hashed := {};
    var order := GATE_ORDER;
    for i := 0 to |order|
      invariant forall n: GateName :: n in order[..i] && gates[n].status == "PASS" ==>
                  Vouches(files, gates[n], gates[n].artifact)
      invariant forall a :: a in hashed <==> exists n: GateName :: n in order[..i] && Vouches(files, gates[n], a)
    {
      var gate := gates[order[i]];
      assert order[..i + 1] == order[..i] + [order[i]];
      if gate.status == "PASS" {
        var content := files.read(gate.artifact);
        if content.None? || files.digest(content.value) != gate.sha256 {
          assert !Vouches(files, gate, gate.artifact);
          return false, hashed;
        }
        hashed := hashed + {gate.artifact};
      }
    }
    assert order[..|order|] == order;
    AllGatesAreListed();
    ok := true;
  }

  /** Second loop: every acceptance reference must be one of the re-hashed artifacts. */
  method CheckReferences(acceptance: map<string, seq<string>>, hashed: set<string>, files: Files)
    returns (ok: bool)
    requires forall a :: a in hashed ==> files.read(a).Some?
    ensures ok <==> forall c, r :: c in acceptance && r in acceptance[c] ==> r in hashed
  {
    var todo := acceptance.Keys;
    while todo != {}
      invariant todo <= acceptance.Keys
      invariant forall c, r :: c in acceptance && c !in todo && r in acceptance[c] ==> r in hashed
      decreases todo
    {
      var c :| c in todo;
      var refs := acceptance[c];
      for i := 0 to |refs|
        invariant forall k :: 0 <= k < i ==> refs[k] in hashed
      {
        if refs[i] !in hashed || files.read(refs[i]).None? {
          assert refs[i] in acceptance[c];
          return false;
        }
      }
      todo := todo - {c};
    }
    ok := true;
  }

  /** What a reader of the pull request may rely on for criterion `c` of the packet: it has
      evidence, each piece the artifact of a passing gate, there to be read and with the digest
      on record; every required gate ran exactly the packet's command and exited with 0; a gate
      that did not run was waived in the packet, for the same reason and by the same approver;
      proof and review speak about the current head, and the review approves it; and the
      acceptance gate itself was not waived. */
  ghost predicate Proven(head: string, packet: Packet, proof: Proof, review: Review, files: Files, c: Criterion) {
    && (forall n: GateName :: n in packet.requirements && n in proof.gates)
    && proof.headSha == head == review.headSha && proof.issue == packet.issue
    && review.decision == "APPROVED" && review.reviewer != "" && review.artifact != ""
    && c.id in proof.acceptance && proof.acceptance[c.id] != []
    && (forall r :: r in proof.acceptance[c.id] ==>
          exists n: GateName :: proof.gates[n].artifact == r && RanWell(files, proof.gates[n]))
    && (forall n: GateName :: proof.gates[n].status == "PASS" ==> RanWell(files, proof.gates[n]))
    && (forall n: GateName ::
          if packet.requirements[n].required
          then proof.gates[n].status == "PASS" && proof.gates[n].command == packet.requirements[n].command
          else proof.gates[n].status == "PASS"
               || (&& proof.gates[n].status == "N/A" && proof.gates[n].reason != ""
                   && proof.gates[n].approvedBy != "" && proof.gates[n].reason == packet.requirements[n].reason
                   && proof.gates[n].approvedBy == packet.requirements[n].approvedBy))
    && packet.requirements[ACCEPTANCE_PROOF].required
  }

  /** A passing gate: exit code 0, and its artifact has the digest on record. */
  ghost predicate RanWell(files: Files, gate: Gate) {
    && gate.status == "PASS" && gate.exitCode == Some(0) && gate.command != ""
    && files.read(gate.artifact).Some? && files.digest(files.read(gate.artifact).value) == gate.sha256
  }

  /** The loops of `check_bundle` accept exactly the bundles described above, and what they
      accept is proven criterion by criterion. */
  method CheckBundle(clean: bool, sameWorktree: bool, head: string, packet: Packet, proof: Proof,
                     review: Review, files: Files, reviewFiles: Files) returns (ok: bool)
    ensures ok <==> Accepted(clean, sameWorktree, head, packet, proof, review, files, reviewFiles)
    ensures ok ==> forall c :: c in packet.criteria ==> Proven(head, packet, proof, review, files, c)
  {
    if !clean { return false; }
    var packetOk := ValidatePacket(packet);
    if !packetOk || !sameWorktree { return false; }
    var proofOk := ValidateProof(proof, head);
    if !proofOk { return false; }
    var fits := ValidatePacketProof(packet, proof);
    if !fits { return false; }
    if review.headSha != head || review.decision != "APPROVED" { return false; }
    if review.reviewer == "" || review.artifact == "" { return false; }
    var hashed;
    ok, hashed := HashArtifacts(proof.gates, files);
    if ok {
      ok := CheckReferences(proof.acceptance, hashed, files);
    }
    ok := ok && reviewFiles.read(review.artifact).Some?;
    if ok {
      forall c | c in packet.criteria ensures Proven(head, packet, proof, review, files, c) {
        AcceptedMeansProven(clean, sameWorktree, head, packet, proof, review, files, reviewFiles, c);
      }
    }
  }

  lemma AcceptedMeansProven(clean: bool, sameWorktree: bool, head: string, packet: Packet, proof: Proof,
                            review: Review, files: Files, reviewFiles: Files, c: Criterion)
    requires Accepted(clean, sameWorktree, head, packet, proof, review, files, reviewFiles)
    requires c in packet.criteria
    ensures Proven(head, packet, proof, review, files, c)
  {
    assert c.id in CriterionIds(packet);
    assert c.id in proof.acceptance.Keys;
    assert ValidGate(ACCEPTANCE_PROOF, proof.gates[ACCEPTANCE_PROOF]);
    assert ValidRequirement(ACCEPTANCE_PROOF, packet.requirements[ACCEPTANCE_PROOF]);
    forall n: GateName | proof.gates[n].status == "PASS" ensures RanWell(files, proof.gates[n]) {
      assert ValidGate(n, proof.gates[n]);
    }
    forall r | r in proof.acceptance[c.id]
      ensures exists n: GateName :: proof.gates[n].artifact == r && RanWell(files, proof.gates[n])
    {
      assert Backed(files, proof.gates, r);
      var n: GateName :| Vouches(files, proof.gates[n], r);
      assert proof.gates[n].artifact == r && RanWell(files, proof.gates[n]);
    }
    forall n: GateName ensures ValidGate(n, proof.gates[n]) {
    }
  }
}
