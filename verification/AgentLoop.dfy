/** The agent's two-phase loop against the emulated gate. */
module AgentLoop {
  import opened Bits
  import opened Words
  import opened Bytes
  import opened SovereignProposal
  import opened GateSpec
  import opened ToolGateComponent
  import opened UioTransport
  import opened Simulation
  import opened SimulationRuns
  import opened SovrAgent

  /** How a call of the loop ends: packing raised, neither branch taken, executed at once, or
      executed (or not) after the quorum phase. */
  datatype Outcome =
    | PackingRaised
    | NoAction(status: u16, decision: byte)
    | Direct(text: seq<byte>)
    | Relayed(status: u16, decision: byte, text: seq<byte>)

  /** What the policy and the sequence number say of a call the agent makes. */
  function Expected(lastSeq: u64, p: Proposal): u16 {
    if p.sequenceId <= lastSeq then ERR_SEQUENCE
    else if PolicyFor(p.toolId).None? then ERR_UNKNOWN_TOOL
    else if !(PolicyFor(p.toolId).value.minArgLen <= p.argLen <= PolicyFor(p.toolId).value.maxArgLen) then ERR_ARGS_LEN
    else STATUS_OK
  }

  // ---------------------------------------------------------------------
  // First phase

  /** A frame that the agent packed is judged by sequence number and policy alone. */
  lemma PackedFrameStatus(e: Emulator, p: Proposal)
    requires DecodeProposal(ProposalRegion(e.mem)) == p
    requires p.magic == SOVP_MAGIC && p.version == SOVP_VERSION && p.argLen <= 992 && CanonicalPadding(p)
    ensures UioTransport.ProposalStatus(e) == Expected(e.lastSeq, p)
    ensures U64At(e.mem, 8) == p.sequenceId && U32At(e.mem, 4) / 0x1_0000 == p.toolId
  {
    ProposalReadersAgree(e.mem);
    PoliciesAgree(p.toolId);
  }

  /** The verdict that the agent reads back. */
  function ExpectedVerdict(lastSeq: u64, p: Proposal, nonce: Nonce, challenge: Digest): Verdict {
    var status := Expected(lastSeq, p);
    if status != STATUS_OK then Plain(status, DECISION_DENY, p.sequenceId)
    else if PolicyFor(p.toolId).value.decision == DECISION_ALLOW then Plain(STATUS_OK, DECISION_ALLOW, p.sequenceId)
    else Verdict(SOVV_MAGIC, PENDING_APPROVAL, DECISION_QUORUM, QUORUM_MASK_TRIAD_DEFAULT, p.sequenceId, nonce,
      challenge)
  }

  lemma FirstVerdict(sha512: seq<byte> -> Digest, e: Emulator, frame: ProposalFrame, p: Proposal)
    requires ProposalRegion(e.mem) == frame && DecodeProposal(frame) == p
    requires p.magic == SOVP_MAGIC && p.version == SOVP_VERSION && p.argLen <= 992 && CanonicalPadding(p)
    ensures EmulatorRuling(sha512, e) ==
            ExpectedVerdict(e.lastSeq, p, FIXED_NONCE, sha512(PreImage(frame, FIXED_NONCE)))
  {
    hide UioTransport.ProposalStatus, CanonicalPadding, DecodeProposal;
    PackedFrameStatus(e, p);
    PoliciesAgree(p.toolId);
    PreImagesCoincide(e.mem);
    if PolicyFor(p.toolId).Some? {
      PolicyShape(p.toolId);
    }
  }

  lemma FirstEffect(sha512: seq<byte> -> Digest, e: Emulator, frame: ProposalFrame, p: Proposal)
    requires ProposalRegion(e.mem) == frame && DecodeProposal(frame) == p
    requires p.magic == SOVP_MAGIC && p.version == SOVP_VERSION && p.argLen <= 992 && CanonicalPadding(p)
    ensures var e' := RingProposal(sha512, e);
            var status, challenge := Expected(e.lastSeq, p), sha512(PreImage(frame, FIXED_NONCE));
            && (status != STATUS_OK ==> e' == e.(mem := e'.mem))
            && (status == STATUS_OK && PolicyFor(p.toolId).value.decision == DECISION_ALLOW ==>
                  e' == e.(mem := e'.mem, lastSeq := p.sequenceId) &&
                  e'.mem[0x800..0xC00] == ResultBytes(EXEC_READ_OK, p.sequenceId))
            && (status == STATUS_OK && PolicyFor(p.toolId).value.decision != DECISION_ALLOW ==>
                  e' == Emulator(p.sequenceId, p.sequenceId, QUORUM_MASK_TRIAD_DEFAULT, challenge, e'.mem))
  {
    hide UioTransport.ProposalStatus, CanonicalPadding, DecodeProposal;
    PackedFrameStatus(e, p);
    PoliciesAgree(p.toolId);
    PreImagesCoincide(e.mem);
    if PolicyFor(p.toolId).Some? {
      PolicyShape(p.toolId);
    }
    ResultStands(Splice(e.mem, 0x600, VerdictBytes(STATUS_OK, DECISION_ALLOW, 0, p.sequenceId, Zeros(16), Zeros(64))),
                 ResultBytes(EXEC_READ_OK, p.sequenceId));
  }

  lemma ResultStands(page: Page, result: seq<byte>)
    requires |result| == 1024
    ensures Splice(page, 0x800, result)[0x800..0xC00] == result
  {
    SpliceWithin(page, 0x800, result, 0, 1024);
    assert result[0..1024] == result;
  }

  // ---------------------------------------------------------------------
  // Second phase

  /** The emulator grants an approval of three witnesses under mask 7 for the pending id. */
  lemma SecondPhase(sha512: seq<byte> -> Digest, e: Emulator, frame: ApprovalFrame)
    requires e.activeSeq != 0 && e.activeMask == QUORUM_MASK_TRIAD_DEFAULT
    requires var a := DecodeApproval(frame);
             a.magic == SOVQ_MAGIC && a.sequenceId == e.activeSeq && a.signerBitmap == 7 && a.quorumCount == 3
    ensures var e' := RingDoorbell(sha512, e.(mem := Staged(e.mem, SubmitApproval(frame))));
            && e' == e.(mem := e'.mem, activeSeq := 0)
            && VerdictRegion(e'.mem) == EncodeVerdict(Plain(STATUS_OK, DECISION_ALLOW, e.activeSeq))
            && e'.mem[0x800..0xC00] == ResultBytes(EXEC_WRITE_OK, e.activeSeq)
  {
    var e1 := e.(mem := Staged(e.mem, SubmitApproval(frame)));
    StagedFrames(e.mem, SubmitApproval(frame));
    ApprovalReadersAgree(e1.mem);
    BinCountIsPopcount(7);
    assert ApprovalStatus(e1) == STATUS_OK;
    var v := Plain(STATUS_OK, DECISION_ALLOW, e.activeSeq);
    var judged := Splice(e1.mem, 0x600, EncodeVerdict(v));
    var result := ResultBytes(EXEC_WRITE_OK, e.activeSeq);
    var done := Splice(judged, 0x800, result);
    VerdictReadsBack(e1.mem, v);
    VerdictUntouched(judged, 0x800, result);
    VerdictUntouched(done, 0x400, Zeros(4));
    ResultStands(judged, result);
    SpliceElsewhere(done, 0x400, Zeros(4), 0x800, 1024);
  }

  /** The text the agent cuts out of a result frame is the message that was put in. */
  lemma ResultText(msg: seq<byte>, seqId: u64)
    requires |msg| <= SOVP_MAX_RESULT
    ensures var f := ResultBytes(msg, seqId);
            U16At(f, 6) == |msg| && f[16..16 + |msg|] == msg
  {
    var h, f := Head16(SOVX_MAGIC, STATUS_OK, |msg|, seqId), ResultBytes(msg, seqId);
    assert f == h + (msg + Zeros(SOVP_MAX_RESULT - |msg|));
    Head16Layout(SOVX_MAGIC, STATUS_OK, |msg|, seqId);
    assert f[6..8] == h[6..8];
    ReadU16(f, 6, |msg|);
  }

  // ---------------------------------------------------------------------
  // The loop

  /** The three witnesses that the agent fabricates. */
  function AgentWitness(i: byte): ProperWitness
    requires i < 3
  {
    Witness(seq(64, k => 0xA0 + i), seq(32, k => 0x10 + i))
  }

  lemma AgentWitnessBytes(i: byte)
    requires i < 3
    ensures AgentWitness(i).signature == seq(64, _ => 0xA0 + i) && AgentWitness(i).publicKey == seq(32, _ => 0x10 + i)
  {
  }

  method AgentApproval(sequenceId: u64) returns (frame: ApprovalFrame)
    ensures var a := DecodeApproval(frame);
            && a.magic == SOVQ_MAGIC && a.version == SOVP_VERSION && a.sequenceId == sequenceId
            && a.signerBitmap == 7 && a.quorumCount == 3
            && forall i: nat :: i < 3 ==>
                 && a.witnesses[i].signature == seq(64, _ => 0xA0 + i)
                 && a.witnesses[i].publicKey == seq(32, _ => 0x10 + i)
  {
    hide AgentWitness, PackApproval, DecodeApproval, PackWitness, WitnessBytes;
    var witnesses: seq<seq<byte>> := [];
    ghost var ws := [AgentWitness(0), AgentWitness(1), AgentWitness(2)];
    var i := 0;
    while i < 3
      invariant 0 <= i <= 3 && witnesses == PackedWitnesses(ws)[..i]
    {
      var w := AgentWitness(i);
      PackWitnessBytes(w, i);
      var packed := PackWitness(i, w.signature, w.publicKey);
      witnesses := witnesses + [packed.bytes];
      i := i + 1;
    }
    ApprovalRoundTrip(sequenceId, 7, ws);
    assert witnesses == PackedWitnesses(ws);
    frame := PackApproval(sequenceId, 7, witnesses).bytes;
    AgentWitnessBytes(0);
    AgentWitnessBytes(1);
    AgentWitnessBytes(2);
  }

  /** The first phase on the transport: write the frame, ring, read the verdict. */
  method Propose(transport: SovereignGateUIO, frame: ProposalFrame, ghost p: Proposal) returns (verdict: Verdict)
    requires transport.Valid() && DecodeProposal(frame) == p
    requires p.magic == SOVP_MAGIC && p.version == SOVP_VERSION && p.argLen <= 992 && CanonicalPadding(p)
    modifies transport, transport.mem
    ensures transport.Valid()
    ensures var before, after := old(transport.View()), transport.View();
            var status, challenge := Expected(before.lastSeq, p), transport.sha512(PreImage(frame, FIXED_NONCE));
            && verdict == ExpectedVerdict(before.lastSeq, p, FIXED_NONCE, challenge)
            && (status != STATUS_OK ==> after == before.(mem := after.mem))
            && (status == STATUS_OK && PolicyFor(p.toolId).value.decision == DECISION_ALLOW ==>
                  after == before.(mem := after.mem, lastSeq := p.sequenceId) &&
                  after.mem[0x800..0xC00] == ResultBytes(EXEC_READ_OK, p.sequenceId))
            && (status == STATUS_OK && PolicyFor(p.toolId).value.decision != DECISION_ALLOW ==>
                  after == Emulator(p.sequenceId, p.sequenceId, QUORUM_MASK_TRIAD_DEFAULT, challenge, after.mem))
  {
    hide RingProposal, Expected, ExpectedVerdict, EmulatorRuling, CanonicalPadding, DecodeProposal;
    ghost var e0 := transport.View();
    var ok := transport.WriteProposal(frame);
    ghost var e1 := transport.View();
    StagedFrames(e0.mem, SubmitProposal(frame));
    transport.Ring();
    FirstVerdict(transport.sha512, e1, frame, p);
    FirstEffect(transport.sha512, e1, frame, p);
    EmulatorProposalRing(transport.sha512, e1);
    DecodeEncodeVerdict(EmulatorRuling(transport.sha512, e1));
    var rawVerdict := transport.ReadVerdict();
    verdict := DecodeVerdict(rawVerdict);
  }

  /** The second phase: relay the approval, ring, read verdict and result. */
  method Relay(transport: SovereignGateUIO, sequenceId: u64) returns (outcome: Outcome)
    requires transport.Valid() && transport.activeSeq == sequenceId != 0
    requires transport.activeMask == QUORUM_MASK_TRIAD_DEFAULT
    modifies transport, transport.mem
    ensures transport.Valid()
    ensures outcome == Relayed(STATUS_OK, DECISION_ALLOW, EXEC_WRITE_OK)
    ensures transport.View() == old(transport.View()).(mem := transport.mem[..], activeSeq := 0)
  {
    hide RingDoorbell, DecodeApproval;
    ghost var e0 := transport.View();
    var approval := AgentApproval(sequenceId);
    var ok := transport.WriteApproval(approval);
    transport.Ring();
    SecondPhase(transport.sha512, e0, approval);
    var finalVerdict := transport.ReadVerdict();
    DecodeEncodeVerdict(Plain(STATUS_OK, DECISION_ALLOW, sequenceId));
    var final := DecodeVerdict(finalVerdict);
    var rawResult := transport.ReadResult();
    ResultText(EXEC_WRITE_OK, sequenceId);
    outcome := Relayed(final.status, final.decision, rawResult[16..16 + U16At(rawResult, 6)]);
  }

  /** `execute_agent_loop` on the emulated gate: for every argument, and whatever went before. */
  method ExecuteAgentLoop(transport: SovereignGateUIO, toolId: int, sequenceId: int, sessionId: int, payload: seq<byte>)
    returns (outcome: Outcome)
    requires transport.Valid()
    modifies transport, transport.mem
    ensures transport.Valid()
    ensures !Packable(toolId, sequenceId, sessionId, payload) ==>
              outcome == PackingRaised && transport.View() == old(transport.View())
    ensures Packable(toolId, sequenceId, sessionId, payload) ==>
              var before, after := old(transport.View()), transport.View();
              var p := ProposalOf(toolId, sequenceId, sessionId, payload);
              var status := Expected(before.lastSeq, p);
              if status != STATUS_OK then
                outcome == NoAction(status, DECISION_DENY) && after == before.(mem := after.mem)
              else if PolicyFor(p.toolId).value.decision == DECISION_ALLOW then
                outcome == Direct(EXEC_READ_OK) && after == before.(mem := after.mem, lastSeq := p.sequenceId)
              else
                outcome == Relayed(STATUS_OK, DECISION_ALLOW, EXEC_WRITE_OK) &&
                after.lastSeq == p.sequenceId && after.activeSeq == 0
  {
    hide PackProposal, CanonicalPadding, DecodeProposal;
    ProposalRoundTrip(toolId, sequenceId, sessionId, payload);
    var packed := PackProposal(toolId, sequenceId, sessionId, payload);
    if !packed.Frame? {
      return PackingRaised;
    }
    ghost var p := ProposalOf(toolId, sequenceId, sessionId, payload);
    var verdict := Propose(transport, packed.bytes, p);
    if PolicyFor(p.toolId).Some? {
      PolicyShape(p.toolId);
    }
    if verdict.decision == DECISION_ALLOW && verdict.status == STATUS_OK {
      var rawResult := transport.ReadResult();
      ResultText(EXEC_READ_OK, p.sequenceId);
      return Direct(rawResult[16..16 + U16At(rawResult, 6)]);
    }
    if verdict.decision == DECISION_QUORUM && verdict.status == PENDING_APPROVAL {
      outcome := Relay(transport, sequenceId);
      return;
    }
    return NoAction(verdict.status, verdict.decision);
  }
}
