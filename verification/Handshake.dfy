/** The agent's handshake against the C gate, where signatures are checked. */
module Handshake {
  import opened Bits
  import opened Words
  import opened Bytes
  import opened SovereignProposal
  import opened GateSpec
  import opened ToolGateComponent
  import opened Simulation
  import opened SimulationRuns
  import opened SovrAgent
  import opened AgentLoop

  function PackedFrame(toolId: u16, sequenceId: u64, sessionId: u64, payload: seq<byte>): (f: ProposalFrame)
    requires |payload| <= 992
    ensures DecodeProposal(f) == ProposalOf(toolId, sequenceId, sessionId, payload)
  {
    ProposalRoundTrip(toolId, sequenceId, sessionId, payload);
    PackProposal(toolId, sequenceId, sessionId, payload).bytes
  }

  function PackedTriad(sequenceId: u64, ws: seq<ProperWitness>): (f: ApprovalFrame)
    requires |ws| == 3
    ensures var a := DecodeApproval(f);
            && a.magic == SOVQ_MAGIC && a.version == SOVP_VERSION && a.sequenceId == sequenceId
            && a.signerBitmap == 7 && a.quorumCount == 3
            && forall i :: 0 <= i < 3 ==> a.witnesses[i] == ws[i]
  {
    ApprovalRoundTrip(sequenceId, 7, ws);
    PackApproval(sequenceId, 7, PackedWitnesses(ws)).bytes
  }

  /** The gate's ruling on a packed proposal is the one that sequence number and policy give. */
  lemma RulingOnPacked(c: Crypto, g: GateState, p: Proposal, nonce: Nonce)
    requires p.magic == SOVP_MAGIC && p.version == SOVP_VERSION && p.argLen <= 992 && CanonicalPadding(p)
    ensures var (g', v) := ProposalStep(c, g, p, nonce);
            var challenge := ChallengeFor(c, p, nonce);
            && v == ExpectedVerdict(g.lastSeenSequenceId, p, nonce, challenge)
            && (v.decision == DECISION_DENY ==> g' == g)
            && (v.decision == DECISION_ALLOW ==> g' == g.(lastSeenSequenceId := p.sequenceId))
            && (v.decision == DECISION_QUORUM ==>
                  g' == GateState(p.sequenceId, true, p.sequenceId, QUORUM_MASK_TRIAD_DEFAULT, challenge))
  {
    if PolicyFor(p.toolId).Some? {
      PolicyShape(p.toolId);
    }
  }

  /** First phase, for every tool, id and payload and from every state of the system: the
      verdict is the policy's, an allowed call is executed at once with just these arguments,
      and a quorum verdict leaves the challenge of this frame pending. */
  lemma GateFirstPhase(c: Crypto, s: System, toolId: u16, sequenceId: u64, sessionId: u64, payload: seq<byte>,
                       nonce: Nonce, reply: ExecReply)
    requires |payload| <= 992
    ensures var frame, p := PackedFrame(toolId, sequenceId, sessionId, payload),
                            ProposalOf(toolId, sequenceId, sessionId, payload);
            var s' := GateMove(c, s, Exchange(SubmitProposal(frame), nonce, reply));
            var challenge := c.sha512(PreImage(frame, nonce));
            var v := ExpectedVerdict(s.gate.lastSeenSequenceId, p, nonce, challenge);
            && VerdictRegion(s'.page) == EncodeVerdict(v)
            && s'.calls == (if v.decision == DECISION_ALLOW then s.calls + [CallOf(p)] else s.calls)
            && ProposalRegion(s'.page) == frame
            && (v.decision == DECISION_DENY ==> s'.gate == s.gate)
            && (v.decision == DECISION_QUORUM ==>
                  s'.gate == GateState(sequenceId, true, sequenceId, QUORUM_MASK_TRIAD_DEFAULT, challenge))
  {
    hide ProposalStep, ApprovalStep, CanonicalPadding, DecodeProposal, ExpectedVerdict, ProposalRegion;
    ProposalRoundTrip(toolId, sequenceId, sessionId, payload);
    var frame, p := PackedFrame(toolId, sequenceId, sessionId, payload),
                    ProposalOf(toolId, sequenceId, sessionId, payload);
    var s1 := s.(page := Staged(s.page, SubmitProposal(frame)));
    StagedFrames(s.page, SubmitProposal(frame));
    EncodeDecodeProposal(frame);
    RulingOnPacked(c, s.gate, p, nonce);
    ExpectedDecisions(s.gate.lastSeenSequenceId, p, nonce, ChallengeFor(c, p, nonce));
    GateProposalRing(c, s1, nonce, reply);
    RegionFromPrefix(Doorbell(c, s1, nonce, reply).page, s1.page);
  }

  lemma ExpectedDecisions(lastSeq: u64, p: Proposal, nonce: Nonce, challenge: Digest)
    ensures var v := ExpectedVerdict(lastSeq, p, nonce, challenge);
            v.decision == DECISION_ALLOW ==> v.status == STATUS_OK
  {
  }

  lemma RegionFromPrefix(page: Page, page': Page)
    requires InputsKept(page, page')
    ensures ProposalRegion(page) == ProposalRegion(page')
  {
  }

  predicate TriadVerifies(c: Crypto, ws: seq<ProperWitness>, challenge: Digest)
    requires |ws| == 3
  {
    forall i :: 0 <= i < 3 ==> c.verify(ws[i].publicKey, ws[i].signature, challenge)
  }

  lemma ApprovalCalls(c: Crypto, s: System, nonce: Nonce, reply: ExecReply)
    requires ApprovalMagic(s.page) == SOVQ_MAGIC
    ensures Doorbell(c, s, nonce, reply).calls ==
            if ApprovalStep(c, s.gate, DecodeApproval(ApprovalRegion(s.page))).1 == STATUS_OK
            then s.calls + [CallOf(DecodeProposal(ProposalRegion(s.page)))] else s.calls
  {
    hide ApprovalStep, DecodeApproval, DecodeProposal;
  }

  /** Second phase: with a challenge pending for the id, the agent's approval with mask 7 and
      three witnesses is granted exactly when the three signatures verify against the challenge;
      then the proposal on the page is executed once. If they do not, the challenge stays
      pending. */
  lemma GateSecondPhase(c: Crypto, s: System, ws: seq<ProperWitness>, nonce: Nonce, reply: ExecReply)
    requires |ws| == 3 && s.gate.hasActiveChallenge && s.gate.activeRequiredMask == QUORUM_MASK_TRIAD_DEFAULT
    ensures var frame := PackedTriad(s.gate.activeChallengeSeq, ws);
            var s' := GateMove(c, s, Exchange(SubmitApproval(frame), nonce, reply));
            var verified := TriadVerifies(c, ws, s.gate.activeChallenge);
            if verified then
              && StatusOn(s'.page) == STATUS_OK && DecisionOn(s'.page) == DECISION_ALLOW
              && s'.gate == s.gate.(hasActiveChallenge := false)
              && s'.calls == s.calls + [CallOf(DecodeProposal(ProposalRegion(s.page)))]
            else
              && StatusOn(s'.page) == ERR_SIG_FAIL && DecisionOn(s'.page) == DECISION_DENY
              && s'.gate == s.gate && s'.calls == s.calls
  {
    hide ApprovalStep, DecodeApproval, DecodeProposal, ProposalRegion, ApprovalRegion, Staged, Doorbell;
    hide StatusOn, DecisionOn, InputsKept, TriadVerifies, PackedTriad;
    var frame := PackedTriad(s.gate.activeChallengeSeq, ws);
    var s1 := s.(page := Staged(s.page, SubmitApproval(frame)));
    StagedFrames(s.page, SubmitApproval(frame));
    ApprovalReadersAgree(s1.page);
    StagedApprovalKeepsProposal(s.page, frame);
    TriadIsQuorum(c, s.gate, DecodeApproval(frame), ws);
    GateApprovalRing(c, s1, nonce, reply);
    ApprovalCalls(c, s1, nonce, reply);
  }

  lemma StagedApprovalKeepsProposal(page: Page, frame: ApprovalFrame)
    ensures ProposalRegion(Staged(page, SubmitApproval(frame))) == ProposalRegion(page)
  {
    SpliceElsewhere(page, 0x400, frame, 0, 0x400);
  }

  lemma TriadIsQuorum(c: Crypto, g: GateState, a: Approval, ws: seq<ProperWitness>)
    requires |ws| == 3 && g.hasActiveChallenge && g.activeRequiredMask == QUORUM_MASK_TRIAD_DEFAULT
    requires a.magic == SOVQ_MAGIC && a.version == SOVP_VERSION && a.sequenceId == g.activeChallengeSeq
    requires a.signerBitmap == 7 && a.quorumCount == 3 && forall i :: 0 <= i < 3 ==> a.witnesses[i] == ws[i]
    ensures var verified := TriadVerifies(c, ws, g.activeChallenge);
            ApprovalStep(c, g, a) ==
            if verified then (g.(hasActiveChallenge := false), STATUS_OK) else (g, ERR_SIG_FAIL)
  {
    assert Popcount(7) == 3 && And(7, 7) == 7;
    assert LeadingWitnessesVerify(c, a, g.activeChallenge, 3) <==>
           TriadVerifies(c, ws, g.activeChallenge);
  }

  function ChallengeOn(page: Page): Digest {
    page[0x620..0x660]
  }

  /** What the agent reads out of a verdict frame on the page. */
  lemma VerdictFields(page: Page, v: Verdict)
    requires VerdictRegion(page) == EncodeVerdict(v)
    ensures StatusOn(page) == v.status && DecisionOn(page) == v.decision && ChallengeOn(page) == v.challenge
  {
    DecodeEncodeVerdict(v);
    assert DecodeVerdict(VerdictRegion(page)) == v;
    SliceOfSlice(page, 0x600, 0x660, 4, 6);
    SliceOfSlice(page, 0x600, 0x660, 32, 96);
  }

  lemma QuorumExpected(lastSeq: u64, p: Proposal, nonce: Nonce, challenge: Digest)
    requires p.sequenceId > lastSeq
    requires PolicyFor(p.toolId).Some? && PolicyFor(p.toolId).value.decision == DECISION_QUORUM
    requires PolicyFor(p.toolId).value.minArgLen <= p.argLen <= PolicyFor(p.toolId).value.maxArgLen
    ensures ExpectedVerdict(lastSeq, p, nonce, challenge) ==
            Verdict(SOVV_MAGIC, PENDING_APPROVAL, DECISION_QUORUM, QUORUM_MASK_TRIAD_DEFAULT, p.sequenceId, nonce,
              challenge)
  {
  }

  /** Both phases in a row, for every quorum tool, payload within its bounds and id above the
      last one seen: the call is executed, once and with these arguments, exactly when the three
      signatures verify against the challenge that the verdict carried. */
  lemma GateHandshake(c: Crypto, s: System, toolId: u16, sequenceId: u64, sessionId: u64, payload: seq<byte>,
                      ws: seq<ProperWitness>, nonce: Nonce, reply: ExecReply)
    requires |payload| <= 992 && |ws| == 3 && sequenceId > s.gate.lastSeenSequenceId
    requires PolicyFor(toolId).Some? && PolicyFor(toolId).value.decision == DECISION_QUORUM
    requires PolicyFor(toolId).value.minArgLen <= |payload| <= PolicyFor(toolId).value.maxArgLen
    ensures var frame, p := PackedFrame(toolId, sequenceId, sessionId, payload),
                            ProposalOf(toolId, sequenceId, sessionId, payload);
            var s1 := GateMove(c, s, Exchange(SubmitProposal(frame), nonce, reply));
            var s2 := GateMove(c, s1, Exchange(SubmitApproval(PackedTriad(sequenceId, ws)), nonce, reply));
            var challenge := ChallengeOn(s1.page);
            var verified := TriadVerifies(c, ws, challenge);
            && StatusOn(s1.page) == PENDING_APPROVAL && DecisionOn(s1.page) == DECISION_QUORUM
            && challenge == c.sha512(PreImage(frame, nonce))
            && s2.calls == (if verified then s.calls + [CallOf(p)] else s.calls)
            && StatusOn(s2.page) == (if verified then STATUS_OK else ERR_SIG_FAIL)
            && DecisionOn(s2.page) == (if verified then DECISION_ALLOW else DECISION_DENY)
  {
    hide GateMove, ProposalStep, ApprovalStep, CanonicalPadding, DecodeProposal, PreImage, PolicyFor;
    hide ExpectedVerdict, VerdictRegion, EncodeVerdict, StatusOn, DecisionOn, ChallengeOn, ProposalRegion,
        PackedFrame, PackedTriad;
    var frame, p := PackedFrame(toolId, sequenceId, sessionId, payload),
                    ProposalOf(toolId, sequenceId, sessionId, payload);
    var s1 := GateMove(c, s, Exchange(SubmitProposal(frame), nonce, reply));
    GateFirstPhase(c, s, toolId, sequenceId, sessionId, payload, nonce, reply);
    var challenge := c.sha512(PreImage(frame, nonce));
    QuorumExpected(s.gate.lastSeenSequenceId, p, nonce, challenge);
    VerdictFields(s1.page, ExpectedVerdict(s.gate.lastSeenSequenceId, p, nonce, challenge));
    GateSecondPhase(c, s1, ws, nonce, reply);
  }

  /** What the discipline of the agent is for: if, with the challenge of one frame pending,
      another frame is written over it before the approval arrives, the approval given for the
      first executes the second. */
  lemma OverwrittenProposalIsExecuted(c: Crypto, s: System, other: ProposalFrame, ws: seq<ProperWitness>,
                                      nonce: Nonce, reply: ExecReply)
    requires |ws| == 3 && s.gate.hasActiveChallenge && s.gate.activeRequiredMask == QUORUM_MASK_TRIAD_DEFAULT
    requires TriadVerifies(c, ws, s.gate.activeChallenge)
    ensures var s1 := s.(page := Splice(s.page, SOVP_OFFSET_PROPOSAL, other));
            var frame := PackedTriad(s.gate.activeChallengeSeq, ws);
            var s2 := GateMove(c, s1, Exchange(SubmitApproval(frame), nonce, reply));
            && StatusOn(s2.page) == STATUS_OK && s2.calls == s.calls + [CallOf(DecodeProposal(other))]
  {
    hide GateMove, DecodeProposal, DecodeApproval;
    var s1 := s.(page := Splice(s.page, SOVP_OFFSET_PROPOSAL, other));
    SpliceWithin(s.page, 0, other, 0, 1024);
    assert other[0..1024] == other;
    GateSecondPhase(c, s1, ws, nonce, reply);
  }
}
