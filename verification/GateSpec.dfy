/** Specification of the admission gate: a monotone sequence number, one pending challenge, a
    quorum check. */
module GateSpec {
  import opened Bits
  import opened Words
  import opened Bytes
  import opened SovereignProposal

  /** SHA-512 and Ed25519 verification, left uninterpreted: `verify` takes a public key, a
      signature and a message. */
  datatype Crypto = Crypto(sha512: seq<byte> -> Digest, verify: (seq<byte>, seq<byte>, seq<byte>) -> bool)

  /** `gate_state_t` */
  datatype GateState = GateState(lastSeenSequenceId: u64, hasActiveChallenge: bool, activeChallengeSeq: u64,
                                 activeRequiredMask: byte, activeChallenge: Digest)

  const CLEARED: GateState := GateState(0, false, 0, 0, Zeros(64))

  predicate CanonicalPadding(p: Proposal) {
    forall i :: p.argLen <= i < SOVP_MAX_ARGS ==> p.args[i] == 0
  }

  function PreImage(frame: ProposalFrame, nonce: Nonce): (s: seq<byte>)
    ensures |s| == 15 + 1024 + 16
  {
    SOVP_DOMAIN_SEP + frame + nonce
  }

  function ChallengeFor(c: Crypto, p: Proposal, nonce: Nonce): Digest {
    c.sha512(PreImage(EncodeProposal(p), nonce))
  }

  function Plain(status: u16, decision: byte, sequenceId: u64): Verdict {
    Verdict(SOVV_MAGIC, status, decision, 0, sequenceId, Zeros(16), Zeros(64))
  }

  function ProposalStep(c: Crypto, g: GateState, p: Proposal, nonce: Nonce): (GateState, Verdict) {
    if p.magic != SOVP_MAGIC then (g, Plain(ERR_MAGIC, DECISION_DENY, p.sequenceId))
    else if p.version != SOVP_VERSION then (g, Plain(ERR_VERSION, DECISION_DENY, p.sequenceId))
    else if p.sequenceId <= g.lastSeenSequenceId then (g, Plain(ERR_SEQUENCE, DECISION_DENY, p.sequenceId))
    else if p.argLen > SOVP_MAX_ARGS then (g, Plain(ERR_ARGS_LEN, DECISION_DENY, p.sequenceId))
    else if !CanonicalPadding(p) then (g, Plain(ERR_CANONICAL, DECISION_DENY, p.sequenceId))
    else
      match PolicyFor(p.toolId)
      case None => (g, Plain(ERR_UNKNOWN_TOOL, DECISION_DENY, p.sequenceId))
      case Some(policy) =>
        if p.argLen < policy.minArgLen || p.argLen > policy.maxArgLen
        then (g, Plain(ERR_ARGS_LEN, DECISION_DENY, p.sequenceId))
        else if policy.decision == DECISION_ALLOW
        then (g.(lastSeenSequenceId := p.sequenceId), Plain(STATUS_OK, DECISION_ALLOW, p.sequenceId))
        else
          var challenge := ChallengeFor(c, p, nonce);
          (GateState(p.sequenceId, true, p.sequenceId, policy.requiredMask, challenge),
           Verdict(SOVV_MAGIC, PENDING_APPROVAL, DECISION_QUORUM, policy.requiredMask, p.sequenceId, nonce, challenge))
  }

  function Checked(quorumCount: byte): nat {
    if quorumCount < MAX_QUORUM_SIGNERS then quorumCount else MAX_QUORUM_SIGNERS
  }

  /** The first n witness entries carry signatures of the challenge. */
  predicate LeadingWitnessesVerify(c: Crypto, a: Approval, challenge: Digest, n: nat)
    requires n <= MAX_QUORUM_SIGNERS
  {
    forall i :: 0 <= i < n ==> c.verify(a.witnesses[i].publicKey, a.witnesses[i].signature, challenge)
  }

  function ApprovalStep(c: Crypto, g: GateState, a: Approval): (GateState, u16) {
    if a.magic != SOVQ_MAGIC then (g, ERR_MAGIC)
    else if a.version != SOVP_VERSION then (g, ERR_VERSION)
    else if !g.hasActiveChallenge then (g, ERR_STALE)
    else if a.sequenceId != g.activeChallengeSeq then (g, ERR_STALE)
    else if Popcount(a.signerBitmap) != a.quorumCount then (g, ERR_QUORUM_COUNT)
    else if And(a.signerBitmap, g.activeRequiredMask) != g.activeRequiredMask then (g, ERR_QUORUM_COUNT)
    else if !LeadingWitnessesVerify(c, a, g.activeChallenge, Checked(a.quorumCount)) then (g, ERR_SIG_FAIL)
    else (g.(hasActiveChallenge := false), STATUS_OK)
  }
}
