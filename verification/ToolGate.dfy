/** The gate as the C code runs it, on module-level state updated from call to call. */
module ToolGate {
  import opened Bits
  import opened Words
  import opened Bytes
  import opened SovereignProposal
  import opened GateSpec

  /** `count_bits`, on 8-bit registers. */
  method CountBits(val: byte) returns (c: byte)
    ensures c == Popcount(val)
  {
    var rest: int := val;
    c := 0;
    ghost var total := Popcount(val);
    assert Pow2(8) == 256;
    PopcountBound(val, 8);
    while rest != 0
      invariant 0 <= rest < 256 && c + Popcount(rest) == total <= 8
      decreases rest
    {
      AndLowMask(rest, 1);
      assert Pow2(1) == 2;
      c := (c as int + And(rest, 1)) % 256;
      rest := rest / 2;
    }
  }

  class Gate {
    const crypto: Crypto
    var lastSeenSequenceId: u64
    var hasActiveChallenge: bool
    var activeChallengeSeq: u64
    var activeRequiredMask: byte
    var activeChallenge: Digest

    function State(): GateState
      reads this
    {
      GateState(lastSeenSequenceId, hasActiveChallenge, activeChallengeSeq, activeRequiredMask, activeChallenge)
    }

    /** `toolgate_init` */
    constructor (crypto: Crypto)
      ensures this.crypto == crypto && State() == CLEARED
    {
      this.crypto := crypto;
      lastSeenSequenceId := 0;
      hasActiveChallenge := false;
      activeChallengeSeq := 0;
      activeRequiredMask := 0;
      activeChallenge := Zeros(64);
    }

    /** `lookup_policy` */
    static method LookupPolicy(toolId: u16) returns (policy: Option<ToolPolicy>)
      ensures policy == PolicyFor(toolId)
    {
      var i := 0;
      while i < |SOVP_POLICY|
        invariant 0 <= i <= |SOVP_POLICY|
        invariant forall k :: 0 <= k < i ==> SOVP_POLICY[k].toolId != toolId
      {
        if SOVP_POLICY[i].toolId == toolId {
          return Some(SOVP_POLICY[i]);
        }
        i := i + 1;
      }
      assert SOVP_POLICY[0].toolId != toolId && SOVP_POLICY[1].toolId != toolId;
      assert SOVP_POLICY[2].toolId != toolId && SOVP_POLICY[3].toolId != toolId;
      return None;
    }

    /** `toolgate_handle_proposal`; `nonce` is what the random source would deliver. */
    method HandleProposal(prop: Proposal, nonce: Nonce) returns (verdict: Verdict)
      modifies this
      ensures (State(), verdict) == ProposalStep(crypto, old(State()), prop, nonce)
    {
      verdict := Verdict(SOVV_MAGIC, 0, 0, 0, prop.sequenceId, Zeros(16), Zeros(64));

      if prop.magic != SOVP_MAGIC {
        return verdict.(status := ERR_MAGIC, decision := DECISION_DENY);
      }
      if prop.version != SOVP_VERSION {
        return verdict.(status := ERR_VERSION, decision := DECISION_DENY);
      }
      if prop.sequenceId <= lastSeenSequenceId {
        return verdict.(status := ERR_SEQUENCE, decision := DECISION_DENY);
      }
      if prop.argLen > SOVP_MAX_ARGS {
        return verdict.(status := ERR_ARGS_LEN, decision := DECISION_DENY);
      }
      var i: int := prop.argLen;
      while i < SOVP_MAX_ARGS
        invariant prop.argLen <= i <= SOVP_MAX_ARGS
        invariant forall k :: prop.argLen <= k < i ==> prop.args[k] == 0
      {
        if prop.args[i] != 0 {
          return verdict.(status := ERR_CANONICAL, decision := DECISION_DENY);
        }
        i := i + 1;
      }
      var found := LookupPolicy(prop.toolId);
      if found == None {
        return verdict.(status := ERR_UNKNOWN_TOOL, decision := DECISION_DENY);
      }
      var policy := found.value;
      if prop.argLen < policy.minArgLen || prop.argLen > policy.maxArgLen {
        return verdict.(status := ERR_ARGS_LEN, decision := DECISION_DENY);
      }

      lastSeenSequenceId := prop.sequenceId;

      if policy.decision == DECISION_ALLOW {
        return verdict.(status := STATUS_OK, decision := DECISION_ALLOW);
      }
      PolicyShape(prop.toolId);
      if policy.decision == DECISION_QUORUM {
        verdict := verdict.(status := PENDING_APPROVAL, decision := DECISION_QUORUM,
                            requiredMask := policy.requiredMask, nonce := nonce);
        var preImage := BuildPreImage(EncodeProposal(prop), nonce);
        verdict := verdict.(challenge := crypto.sha512(preImage[..]));
        hasActiveChallenge := true;
        activeChallengeSeq := prop.sequenceId;
        activeRequiredMask := policy.requiredMask;
        activeChallenge := verdict.challenge;
        return verdict;
      }
      assert false;
    }

    /** The three copies into `pre_image`: together they fill the buffer exactly. */
    static method BuildPreImage(frame: ProposalFrame, nonce: Nonce) returns (buffer: array<byte>)
      ensures fresh(buffer) && buffer[..] == PreImage(frame, nonce)
    {
      buffer := new byte[15 + PROPOSAL_SIZE + SOVP_NONCE_LEN];
      var off := 0;
      Write(buffer, off, SOVP_DOMAIN_SEP);
      off := off + |SOVP_DOMAIN_SEP|;
      Write(buffer, off, frame);
      off := off + PROPOSAL_SIZE;
      Write(buffer, off, nonce);
      off := off + SOVP_NONCE_LEN;
      assert off == buffer.Length;
    }

    /** `toolgate_verify_approval` */
    method VerifyApproval(app: Approval) returns (status: u16)
      modifies this
      ensures (State(), status) == ApprovalStep(crypto, old(State()), app)
    {
      if app.magic != SOVQ_MAGIC { return ERR_MAGIC; }
      if app.version != SOVP_VERSION { return ERR_VERSION; }
      if !hasActiveChallenge { return ERR_STALE; }
      if app.sequenceId != activeChallengeSeq { return ERR_STALE; }

      var bits := CountBits(app.signerBitmap);
      if bits != app.quorumCount {
        return ERR_QUORUM_COUNT;
      }
      if And(app.signerBitmap, activeRequiredMask) != activeRequiredMask {
        return ERR_QUORUM_COUNT;
      }
      var i := 0;
      while i < app.quorumCount && i < MAX_QUORUM_SIGNERS
        invariant 0 <= i <= Checked(app.quorumCount)
        invariant LeadingWitnessesVerify(crypto, app, activeChallenge, i)
      {
        var w := app.witnesses[i];
        if !crypto.verify(w.publicKey, w.signature, activeChallenge) {
          return ERR_SIG_FAIL;
        }
        i := i + 1;
      }
      hasActiveChallenge := false;
      return STATUS_OK;
    }
  }
}
