/** The two rulings of the gate, access by access: the frame lies in memory that the guest writes,
    and each access of the C code may find other bytes there. */
module RulingReads {
  import opened Bits
  import opened Words
  import opened Bytes
  import opened SovereignProposal
  import opened GateSpec
  import opened ToolGate
  import opened GateRuns

  // ---------------------------------------------------------------------
  // Approvals

  /** The count as the five tests of the loop may find it. */
  type CountReads = s: seq<byte> | |s| == 5 witness [0, 0, 0, 0, 0]

  /** What the accesses of `toolgate_verify_approval` find: magic, version and id, the bitmap for
      the bit count, the count compared with it, the bitmap for the mask, and in the loop the
      count at each test and each entry when its turn comes. */
  datatype ApprovalReads = ApprovalReads(magic: u32, version: u16, sequenceId: u64, counted: byte, claimed: byte,
                                         masked: byte, counts: CountReads, entries: Witnesses)

  /** Where the loop ends that has reached entry i, when no signature stops it. */
  function LoopEnd(counts: CountReads, i: nat): (n: nat)
    requires i <= MAX_QUORUM_SIGNERS
    ensures i <= n <= MAX_QUORUM_SIGNERS
    decreases MAX_QUORUM_SIGNERS - i
  {
    if i < counts[i] && i < MAX_QUORUM_SIGNERS then LoopEnd(counts, i + 1) else i
  }

  predicate EntriesVerify(c: Crypto, r: ApprovalReads, challenge: Digest, n: nat)
    requires n <= MAX_QUORUM_SIGNERS
  {
    forall i :: 0 <= i < n ==> c.verify(r.entries[i].publicKey, r.entries[i].signature, challenge)
  }

  function ApprovalRead(c: Crypto, g: GateState, r: ApprovalReads): (GateState, u16) {
    if r.magic != SOVQ_MAGIC then (g, ERR_MAGIC)
    else if r.version != SOVP_VERSION then (g, ERR_VERSION)
    else if !g.hasActiveChallenge then (g, ERR_STALE)
    else if r.sequenceId != g.activeChallengeSeq then (g, ERR_STALE)
    else if Popcount(r.counted) != r.claimed then (g, ERR_QUORUM_COUNT)
    else if And(r.masked, g.activeRequiredMask) != g.activeRequiredMask then (g, ERR_QUORUM_COUNT)
    else if !EntriesVerify(c, r, g.activeChallenge, LoopEnd(r.counts, 0)) then (g, ERR_SIG_FAIL)
    else (g.(hasActiveChallenge := false), STATUS_OK)
  }

  /** `toolgate_verify_approval`, access by access. */
  method VerifyApproval(gate: Gate, r: ApprovalReads) returns (status: u16)
    modifies gate
    ensures (gate.State(), status) == ApprovalRead(gate.crypto, old(gate.State()), r)
  {
    if r.magic != SOVQ_MAGIC { return ERR_MAGIC; }
    if r.version != SOVP_VERSION { return ERR_VERSION; }
    if !gate.hasActiveChallenge { return ERR_STALE; }
    if r.sequenceId != gate.activeChallengeSeq { return ERR_STALE; }

    var bits := CountBits(r.counted);
    if bits != r.claimed {
      return ERR_QUORUM_COUNT;
    }
    if And(r.masked, gate.activeRequiredMask) != gate.activeRequiredMask {
      return ERR_QUORUM_COUNT;
    }
    var i := 0;
    while i < r.counts[i] && i < MAX_QUORUM_SIGNERS
      invariant 0 <= i <= MAX_QUORUM_SIGNERS && LoopEnd(r.counts, i) == LoopEnd(r.counts, 0)
      invariant EntriesVerify(gate.crypto, r, gate.activeChallenge, i)
      decreases MAX_QUORUM_SIGNERS - i
    {
      var w := r.entries[i];
      if !gate.crypto.verify(w.publicKey, w.signature, gate.activeChallenge) {
        return ERR_SIG_FAIL;
      }
      i := i + 1;
    }
    gate.hasActiveChallenge := false;
    return STATUS_OK;
  }

  /** What the accesses find in a frame that does not change. */
  function ReadsOfApproval(a: Approval): ApprovalReads {
    var n := a.quorumCount;
    ApprovalReads(a.magic, a.version, a.sequenceId, a.signerBitmap, n, a.signerBitmap, [n, n, n, n, n], a.witnesses)
  }

  lemma SteadyLoop(n: byte)
    ensures LoopEnd([n, n, n, n, n], 0) == Checked(n)
  {
    var counts: CountReads := [n, n, n, n, n];
    assert LoopEnd(counts, 2) == if 2 < n then LoopEnd(counts, 3) else 2;
    assert LoopEnd(counts, 3) == if 3 < n then LoopEnd(counts, 4) else 3;
  }

  lemma ApprovalReadAtOnce(c: Crypto, g: GateState, a: Approval)
    ensures ApprovalRead(c, g, ReadsOfApproval(a)) == ApprovalStep(c, g, a)
  {
    hide LoopEnd, Checked, Popcount, And;
    SteadyLoop(a.quorumCount);
    var r := ReadsOfApproval(a);
    assert EntriesVerify(c, r, g.activeChallenge, Checked(a.quorumCount)) <==>
           LeadingWitnessesVerify(c, a, g.activeChallenge, Checked(a.quorumCount));
  }

  /** The reads pass every test in front of the loop. */
  predicate Eligible(g: GateState, r: ApprovalReads) {
    && r.magic == SOVQ_MAGIC && r.version == SOVP_VERSION
    && g.hasActiveChallenge && r.sequenceId == g.activeChallengeSeq
    && Popcount(r.counted) == r.claimed
    && And(r.masked, g.activeRequiredMask) == g.activeRequiredMask
  }

  lemma GrantedReads(c: Crypto, g: GateState, r: ApprovalReads)
    ensures ApprovalRead(c, g, r).1 == STATUS_OK <==>
            Eligible(g, r) && EntriesVerify(c, r, g.activeChallenge, LoopEnd(r.counts, 0))
  {
  }

  /** The status names the first read that fails its check. */
  lemma ApprovalReadsExactly(c: Crypto, g: GateState, r: ApprovalReads)
    ensures ApprovalRead(c, g, r).1 ==
            if r.magic != 0x534F5651 then 0xE001
            else if r.version != 1 then 0xE002
            else if !g.hasActiveChallenge || r.sequenceId != g.activeChallengeSeq then 0xE008
            else if Popcount(r.counted) != r.claimed then 0xE00A
            else if And(r.masked, g.activeRequiredMask) != g.activeRequiredMask then 0xE00A
            else if !EntriesVerify(c, r, g.activeChallenge, LoopEnd(r.counts, 0)) then 0xE00B
            else 0
  {
    hide Popcount, And, LoopEnd;
  }

  /** The tests of the loop let three entries pass. */
  predicate CountsHold(counts: CountReads) {
    counts[0] > 0 && counts[1] > 1 && counts[2] > 2
  }

  lemma ThreeTurnsExactly(counts: CountReads)
    ensures LoopEnd(counts, 0) >= 3 <==> CountsHold(counts)
  {
    assert LoopEnd(counts, 1) == if 1 < counts[1] then LoopEnd(counts, 2) else 1;
    assert LoopEnd(counts, 2) == if 2 < counts[2] then LoopEnd(counts, 3) else 2;
  }

  /** The whole loop: entry k is looked at exactly when every test up to it lets it pass, and at
      most four are. */
  lemma TurnsExactly(counts: CountReads, k: nat)
    requires k < 4
    ensures LoopEnd(counts, 0) > k <==> forall i: nat :: i <= k ==> i < counts[i]
  {
    assert LoopEnd(counts, 1) == if 1 < counts[1] then LoopEnd(counts, 2) else 1;
    assert LoopEnd(counts, 2) == if 2 < counts[2] then LoopEnd(counts, 3) else 2;
    assert LoopEnd(counts, 3) == if 3 < counts[3] then 4 else 3;
    assert 0 < counts[0] <==> LoopEnd(counts, 0) > 0;
  }

  /** A scheme under which just the given entries verify. */
  ghost function OnlyThese(entries: seq<Witness>): Crypto {
    Crypto(x => Zeros(64), (key, signature, message) => Witness(signature, key) in entries)
  }

  /** Whatever the signature scheme, a grant on these reads means that the first three entries
      verify. */
  ghost predicate GrantMeansThree(g: GateState, r: ApprovalReads) {
    forall c: Crypto :: ApprovalRead(c, g, r).1 == STATUS_OK ==> EntriesVerify(c, r, g.activeChallenge, 3)
  }

  /** For reads that reach the loop: whatever the signature scheme, a grant means that the first
      three entries verify, exactly when each of the three is among the entries that the count as
      re-read lets the loop look at. */
  lemma VerifiedEntriesExactly(g: GateState, r: ApprovalReads)
    requires Eligible(g, r)
    ensures GrantMeansThree(g, r) <==>
            (forall k :: 0 <= k < 3 ==> r.entries[k] in r.entries[..LoopEnd(r.counts, 0)])
  {
    hide ApprovalRead, Eligible, LoopEnd;
    var seen := r.entries[..LoopEnd(r.counts, 0)];
    if forall k :: 0 <= k < 3 ==> r.entries[k] in seen {
      forall c: Crypto | ApprovalRead(c, g, r).1 == STATUS_OK
        ensures EntriesVerify(c, r, g.activeChallenge, 3)
      {
        GrantedReads(c, g, r);
      }
    }
    if GrantMeansThree(g, r) {
      var c := OnlyThese(seen);
      GrantedReads(c, g, r);
      assert forall i :: 0 <= i < |seen| ==> seen[i] == r.entries[i];
      assert EntriesVerify(c, r, g.activeChallenge, |seen|);
      forall k | 0 <= k < 3
        ensures r.entries[k] in seen
      {
        assert c.verify(r.entries[k].publicKey, r.entries[k].signature, g.activeChallenge);
      }
    }
  }

  /** For three different entries that is: exactly when the first three tests of the loop find a
      count that lets them pass. */
  lemma DistinctEntriesExactly(g: GateState, r: ApprovalReads)
    requires Eligible(g, r)
    requires r.entries[0] != r.entries[1] && r.entries[1] != r.entries[2] && r.entries[0] != r.entries[2]
    ensures GrantMeansThree(g, r) <==>
            CountsHold(r.counts)
  {
    hide GrantMeansThree, Eligible, LoopEnd, CountsHold;
    VerifiedEntriesExactly(g, r);
    ThreeTurnsExactly(r.counts);
    var n := LoopEnd(r.counts, 0);
    if n >= 3 {
      assert forall k :: 0 <= k < 3 ==> r.entries[..n][k] == r.entries[k];
    } else {
      assert r.entries[2] !in r.entries[..n];
    }
  }

  lemma CountsHoldSuffice(c: Crypto, g: GateState, r: ApprovalReads)
    requires ApprovalRead(c, g, r).1 == STATUS_OK && CountsHold(r.counts)
    ensures EntriesVerify(c, r, g.activeChallenge, 3)
  {
    hide ApprovalRead, Eligible, LoopEnd, CountsHold;
    GrantedReads(c, g, r);
    ThreeTurnsExactly(r.counts);
  }

  /** The failing input: bitmap 7 and count 3 when they are compared, count 0 when the loop begins.
      Every scheme grants it, also one under which nothing verifies. */
  lemma CountReadAgainAsZero(c: Crypto, g: GateState, entries: Witnesses)
    requires g.hasActiveChallenge && g.activeRequiredMask == QUORUM_MASK_TRIAD_DEFAULT
    ensures var r := ApprovalReads(SOVQ_MAGIC, SOVP_VERSION, g.activeChallengeSeq, 7, 3, 7, [0, 0, 0, 0, 0], entries);
            ApprovalRead(c, g, r) == (g.(hasActiveChallenge := false), STATUS_OK)
  {
    assert Popcount(7) == 3 && And(7, 7) == 7;
  }

  // ---------------------------------------------------------------------
  // Proposals

  /** What the accesses of `toolgate_handle_proposal` find, in their order: the id for the verdict,
      magic, version, the id checked, the length bounded, the length where the padding begins, the
      argument bytes looked at there, the tool, the length compared with the least and with the
      most allowed, the id stored, the frame copied and hashed, and the id of the challenge. */
  datatype ProposalReads = ProposalReads(reported: u64, magic: u32, version: u16, checked: u64, bounded: u16,
                                         padded: u16, padding: Args, tool: u16, least: u16, most: u16,
                                         stored: u64, hashed: ProposalFrame, pending: u64)

  predicate CleanFrom(args: Args, n: u16) {
    forall i :: n <= i < SOVP_MAX_ARGS ==> args[i] == 0
  }

  function ProposalRead(c: Crypto, g: GateState, r: ProposalReads, nonce: Nonce): (GateState, Verdict) {
    if r.magic != SOVP_MAGIC then (g, Plain(ERR_MAGIC, DECISION_DENY, r.reported))
    else if r.version != SOVP_VERSION then (g, Plain(ERR_VERSION, DECISION_DENY, r.reported))
    else if r.checked <= g.lastSeenSequenceId then (g, Plain(ERR_SEQUENCE, DECISION_DENY, r.reported))
    else if r.bounded > SOVP_MAX_ARGS then (g, Plain(ERR_ARGS_LEN, DECISION_DENY, r.reported))
    else if !CleanFrom(r.padding, r.padded) then (g, Plain(ERR_CANONICAL, DECISION_DENY, r.reported))
    else
      match PolicyFor(r.tool)
      case None => (g, Plain(ERR_UNKNOWN_TOOL, DECISION_DENY, r.reported))
      case Some(policy) =>
        if r.least < policy.minArgLen || r.most > policy.maxArgLen
        then (g, Plain(ERR_ARGS_LEN, DECISION_DENY, r.reported))
        else if policy.decision == DECISION_ALLOW
        then (g.(lastSeenSequenceId := r.stored), Plain(STATUS_OK, DECISION_ALLOW, r.reported))
        else
          var challenge := c.sha512(PreImage(r.hashed, nonce));
          (GateState(r.stored, true, r.pending, policy.requiredMask, challenge),
           Verdict(SOVV_MAGIC, PENDING_APPROVAL, DECISION_QUORUM, policy.requiredMask, r.reported, nonce, challenge))
  }

  /** `toolgate_handle_proposal`, access by access. */
  method HandleProposal(gate: Gate, r: ProposalReads, nonce: Nonce) returns (verdict: Verdict)
    modifies gate
    ensures (gate.State(), verdict) == ProposalRead(gate.crypto, old(gate.State()), r, nonce)
  {
    verdict := Verdict(SOVV_MAGIC, 0, 0, 0, r.reported, Zeros(16), Zeros(64));

    if r.magic != SOVP_MAGIC {
      return verdict.(status := ERR_MAGIC, decision := DECISION_DENY);
    }
    if r.version != SOVP_VERSION {
      return verdict.(status := ERR_VERSION, decision := DECISION_DENY);
    }
    if r.checked <= gate.lastSeenSequenceId {
      return verdict.(status := ERR_SEQUENCE, decision := DECISION_DENY);
    }
    if r.bounded > SOVP_MAX_ARGS {
      return verdict.(status := ERR_ARGS_LEN, decision := DECISION_DENY);
    }
    var i: int := r.padded;
    while i < SOVP_MAX_ARGS
      invariant r.padded <= i
      invariant forall k :: r.padded <= k < i && k < SOVP_MAX_ARGS ==> r.padding[k] == 0
    {
      if r.padding[i] != 0 {
        return verdict.(status := ERR_CANONICAL, decision := DECISION_DENY);
      }
      i := i + 1;
    }
    var found := Gate.LookupPolicy(r.tool);
    if found == None {
      return verdict.(status := ERR_UNKNOWN_TOOL, decision := DECISION_DENY);
    }
    var policy := found.value;
    if r.least < policy.minArgLen || r.most > policy.maxArgLen {
      return verdict.(status := ERR_ARGS_LEN, decision := DECISION_DENY);
    }

    gate.lastSeenSequenceId := r.stored;

    if policy.decision == DECISION_ALLOW {
      return verdict.(status := STATUS_OK, decision := DECISION_ALLOW);
    }
    PolicyShape(r.tool);
    var preImage := Gate.BuildPreImage(r.hashed, nonce);
    verdict := verdict.(status := PENDING_APPROVAL, decision := DECISION_QUORUM, requiredMask := policy.requiredMask,
                        nonce := nonce, challenge := gate.crypto.sha512(preImage[..]));
    gate.hasActiveChallenge := true;
    gate.activeChallengeSeq := r.pending;
    gate.activeRequiredMask := policy.requiredMask;
    gate.activeChallenge := verdict.challenge;
  }

  /** What the accesses find in a frame that does not change. */
  function ReadsOfProposal(p: Proposal): ProposalReads {
    ProposalReads(p.sequenceId, p.magic, p.version, p.sequenceId, p.argLen, p.argLen, p.args, p.toolId,
                  p.argLen, p.argLen, p.sequenceId, EncodeProposal(p), p.sequenceId)
  }

  lemma ProposalReadAtOnce(c: Crypto, g: GateState, p: Proposal, nonce: Nonce)
    ensures ProposalRead(c, g, ReadsOfProposal(p), nonce) == ProposalStep(c, g, p, nonce)
  {
    hide PolicyFor, EncodeProposal;
  }

  /** What a ruling does to the state, told by its verdict. */
  lemma ReadEffect(c: Crypto, g: GateState, r: ProposalReads, nonce: Nonce)
    ensures var (g', v) := ProposalRead(c, g, r, nonce);
            && (v.decision == DECISION_DENY ==> g' == g)
            && (v.decision == DECISION_ALLOW ==> v.status == STATUS_OK && OpenTool(r.tool) &&
                                                 g' == g.(lastSeenSequenceId := r.stored))
            && (v.decision == DECISION_QUORUM ==>
                  g' == GateState(r.stored, true, r.pending, QUORUM_MASK_TRIAD_DEFAULT,
                                  c.sha512(PreImage(r.hashed, nonce))))
            && v.decision in {DECISION_DENY, DECISION_ALLOW, DECISION_QUORUM}
            && (v.decision != DECISION_DENY ==> r.checked > g.lastSeenSequenceId)
  {
    hide CleanFrom;
    if PolicyFor(r.tool).Some? {
      PolicyShape(r.tool);
    }
  }

  /** Which read each check looks at: a proposal is accepted exactly when the reads for the checks
      pass, one by one, and every verdict carries the id read first. */
  lemma AcceptedReadsExactly(c: Crypto, g: GateState, r: ProposalReads, nonce: Nonce)
    ensures var v := ProposalRead(c, g, r, nonce).1;
            && v.sequenceId == r.reported && v.magic == 0x534F5656
            && (v.decision != DECISION_DENY <==>
                && r.magic == SOVP_MAGIC && r.version == 1 && r.checked > g.lastSeenSequenceId
                && r.bounded <= 992 && (forall i :: r.padded <= i < 992 ==> r.padding[i] == 0)
                && PolicyFor(r.tool).Some?
                && PolicyFor(r.tool).value.minArgLen <= r.least && r.most <= PolicyFor(r.tool).value.maxArgLen)
            && (v.decision != DECISION_DENY ==> v.decision == PolicyFor(r.tool).value.decision)
  {
    hide PolicyFor;
    if PolicyFor(r.tool).Some? {
      PolicyShape(r.tool);
    }
  }

  /** A denial names the first read that fails its check. */
  lemma DeniedReadsExactly(c: Crypto, g: GateState, r: ProposalReads, nonce: Nonce)
    requires ProposalRead(c, g, r, nonce).1.decision == DECISION_DENY
    ensures ProposalRead(c, g, r, nonce).1.status ==
            if r.magic != SOVP_MAGIC then 0xE001
            else if r.version != 1 then 0xE002
            else if r.checked <= g.lastSeenSequenceId then 0xE005
            else if r.bounded > 992 then 0xE003
            else if exists i :: r.padded <= i < 992 && r.padding[i] != 0 then 0xE004
            else if PolicyFor(r.tool).None? then 0xE006
            else 0xE003
  {
    hide PolicyFor;
    if PolicyFor(r.tool).Some? {
      PolicyShape(r.tool);
    }
  }

  /** On acceptance the last id seen becomes the one read for storing: it grows exactly when that
      read exceeds it, whatever the read that was checked found. */
  lemma StoredIdExactly(c: Crypto, g: GateState, r: ProposalReads, nonce: Nonce)
    requires ProposalRead(c, g, r, nonce).1.decision != DECISION_DENY
    ensures var g' := ProposalRead(c, g, r, nonce).0;
            && (g'.lastSeenSequenceId > g.lastSeenSequenceId <==> r.stored > g.lastSeenSequenceId)
            && (g'.lastSeenSequenceId == r.checked <==> r.stored == r.checked)
  {
    hide ProposalRead;
    ReadEffect(c, g, r, nonce);
  }

  /** The failing input: a fresh id when it is checked, any other when it is stored. */
  lemma SecondReadSetsTheId(c: Crypto, g: GateState, stored: u64, nonce: Nonce)
    requires g.lastSeenSequenceId < MAX_ID
    ensures var r := ReadsOfProposal(SmallCall(g.lastSeenSequenceId + 1)).(stored := stored);
            var (g', v) := ProposalRead(c, g, r, nonce);
            v.decision == DECISION_ALLOW && g'.lastSeenSequenceId == stored
  {
    hide EncodeProposal;
  }

  /** With 10 seen last, the reads 11 and then 3 leave 3. */
  lemma IdSetBackToThree(c: Crypto, g: GateState, nonce: Nonce)
    requires g.lastSeenSequenceId == 10
    ensures var r := ReadsOfProposal(SmallCall(11)).(stored := 3);
            ProposalRead(c, g, r, nonce).1.decision == DECISION_ALLOW &&
            ProposalRead(c, g, r, nonce).0.lastSeenSequenceId == 3
  {
    SecondReadSetsTheId(c, g, 3, nonce);
  }

  /** A quorum ruling is the one that the hashed frame would get if it did not change, exactly when
      that frame is in order and the three reads of the id that leave a trace found its id. */
  lemma QuorumIsOfHashedExactly(c: Crypto, g: GateState, r: ProposalReads, nonce: Nonce)
    requires ProposalRead(c, g, r, nonce).1.decision == DECISION_QUORUM
    ensures var p := DecodeProposal(r.hashed);
            ProposalRead(c, g, r, nonce) == ProposalStep(c, g, p, nonce) <==>
            && WellFormed(p) && p.sequenceId > g.lastSeenSequenceId && !OpenTool(p.toolId)
            && r.reported == p.sequenceId && r.stored == p.sequenceId && r.pending == p.sequenceId
  {
    hide ProposalRead, ProposalStep, DecodeProposal, EncodeProposal, WellFormed, PreImage, PolicyFor, OpenTool;
    var p := DecodeProposal(r.hashed);
    AdmissionExactly(c, g, p, nonce);
    EncodeDecodeProposal(r.hashed);
    QuorumVerdict(c, g, r, nonce);
    WellFormedIsKnown(p);
  }

  lemma QuorumVerdict(c: Crypto, g: GateState, r: ProposalReads, nonce: Nonce)
    requires ProposalRead(c, g, r, nonce).1.decision == DECISION_QUORUM
    ensures var challenge := c.sha512(PreImage(r.hashed, nonce));
            ProposalRead(c, g, r, nonce) ==
            (GateState(r.stored, true, r.pending, QUORUM_MASK_TRIAD_DEFAULT, challenge),
             Verdict(SOVV_MAGIC, PENDING_APPROVAL, DECISION_QUORUM, QUORUM_MASK_TRIAD_DEFAULT, r.reported, nonce,
                     challenge))
  {
    hide CleanFrom, PreImage;
    PolicyShape(r.tool);
  }

  lemma WellFormedIsKnown(p: Proposal)
    ensures WellFormed(p) ==> PolicyFor(p.toolId).Some?
    ensures PolicyFor(p.toolId).Some? ==>
              (OpenTool(p.toolId) <==> PolicyFor(p.toolId).value.decision != DECISION_QUORUM)
  {
    WellFormedMeansPolicy(p);
    if PolicyFor(p.toolId).Some? {
      PolicyShape(p.toolId);
    }
  }

  /** The frame hashed need not be the one checked: any frame can be, while the checks see a call
      of WRITE_FILE. */
  lemma AnyFrameCanBeHashed(c: Crypto, g: GateState, f: ProposalFrame, nonce: Nonce)
    requires g.lastSeenSequenceId < MAX_ID
    ensures var call := SmallCall(g.lastSeenSequenceId + 1).(toolId := TOOL_WRITE_FILE, argLen := 2);
            var (g', v) := ProposalRead(c, g, ReadsOfProposal(call).(hashed := f), nonce);
            v.decision == DECISION_QUORUM && g'.activeChallenge == c.sha512(PreImage(f, nonce))
  {
    hide EncodeProposal, PreImage;
  }

  /** An ALLOW ruling is one that some unchanging frame would get exactly when the id reported and
      the id stored are the same and fresh. */
  lemma AllowedIsAtomicExactly(c: Crypto, g: GateState, r: ProposalReads, nonce: Nonce)
    requires ProposalRead(c, g, r, nonce).1.decision == DECISION_ALLOW
    ensures (exists p :: ProposalStep(c, g, p, nonce) == ProposalRead(c, g, r, nonce)) <==>
            r.reported == r.stored && r.stored > g.lastSeenSequenceId
  {
    hide ProposalRead, ProposalStep;
    ReadEffect(c, g, r, nonce);
    AllowedVerdict(c, g, r, nonce);
    if p :| ProposalStep(c, g, p, nonce) == ProposalRead(c, g, r, nonce) {
      AdmissionExactly(c, g, p, nonce);
    }
    if r.reported == r.stored && r.stored > g.lastSeenSequenceId {
      SmallCallStep(c, g, r.stored, nonce);
    }
  }

  lemma AllowedVerdict(c: Crypto, g: GateState, r: ProposalReads, nonce: Nonce)
    requires ProposalRead(c, g, r, nonce).1.decision == DECISION_ALLOW
    ensures ProposalRead(c, g, r, nonce).1 == Plain(STATUS_OK, DECISION_ALLOW, r.reported)
  {
  }

  lemma SmallCallStep(c: Crypto, g: GateState, sequenceId: u64, nonce: Nonce)
    requires sequenceId > g.lastSeenSequenceId
    ensures ProposalStep(c, g, SmallCall(sequenceId), nonce) ==
            (g.(lastSeenSequenceId := sequenceId), Plain(STATUS_OK, DECISION_ALLOW, sequenceId))
  {
  }

  /** A frame that gets the given denial under the given id, if a frame can. */
  function DeniedCall(status: u16, sequenceId: u64): Proposal {
    var p := SmallCall(sequenceId);
    if status == ERR_MAGIC then p.(magic := 0)
    else if status == ERR_VERSION then p.(version := 0)
    else if status == ERR_CANONICAL then p.(args := Zeros(992)[1 := 1])
    else if status == ERR_UNKNOWN_TOOL then p.(toolId := 0)
    else if status == ERR_ARGS_LEN then p.(argLen := 0)
    else p
  }

  /** Magic and version are judged before the id; it is stale under ERR_SEQUENCE and fresh under the
      codes that come later. */
  predicate FitsId(g: GateState, status: u16, sequenceId: u64) {
    || status == ERR_MAGIC || status == ERR_VERSION
    || (status == ERR_SEQUENCE <==> sequenceId <= g.lastSeenSequenceId)
  }

  /** A denial is one that some unchanging frame would get exactly when the id reported is fresh or
      not as its code says. */
  lemma DeniedIsAtomicExactly(c: Crypto, g: GateState, r: ProposalReads, nonce: Nonce)
    requires ProposalRead(c, g, r, nonce).1.decision == DECISION_DENY
    ensures var status := ProposalRead(c, g, r, nonce).1.status;
            (exists p :: ProposalStep(c, g, p, nonce) == ProposalRead(c, g, r, nonce)) <==>
            FitsId(g, status, r.reported)
  {
    hide ProposalRead, ProposalStep;
    var status := ProposalRead(c, g, r, nonce).1.status;
    DeniedVerdict(c, g, r, nonce);
    if p :| ProposalStep(c, g, p, nonce) == ProposalRead(c, g, r, nonce) {
      DenialAndId(c, g, p, nonce);
    }
    if FitsId(g, status, r.reported) {
      DeniedCallStep(c, g, status, r.reported, nonce);
    }
  }

  lemma DeniedVerdict(c: Crypto, g: GateState, r: ProposalReads, nonce: Nonce)
    requires ProposalRead(c, g, r, nonce).1.decision == DECISION_DENY
    ensures var (g', v) := ProposalRead(c, g, r, nonce);
            && g' == g && v == Plain(v.status, DECISION_DENY, r.reported)
            && v.status in {ERR_MAGIC, ERR_VERSION, ERR_SEQUENCE, ERR_ARGS_LEN, ERR_CANONICAL, ERR_UNKNOWN_TOOL}
  {
    hide CleanFrom;
    if PolicyFor(r.tool).Some? {
      PolicyShape(r.tool);
    }
  }

  lemma DenialAndId(c: Crypto, g: GateState, p: Proposal, nonce: Nonce)
    ensures var v := ProposalStep(c, g, p, nonce).1;
            && v.sequenceId == p.sequenceId
            && (v.status == ERR_SEQUENCE ==> p.sequenceId <= g.lastSeenSequenceId)
            && (v.status in {ERR_ARGS_LEN, ERR_CANONICAL, ERR_UNKNOWN_TOOL} ==> p.sequenceId > g.lastSeenSequenceId)
  {
    hide CanonicalPadding;
    if PolicyFor(p.toolId).Some? {
      PolicyShape(p.toolId);
    }
  }

  lemma DeniedCallStep(c: Crypto, g: GateState, status: u16, sequenceId: u64, nonce: Nonce)
    requires status in {ERR_MAGIC, ERR_VERSION, ERR_SEQUENCE, ERR_ARGS_LEN, ERR_CANONICAL, ERR_UNKNOWN_TOOL}
    requires FitsId(g, status, sequenceId)
    ensures ProposalStep(c, g, DeniedCall(status, sequenceId), nonce) == (g, Plain(status, DECISION_DENY, sequenceId))
  {
    var p := DeniedCall(status, sequenceId);
    if status == ERR_CANONICAL {
      assert p.args[1] == 1;
    }
  }
}
