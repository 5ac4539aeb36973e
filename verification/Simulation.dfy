/** The Python emulator and the C gate, side by side on their own pages: their readers, their
    tables and one ring of each. */
module Simulation {
  import opened Bits
  import opened Words
  import opened Bytes
  import opened SovereignProposal
  import opened GateSpec
  import opened ToolGateComponent
  import opened UioTransport

  // ---------------------------------------------------------------------
  // Both readers decode the same fields

  /** Python unpacks version and tool as one 32-bit word, and reads straight from the page; the
      C code reads a packed record. */
  lemma ProposalReadersAgree(page: Page)
    ensures var p := DecodeProposal(ProposalRegion(page));
            && U32At(page, 0) == p.magic
            && U32At(page, 4) % 0x1_0000 == p.version && U32At(page, 4) / 0x1_0000 == p.toolId
            && U64At(page, 8) == p.sequenceId && U64At(page, 16) == p.sessionId && U16At(page, 24) == p.argLen
            && page[32..1024] == p.args
            && (p.argLen <= 992 ==> (DirtyPadding(page, p.argLen) <==> !CanonicalPadding(p)))
  {
    var p := DecodeProposal(ProposalRegion(page));
    SliceOfSlice(page, 0, 1024, 0, 4);
    SliceOfSlice(page, 0, 1024, 4, 6);
    SliceOfSlice(page, 0, 1024, 6, 8);
    SliceOfSlice(page, 0, 1024, 8, 16);
    SliceOfSlice(page, 0, 1024, 16, 24);
    SliceOfSlice(page, 0, 1024, 24, 26);
    SliceOfSlice(page, 0, 1024, 32, 1024);
    Halves(page, 4);
    assert ProposalRegion(page)[32..] == page[32..1024];
    if p.argLen <= 992 {
      PaddingReadersAgree(page, p.argLen, p);
    }
  }

  lemma PaddingReadersAgree(page: Page, argLen: nat, p: Proposal)
    requires argLen == p.argLen && page[32..1024] == p.args
    ensures DirtyPadding(page, argLen) <==> !CanonicalPadding(p)
  {
    assert forall i :: 0 <= i < 992 ==> p.args[i] == page[32..1024][i] == page[32 + i];
    if i :| argLen <= i < 992 && p.args[i] != 0 {
      assert page[32 + i] != 0;
    }
    if i :| 32 + argLen <= i < 1024 && page[i] != 0 {
      assert p.args[i - 32] != 0;
    }
  }

  lemma ApprovalReadersAgree(page: Page)
    ensures var a := DecodeApproval(ApprovalRegion(page));
            && U32At(page, 0x400) == a.magic && U64At(page, 0x408) == a.sequenceId
            && page[0x410] == a.signerBitmap && page[0x411] == a.quorumCount
  {
    SliceOfSlice(page, 0x400, 0x400 + 440, 0, 4);
    SliceOfSlice(page, 0x400, 0x400 + 440, 8, 16);
  }

  lemma PoliciesAgree(toolId: u16)
    ensures toolId in POLICY <==> PolicyFor(toolId).Some?
    ensures toolId in POLICY ==>
              var p := PolicyFor(toolId).value;
              POLICY[toolId] == (p.decision, p.requiredMask, p.minArgLen as int, p.maxArgLen as int)
  {
  }

  // ---------------------------------------------------------------------
  // The relation

  predicate GateRelated(g: GateState, e: Emulator) {
    && e.lastSeq == g.lastSeenSequenceId
    && (e.activeSeq != 0 <==> g.hasActiveChallenge)
    && (g.hasActiveChallenge ==> e.activeSeq == g.activeChallengeSeq && e.activeMask == g.activeRequiredMask)
  }

  predicate SameChallenge(g: GateState, e: Emulator) {
    g.hasActiveChallenge ==> e.activeChallenge == g.activeChallenge
  }

  /** Page q of the emulator reads as page p of the gate up to the verdict region, but for bytes
      of the approval magic: the emulator wipes them after use and the C handler does not. */
  predicate Matches(p: Page, q: Page) {
    forall i :: 0 <= i < 0x600 ==> q[i] == p[i] || (0x400 <= i < 0x404 && q[i] == 0)
  }

  predicate SameMagic(p: Page, q: Page) {
    p[0x400..0x404] == q[0x400..0x404]
  }

  /** Page p' reads as page p up to the verdict region. */
  predicate InputsKept(p: Page, p': Page) {
    forall i :: 0 <= i < 0x600 ==> p'[i] == p[i]
  }

  function StatusOn(page: Page): u16 {
    U16At(page, 0x604)
  }

  function DecisionOn(page: Page): byte {
    page[0x606]
  }

  lemma VerdictReadsBack(page: Page, v: Verdict)
    ensures var judged := Splice(page, 0x600, EncodeVerdict(v));
            && StatusOn(judged) == v.status && DecisionOn(judged) == v.decision
            && VerdictRegion(judged) == EncodeVerdict(v)
  {
    var f := EncodeVerdict(v);
    SpliceWithin(page, 0x600, f, 4, 2);
    SpliceWithin(page, 0x600, f, 0, 96);
    assert f[0..96] == f;
    assert f[4..6] == LE(v.status, 2) && f[6] == v.decision;
    ReadU16(Splice(page, 0x600, f), 0x604, v.status);
  }

  lemma DenialReadsBack(page: Page, status: u16)
    ensures var judged := Splice(page, 0x600, LE(SOVV_MAGIC, 4) + LE(status, 2) + [DECISION_DENY]);
            StatusOn(judged) == status && DecisionOn(judged) == DECISION_DENY
  {
    var f := LE(SOVV_MAGIC, 4) + LE(status, 2) + [DECISION_DENY];
    SpliceWithin(page, 0x600, f, 4, 2);
    assert f[4..6] == LE(status, 2);
    ReadU16(Splice(page, 0x600, f), 0x604, status);
  }

  lemma GrantReads(page: Page)
    ensures var granted := Splice(page, 0x604, LE(STATUS_OK, 2) + [DECISION_ALLOW]);
            StatusOn(granted) == STATUS_OK && DecisionOn(granted) == DECISION_ALLOW
  {
    var f := LE(STATUS_OK, 2) + [DECISION_ALLOW];
    SpliceWithin(page, 0x604, f, 0, 2);
    assert f[0..2] == LE(STATUS_OK, 2);
    ReadU16(Splice(page, 0x604, f), 0x604, STATUS_OK);
  }

  /** Writes outside the verdict do not change what it says. */
  lemma VerdictUntouched(page: Page, off: nat, data: seq<byte>)
    requires off + |data| <= PAGE_SIZE && (off + |data| <= 0x600 || 0x660 <= off)
    ensures var page' := Splice(page, off, data);
            StatusOn(page') == StatusOn(page) && DecisionOn(page') == DecisionOn(page) &&
            VerdictRegion(page') == VerdictRegion(page)
  {
    SpliceElsewhere(page, off, data, 0x604, 2);
    SpliceElsewhere(page, off, data, 0x600, 96);
  }

  // ---------------------------------------------------------------------
  // One proposal ring

  /** The two implementations rule alike on the same proposal region. */
  lemma RulingsAgree(c: Crypto, g: GateState, e: Emulator, nonce: Nonce)
    requires GateRelated(g, e)
    ensures var p := DecodeProposal(ProposalRegion(e.mem));
            var (g', v) := ProposalStep(c, g, p, nonce);
            var status := UioTransport.ProposalStatus(e);
            if status != STATUS_OK then g' == g && v == Plain(status, DECISION_DENY, p.sequenceId)
            else
              var toolId := U32At(e.mem, 4) / 0x1_0000;
              && toolId in POLICY && p.sequenceId > g.lastSeenSequenceId
              && v.decision == POLICY[toolId].0 != DECISION_DENY && v.sequenceId == p.sequenceId
              && (v.decision == DECISION_ALLOW ==> v == Plain(STATUS_OK, DECISION_ALLOW, p.sequenceId) &&
                                                   g' == g.(lastSeenSequenceId := p.sequenceId))
              && (v.decision != DECISION_ALLOW ==>
                    var challenge := c.sha512(PreImage(ProposalRegion(e.mem), nonce));
                    v == Verdict(SOVV_MAGIC, PENDING_APPROVAL, DECISION_QUORUM, POLICY[toolId].1, p.sequenceId,
                      nonce, challenge) &&
                    g' == GateState(p.sequenceId, true, p.sequenceId, POLICY[toolId].1, challenge))
  {
    hide CanonicalPadding, DirtyPadding, EncodeProposal, DecodeProposal;
    ProposalReadersAgree(e.mem);
    var p := DecodeProposal(ProposalRegion(e.mem));
    PoliciesAgree(p.toolId);
    EncodeDecodeProposal(ProposalRegion(e.mem));
    if PolicyFor(p.toolId).Some? {
      PolicyShape(p.toolId);
    }
  }

  /** Both pre-images are the same bytes. */
  lemma PreImagesCoincide(mem: Page)
    ensures SOVP_DOMAIN_SEP + mem[0..1024] + FIXED_NONCE == PreImage(ProposalRegion(mem), FIXED_NONCE)
  {
  }

  lemma RegionsMatch(p: Page, q: Page)
    requires Matches(p, q)
    ensures ProposalRegion(p) == ProposalRegion(q)
    ensures SameMagic(p, q) ==> ApprovalRegion(p) == ApprovalRegion(q) && ApprovalMagic(p) == ApprovalMagic(q)
  {
    if SameMagic(p, q) {
      assert forall i :: 0x400 <= i < 0x404 ==> p[i] == p[0x400..0x404][i - 0x400] == q[i];
    }
  }

  lemma MatchesKept(p: Page, q: Page, p': Page, q': Page)
    requires Matches(p, q) && InputsKept(p, p') && InputsKept(q, q')
    ensures Matches(p', q')
  {
  }

  /** A magic that the emulator still finds is on the other page too. */
  lemma MagicFollows(p: Page, q: Page)
    requires Matches(p, q) && ApprovalMagic(q) == SOVQ_MAGIC
    ensures ApprovalMagic(p) == SOVQ_MAGIC && SameMagic(p, q)
  {
    var m := q[0x400..0x404];
    LEOfFromLE(m);
    assert LE(SOVQ_MAGIC, 4) == [0x51, 0x56, 0x4F, 0x53];
    assert forall i :: 0x400 <= i < 0x404 ==> q[i] == m[i - 0x400] != 0;
    assert p[0x400..0x404] == m;
  }

  lemma GateProposalRing(c: Crypto, s: System, nonce: Nonce, reply: ExecReply)
    requires ApprovalMagic(s.page) != SOVQ_MAGIC
    ensures var (g, v) := ProposalStep(c, s.gate, DecodeProposal(ProposalRegion(s.page)), nonce);
            var s' := Doorbell(c, s, nonce, reply);
            && s'.gate == g
            && StatusOn(s'.page) == v.status && DecisionOn(s'.page) == v.decision
            && VerdictRegion(s'.page) == EncodeVerdict(v)
            && InputsKept(s.page, s'.page)
  {
    hide ProposalStep;
    var p := DecodeProposal(ProposalRegion(s.page));
    var v := ProposalStep(c, s.gate, p, nonce).1;
    var page := Splice(s.page, 0x600, EncodeVerdict(v));
    VerdictReadsBack(s.page, v);
    VerdictUntouched(page, 0x800, ResultFrame(reply, p.sequenceId));
  }

  function EmulatorRuling(sha512: seq<byte> -> Digest, e: Emulator): Verdict {
    var seqId, status := U64At(e.mem, 8), UioTransport.ProposalStatus(e);
    if status != STATUS_OK then Plain(status, DECISION_DENY, seqId)
    else
      var toolId := U32At(e.mem, 4) / 0x1_0000;
      if POLICY[toolId].0 == DECISION_ALLOW then Plain(STATUS_OK, DECISION_ALLOW, seqId)
      else Verdict(SOVV_MAGIC, PENDING_APPROVAL, DECISION_QUORUM, POLICY[toolId].1, seqId, FIXED_NONCE,
        Challenge(sha512, e.mem))
  }

  lemma EmulatorProposalRing(sha512: seq<byte> -> Digest, e: Emulator)
    ensures var v, e' := EmulatorRuling(sha512, e), RingProposal(sha512, e);
            && StatusOn(e'.mem) == v.status && DecisionOn(e'.mem) == v.decision
            && VerdictRegion(e'.mem) == EncodeVerdict(v)
            && InputsKept(e.mem, e'.mem)
  {
    hide UioTransport.ProposalStatus;
    var v := EmulatorRuling(sha512, e);
    var judged := Splice(e.mem, 0x600, EncodeVerdict(v));
    VerdictReadsBack(e.mem, v);
    VerdictUntouched(judged, 0x800, ResultBytes(EXEC_READ_OK, v.sequenceId));
  }

  /** On a proposal the two always give the same status and decision; with the emulator's nonce
      the whole verdict frame and the pending challenge are the same too. */
  lemma ProposalRingsAgree(c: Crypto, s: System, e: Emulator, nonce: Nonce, reply: ExecReply)
    requires GateRelated(s.gate, e) && Matches(s.page, e.mem) && ApprovalMagic(s.page) != SOVQ_MAGIC
    ensures var s', e' := Doorbell(c, s, nonce, reply), RingProposal(c.sha512, e);
            && GateRelated(s'.gate, e') && Matches(s'.page, e'.mem)
            && StatusOn(s'.page) == StatusOn(e'.mem) && DecisionOn(s'.page) == DecisionOn(e'.mem)
            && (nonce == FIXED_NONCE ==> VerdictRegion(s'.page) == VerdictRegion(e'.mem))
            && (nonce == FIXED_NONCE && SameChallenge(s.gate, e) ==> SameChallenge(s'.gate, e'))
  {
    hide ProposalStep, UioTransport.ProposalStatus, Doorbell, Matches, InputsKept, StatusOn, DecisionOn, VerdictRegion;
    RegionsMatch(s.page, e.mem);
    ProposalReadersAgree(e.mem);
    RulingsAgree(c, s.gate, e, nonce);
    GateProposalRing(c, s, nonce, reply);
    EmulatorProposalRing(c.sha512, e);
    PreImagesCoincide(e.mem);
    MatchesKept(s.page, e.mem, Doorbell(c, s, nonce, reply).page, RingProposal(c.sha512, e).mem);
  }

  // ---------------------------------------------------------------------
  // One approval ring

  /** The approval fails a check that comes before the signatures. */
  predicate FailsEarly(g: GateState, a: Approval) {
    || !g.hasActiveChallenge || a.sequenceId != g.activeChallengeSeq
    || Popcount(a.signerBitmap) != a.quorumCount
    || And(a.signerBitmap, g.activeRequiredMask) != g.activeRequiredMask
  }

  /** What a caller can check to know that the emulator speaks for the gate. */
  predicate Faithful(c: Crypto, g: GateState, a: Approval) {
    && a.version == SOVP_VERSION
    && (FailsEarly(g, a) ||
        forall i :: 0 <= i < a.quorumCount && i < 4 ==>
          c.verify(a.witnesses[i].publicKey, a.witnesses[i].signature, g.activeChallenge))
  }

  lemma ApprovalStatusesAgreeExactly(c: Crypto, g: GateState, e: Emulator)
    requires GateRelated(g, e)
    requires DecodeApproval(ApprovalRegion(e.mem)).magic == SOVQ_MAGIC
    ensures var a := DecodeApproval(ApprovalRegion(e.mem));
            ApprovalStep(c, g, a).1 == ApprovalStatus(e) <==> Faithful(c, g, a)
  {
    var a := DecodeApproval(ApprovalRegion(e.mem));
    ApprovalReadersAgree(e.mem);
    BinCountIsPopcount(a.signerBitmap);
  }

  lemma ApprovalMoves(c: Crypto, g: GateState, a: Approval)
    ensures var (g', status) := ApprovalStep(c, g, a);
            g' == if status == STATUS_OK then g.(hasActiveChallenge := false) else g
  {
  }

  lemma GateApprovalRing(c: Crypto, s: System, nonce: Nonce, reply: ExecReply)
    requires ApprovalMagic(s.page) == SOVQ_MAGIC
    ensures var (g, status) := ApprovalStep(c, s.gate, DecodeApproval(ApprovalRegion(s.page)));
            var s' := Doorbell(c, s, nonce, reply);
            && s'.gate == g && StatusOn(s'.page) == status
            && DecisionOn(s'.page) == (if status == STATUS_OK then DECISION_ALLOW else DECISION_DENY)
            && InputsKept(s.page, s'.page)
  {
    hide ApprovalStep;
    var p := DecodeProposal(ProposalRegion(s.page));
    var status := ApprovalStep(c, s.gate, DecodeApproval(ApprovalRegion(s.page))).1;
    if status != STATUS_OK {
      DenialReadsBack(s.page, status);
    } else {
      var page := WithResult(s.page, reply, p.sequenceId);
      GrantReads(page);
    }
  }

  /** Wiping the magic leaves the verdict and the other inputs alone. */
  lemma Wiped(page: Page)
    ensures var page' := Splice(page, 0x400, Zeros(4));
            && U32At(page', 0x400) == 0 && StatusOn(page') == StatusOn(page) && DecisionOn(page') == DecisionOn(page)
            && forall i :: 0 <= i < 0x600 ==> page'[i] == if 0x400 <= i < 0x404 then 0 else page[i]
  {
    SpliceWithin(page, 0x400, Zeros(4), 0, 4);
    assert Zeros(4)[0..4] == LE(0, 4);
    ReadU32(Splice(page, 0x400, Zeros(4)), 0x400, 0);
    VerdictUntouched(page, 0x400, Zeros(4));
  }

  lemma EmulatorApprovalRing(e: Emulator)
    ensures var status, e' := ApprovalStatus(e), RingApproval(e);
            && StatusOn(e'.mem) == status
            && DecisionOn(e'.mem) == (if status == STATUS_OK then DECISION_ALLOW else DECISION_DENY)
            && U32At(e'.mem, 0x400) == 0
            && forall i :: 0 <= i < 0x600 ==> e'.mem[i] == if 0x400 <= i < 0x404 then 0 else e.mem[i]
  {
    hide ApprovalStatus, StatusOn, DecisionOn, VerdictRegion, EncodeVerdict, ResultBytes;
    var seqId, status := U64At(e.mem, 0x408), ApprovalStatus(e);
    var decision := if status == STATUS_OK then DECISION_ALLOW else DECISION_DENY;
    var v := Verdict(SOVV_MAGIC, status, decision, 0, seqId, Zeros(16), Zeros(64));
    var judged := Splice(e.mem, 0x600, EncodeVerdict(v));
    VerdictReadsBack(e.mem, v);
    if status == STATUS_OK {
      VerdictUntouched(judged, 0x800, ResultBytes(EXEC_WRITE_OK, seqId));
      Wiped(Splice(judged, 0x800, ResultBytes(EXEC_WRITE_OK, seqId)));
    } else {
      Wiped(judged);
    }
  }

  /** On an approval the two agree exactly when the frame has version 1 and either fails before
      the signatures or has signatures that verify; then they stay related. */
  lemma ApprovalRingsAgreeExactly(c: Crypto, s: System, e: Emulator, nonce: Nonce, reply: ExecReply)
    requires GateRelated(s.gate, e) && Matches(s.page, e.mem) && SameMagic(s.page, e.mem)
    requires ApprovalMagic(s.page) == SOVQ_MAGIC
    ensures var s', e' := Doorbell(c, s, nonce, reply), RingApproval(e);
            var a := DecodeApproval(ApprovalRegion(s.page));
            && (StatusOn(s'.page) == StatusOn(e'.mem) <==> Faithful(c, s.gate, a))
            && (StatusOn(s'.page) == StatusOn(e'.mem) ==> DecisionOn(s'.page) == DecisionOn(e'.mem))
            && Matches(s'.page, e'.mem)
            && (Faithful(c, s.gate, a) ==>
                  GateRelated(s'.gate, e') && (SameChallenge(s.gate, e) ==> SameChallenge(s'.gate, e')))
  {
    hide Doorbell, ApprovalStep, Faithful, DecodeApproval, ApprovalRegion, StatusOn, DecisionOn, ApprovalStatus;
    ApprovalMoves(c, s.gate, DecodeApproval(ApprovalRegion(s.page)));
    RegionsMatch(s.page, e.mem);
    ApprovalReadersAgree(e.mem);
    ApprovalReadersAgree(s.page);
    ApprovalStatusesAgreeExactly(c, s.gate, e);
    GateApprovalRing(c, s, nonce, reply);
    EmulatorApprovalRing(e);
  }
}
