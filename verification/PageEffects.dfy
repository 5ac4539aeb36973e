/** What one ring leaves on the page, byte by byte: of the C handler, and of the emulator. */
module PageEffects {
  import opened Words
  import opened Bytes
  import opened SovereignProposal
  import opened GateSpec
  import opened GateRuns
  import opened ToolGateComponent
  import opened UioTransport
  import opened Simulation

  /** The two pages agree from byte `from` up to byte `to`. */
  predicate Same(p: seq<byte>, q: seq<byte>, from: nat, to: nat) {
    to <= |p| && to <= |q| && forall i :: from <= i < to ==> p[i] == q[i]
  }

  // ---------------------------------------------------------------------
  // The frames that are written

  /** Where each field of a verdict lies. */
  lemma VerdictLayout(v: Verdict)
    ensures var f := EncodeVerdict(v);
            && U32At(f, 0) == v.magic && U16At(f, 4) == v.status && f[6] == v.decision && f[7] == v.requiredMask
            && U64At(f, 8) == v.sequenceId && f[16..32] == v.nonce && f[32..96] == v.challenge
  {
    DecodeEncodeVerdict(v);
  }

  /** Where each field of a result of the C handler lies. */
  lemma ResultLayout(reply: ExecReply, sequenceId: u64)
    ensures var f := ResultFrame(reply, sequenceId);
            && U32At(f, 0) == 0x534F5658 && U16At(f, 4) == reply.status && U16At(f, 6) == reply.resultLen
            && U64At(f, 8) == sequenceId && f[16..1024] == reply.result
  {
    HeadedFrame(0x534F5658, reply.status, reply.resultLen, sequenceId, reply.result);
  }

  lemma HeadedFrame(magic: u32, a: u16, b: u16, sequenceId: u64, body: seq<byte>)
    ensures var f := Head16(magic, a, b, sequenceId) + body;
            && U32At(f, 0) == magic && U16At(f, 4) == a && U16At(f, 6) == b && U64At(f, 8) == sequenceId
            && f[16..] == body
  {
    var h := Head16(magic, a, b, sequenceId);
    var f := h + body;
    Head16Layout(magic, a, b, sequenceId);
    assert f[0..4] == h[0..4] && f[4..6] == h[4..6] && f[6..8] == h[6..8] && f[8..16] == h[8..16];
    ReadU32(f, 0, magic);
    ReadU16(f, 4, a);
    ReadU16(f, 6, b);
    ReadU64(f, 8, sequenceId);
  }

  /** Where each field of a result of the emulator lies: status OK, the length of the message, the
      id, and the message with zeros after it. */
  lemma EmulatorResultLayout(msg: seq<byte>, seqId: u64)
    requires |msg| <= 1008
    ensures var f := ResultBytes(msg, seqId);
            && U32At(f, 0) == 0x534F5658 && U16At(f, 4) == 0 && U16At(f, 6) == |msg| && U64At(f, 8) == seqId
            && f[16..16 + |msg|] == msg && forall i :: 16 + |msg| <= i < 1024 ==> f[i] == 0
  {
    var body := msg + Zeros(1008 - |msg|);
    assert ResultBytes(msg, seqId) == Head16(SOVX_MAGIC, STATUS_OK, |msg|, seqId) + body;
    HeadedFrame(SOVX_MAGIC, STATUS_OK, |msg|, seqId, body);
  }

  // ---------------------------------------------------------------------
  // The C handler

  /** A refused approval writes the magic, the status and the decision of the verdict, and not
      another byte of the page. */
  lemma RefusedApprovalPage(c: Crypto, s: System, nonce: Nonce, reply: ExecReply)
    requires ApprovalMagic(s.page) == SOVQ_MAGIC
    requires ApprovalStep(c, s.gate, DecodeApproval(ApprovalRegion(s.page))).1 != STATUS_OK
    ensures var page, page' := s.page, Doorbell(c, s, nonce, reply).page;
            && U32At(page', 0x600) == 0x534F5656
            && U16At(page', 0x604) == ApprovalStep(c, s.gate, DecodeApproval(ApprovalRegion(page))).1
            && page'[0x606] == 0
            && Same(page', page, 0, 0x600) && Same(page', page, 0x607, 4096)
  {
    hide ApprovalStep, DecodeApproval, DecodeProposal, U32At, U16At, LE;
    var status := ApprovalStep(c, s.gate, DecodeApproval(ApprovalRegion(s.page))).1;
    DenialWritten(s.page, status);
  }

  lemma DenialWritten(page: Page, status: u16)
    ensures var page' := Splice(page, 0x600, LE(SOVV_MAGIC, 4) + LE(status, 2) + [DECISION_DENY]);
            U32At(page', 0x600) == 0x534F5656 && U16At(page', 0x604) == status
  {
    var f := LE(SOVV_MAGIC, 4) + LE(status, 2) + [DECISION_DENY];
    SpliceWithin(page, 0x600, f, 0, 4);
    assert f[0..4] == LE(SOVV_MAGIC, 4);
    ReadU32(Splice(page, 0x600, f), 0x600, SOVV_MAGIC);
    DenialReadsBack(page, status);
  }

  /** A granted approval writes the status and the decision of the verdict and the whole result,
      and not another byte: the magic of the verdict and its later fields stay as they were. */
  lemma GrantedApprovalPage(c: Crypto, s: System, nonce: Nonce, reply: ExecReply)
    requires ApprovalMagic(s.page) == SOVQ_MAGIC
    requires ApprovalStep(c, s.gate, DecodeApproval(ApprovalRegion(s.page))).1 == STATUS_OK
    ensures var page, page' := s.page, Doorbell(c, s, nonce, reply).page;
            && U16At(page', 0x604) == 0 && page'[0x606] == 1
            && page'[0x800..0xC00] == ResultFrame(reply, U64At(page, 8))
            && Same(page', page, 0, 0x604) && Same(page', page, 0x607, 0x800) && Same(page', page, 0xC00, 4096)
  {
    hide ApprovalStep, DecodeApproval, DecodeProposal, U16At, U64At, LE, ResultFrame;
    ProposalReadersAgree(s.page);
    var sequenceId := DecodeProposal(ProposalRegion(s.page)).sequenceId;
    var written := WithResult(s.page, reply, sequenceId);
    var page' := Doorbell(c, s, nonce, reply).page;
    GrantReads(written);
    assert page'[0x800..0xC00] == ResultFrame(reply, sequenceId);
  }

  /** A proposal writes the whole verdict and, when allowed, the whole result, and not another
      byte. */
  lemma ProposalPage(c: Crypto, s: System, nonce: Nonce, reply: ExecReply)
    requires ApprovalMagic(s.page) != SOVQ_MAGIC
    ensures var page, page' := s.page, Doorbell(c, s, nonce, reply).page;
            var v := ProposalStep(c, s.gate, DecodeProposal(ProposalRegion(page)), nonce).1;
            && page'[0x600..0x660] == EncodeVerdict(v)
            && page'[0x800..0xC00] ==
               (if v.decision == DECISION_ALLOW then ResultFrame(reply, U64At(page, 8)) else page[0x800..0xC00])
            && Same(page', page, 0, 0x600) && Same(page', page, 0x660, 0x800) && Same(page', page, 0xC00, 4096)
  {
    hide ProposalStep, DecodeProposal, U64At, LE, ResultFrame, EncodeVerdict;
    ProposalReadersAgree(s.page);
    var p := DecodeProposal(ProposalRegion(s.page));
    var v := ProposalStep(c, s.gate, p, nonce).1;
    AdmissionExactly(c, s.gate, p, nonce);
    var judged := Splice(s.page, 0x600, EncodeVerdict(v));
    var page' := Doorbell(c, s, nonce, reply).page;
    assert v.decision == DECISION_ALLOW ==> page' == WithResult(judged, reply, p.sequenceId);
    assert v.decision != DECISION_ALLOW ==> page' == judged;
    assert page'[0x600..0x660] == EncodeVerdict(v);
    assert v.decision == DECISION_ALLOW ==> page'[0x800..0xC00] == ResultFrame(reply, p.sequenceId);
    assert v.decision != DECISION_ALLOW ==> page'[0x800..0xC00] == s.page[0x800..0xC00];
  }

  // ---------------------------------------------------------------------
  // The emulator

  /** An approval gets a whole verdict frame with no mask, nonce or challenge, its magic is wiped,
      and the write message is put out under its id just when it is granted; nothing else is
      written, and only the grant changes a field, to clear the pending id. */
  lemma EmulatorApprovalPage(e: Emulator)
    ensures var e', status, seqId := RingApproval(e), ApprovalStatus(e), U64At(e.mem, 0x408);
            var page, page' := e.mem, e'.mem;
            && page'[0x600..0x660] == EncodeVerdict(Plain(status, if status == 0 then 1 else 0, seqId))
            && page'[0x800..0xC00] == (if status == 0 then ResultBytes(EXEC_WRITE_OK, seqId) else page[0x800..0xC00])
            && (forall i :: 0x400 <= i < 0x404 ==> page'[i] == 0)
            && Same(page', page, 0, 0x400) && Same(page', page, 0x404, 0x600)
            && Same(page', page, 0x660, 0x800) && Same(page', page, 0xC00, 4096)
            && e' == e.(mem := page', activeSeq := if status == 0 then 0 else e.activeSeq)
  {
    hide ApprovalStatus, U64At, EncodeVerdict, ResultBytes;
    var e', status, seqId := RingApproval(e), ApprovalStatus(e), U64At(e.mem, 0x408);
    var v := Plain(status, if status == 0 then 1 else 0, seqId);
    var judged := Splice(e.mem, 0x600, EncodeVerdict(v));
    assert status == 0 ==>
        e'.mem == Splice(Splice(judged, 0x800, ResultBytes(EXEC_WRITE_OK, seqId)), 0x400, Zeros(4));
    assert status != 0 ==> e'.mem == Splice(judged, 0x400, Zeros(4));
    assert e'.mem[0x600..0x660] == EncodeVerdict(v);
    assert status == 0 ==> e'.mem[0x800..0xC00] == ResultBytes(EXEC_WRITE_OK, seqId);
    assert status != 0 ==> e'.mem[0x800..0xC00] == e.mem[0x800..0xC00];
  }

  /** A proposal gets a whole verdict frame, and the read message is put out under its id just when
      it is allowed: a quorum verdict and a denial leave the result region as it was. Nothing else
      is written. */
  lemma EmulatorProposalPage(sha512: seq<byte> -> Digest, e: Emulator)
    ensures var e', v, seqId := RingProposal(sha512, e), EmulatorRuling(sha512, e), U64At(e.mem, 8);
            var page, page' := e.mem, e'.mem;
            && page'[0x600..0x660] == EncodeVerdict(v)
            && page'[0x800..0xC00] ==
               (if v.decision == DECISION_ALLOW then ResultBytes(EXEC_READ_OK, seqId) else page[0x800..0xC00])
            && Same(page', page, 0, 0x600) && Same(page', page, 0x660, 0x800) && Same(page', page, 0xC00, 4096)
            && (v.decision == DECISION_DENY ==> e' == e.(mem := page'))
            && (v.decision == DECISION_ALLOW ==> e' == e.(mem := page', lastSeq := seqId))
            && (v.decision == DECISION_QUORUM ==> e' == Emulator(seqId, seqId, v.requiredMask, v.challenge, page'))
            && v.decision in {DECISION_DENY, DECISION_ALLOW, DECISION_QUORUM}
  {
    hide ProposalStatus, U64At, U32At, EncodeVerdict, ResultBytes, Challenge;
    var e', v, seqId := RingProposal(sha512, e), EmulatorRuling(sha512, e), U64At(e.mem, 8);
    var judged := Splice(e.mem, 0x600, EncodeVerdict(v));
    EmulatorDecisions(sha512, e);
    assert v.decision == DECISION_ALLOW ==> e'.mem == Splice(judged, 0x800, ResultBytes(EXEC_READ_OK, seqId));
    assert v.decision != DECISION_ALLOW ==> e'.mem == judged;
    assert e'.mem[0x600..0x660] == EncodeVerdict(v);
    assert v.decision == DECISION_ALLOW ==> e'.mem[0x800..0xC00] == ResultBytes(EXEC_READ_OK, seqId);
    assert v.decision != DECISION_ALLOW ==> e'.mem[0x800..0xC00] == e.mem[0x800..0xC00];
  }

  lemma EmulatorDecisions(sha512: seq<byte> -> Digest, e: Emulator)
    ensures ProposalStatus(e) == STATUS_OK ==>
              var policy := POLICY[U32At(e.mem, 4) / 0x1_0000];
              policy.0 == DECISION_ALLOW || policy.0 == DECISION_QUORUM
  {
  }

  /** The two messages. */
  lemma Messages()
    ensures Text(EXEC_WRITE_OK) == "EXEC_WRITE_OK\n" && Text(EXEC_READ_OK) == "EXEC_READ_OK\n"
  {
  }

  function Text(s: seq<byte>): string {
    seq(|s|, i requires 0 <= i < |s| => s[i] as char)
  }

  // ---------------------------------------------------------------------
  // The guest's writes

  /** `write_proposal`, byte by byte: a frame that fits takes the page from its beginning; the
      approval magic is cleared where the frame does not reach. */
  lemma ProposalWrittenBytes(page: Page, frame: seq<byte>, i: nat)
    requires i < 4096
    ensures ProposalWritten(page, frame)[i] ==
            if |frame| <= 4096 && i < |frame| then frame[i] else if 0x400 <= i < 0x404 then 0 else page[i]
  {
  }

  /** `write_approval`, byte by byte. */
  lemma ApprovalWrittenBytes(page: Page, frame: seq<byte>, i: nat)
    requires i < 4096
    ensures ApprovalWritten(page, frame)[i] ==
            if |frame| <= 3072 && 0x400 <= i < 0x400 + |frame| then frame[i - 0x400] else page[i]
  {
  }
}
