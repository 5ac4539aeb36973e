/** Every run of the two gates side by side: the guest writes frames of any length, or none,
    and rings. */
module SimulationRuns {
  import opened Words
  import opened Bytes
  import opened SovereignProposal
  import opened GateSpec
  import opened ToolGateComponent
  import opened UioTransport
  import opened Simulation

  /** What comes before a ring: `write_proposal` or `write_approval`, or nothing at all. */
  datatype Move = SubmitProposal(frame: seq<byte>) | SubmitApproval(frame: seq<byte>) | RingAgain

  datatype Exchange = Exchange(move: Move, nonce: Nonce, reply: ExecReply)

  function Staged(page: Page, move: Move): Page {
    match move
    case SubmitProposal(frame) => ProposalWritten(page, frame)
    case SubmitApproval(frame) => ApprovalWritten(page, frame)
    case RingAgain => page
  }

  function StagedGate(s: System, x: Exchange): System {
    s.(page := Staged(s.page, x.move))
  }

  function StagedEmulator(e: Emulator, x: Exchange): Emulator {
    e.(mem := Staged(e.mem, x.move))
  }

  function GateMove(c: Crypto, s: System, x: Exchange): System {
    Doorbell(c, StagedGate(s, x), x.nonce, x.reply)
  }

  function EmulatorMove(sha512: seq<byte> -> Digest, e: Emulator, x: Exchange): Emulator {
    RingDoorbell(sha512, StagedEmulator(e, x))
  }

  function GateAt(c: Crypto, xs: seq<Exchange>, n: nat): System
    requires n <= |xs|
  {
    if n == 0 then System(CLEARED, Zeros(PAGE_SIZE), []) else GateMove(c, GateAt(c, xs, n - 1), xs[n - 1])
  }

  function EmulatorAt(sha512: seq<byte> -> Digest, xs: seq<Exchange>, n: nat): Emulator
    requires n <= |xs|
  {
    if n == 0 then Emulator(0, 0, 0, Zeros(64), Zeros(PAGE_SIZE))
    else EmulatorMove(sha512, EmulatorAt(sha512, xs, n - 1), xs[n - 1])
  }

  predicate Agree(s: System, e: Emulator) {
    StatusOn(s.page) == StatusOn(e.mem) && DecisionOn(s.page) == DecisionOn(e.mem)
  }

  // ---------------------------------------------------------------------
  // Frames of full length

  lemma StagedFrames(page: Page, move: Move)
    ensures move.SubmitApproval? && |move.frame| == 440 ==> ApprovalRegion(Staged(page, move)) == move.frame
    ensures move.SubmitProposal? && |move.frame| == 1024 ==>
              ApprovalMagic(Staged(page, move)) == 0 && ProposalRegion(Staged(page, move)) == move.frame
  {
    if move.SubmitApproval? && |move.frame| == 440 {
      SpliceWithin(page, 0x400, move.frame, 0, 440);
      assert move.frame[0..440] == move.frame;
    }
    if move.SubmitProposal? && |move.frame| == 1024 {
      var cleared := Splice(page, 0x400, Zeros(4));
      SpliceWithin(page, 0x400, Zeros(4), 0, 4);
      SpliceElsewhere(cleared, 0, move.frame, 0x400, 4);
      SpliceWithin(cleared, 0, move.frame, 0, 1024);
      assert move.frame[0..1024] == move.frame;
      assert Zeros(4)[0..4] == LE(0, 4);
      ReadU32(Staged(page, move), 0x400, 0);
    }
  }

  // ---------------------------------------------------------------------
  // A ring on a magic that only the C handler still finds

  lemma ApprovalStatuses(c: Crypto, g: GateState, a: Approval)
    requires a.magic == SOVQ_MAGIC
    ensures var status := ApprovalStep(c, g, a).1;
            && status in {ERR_VERSION, ERR_STALE, ERR_QUORUM_COUNT, ERR_SIG_FAIL, STATUS_OK}
            && (status == ERR_VERSION <==> a.version != SOVP_VERSION)
  {
  }

  lemma EmulatorStatuses(sha512: seq<byte> -> Digest, e: Emulator)
    ensures var p, v := DecodeProposal(ProposalRegion(e.mem)), EmulatorRuling(sha512, e);
            && v.status !in {ERR_STALE, ERR_QUORUM_COUNT, ERR_SIG_FAIL}
            && (v.status == ERR_VERSION <==> p.magic == SOVP_MAGIC && p.version != SOVP_VERSION)
            && (v.status == STATUS_OK <==> ProposalStatus(e) == STATUS_OK && OpenTool(p.toolId))
            && (v.decision == DECISION_ALLOW <==> v.status == STATUS_OK)
            && (v.status == ERR_VERSION ==> v.decision == DECISION_DENY)
  {
    hide DirtyPadding, DecodeProposal, CanonicalPadding;
    ProposalReadersAgree(e.mem);
    PoliciesAgree(DecodeProposal(ProposalRegion(e.mem)).toolId);
  }

  /** The C handler takes the frame at 0x400 for an approval and the emulator looks at the
      proposal. They answer alike in two cases only: both find a wrong version, or the approval
      is granted and the proposal allowed. */
  lemma LeftoverApprovalExactly(c: Crypto, s: System, e: Emulator, nonce: Nonce, reply: ExecReply)
    requires ApprovalMagic(s.page) == SOVQ_MAGIC && U32At(e.mem, 0x400) != SOVQ_MAGIC
    ensures var a, p := DecodeApproval(ApprovalRegion(s.page)), DecodeProposal(ProposalRegion(e.mem));
            StatusOn(Doorbell(c, s, nonce, reply).page) == StatusOn(RingDoorbell(c.sha512, e).mem) <==>
            || (a.version != SOVP_VERSION && p.magic == SOVP_MAGIC && p.version != SOVP_VERSION)
            || (ApprovalStep(c, s.gate, a).1 == STATUS_OK && ProposalStatus(e) == STATUS_OK && OpenTool(p.toolId))
    ensures StatusOn(Doorbell(c, s, nonce, reply).page) == StatusOn(RingDoorbell(c.sha512, e).mem) ==>
              DecisionOn(Doorbell(c, s, nonce, reply).page) == DecisionOn(RingDoorbell(c.sha512, e).mem)
  {
    hide Doorbell, RingProposal, EmulatorRuling, ApprovalStep, ProposalStatus, DecodeProposal, DecodeApproval, OpenTool;
    ApprovalReadersAgree(s.page);
    ApprovalStatuses(c, s.gate, DecodeApproval(ApprovalRegion(s.page)));
    EmulatorStatuses(c.sha512, e);
    GateApprovalRing(c, s, nonce, reply);
    EmulatorProposalRing(c.sha512, e);
  }

  // ---------------------------------------------------------------------
  // The relation that runs keep

  /** The approval on the page, whether or not its magic still stands, would not be granted, or
      the proposal would not be accepted. */
  predicate Spent(c: Crypto, g: GateState, page: Page, e: Emulator) {
    || ApprovalStep(c, g, DecodeApproval(ApprovalRegion(page)).(magic := SOVQ_MAGIC)).1 != STATUS_OK
    || ProposalStatus(e) != STATUS_OK
  }

  predicate Related(c: Crypto, s: System, e: Emulator) {
    && GateRelated(s.gate, e) && Matches(s.page, e.mem)
    && (!SameMagic(s.page, e.mem) ==> Spent(c, s.gate, s.page, e))
  }

  lemma StagedMatches(p: Page, q: Page, move: Move)
    requires Matches(p, q)
    ensures Matches(Staged(p, move), Staged(q, move))
  {
  }

  /** A frame of four bytes or more that fits the map makes the magics equal again. */
  lemma FreshFrame(p: Page, q: Page, move: Move)
    requires Matches(p, q)
    requires move.SubmitProposal? || (move.SubmitApproval? && 4 <= |move.frame| <= PAGE_SIZE - 0x400)
    ensures SameMagic(Staged(p, move), Staged(q, move))
  {
    var p', q' := Staged(p, move), Staged(q, move);
    assert forall i :: 0x400 <= i < 0x404 ==> p'[i] == q'[i];
  }

  lemma MagicsStayEqual(p: Page, q: Page, move: Move)
    requires SameMagic(p, q)
    ensures SameMagic(Staged(p, move), Staged(q, move))
  {
    var p', q' := Staged(p, move), Staged(q, move);
    assert forall i :: 0x400 <= i < 0x404 ==> p[i] == p[0x400..0x404][i - 0x400] == q[i];
    assert forall i :: 0x400 <= i < 0x404 ==> p'[i] == q'[i];
  }

  lemma ApprovalBeyondMagic(p: Page, p': Page)
    requires forall i :: 0x404 <= i < 0x600 ==> p[i] == p'[i]
    ensures DecodeApproval(ApprovalRegion(p)).(magic := SOVQ_MAGIC)
            == DecodeApproval(ApprovalRegion(p')).(magic := SOVQ_MAGIC)
  {
    var f, f' := ApprovalRegion(p), ApprovalRegion(p');
    assert forall i :: 4 <= i < 440 ==> f[i] == f'[i];
    assert f[4..6] == f'[4..6] && f[8..16] == f'[8..16];
    assert forall i: nat :: i < 4 ==> DecodeWitness(f, i) == DecodeWitness(f', i);
  }

  lemma StatusOfSameProposal(e: Emulator, e': Emulator)
    requires e.lastSeq == e'.lastSeq && ProposalRegion(e.mem) == ProposalRegion(e'.mem)
    ensures ProposalStatus(e) == ProposalStatus(e')
  {
    ProposalReadersAgree(e.mem);
    ProposalReadersAgree(e'.mem);
  }

  /** A write shorter than the magic changes neither the rest of the approval nor the proposal. */
  lemma ShortFrame(c: Crypto, s: System, e: Emulator, x: Exchange)
    requires Spent(c, s.gate, s.page, e)
    requires x.move.RingAgain? || (x.move.SubmitApproval? && (|x.move.frame| < 4 || |x.move.frame| > PAGE_SIZE - 0x400))
    ensures Spent(c, s.gate, StagedGate(s, x).page, StagedEmulator(e, x))
  {
    hide ApprovalStep, ProposalStatus, DecodeApproval;
    ApprovalBeyondMagic(s.page, StagedGate(s, x).page);
    assert ProposalRegion(e.mem) == ProposalRegion(StagedEmulator(e, x).mem);
    StatusOfSameProposal(e, StagedEmulator(e, x));
  }

  lemma StagingKeepsRelation(c: Crypto, s: System, e: Emulator, x: Exchange)
    requires Related(c, s, e)
    ensures Related(c, StagedGate(s, x), StagedEmulator(e, x))
  {
    hide Spent, SameMagic, Matches, Staged;
    StagedMatches(s.page, e.mem, x.move);
    if SameMagic(s.page, e.mem) {
      MagicsStayEqual(s.page, e.mem, x.move);
    } else if x.move.SubmitProposal? || (x.move.SubmitApproval? && 4 <= |x.move.frame| <= PAGE_SIZE - 0x400) {
      FreshFrame(s.page, e.mem, x.move);
    } else {
      ShortFrame(c, s, e, x);
    }
  }

  /** Once judged, a proposal is not accepted a second time. */
  lemma JudgedProposalIsSpent(sha512: seq<byte> -> Digest, e: Emulator)
    ensures ProposalStatus(RingProposal(sha512, e)) != STATUS_OK
  {
    hide EmulatorRuling, EncodeVerdict, ResultBytes;
    var e' := RingProposal(sha512, e);
    EmulatorProposalRing(sha512, e);
    assert ProposalRegion(e'.mem) == ProposalRegion(e.mem);
    ProposalReadersAgree(e.mem);
    ProposalReadersAgree(e'.mem);
    if ProposalStatus(e) != STATUS_OK {
      StatusOfSameProposal(e, e');
    }
  }

  /** Nor is an approval granted twice. */
  lemma JudgedApprovalIsSpent(c: Crypto, g: GateState, a: Approval)
    ensures var g' := ApprovalStep(c, g, a).0; ApprovalStep(c, g', a).1 != STATUS_OK
  {
  }

  // ---------------------------------------------------------------------
  // One exchange

  /** What can be read off the two pages and the state of the gate, before the ring, to know that
      the answers will be the same. */
  predicate FaithfulRing(c: Crypto, s: System, e: Emulator) {
    var a, p := DecodeApproval(ApprovalRegion(s.page)), DecodeProposal(ProposalRegion(s.page));
    if ApprovalMagic(s.page) != SOVQ_MAGIC then true
    else if U32At(e.mem, 0x400) == SOVQ_MAGIC then Faithful(c, s.gate, a)
    else a.version != SOVP_VERSION && p.magic == SOVP_MAGIC && p.version != SOVP_VERSION
  }

  /** Both find an approval. */
  lemma ApprovalCase(c: Crypto, s: System, e: Emulator, nonce: Nonce, reply: ExecReply)
    requires Related(c, s, e) && U32At(e.mem, 0x400) == SOVQ_MAGIC
    ensures var s', e' := Doorbell(c, s, nonce, reply), RingDoorbell(c.sha512, e);
            && (Agree(s', e') <==> FaithfulRing(c, s, e))
            && (FaithfulRing(c, s, e) ==> Related(c, s', e'))
            && (FaithfulRing(c, s, e) && SameChallenge(s.gate, e) ==> SameChallenge(s'.gate, e'))
            && ApprovalMagic(s'.page) == SOVQ_MAGIC && U32At(e'.mem, 0x400) == 0
  {
    hide Doorbell, RingApproval, ApprovalStep, ProposalStatus, DecodeApproval, DecodeProposal;
    MagicFollows(s.page, e.mem);
    ApprovalReadersAgree(s.page);
    ApprovalRingsAgreeExactly(c, s, e, nonce, reply);
    GateApprovalRing(c, s, nonce, reply);
    EmulatorApprovalRing(e);
    var s' := Doorbell(c, s, nonce, reply);
    assert ApprovalRegion(s'.page) == ApprovalRegion(s.page);
    ApprovalReadersAgree(s'.page);
    var a := DecodeApproval(ApprovalRegion(s.page));
    JudgedApprovalIsSpent(c, s.gate, a);
    assert a.(magic := SOVQ_MAGIC) == a;
  }

  /** Only the C handler finds one. */
  lemma LeftoverCase(c: Crypto, s: System, e: Emulator, nonce: Nonce, reply: ExecReply)
    requires Related(c, s, e) && ApprovalMagic(s.page) == SOVQ_MAGIC && U32At(e.mem, 0x400) != SOVQ_MAGIC
    ensures var s', e' := Doorbell(c, s, nonce, reply), RingDoorbell(c.sha512, e);
            && (Agree(s', e') <==> FaithfulRing(c, s, e))
            && (FaithfulRing(c, s, e) ==> Related(c, s', e'))
            && (FaithfulRing(c, s, e) && SameChallenge(s.gate, e) ==> SameChallenge(s'.gate, e'))
  {
    hide Doorbell, RingProposal, ProposalStatus, DecodeApproval, DecodeProposal, LeadingWitnessesVerify;
    assert !SameMagic(s.page, e.mem);
    ApprovalReadersAgree(s.page);
    RegionsMatch(s.page, e.mem);
    LeftoverApprovalExactly(c, s, e, nonce, reply);
    GateApprovalRing(c, s, nonce, reply);
    EmulatorProposalRing(c.sha512, e);
    JudgedProposalIsSpent(c.sha512, e);
    if FaithfulRing(c, s, e) {
      WrongVersionMovesNothing(c.sha512, e);
    }
  }

  lemma WrongVersionMovesNothing(sha512: seq<byte> -> Digest, e: Emulator)
    requires var p := DecodeProposal(ProposalRegion(e.mem)); p.magic == SOVP_MAGIC && p.version != SOVP_VERSION
    ensures RingProposal(sha512, e) == e.(mem := RingProposal(sha512, e).mem)
  {
    ProposalReadersAgree(e.mem);
  }

  /** Neither does. */
  lemma ProposalCase(c: Crypto, s: System, e: Emulator, nonce: Nonce, reply: ExecReply)
    requires Related(c, s, e) && ApprovalMagic(s.page) != SOVQ_MAGIC
    ensures var s', e' := Doorbell(c, s, nonce, reply), RingDoorbell(c.sha512, e);
            && Agree(s', e') && Related(c, s', e')
            && (nonce == FIXED_NONCE && SameChallenge(s.gate, e) ==> SameChallenge(s'.gate, e'))
  {
    hide Doorbell, RingProposal, ProposalStatus, DecodeApproval, DecodeProposal;
    if U32At(e.mem, 0x400) == SOVQ_MAGIC {
      MagicFollows(s.page, e.mem);
    }
    ProposalRingsAgree(c, s, e, nonce, reply);
    JudgedProposalIsSpent(c.sha512, e);
  }

  /** From related states, whatever is written or not: status and decision are the same exactly
      when the ring is faithful, and then the states stay related. */
  lemma ExchangesAgreeExactly(c: Crypto, s: System, e: Emulator, x: Exchange)
    requires Related(c, s, e)
    ensures var s', e' := GateMove(c, s, x), EmulatorMove(c.sha512, e, x);
            var faithful := FaithfulRing(c, StagedGate(s, x), StagedEmulator(e, x));
            && (Agree(s', e') <==> faithful)
            && (faithful ==> Related(c, s', e'))
            && (faithful && x.nonce == FIXED_NONCE && SameChallenge(s.gate, e) ==> SameChallenge(s'.gate, e'))
  {
    hide Doorbell, RingDoorbell, Related, Agree, Staged;
    var s1, e1 := StagedGate(s, x), StagedEmulator(e, x);
    StagingKeepsRelation(c, s, e, x);
    if U32At(e1.mem, 0x400) == SOVQ_MAGIC {
      MagicOfRelated(c, s1, e1);
      ApprovalCase(c, s1, e1, x.nonce, x.reply);
    } else if ApprovalMagic(s1.page) == SOVQ_MAGIC {
      LeftoverCase(c, s1, e1, x.nonce, x.reply);
    } else {
      ProposalCase(c, s1, e1, x.nonce, x.reply);
    }
  }

  lemma MagicOfRelated(c: Crypto, s: System, e: Emulator)
    requires Related(c, s, e) && U32At(e.mem, 0x400) == SOVQ_MAGIC
    ensures ApprovalMagic(s.page) == SOVQ_MAGIC
  {
    MagicFollows(s.page, e.mem);
  }

  /** When each ring follows a fresh frame, only approvals that both find are in question. */
  lemma FreshExchange(c: Crypto, s: System, e: Emulator, x: Exchange)
    requires Related(c, s, e)
    requires x.move.SubmitProposal? || (x.move.SubmitApproval? && 4 <= |x.move.frame| <= PAGE_SIZE - 0x400)
    ensures var s1 := StagedGate(s, x);
            FaithfulRing(c, s1, StagedEmulator(e, x)) <==>
            (ApprovalMagic(s1.page) == SOVQ_MAGIC ==> Faithful(c, s1.gate, DecodeApproval(ApprovalRegion(s1.page))))
  {
    hide Staged, Faithful, DecodeApproval;
    FreshFrame(s.page, e.mem, x.move);
    StagedMatches(s.page, e.mem, x.move);
    RegionsMatch(StagedGate(s, x).page, StagedEmulator(e, x).mem);
  }

  // ---------------------------------------------------------------------
  // Whole runs

  predicate FaithfulRun(c: Crypto, xs: seq<Exchange>, n: nat)
    requires n <= |xs|
  {
    forall k :: 0 <= k < n ==>
      FaithfulRing(c, StagedGate(GateAt(c, xs, k), xs[k]), StagedEmulator(EmulatorAt(c.sha512, xs, k), xs[k]))
  }

  lemma InitiallyRelated(c: Crypto)
    ensures Related(c, System(CLEARED, Zeros(PAGE_SIZE), []), Emulator(0, 0, 0, Zeros(64), Zeros(PAGE_SIZE)))
  {
  }

  /** Forward simulation: as long as every exchange is faithful the states stay related. */
  lemma {:induction false} EmulatorSimulatesGate(c: Crypto, xs: seq<Exchange>, n: nat)
    requires n <= |xs| && FaithfulRun(c, xs, n)
    ensures Related(c, GateAt(c, xs, n), EmulatorAt(c.sha512, xs, n))
    ensures (forall k :: 0 <= k < n ==> xs[k].nonce == FIXED_NONCE) ==>
              SameChallenge(GateAt(c, xs, n).gate, EmulatorAt(c.sha512, xs, n))
  {
    hide GateMove, EmulatorMove, FaithfulRing, Related, StagedGate, StagedEmulator;
    if n == 0 {
      InitiallyRelated(c);
    } else {
      EmulatorSimulatesGate(c, xs, n - 1);
      ExchangesAgreeExactly(c, GateAt(c, xs, n - 1), EmulatorAt(c.sha512, xs, n - 1), xs[n - 1]);
    }
  }

  /** In every run from the two initial states, the replies first differ at the first exchange
      that is not faithful: before it they are the same, status and decision, and at it they
      are not. */
  lemma RepliesAgreeExactly(c: Crypto, xs: seq<Exchange>, n: nat)
    requires n < |xs| && FaithfulRun(c, xs, n)
    ensures Agree(GateAt(c, xs, n + 1), EmulatorAt(c.sha512, xs, n + 1)) <==> FaithfulRun(c, xs, n + 1)
  {
    hide GateMove, EmulatorMove, FaithfulRing, Related, StagedGate, StagedEmulator, Agree;
    EmulatorSimulatesGate(c, xs, n);
    ExchangesAgreeExactly(c, GateAt(c, xs, n), EmulatorAt(c.sha512, xs, n), xs[n]);
  }

  /** After an approval that both have judged alike, the C page keeps its magic, the emulator's
      reads 0, and ringing again without a write always gives different answers. */
  lemma RingAgainDiffers(c: Crypto, s: System, e: Emulator, x: Exchange, nonce: Nonce, reply: ExecReply)
    requires Related(c, s, e) && U32At(StagedEmulator(e, x).mem, 0x400) == SOVQ_MAGIC
    requires FaithfulRing(c, StagedGate(s, x), StagedEmulator(e, x))
    ensures var s', e' := GateMove(c, s, x), EmulatorMove(c.sha512, e, x);
            var again := Exchange(RingAgain, nonce, reply);
            && Agree(s', e') && ApprovalMagic(s'.page) == SOVQ_MAGIC && U32At(e'.mem, 0x400) == 0
            && !Agree(GateMove(c, s', again), EmulatorMove(c.sha512, e', again))
  {
    hide Doorbell, RingDoorbell, Related, Agree, DecodeApproval, DecodeProposal;
    var s1, e1, again := StagedGate(s, x), StagedEmulator(e, x), Exchange(RingAgain, nonce, reply);
    StagingKeepsRelation(c, s, e, x);
    MagicOfRelated(c, s1, e1);
    ApprovalCase(c, s1, e1, x.nonce, x.reply);
    var s', e' := GateMove(c, s, x), EmulatorMove(c.sha512, e, x);
    GateApprovalRing(c, s1, x.nonce, x.reply);
    assert ApprovalRegion(s'.page) == ApprovalRegion(s1.page);
    assert StagedGate(s', again) == s' && StagedEmulator(e', again) == e';
    ExchangesAgreeExactly(c, s', e', again);
  }
}
