/** Every run of the component under a guest that writes anything, anywhere on the page, and
    rings whenever it likes. */
module SystemRuns {
  import opened Words
  import opened Bytes
  import opened SovereignProposal
  import opened GateSpec
  import opened GateRuns
  import opened ToolGateComponent

  datatype Step = Poke(off: nat, data: seq<byte>) | Ring(nonce: Nonce, reply: ExecReply)

  /** A write that does not fit the page cannot be made. */
  function Poked(page: Page, off: nat, data: seq<byte>): Page {
    if off + |data| <= PAGE_SIZE then Splice(page, off, data) else page
  }

  function Next(c: Crypto, s: System, step: Step): System {
    match step
    case Poke(off, data) => s.(page := Poked(s.page, off, data))
    case Ring(nonce, reply) => Doorbell(c, s, nonce, reply)
  }

  function SystemAt(c: Crypto, start: Page, run: seq<Step>, n: nat): System
    requires n <= |run|
  {
    if n == 0 then System(CLEARED, start, []) else Next(c, SystemAt(c, start, run, n - 1), run[n - 1])
  }

  // ---------------------------------------------------------------------
  // Refinement of the gate: the page-level run drives the gate through a run of events

  const NO_WITNESSES: Witnesses := [Witness([], []), Witness([], []), Witness([], []), Witness([], [])]

  /** A frame that the gate turns away at once; it stands for a step that does not reach it. */
  const NO_EVENT: Event := Approve(Approval(0, 0, 0, 0, 0, NO_WITNESSES))

  function EventOf(page: Page, step: Step): Event {
    match step
    case Poke(_, _) => NO_EVENT
    case Ring(nonce, _) =>
      if ApprovalMagic(page) == SOVQ_MAGIC then Approve(DecodeApproval(ApprovalRegion(page)))
      else Propose(DecodeProposal(ProposalRegion(page)), nonce)
  }

  function Events(c: Crypto, start: Page, run: seq<Step>): (events: seq<Event>)
    ensures |events| == |run|
  {
    seq(|run|, i requires 0 <= i < |run| => EventOf(SystemAt(c, start, run, i).page, run[i]))
  }

  lemma StepRefines(c: Crypto, s: System, step: Step)
    ensures Next(c, s, step).gate == GateRuns.Step(c, s.gate, EventOf(s.page, step)).0
  {
  }

  /** Step by step, the state of the gate inside the component is the state of the gate run on
      those events; so everything proved of gate runs holds for the component. */
  lemma {:induction false} ComponentRefinesGate(c: Crypto, start: Page, run: seq<Step>, n: nat)
    requires n <= |run|
    ensures SystemAt(c, start, run, n).gate == StateAt(c, Events(c, start, run), n)
  {
    hide Next, GateRuns.Step, EventOf;
    if n != 0 {
      ComponentRefinesGate(c, start, run, n - 1);
      StepRefines(c, SystemAt(c, start, run, n - 1), run[n - 1]);
    }
  }

  // ---------------------------------------------------------------------
  // What the gate writes, and where

  /** Two pages agree outside the verdict and result regions. */
  predicate SameInputs(p: Page, q: Page) {
    p[..0x600] == q[..0x600] && p[0x660..0x800] == q[0x660..0x800] && p[0xC00..] == q[0xC00..]
  }

  lemma OutputWrite(page: Page, off: nat, data: seq<byte>)
    requires (0x600 <= off && off + |data| <= 0x660) || (0x800 <= off && off + |data| <= 0xC00)
    ensures SameInputs(Splice(page, off, data), page)
  {
  }

  /** A ring changes the verdict and result regions only. */
  lemma DoorbellFrame(c: Crypto, s: System, nonce: Nonce, reply: ExecReply)
    ensures SameInputs(Doorbell(c, s, nonce, reply).page, s.page)
  {
    var p := DecodeProposal(ProposalRegion(s.page));
    if ApprovalMagic(s.page) == SOVQ_MAGIC {
      var status := ApprovalStep(c, s.gate, DecodeApproval(ApprovalRegion(s.page))).1;
      OutputWrite(s.page, SOVP_OFFSET_VERDICT, LE(SOVV_MAGIC, 4) + LE(status, 2) + [DECISION_DENY]);
      OutputWrite(s.page, SOVP_OFFSET_RESULT, ResultFrame(reply, p.sequenceId));
      OutputWrite(WithResult(s.page, reply, p.sequenceId), SOVP_OFFSET_VERDICT + 4,
        LE(STATUS_OK, 2) + [DECISION_ALLOW]);
    } else {
      var v := ProposalStep(c, s.gate, p, nonce).1;
      var page := Splice(s.page, SOVP_OFFSET_VERDICT, EncodeVerdict(v));
      OutputWrite(s.page, SOVP_OFFSET_VERDICT, EncodeVerdict(v));
      OutputWrite(page, SOVP_OFFSET_RESULT, ResultFrame(reply, p.sequenceId));
    }
  }

  predicate TouchesProposal(step: Step) {
    step.Poke? && step.off < SOVP_OFFSET_PROPOSAL + PROPOSAL_SIZE && |step.data| > 0
  }

  lemma StepKeepsProposal(c: Crypto, s: System, step: Step)
    requires !TouchesProposal(step)
    ensures ProposalRegion(Next(c, s, step).page) == ProposalRegion(s.page)
  {
    if step.Ring? {
      DoorbellFrame(c, s, step.nonce, step.reply);
      var page := Doorbell(c, s, step.nonce, step.reply).page;
      assert page[..0x600][..0x400] == s.page[..0x600][..0x400];
    }
  }

  lemma {:induction false} ProposalKept(c: Crypto, start: Page, run: seq<Step>, i: nat, j: nat)
    requires i <= j <= |run|
    requires forall k :: i <= k < j ==> !TouchesProposal(run[k])
    ensures ProposalRegion(SystemAt(c, start, run, i).page) == ProposalRegion(SystemAt(c, start, run, j).page)
  {
    hide Next;
    if i < j {
      ProposalKept(c, start, run, i, j - 1);
      StepKeepsProposal(c, SystemAt(c, start, run, j - 1), run[j - 1]);
    }
  }

  // ---------------------------------------------------------------------
  // What is executed

  /** The approval rung at step j succeeded. */
  predicate ApprovedRing(c: Crypto, start: Page, run: seq<Step>, j: nat) {
    j < |run| && run[j].Ring? && Approved(c, Events(c, start, run), j)
  }

  /** Result, then status and decision, as they can be read back from the page. */
  lemma GrantReadsBack(page: Page, reply: ExecReply, sequenceId: u64)
    ensures var granted := Splice(WithResult(page, reply, sequenceId), 0x604, LE(STATUS_OK, 2) + [DECISION_ALLOW]);
            && granted[0x800..0xC00] == ResultFrame(reply, sequenceId)
            && U16At(granted, 0x604) == STATUS_OK && granted[0x606] == DECISION_ALLOW
  {
    var f, tail := ResultFrame(reply, sequenceId), LE(STATUS_OK, 2) + [DECISION_ALLOW];
    var written := WithResult(page, reply, sequenceId);
    var granted := Splice(written, 0x604, tail);
    SpliceElsewhere(written, 0x604, tail, 0x800, 1024);
    SpliceWithin(page, 0x800, f, 0, 1024);
    assert f[0..1024] == f;
    SpliceWithin(written, 0x604, tail, 0, 2);
    assert tail[0..2] == LE(STATUS_OK, 2);
    ReadU16(granted, 0x604, STATUS_OK);
  }

  /** The result header names the proposal that was executed. */
  lemma ResultNamesProposal(page: Page, reply: ExecReply, sequenceId: u64)
    requires page[0x800..0xC00] == ResultFrame(reply, sequenceId)
    ensures U64At(page, 0x808) == sequenceId && U32At(page, 0x800) == SOVX_MAGIC
  {
    var r, h := page[0x800..0xC00], ResultHeader(reply, sequenceId);
    SliceOfSlice(page, 0x800, 0xC00, 8, 16);
    SliceOfSlice(page, 0x800, 0xC00, 0, 4);
    assert r == h + reply.result;
    assert r[8..16] == h[8..16] && r[0..4] == h[0..4];
    Head16Layout(SOVX_MAGIC, reply.status, reply.resultLen, sequenceId);
    ReadU64(page, 0x808, sequenceId);
    ReadU32(page, 0x800, SOVX_MAGIC);
  }

  /** Behind every successful approval of a run is the ring i at which the gate asked for the
      quorum: what three witness entries or more verify against is the hash of the proposal region as it was
      at that ring. */
  lemma ChallengeOrigin(c: Crypto, start: Page, run: seq<Step>, j: nat) returns (i: nat)
    requires ApprovedRing(c, start, run, j)
    ensures i < j && run[i].Ring? && PendingSince(c, Events(c, start, run), j, i)
    ensures var s, app := SystemAt(c, start, run, j), DecodeApproval(ApprovalRegion(SystemAt(c, start, run, j).page));
            var challenged := ProposalRegion(SystemAt(c, start, run, i).page);
            && s.gate.activeChallenge == c.sha512(PreImage(challenged, run[i].nonce))
            && s.gate.activeChallengeSeq == app.sequenceId == DecodeProposal(challenged).sequenceId
            && LeadingWitnessesVerify(c, app, s.gate.activeChallenge, 3)
  {
    hide Next, GateRuns.Step, ProposalStep;
    var events := Events(c, start, run);
    i := ApprovalHasThreeWitnesses(c, events, j);
    ApprovalIsRedemption(c, events, j, i);
    PendingIsStable(c, events, j, i);
    ComponentRefinesGate(c, start, run, j);
    EncodeDecodeProposal(ProposalRegion(SystemAt(c, start, run, i).page));
  }

  lemma ApprovalIsRedemption(c: Crypto, events: seq<Event>, j: nat, i: nat)
    requires Approved(c, events, j) && PendingSince(c, events, j, i)
    ensures Redeems(c, events[j].approval, events[i])
  {
    var origin := ApprovalOrigin(c, events, j);
    PendingIsUnique(c, events, j, i, origin);
  }

  /** What a successful approval carries out is the proposal region as it is at that moment. */
  lemma ExecutedIsPresent(c: Crypto, start: Page, run: seq<Step>, j: nat)
    requires ApprovedRing(c, start, run, j)
    ensures var s, s' := SystemAt(c, start, run, j), SystemAt(c, start, run, j + 1);
            var present := DecodeProposal(ProposalRegion(s.page));
            && s'.calls == s.calls + [CallOf(present)]
            && U64At(s'.page, 0x808) == present.sequenceId && U32At(s'.page, 0x800) == SOVX_MAGIC
            && U16At(s'.page, 0x604) == STATUS_OK && s'.page[0x606] == DECISION_ALLOW
  {
    hide ApprovalStep, ProposalStep;
    var s := SystemAt(c, start, run, j);
    var present := DecodeProposal(ProposalRegion(s.page));
    ComponentRefinesGate(c, start, run, j);
    ApprovedMeans(c, Events(c, start, run), j);
    GrantReadsBack(s.page, run[j].reply, present.sequenceId);
    ResultNamesProposal(SystemAt(c, start, run, j + 1).page, run[j].reply, present.sequenceId);
  }

  /** The bytes of two frames that the executor is handed: tool, argument length, arguments. */
  predicate SameCallBytes(f: ProposalFrame, f': ProposalFrame) {
    f[6..8] == f'[6..8] && f[24..26] == f'[24..26] && f[32..] == f'[32..]
  }

  lemma SameNumber(a: seq<byte>, b: seq<byte>)
    requires |a| == |b|
    ensures FromLE(a) == FromLE(b) <==> a == b
  {
    LEOfFromLE(a);
    LEOfFromLE(b);
  }

  lemma CallsByBytes(f: ProposalFrame, f': ProposalFrame)
    ensures CallOf(DecodeProposal(f)) == CallOf(DecodeProposal(f')) <==> SameCallBytes(f, f')
    ensures DecodeProposal(f).sequenceId == DecodeProposal(f').sequenceId <==> f[8..16] == f'[8..16]
  {
    SameNumber(f[6..8], f'[6..8]);
    SameNumber(f[24..26], f'[24..26]);
    SameNumber(f[8..16], f'[8..16]);
  }

  /** What an approved ring carries out, told by the bytes of the proposal region that the guest
      can compare before it rings: it executes the region as it then is, once; that is the call
      challenged exactly when the bytes of tool, argument length and arguments are still those
      hashed, and the result carries the approved id exactly when the bytes of the id are. */
  lemma ExecutedVersusChallenged(c: Crypto, start: Page, run: seq<Step>, j: nat) returns (i: nat)
    requires ApprovedRing(c, start, run, j)
    ensures i < j && run[i].Ring? && PendingSince(c, Events(c, start, run), j, i)
    ensures var s, s' := SystemAt(c, start, run, j), SystemAt(c, start, run, j + 1);
            var hashed, present := ProposalRegion(SystemAt(c, start, run, i).page), ProposalRegion(s.page);
            && s.gate.activeChallenge == c.sha512(PreImage(hashed, run[i].nonce))
            && s'.calls == s.calls + [CallOf(DecodeProposal(present))]
            && (s'.calls == s.calls + [CallOf(DecodeProposal(hashed))] <==> SameCallBytes(present, hashed))
            && (U64At(s'.page, 0x808) == s.gate.activeChallengeSeq <==> present[8..16] == hashed[8..16])
  {
    hide Next, GateRuns.Step, ProposalStep, ApprovalStep, DecodeProposal, DecodeApproval, SameCallBytes;
    i := ChallengeOrigin(c, start, run, j);
    ExecutedIsPresent(c, start, run, j);
    var hashed := ProposalRegion(SystemAt(c, start, run, i).page);
    var present := ProposalRegion(SystemAt(c, start, run, j).page);
    CallsByBytes(present, hashed);
    OneMore(SystemAt(c, start, run, j).calls, CallOf(DecodeProposal(present)), CallOf(DecodeProposal(hashed)));
  }

  lemma OneMore(calls: seq<ExecCall>, a: ExecCall, b: ExecCall)
    ensures calls + [a] == calls + [b] <==> a == b
  {
    assert (calls + [a])[|calls|] == a && (calls + [b])[|calls|] == b;
  }

  /** When nothing was written to the proposal region since the challenge, whatever else the
      guest did, the bytes executed are those challenged, one for one, and the result carries
      the approved sequence id. */
  lemma UntouchedIsExecuted(c: Crypto, start: Page, run: seq<Step>, j: nat, i: nat)
    requires ApprovedRing(c, start, run, j) && PendingSince(c, Events(c, start, run), j, i)
    requires forall k :: i < k < j ==> !TouchesProposal(run[k])
    ensures var s, s' := SystemAt(c, start, run, j), SystemAt(c, start, run, j + 1);
            var challenged := ProposalRegion(SystemAt(c, start, run, i).page);
            && run[i].Ring? && s.gate.activeChallenge == c.sha512(PreImage(challenged, run[i].nonce))
            && ProposalRegion(s.page) == challenged
            && s'.calls == s.calls + [CallOf(DecodeProposal(challenged))]
            && U64At(s'.page, 0x808) == s.gate.activeChallengeSeq
  {
    hide Next, GateRuns.Step, ProposalStep, ApprovalStep;
    var origin := ChallengeOrigin(c, start, run, j);
    PendingIsUnique(c, Events(c, start, run), j, i, origin);
    ExecutedIsPresent(c, start, run, j);
    ProposalKept(c, start, run, i, j);
  }
}
