/** What reaches the executor, over every run of the component. */
module ExecutionRuns {
  import opened Words
  import opened Bytes
  import opened SovereignProposal
  import opened GateSpec
  import opened GateRuns
  import opened ToolGateComponent
  import opened SystemRuns

  /** The proposal rung at step j got an ALLOW verdict. */
  predicate AllowedRing(c: Crypto, start: Page, run: seq<SystemRuns.Step>, j: nat) {
    && j < |run| && run[j].Ring? && Events(c, start, run)[j].Propose?
    && ReplyAt(c, Events(c, start, run), j).verdict.decision == DECISION_ALLOW
  }

  /** An answer of the gate on which the doorbell goes on to the executor. */
  predicate Grants(answer: Reply) {
    match answer
    case Ruling(verdict) => verdict.decision == DECISION_ALLOW
    case Status(status) => status == STATUS_OK
  }

  predicate Granted(c: Crypto, start: Page, run: seq<SystemRuns.Step>, j: nat) {
    j < |run| && run[j].Ring? && Grants(ReplyAt(c, Events(c, start, run), j))
  }

  lemma GrantedCases(c: Crypto, start: Page, run: seq<SystemRuns.Step>, j: nat)
    ensures Granted(c, start, run, j) <==> AllowedRing(c, start, run, j) || ApprovedRing(c, start, run, j)
  {
    hide ProposalStep, ApprovalStep, StateAt, EventOf;
  }

  function Present(c: Crypto, start: Page, run: seq<SystemRuns.Step>, j: nat): Proposal
    requires j <= |run|
  {
    DecodeProposal(ProposalRegion(SystemAt(c, start, run, j).page))
  }

  /** What the doorbell hands to the executor, told by the ruling of the gate. */
  lemma DoorbellCalls(c: Crypto, s: System, nonce: Nonce, reply: ExecReply)
    ensures var p := DecodeProposal(ProposalRegion(s.page));
            var answer := GateRuns.Step(c, s.gate, EventOf(s.page, Ring(nonce, reply))).1;
            Doorbell(c, s, nonce, reply).calls == s.calls + (if Grants(answer) then [CallOf(p)] else [])
  {
    hide ApprovalStep, DecodeProposal, DecodeApproval, WithResult;
    AdmissionExactly(c, s.gate, DecodeProposal(ProposalRegion(s.page)), nonce);
  }

  /** A step hands over one call, the proposal then on the page, when its ring is granted, and
      none otherwise: not for a denial, a pending quorum, a failed approval or a write. */
  lemma CallsExactly(c: Crypto, start: Page, run: seq<SystemRuns.Step>, j: nat)
    requires j < |run|
    ensures SystemAt(c, start, run, j + 1).calls ==
            SystemAt(c, start, run, j).calls
              + (if Granted(c, start, run, j) then [CallOf(Present(c, start, run, j))] else [])
  {
    hide Doorbell, GateRuns.Step, Grants, CallOf, DecodeProposal, EventOf;
    var s := SystemAt(c, start, run, j);
    ComponentRefinesGate(c, start, run, j);
    if run[j].Ring? {
      DoorbellCalls(c, s, run[j].nonce, run[j].reply);
    }
  }

  function ResultRegion(page: Page): seq<byte> {
    page[0x800..0xC00]
  }

  lemma VerdictWriteKeepsResult(page: Page, off: nat, data: seq<byte>)
    requires off + |data| <= 0x800
    ensures ResultRegion(Splice(page, off, data)) == ResultRegion(page)
  {
    SpliceElsewhere(page, off, data, 0x800, 1024);
  }

  lemma ResultWritten(page: Page, reply: ExecReply, sequenceId: u64)
    ensures ResultRegion(WithResult(page, reply, sequenceId)) == ResultFrame(reply, sequenceId)
  {
    var f := ResultFrame(reply, sequenceId);
    SpliceWithin(page, 0x800, f, 0, 1024);
    assert f[0..1024] == f;
  }

  lemma DoorbellResult(c: Crypto, s: System, nonce: Nonce, reply: ExecReply)
    ensures var p := DecodeProposal(ProposalRegion(s.page));
            var answer := GateRuns.Step(c, s.gate, EventOf(s.page, Ring(nonce, reply))).1;
            ResultRegion(Doorbell(c, s, nonce, reply).page) ==
            if Grants(answer) then ResultFrame(reply, p.sequenceId) else ResultRegion(s.page)
  {
    hide ApprovalStep, ProposalStep, DecodeProposal, DecodeApproval, WithResult, ResultRegion, ResultFrame, Splice,
        EncodeVerdict;
    var p := DecodeProposal(ProposalRegion(s.page));
    ResultWritten(s.page, reply, p.sequenceId);
    if ApprovalMagic(s.page) == SOVQ_MAGIC {
      var status := ApprovalStep(c, s.gate, DecodeApproval(ApprovalRegion(s.page))).1;
      VerdictWriteKeepsResult(s.page, 0x600, LE(SOVV_MAGIC, 4) + LE(status, 2) + [DECISION_DENY]);
      VerdictWriteKeepsResult(WithResult(s.page, reply, p.sequenceId), 0x604, LE(STATUS_OK, 2) + [DECISION_ALLOW]);
    } else {
      AdmissionExactly(c, s.gate, p, nonce);
      var v := ProposalStep(c, s.gate, p, nonce).1;
      VerdictWriteKeepsResult(s.page, 0x600, EncodeVerdict(v));
      ResultWritten(Splice(s.page, 0x600, EncodeVerdict(v)), reply, p.sequenceId);
    }
  }

  /** The result region names the proposal handed over and holds what the executor answered;
      a ring that is not granted leaves the last result in place. */
  lemma ResultsExactly(c: Crypto, start: Page, run: seq<SystemRuns.Step>, j: nat)
    requires j < |run| && run[j].Ring?
    ensures ResultRegion(SystemAt(c, start, run, j + 1).page) ==
            if Granted(c, start, run, j) then ResultFrame(run[j].reply, Present(c, start, run, j).sequenceId)
            else ResultRegion(SystemAt(c, start, run, j).page)
  {
    hide Doorbell, GateRuns.Step, Grants, ResultRegion, ResultFrame, DecodeProposal, EventOf;
    ComponentRefinesGate(c, start, run, j);
    DoorbellResult(c, SystemAt(c, start, run, j), run[j].nonce, run[j].reply);
  }

  function GrantCount(c: Crypto, start: Page, run: seq<SystemRuns.Step>, n: nat): nat
    requires n <= |run|
  {
    if n == 0 then 0 else GrantCount(c, start, run, n - 1) + (if Granted(c, start, run, n - 1) then 1 else 0)
  }

  /** In every run there are as many calls as granted rings. */
  lemma {:induction false} OneCallPerGrant(c: Crypto, start: Page, run: seq<SystemRuns.Step>, n: nat)
    requires n <= |run|
    ensures |SystemAt(c, start, run, n).calls| == GrantCount(c, start, run, n)
  {
    hide Next, Granted;
    if n != 0 {
      OneCallPerGrant(c, start, run, n - 1);
      CallsExactly(c, start, run, n - 1);
    }
  }

  /** An ALLOW verdict is only given to a tool whose policy says so. */
  lemma AllowedToolIsOpen(c: Crypto, start: Page, run: seq<SystemRuns.Step>, j: nat)
    requires AllowedRing(c, start, run, j)
    ensures var p := Present(c, start, run, j);
            PolicyFor(p.toolId).Some? && PolicyFor(p.toolId).value.decision == DECISION_ALLOW && WellFormed(p)
  {
    hide ProposalStep, DecodeProposal, PolicyFor, WellFormed;
    ComponentRefinesGate(c, start, run, j);
    AdmissionExactly(c, SystemAt(c, start, run, j).gate, Present(c, start, run, j), run[j].nonce);
  }

  /** A tool that the policy does not open is executed only under an approval, with three
      verified witness entries or more for the challenge of an earlier ring, the last one to ask
      for a quorum. */
  lemma PrivilegedCallsNeedQuorum(c: Crypto, start: Page, run: seq<SystemRuns.Step>, j: nat) returns (i: nat)
    requires j < |run| && SystemAt(c, start, run, j + 1).calls != SystemAt(c, start, run, j).calls
    requires var policy := PolicyFor(Present(c, start, run, j).toolId);
             policy.Some? ==> policy.value.decision != DECISION_ALLOW
    ensures ApprovedRing(c, start, run, j) && i < j && run[i].Ring? && PendingSince(c, Events(c, start, run), j, i)
    ensures var s, app := SystemAt(c, start, run, j), DecodeApproval(ApprovalRegion(SystemAt(c, start, run, j).page));
            && s.gate.activeChallenge
               == c.sha512(PreImage(ProposalRegion(SystemAt(c, start, run, i).page), run[i].nonce))
            && LeadingWitnessesVerify(c, app, s.gate.activeChallenge, 3)
  {
    hide Next, GateRuns.Step, ProposalStep, PolicyFor, AllowedRing, ApprovedRing;
    CallsExactly(c, start, run, j);
    GrantedCases(c, start, run, j);
    if AllowedRing(c, start, run, j) {
      AllowedToolIsOpen(c, start, run, j);
    }
    i := ChallengeOrigin(c, start, run, j);
  }
}
