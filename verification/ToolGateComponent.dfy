/** The doorbell handler over the shared page. */
module ToolGateComponent {
  import opened Words
  import opened Bytes
  import opened SovereignProposal
  import opened GateSpec
  import opened ToolGate

  type Result = s: seq<byte> | |s| == SOVP_MAX_RESULT witness Zeros(SOVP_MAX_RESULT)

  /** What the executor is handed, and what it answers. */
  datatype ExecCall = ExecCall(toolId: u16, argLen: u16, args: Args)

  datatype ExecReply = ExecReply(status: u16, resultLen: u16, result: Result)

  /** The gate's state, the shared page and the calls made to the executor so far. */
  datatype System = System(gate: GateState, page: Page, calls: seq<ExecCall>)

  function ProposalRegion(page: Page): ProposalFrame {
    page[SOVP_OFFSET_PROPOSAL..SOVP_OFFSET_PROPOSAL + PROPOSAL_SIZE]
  }

  function ApprovalRegion(page: Page): ApprovalFrame {
    page[SOVP_OFFSET_APPROVAL..SOVP_OFFSET_APPROVAL + APPROVAL_SIZE]
  }

  function VerdictRegion(page: Page): VerdictFrame {
    page[SOVP_OFFSET_VERDICT..SOVP_OFFSET_VERDICT + VERDICT_SIZE]
  }

  function ApprovalMagic(page: Page): u32 {
    U32At(page, SOVP_OFFSET_APPROVAL)
  }

  function CallOf(p: Proposal): ExecCall {
    ExecCall(p.toolId, p.argLen, p.args)
  }

  function ResultHeader(reply: ExecReply, sequenceId: u64): (s: seq<byte>)
    ensures |s| == 16
  {
    Head16(SOVX_MAGIC, reply.status, reply.resultLen, sequenceId)
  }

  function ResultFrame(reply: ExecReply, sequenceId: u64): (s: seq<byte>)
    ensures |s| == 1024
  {
    ResultHeader(reply, sequenceId) + reply.result
  }

  function WithResult(page: Page, reply: ExecReply, sequenceId: u64): Page {
    Splice(page, SOVP_OFFSET_RESULT, ResultFrame(reply, sequenceId))
  }

  /** One ring of the doorbell. `nonce` and `reply` are what the random source and the executor
      deliver if they are asked. */
  function Doorbell(c: Crypto, s: System, nonce: Nonce, reply: ExecReply): System {
    var p := DecodeProposal(ProposalRegion(s.page));
    if ApprovalMagic(s.page) == SOVQ_MAGIC then
      var (g, status) := ApprovalStep(c, s.gate, DecodeApproval(ApprovalRegion(s.page)));
      if status != STATUS_OK then
        System(g, Splice(s.page, SOVP_OFFSET_VERDICT, LE(SOVV_MAGIC, 4) + LE(status, 2) + [DECISION_DENY]), s.calls)
      else
        System(g,
               Splice(WithResult(s.page, reply, p.sequenceId), SOVP_OFFSET_VERDICT + 4,
                 LE(STATUS_OK, 2) + [DECISION_ALLOW]),
               s.calls + [CallOf(p)])
    else
      var (g, v) := ProposalStep(c, s.gate, p, nonce);
      var page := Splice(s.page, SOVP_OFFSET_VERDICT, EncodeVerdict(v));
      if v.decision == DECISION_ALLOW && v.status == STATUS_OK
      then System(g, WithResult(page, reply, p.sequenceId), s.calls + [CallOf(p)])
      else System(g, page, s.calls)
  }

  // ---------------------------------------------------------------------
  // The component

  class Component {
    const gate: Gate
    const guestBuf: array<byte>
    /** Calls made over the executor connection. */
    var calls: seq<ExecCall>
    /** Notifications sent to the guest. */
    var verdictsReady: nat

    ghost predicate Valid()
      reads this
    {
      guestBuf.Length == PAGE_SIZE
    }

    function View(): System
      requires Valid()
      reads this, gate, guestBuf
    {
      System(gate.State(), guestBuf[..], calls)
    }

    /** `post_init`, with a page of zeros. */
    constructor (crypto: Crypto)
      ensures Valid() && fresh(gate) && fresh(guestBuf)
      ensures gate.crypto == crypto && View() == System(CLEARED, Zeros(PAGE_SIZE), []) && verdictsReady == 0
    {
      gate := new Gate(crypto);
      guestBuf := new byte[PAGE_SIZE](i => 0);
      calls := [];
      verdictsReady := 0;
      new;
      assert guestBuf[..] == Zeros(PAGE_SIZE);
    }

    /** `exec_execute` over the connection, and the three stores into the result header. */
    method Execute(p: Proposal, reply: ExecReply)
      requires Valid()
      modifies this`calls, guestBuf
      ensures Valid() && calls == old(calls) + [CallOf(p)]
      ensures guestBuf[..] == WithResult(old(guestBuf[..]), reply, p.sequenceId)
    {
      calls := calls + [ExecCall(p.toolId, p.argLen, p.args)];
      Write(guestBuf, SOVP_OFFSET_RESULT + 6, LE(reply.resultLen, 2));
      Write(guestBuf, SOVP_OFFSET_RESULT + 16, reply.result);
      Write(guestBuf, SOVP_OFFSET_RESULT, LE(SOVX_MAGIC, 4));
      Write(guestBuf, SOVP_OFFSET_RESULT + 8, LE(p.sequenceId, 8));
      Write(guestBuf, SOVP_OFFSET_RESULT + 4, LE(reply.status, 2));
      ResultInFiveStores(old(guestBuf[..]), reply, p.sequenceId);
    }

    method PostDenial(status: u16)
      requires Valid()
      modifies guestBuf
      ensures guestBuf[..]
              == Splice(old(guestBuf[..]), SOVP_OFFSET_VERDICT, LE(SOVV_MAGIC, 4) + LE(status, 2) + [DECISION_DENY])
    {
      DenialInThreeStores(guestBuf[..], status);
      Write(guestBuf, SOVP_OFFSET_VERDICT, LE(SOVV_MAGIC, 4));
      Write(guestBuf, SOVP_OFFSET_VERDICT + 4, LE(status, 2));
      Write(guestBuf, SOVP_OFFSET_VERDICT + 6, [DECISION_DENY]);
    }

    method PostGrant()
      requires Valid()
      modifies guestBuf
      ensures guestBuf[..] == Splice(old(guestBuf[..]), SOVP_OFFSET_VERDICT + 4, LE(STATUS_OK, 2) + [DECISION_ALLOW])
    {
      GrantInTwoStores(guestBuf[..]);
      Write(guestBuf, SOVP_OFFSET_VERDICT + 4, LE(STATUS_OK, 2));
      Write(guestBuf, SOVP_OFFSET_VERDICT + 6, [DECISION_ALLOW]);
    }

    /** `proposal_ready_handle` */
    method ProposalReadyHandle(nonce: Nonce, reply: ExecReply)
      requires Valid()
      modifies this, gate, guestBuf
      ensures Valid() && View() == Doorbell(gate.crypto, old(View()), nonce, reply)
      ensures verdictsReady == old(verdictsReady) + 1
    {
      var prop := DecodeProposal(ProposalRegion(guestBuf[..]));
      if ApprovalMagic(guestBuf[..]) == SOVQ_MAGIC {
        var status := gate.VerifyApproval(DecodeApproval(ApprovalRegion(guestBuf[..])));
        if status != STATUS_OK {
          PostDenial(status);
          verdictsReady := verdictsReady + 1;
          return;
        }
        Execute(prop, reply);
        PostGrant();
        verdictsReady := verdictsReady + 1;
        return;
      }
      var verdict := gate.HandleProposal(prop, nonce);
      Write(guestBuf, SOVP_OFFSET_VERDICT, EncodeVerdict(verdict));
      if verdict.decision == DECISION_ALLOW && verdict.status == STATUS_OK {
        Execute(prop, reply);
      }
      verdictsReady := verdictsReady + 1;
    }
  }

  /** Two writes side by side are one write of the joined data. */
  lemma JoinWrites(page: seq<byte>, off: nat, a: seq<byte>, b: seq<byte>)
    requires off + |a| + |b| <= |page|
    ensures Splice(Splice(page, off, a), off + |a|, b) == Splice(page, off, a + b)
  {
  }

  lemma DenialInThreeStores(page: Page, status: u16)
    ensures Splice(Splice(Splice(page, SOVP_OFFSET_VERDICT, LE(SOVV_MAGIC, 4)), SOVP_OFFSET_VERDICT + 4, LE(status, 2)),
                   SOVP_OFFSET_VERDICT + 6, [DECISION_DENY])
            == Splice(page, SOVP_OFFSET_VERDICT, LE(SOVV_MAGIC, 4) + LE(status, 2) + [DECISION_DENY])
  {
    JoinWrites(page, SOVP_OFFSET_VERDICT, LE(SOVV_MAGIC, 4), LE(status, 2));
    JoinWrites(page, SOVP_OFFSET_VERDICT, LE(SOVV_MAGIC, 4) + LE(status, 2), [DECISION_DENY]);
  }

  lemma GrantInTwoStores(page: Page)
    ensures Splice(Splice(page, SOVP_OFFSET_VERDICT + 4, LE(STATUS_OK, 2)), SOVP_OFFSET_VERDICT + 6, [DECISION_ALLOW])
            == Splice(page, SOVP_OFFSET_VERDICT + 4, LE(STATUS_OK, 2) + [DECISION_ALLOW])
  {
    JoinWrites(page, SOVP_OFFSET_VERDICT + 4, LE(STATUS_OK, 2), [DECISION_ALLOW]);
  }

  /** Four stores that tile 16 bytes, made in the order third, first, fourth, second. */
  lemma HeaderInFourStores(page: seq<byte>, at: nat, m: seq<byte>, s: seq<byte>, l: seq<byte>, q: seq<byte>)
    requires |m| == 4 && |s| == 2 && |l| == 2 && |q| == 8 && at + 16 <= |page|
    ensures Splice(Splice(Splice(Splice(page, at + 6, l), at, m), at + 8, q), at + 4, s)
            == Splice(page, at, m + s + l + q)
  {
  }

  lemma SwapWrites(page: seq<byte>, o1: nat, d1: seq<byte>, o2: nat, d2: seq<byte>)
    requires o1 + |d1| <= o2 && o2 + |d2| <= |page|
    ensures Splice(Splice(page, o1, d1), o2, d2) == Splice(Splice(page, o2, d2), o1, d1)
  {
  }

  /** The five stores of a result cover its frame, in the order in which they are made. */
  lemma ResultInFiveStores(page: Page, reply: ExecReply, sequenceId: u64)
    ensures var at := SOVP_OFFSET_RESULT;
            var p1 := Splice(page, at + 6, LE(reply.resultLen, 2));
            var p2 := Splice(p1, at + 16, reply.result);
            var p3 := Splice(p2, at, LE(SOVX_MAGIC, 4));
            var p4 := Splice(p3, at + 8, LE(sequenceId, 8));
            Splice(p4, at + 4, LE(reply.status, 2)) == WithResult(page, reply, sequenceId)
  {
    var at := SOVP_OFFSET_RESULT;
    var m, s, l, q, r := LE(SOVX_MAGIC, 4), LE(reply.status, 2), LE(reply.resultLen, 2), LE(sequenceId, 8),
        reply.result;
    var late := Splice(page, at + 16, r);
    SwapWrites(page, at + 6, l, at + 16, r);
    HeaderInFourStores(late, at, m, s, l, q);
    SwapWrites(page, at, ResultHeader(reply, sequenceId), at + 16, r);
    JoinWrites(page, at, ResultHeader(reply, sequenceId), r);
  }
}
