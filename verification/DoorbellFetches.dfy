/** Rings under a guest that goes on writing while the handler runs: each access of the handler and
    of the gate to the shared page finds bytes of its own. */
module DoorbellFetches {
  import opened Words
  import opened Bytes
  import opened SovereignProposal
  import opened GateSpec
  import opened ToolGate
  import opened GateRuns
  import opened ToolGateComponent
  import opened SystemRuns
  import opened ExecutionRuns
  import opened RulingReads

  /** What one ring finds: the approval magic that chooses the branch, the accesses of the ruling
      on that branch, and the pages on which the handler then finds the tool, the argument length
      and the arguments for the executor, and the sequence id for the result. */
  datatype Handling = Handling(dispatch: u32, app: ApprovalReads, prop: ProposalReads, nonce: Nonce,
                               tool: Page, length: Page, arguments: Page, result: Page)

  datatype Outcome = Outcome(gate: GateState, reply: Reply, call: Option<ExecCall>, resultId: Option<u64>)

  predicate OnApproval(h: Handling) {
    h.dispatch == SOVQ_MAGIC
  }

  function RulingOn(c: Crypto, g: GateState, h: Handling): (GateState, Reply) {
    if OnApproval(h) then
      var (g', status) := ApprovalRead(c, g, h.app); (g', Status(status))
    else
      var (g', v) := ProposalRead(c, g, h.prop, h.nonce); (g', Ruling(v))
  }

  /** The call put together from three fetches. */
  function CallFetched(h: Handling): ExecCall {
    ExecCall(U16At(h.tool, 6), U16At(h.length, 24), h.arguments[32..1024])
  }

  function IdFetched(h: Handling): u64 {
    U64At(h.result, 8)
  }

  function Handle(c: Crypto, g: GateState, h: Handling): Outcome {
    var (g', reply) := RulingOn(c, g, h);
    if Grants(reply) then Outcome(g', reply, Some(CallFetched(h)), Some(IdFetched(h)))
    else Outcome(g', reply, None, None)
  }

  /** `proposal_ready_handle`, access by access. */
  method ProposalReadyHandle(gate: Gate, h: Handling)
    returns (reply: Reply, call: Option<ExecCall>, resultId: Option<u64>)
    modifies gate
    ensures Outcome(gate.State(), reply, call, resultId) == Handle(gate.crypto, old(gate.State()), h)
  {
    hide ApprovalRead, ProposalRead;
    call, resultId := None, None;
    if h.dispatch == SOVQ_MAGIC {
      var status := VerifyApproval(gate, h.app);
      reply := Status(status);
      if status != STATUS_OK {
        return;
      }
    } else {
      ghost var before := gate.State();
      var verdict := HandleProposal(gate, h.prop, h.nonce);
      ReadEffect(gate.crypto, before, h.prop, h.nonce);
      reply := Ruling(verdict);
      if !(verdict.decision == DECISION_ALLOW && verdict.status == STATUS_OK) {
        return;
      }
    }
    var toolId := U16At(h.tool, 6);
    var argLen := U16At(h.length, 24);
    var args := h.arguments[32..1024];
    call := Some(ExecCall(toolId, argLen, args));
    resultId := Some(U64At(h.result, 8));
  }

  // ---------------------------------------------------------------------
  // Bytes of a frame and of the fetches

  /** The fetches for the executor find the bytes that stand in frame f. */
  predicate FetchesCallOf(h: Handling, f: ProposalFrame) {
    h.tool[6..8] == f[6..8] && h.length[24..26] == f[24..26] && h.arguments[32..1024] == f[32..]
  }

  predicate FetchesIdOf(h: Handling, f: ProposalFrame) {
    h.result[8..16] == f[8..16]
  }

  lemma FetchedExactly(h: Handling, f: ProposalFrame)
    ensures CallFetched(h) == CallOf(DecodeProposal(f)) <==> FetchesCallOf(h, f)
    ensures IdFetched(h) == DecodeProposal(f).sequenceId <==> FetchesIdOf(h, f)
  {
    SameNumber(h.tool[6..8], f[6..8]);
    SameNumber(h.length[24..26], f[24..26]);
    SameNumber(h.result[8..16], f[8..16]);
  }

  // ---------------------------------------------------------------------
  // An undisturbed ring

  function HandlingOf(page: Page, nonce: Nonce): Handling {
    Handling(ApprovalMagic(page), ReadsOfApproval(DecodeApproval(ApprovalRegion(page))),
             ReadsOfProposal(DecodeProposal(ProposalRegion(page))), nonce, page, page, page, page)
  }

  lemma PageFetchesItself(page: Page, nonce: Nonce)
    ensures var h, f := HandlingOf(page, nonce), ProposalRegion(page);
            FetchesCallOf(h, f) && FetchesIdOf(h, f)
  {
    RegionSlices(page);
    hide ApprovalMagic, ApprovalRegion, ProposalRegion, DecodeApproval, DecodeProposal, ReadsOfApproval,
        ReadsOfProposal;
  }

  lemma RegionSlices(page: Page)
    ensures var f := ProposalRegion(page);
            page[6..8] == f[6..8] && page[24..26] == f[24..26] && page[8..16] == f[8..16] && page[32..1024] == f[32..]
  {
    SliceOfSlice(page, 0, 1024, 6, 8);
    SliceOfSlice(page, 0, 1024, 24, 26);
    SliceOfSlice(page, 0, 1024, 8, 16);
    assert ProposalRegion(page)[32..] == page[32..1024];
  }

  lemma UndisturbedRuling(c: Crypto, g: GateState, page: Page, nonce: Nonce, reply: ExecReply)
    ensures RulingOn(c, g, HandlingOf(page, nonce)) == GateRuns.Step(c, g, EventOf(page, Ring(nonce, reply)))
  {
    hide ApprovalRead, ProposalRead, ApprovalStep, ProposalStep, DecodeApproval, DecodeProposal, ReadsOfApproval,
        ReadsOfProposal;
    ApprovalReadAtOnce(c, g, DecodeApproval(ApprovalRegion(page)));
    ProposalReadAtOnce(c, g, DecodeProposal(ProposalRegion(page)), nonce);
  }

  /** When every access finds the same page, the ring is the one of the component. */
  lemma UndisturbedIsAtomic(c: Crypto, s: System, nonce: Nonce, reply: ExecReply)
    ensures var o, s' := Handle(c, s.gate, HandlingOf(s.page, nonce)), Doorbell(c, s, nonce, reply);
            && o.gate == s'.gate
            && s'.calls == s.calls + (if o.call.Some? then [o.call.value] else [])
            && ResultRegion(s'.page)
               == (if o.resultId.Some? then ResultFrame(reply, o.resultId.value) else ResultRegion(s.page))
  {
    hide Doorbell, GateRuns.Step, RulingOn, HandlingOf, Grants, CallFetched, IdFetched, CallOf, DecodeProposal,
        EventOf, ResultRegion, ResultFrame, FetchesCallOf, FetchesIdOf;
    UndisturbedRuling(c, s.gate, s.page, nonce, reply);
    PageFetchesItself(s.page, nonce);
    FetchedExactly(HandlingOf(s.page, nonce), ProposalRegion(s.page));
    StepRefines(c, s, Ring(nonce, reply));
    DoorbellCalls(c, s, nonce, reply);
    DoorbellResult(c, s, nonce, reply);
  }

  // ---------------------------------------------------------------------
  // Runs

  function GateAfter(c: Crypto, hs: seq<Handling>, n: nat): GateState
    requires n <= |hs|
  {
    if n == 0 then CLEARED else RulingOn(c, GateAfter(c, hs, n - 1), hs[n - 1]).0
  }

  function ReplyTo(c: Crypto, hs: seq<Handling>, n: nat): Reply
    requires n < |hs|
  {
    RulingOn(c, GateAfter(c, hs, n), hs[n]).1
  }

  predicate Decided(c: Crypto, hs: seq<Handling>, n: nat, decision: byte) {
    n < |hs| && !OnApproval(hs[n]) && ReplyTo(c, hs, n).verdict.decision == decision
  }

  /** Ring n asked for a quorum. */
  predicate Asked(c: Crypto, hs: seq<Handling>, n: nat) {
    Decided(c, hs, n, DECISION_QUORUM)
  }

  /** Ring n was granted on an approval. */
  predicate Redeemed(c: Crypto, hs: seq<Handling>, n: nat) {
    n < |hs| && OnApproval(hs[n]) && ReplyTo(c, hs, n).status == STATUS_OK
  }

  /** The repeated accesses of the ruling agree with one another: for an approval those to bitmap
      and count, for a proposal each with the frame copied for the hash. */
  predicate Coherent(h: Handling) {
    if OnApproval(h) then h.app == ReadsOfApproval(ApprovalSeen(h.app))
    else h.prop == ReadsOfProposal(DecodeProposal(h.prop.hashed))
  }

  function ApprovalSeen(r: ApprovalReads): Approval {
    Approval(r.magic, r.version, r.sequenceId, r.counted, r.claimed, r.entries)
  }

  function EventSeen(h: Handling): Event {
    if OnApproval(h) then Approve(ApprovalSeen(h.app)) else Propose(DecodeProposal(h.prop.hashed), h.nonce)
  }

  function EventsSeen(hs: seq<Handling>): (events: seq<Event>)
    ensures |events| == |hs|
  {
    seq(|hs|, i requires 0 <= i < |hs| => EventSeen(hs[i]))
  }

  lemma CoherentRuling(c: Crypto, g: GateState, h: Handling)
    requires Coherent(h)
    ensures RulingOn(c, g, h) == GateRuns.Step(c, g, EventSeen(h))
  {
    hide ApprovalRead, ProposalRead, ApprovalStep, ProposalStep, DecodeProposal, ReadsOfApproval, ReadsOfProposal;
    ApprovalReadAtOnce(c, g, ApprovalSeen(h.app));
    ProposalReadAtOnce(c, g, DecodeProposal(h.prop.hashed), h.nonce);
  }

  /** As long as the repeated accesses of each ruling agree, whatever is written otherwise, the gate
      runs on the frames seen, and what is proved of its runs holds. Without that the count of the
      witnesses and the growth of the ids fail: see `CountReadAgainAsZero`, `IdSetBackToThree`. */
  lemma {:induction false} CoherentRunsRefineGate(c: Crypto, hs: seq<Handling>, n: nat)
    requires n <= |hs| && forall k :: 0 <= k < n ==> Coherent(hs[k])
    ensures GateAfter(c, hs, n) == StateAt(c, EventsSeen(hs), n)
  {
    hide GateRuns.Step, RulingOn, EventSeen, Coherent;
    if n != 0 {
      CoherentRunsRefineGate(c, hs, n - 1);
      CoherentRuling(c, GateAfter(c, hs, n - 1), hs[n - 1]);
    }
  }

  // ---------------------------------------------------------------------
  // What holds without any such condition

  /** What one ring does to the gate, told by its reply. */
  lemma RulingEffect(c: Crypto, hs: seq<Handling>, n: nat)
    requires n < |hs|
    ensures var g, g', r := GateAfter(c, hs, n), GateAfter(c, hs, n + 1), hs[n].prop;
            && (Asked(c, hs, n) ==> g' == GateState(r.stored, true, r.pending, QUORUM_MASK_TRIAD_DEFAULT,
                                                    c.sha512(PreImage(r.hashed, hs[n].nonce))))
            && (Redeemed(c, hs, n) ==> g.hasActiveChallenge && g' == g.(hasActiveChallenge := false))
            && (!Asked(c, hs, n) && !Redeemed(c, hs, n) ==> g' == g.(lastSeenSequenceId := g'.lastSeenSequenceId))
  {
    hide ApprovalRead, ProposalRead, PreImage;
    ApprovalEffect(c, GateAfter(c, hs, n), hs[n].app);
    ReadEffect(c, GateAfter(c, hs, n), hs[n].prop, hs[n].nonce);
  }

  lemma ApprovalEffect(c: Crypto, g: GateState, r: ApprovalReads)
    ensures var (g', status) := ApprovalRead(c, g, r);
            if status == STATUS_OK then g.hasActiveChallenge && g' == g.(hasActiveChallenge := false) else g' == g
  {
  }

  /** Ring i asked for a quorum, and nothing since has replaced or redeemed it. */
  predicate OpenSince(c: Crypto, hs: seq<Handling>, n: nat, i: nat) {
    i < n && Asked(c, hs, i) && forall k :: i < k < n ==> !Asked(c, hs, k) && !Redeemed(c, hs, k)
  }

  /** A challenge is pending only because of such a ring, and is the hash of the frame copied at
      it. */
  lemma {:induction false} OpenHasOrigin(c: Crypto, hs: seq<Handling>, n: nat) returns (i: nat)
    requires n <= |hs| && GateAfter(c, hs, n).hasActiveChallenge
    ensures OpenSince(c, hs, n, i) && i < |hs|
    ensures var g, r := GateAfter(c, hs, n), hs[i].prop;
            && g.activeChallenge == c.sha512(PreImage(r.hashed, hs[i].nonce))
            && g.activeChallengeSeq == r.pending && g.activeRequiredMask == QUORUM_MASK_TRIAD_DEFAULT
  {
    assert n > 0;
    hide RulingOn, Asked, Redeemed, PreImage;
    RulingEffect(c, hs, n - 1);
    if Asked(c, hs, n - 1) {
      i := n - 1;
    } else {
      i := OpenHasOrigin(c, hs, n - 1);
    }
  }

  lemma RedeemedIsPending(c: Crypto, hs: seq<Handling>, j: nat)
    requires Redeemed(c, hs, j)
    ensures j < |hs| && GateAfter(c, hs, j).hasActiveChallenge
    ensures ApprovalRead(c, GateAfter(c, hs, j), hs[j].app).1 == STATUS_OK
  {
    hide ApprovalRead, ProposalRead;
    RulingEffect(c, hs, j);
  }

  /** Whatever is written at any moment, a granted approval answers one earlier ring, still open,
      and hands over the call of the frame hashed there exactly when the fetches for the executor
      find the bytes of that frame; and the result carries its id exactly when the last fetch finds
      the bytes of that. */
  lemma ApprovedCallExactly(c: Crypto, hs: seq<Handling>, j: nat) returns (i: nat)
    requires Redeemed(c, hs, j)
    ensures j < |hs| && OpenSince(c, hs, j, i)
    ensures var g, hashed, o := GateAfter(c, hs, j), hs[i].prop.hashed, Handle(c, GateAfter(c, hs, j), hs[j]);
            && g.activeChallenge == c.sha512(PreImage(hashed, hs[i].nonce))
            && o.call.Some? && o.resultId.Some?
            && (o.call.value == CallOf(DecodeProposal(hashed)) <==> FetchesCallOf(hs[j], hashed))
            && (o.resultId.value == DecodeProposal(hashed).sequenceId <==> FetchesIdOf(hs[j], hashed))
  {
    hide ApprovalRead, ProposalRead, CallFetched, IdFetched, CallOf, DecodeProposal, FetchesCallOf, FetchesIdOf,
        PreImage;
    RedeemedIsPending(c, hs, j);
    i := OpenHasOrigin(c, hs, j);
    FetchedExactly(hs[j], hs[i].prop.hashed);
  }

  /** One request is redeemed once: between two granted approvals a quorum was asked for. */
  lemma RedeemedOnce(c: Crypto, hs: seq<Handling>, j: nat, k: nat) returns (i: nat)
    requires j < k && Redeemed(c, hs, j) && Redeemed(c, hs, k)
    ensures j < i < k && Asked(c, hs, i)
  {
    RedeemedIsPending(c, hs, k);
    i := OpenHasOrigin(c, hs, k);
    hide ReplyTo;
  }

  /** A granted approval has three entries that verify against the hash of the frame copied at its
      request, provided the loop re-read the count as letting three pass; that proviso is exact, by
      `DistinctEntriesExactly`. */
  lemma RedeemedEntries(c: Crypto, hs: seq<Handling>, j: nat) returns (i: nat)
    requires Redeemed(c, hs, j) && CountsHold(hs[j].app.counts)
    ensures j < |hs| && OpenSince(c, hs, j, i)
    ensures EntriesVerify(c, hs[j].app, c.sha512(PreImage(hs[i].prop.hashed, hs[i].nonce)), 3)
  {
    hide ApprovalRead, ProposalRead, EntriesVerify, PreImage;
    RedeemedIsPending(c, hs, j);
    i := OpenHasOrigin(c, hs, j);
    CountsHoldSuffice(c, GateAfter(c, hs, j), hs[j].app);
  }

  // ---------------------------------------------------------------------
  // The order of ids

  predicate AcceptedRing(c: Crypto, hs: seq<Handling>, n: nat) {
    n < |hs| && !OnApproval(hs[n]) && ReplyTo(c, hs, n).verdict.decision != DECISION_DENY
  }

  lemma LastAfter(c: Crypto, hs: seq<Handling>, n: nat)
    requires n < |hs|
    ensures GateAfter(c, hs, n + 1).lastSeenSequenceId ==
            if AcceptedRing(c, hs, n) then hs[n].prop.stored else GateAfter(c, hs, n).lastSeenSequenceId
  {
    hide ApprovalRead, ProposalRead, PreImage;
    ApprovalEffect(c, GateAfter(c, hs, n), hs[n].app);
    ReadEffect(c, GateAfter(c, hs, n), hs[n].prop, hs[n].nonce);
  }

  /** Every accepted ring stores an id above the last one seen. */
  predicate StoresGrow(c: Crypto, hs: seq<Handling>, n: nat)
    requires n <= |hs|
  {
    forall k: nat :: k < n && AcceptedRing(c, hs, k) ==> hs[k].prop.stored > GateAfter(c, hs, k).lastSeenSequenceId
  }

  /** The ids stored by the accepted rings, none of them 0, increase strictly. */
  predicate IdsIncrease(c: Crypto, hs: seq<Handling>, n: nat)
    requires n <= |hs|
  {
    && (forall k: nat :: k < n && AcceptedRing(c, hs, k) ==> hs[k].prop.stored > 0)
    && (forall i: nat, j: nat :: i < j < n && AcceptedRing(c, hs, i) && AcceptedRing(c, hs, j) ==>
          hs[i].prop.stored < hs[j].prop.stored)
  }

  lemma {:induction false} LastNeverFalls(c: Crypto, hs: seq<Handling>, m: nat, n: nat)
    requires m <= n <= |hs| && StoresGrow(c, hs, n)
    ensures GateAfter(c, hs, m).lastSeenSequenceId <= GateAfter(c, hs, n).lastSeenSequenceId
  {
    hide RulingOn, AcceptedRing;
    if m < n {
      LastNeverFalls(c, hs, m, n - 1);
      LastAfter(c, hs, n - 1);
    }
  }

  lemma {:induction false} LastIsStored(c: Crypto, hs: seq<Handling>, n: nat) returns (i: nat)
    requires n <= |hs|
    ensures GateAfter(c, hs, n).lastSeenSequenceId != 0 ==>
              i < n && AcceptedRing(c, hs, i) && GateAfter(c, hs, n).lastSeenSequenceId == hs[i].prop.stored
  {
    hide RulingOn, AcceptedRing;
    if n == 0 {
      i := 0;
    } else {
      LastAfter(c, hs, n - 1);
      i := LastIsStored(c, hs, n - 1);
      if AcceptedRing(c, hs, n - 1) {
        i := n - 1;
      }
    }
  }

  /** In a run under writes at any moment, the accepted ids increase strictly exactly when each read
      for storing exceeds the last id seen; the reads that were checked do not enter. */
  lemma IdsIncreaseExactly(c: Crypto, hs: seq<Handling>)
    ensures IdsIncrease(c, hs, |hs|) <==> StoresGrow(c, hs, |hs|)
  {
    hide GateAfter, AcceptedRing;
    if StoresGrow(c, hs, |hs|) {
      forall i: nat, j: nat | i < j < |hs| && AcceptedRing(c, hs, i) && AcceptedRing(c, hs, j)
        ensures hs[i].prop.stored < hs[j].prop.stored
      {
        LastAfter(c, hs, i);
        LastNeverFalls(c, hs, i + 1, j);
      }
    }
    if IdsIncrease(c, hs, |hs|) {
      forall k: nat | k < |hs| && AcceptedRing(c, hs, k)
        ensures hs[k].prop.stored > GateAfter(c, hs, k).lastSeenSequenceId
      {
        var i := LastIsStored(c, hs, k);
      }
    }
  }

  // ---------------------------------------------------------------------
  // Rings granted at once

  /** Ruled on frame f, an allowed ring hands over the call of f exactly when the later fetches find
      its bytes again; likewise for the id of the result. */
  lemma AllowedCallExactly(c: Crypto, g: GateState, h: Handling, f: ProposalFrame)
    requires !OnApproval(h) && h.prop == ReadsOfProposal(DecodeProposal(f)) && Handle(c, g, h).call.Some?
    ensures var o := Handle(c, g, h);
            && (o.call.value == CallOf(DecodeProposal(f)) <==> FetchesCallOf(h, f))
            && (o.resultId.value == DecodeProposal(f).sequenceId <==> FetchesIdOf(h, f))
  {
    hide RulingOn, Grants, CallFetched, IdFetched, CallOf, DecodeProposal, ReadsOfProposal, FetchesCallOf, FetchesIdOf;
    FetchedExactly(h, f);
  }

  /** In every run, a tool that the policy does not open is handed over only by a granted approval,
      or by an allowed ring that fetched another tool than it looked up. */
  lemma ClosedToolExecuted(c: Crypto, hs: seq<Handling>, j: nat)
    requires j < |hs|
    requires var o := Handle(c, GateAfter(c, hs, j), hs[j]); o.call.Some? && !OpenTool(o.call.value.toolId)
    ensures Redeemed(c, hs, j) ||
            (Decided(c, hs, j, DECISION_ALLOW) && OpenTool(hs[j].prop.tool) && U16At(hs[j].tool, 6) != hs[j].prop.tool)
  {
    hide ApprovalRead, ProposalRead, OpenTool;
    ReadEffect(c, GateAfter(c, hs, j), hs[j].prop, hs[j].nonce);
  }

  /** The failing case: whenever an allowed call is rung and another frame stands in its place for
      the later fetches, that frame is executed; with WRITE_FILE in it, without a quorum. */
  lemma AllowedRingExecutesOther(c: Crypto, g: GateState, page: Page, other: Page, nonce: Nonce)
    requires ApprovalMagic(page) != SOVQ_MAGIC
    requires ProposalStep(c, g, DecodeProposal(ProposalRegion(page)), nonce).1.decision == DECISION_ALLOW
    requires DecodeProposal(ProposalRegion(other)).toolId == TOOL_WRITE_FILE
    ensures var h := HandlingOf(page, nonce).(tool := other, length := other, arguments := other, result := other);
            var o := Handle(c, g, h);
            && o.reply.Ruling? && o.reply.verdict.decision == DECISION_ALLOW
            && o.call == Some(CallOf(DecodeProposal(ProposalRegion(other)))) && o.call.value.toolId == TOOL_WRITE_FILE
  {
    hide ProposalStep, ProposalRead, DecodeProposal, DecodeApproval, ReadsOfProposal, FetchesCallOf, CallFetched;
    var h := HandlingOf(page, nonce).(tool := other, length := other, arguments := other, result := other);
    ProposalReadAtOnce(c, g, DecodeProposal(ProposalRegion(page)), nonce);
    PageFetchesItself(other, nonce);
    FetchesOfPages(h, HandlingOf(other, nonce));
    FetchedExactly(h, ProposalRegion(other));
  }

  lemma FetchesOfPages(h: Handling, h': Handling)
    requires h.tool == h'.tool && h.length == h'.length && h.arguments == h'.arguments
    ensures forall f :: FetchesCallOf(h, f) == FetchesCallOf(h', f)
  {
  }
}
