/** Safety of the gate over every run of proposals and approvals from `toolgate_init`. */
module GateRuns {
  import opened Bits
  import opened Words
  import opened Bytes
  import opened SovereignProposal
  import opened GateSpec

  // ---------------------------------------------------------------------
  // One proposal

  predicate WellFormed(p: Proposal) {
    && p.magic == SOVP_MAGIC && p.version == SOVP_VERSION
    && p.argLen <= SOVP_MAX_ARGS && CanonicalPadding(p)
    && exists policy :: policy in SOVP_POLICY && policy.toolId == p.toolId &&
                        policy.minArgLen <= p.argLen <= policy.maxArgLen
  }

  lemma WellFormedMeansPolicy(p: Proposal)
    ensures (exists policy :: policy in SOVP_POLICY && policy.toolId == p.toolId &&
                              policy.minArgLen <= p.argLen <= policy.maxArgLen)
            <==>
            (PolicyFor(p.toolId).Some? &&
             PolicyFor(p.toolId).value.minArgLen <= p.argLen <= PolicyFor(p.toolId).value.maxArgLen)
  {
    if PolicyFor(p.toolId).Some? {
      PolicyShape(p.toolId);
    }
  }

  /** The gate accepts just the well-formed proposals with a fresh sequence number, and then
      rules as the policy says; nothing else moves its state. */
  lemma AdmissionExactly(c: Crypto, g: GateState, p: Proposal, nonce: Nonce)
    ensures var (g', v) := ProposalStep(c, g, p, nonce);
            && v.magic == SOVV_MAGIC && v.sequenceId == p.sequenceId
            && (v.decision != DECISION_DENY <==> WellFormed(p) && p.sequenceId > g.lastSeenSequenceId)
            && (v.decision != DECISION_DENY ==>
                  PolicyFor(p.toolId).Some? && v.decision == PolicyFor(p.toolId).value.decision &&
                  g'.lastSeenSequenceId == p.sequenceId)
            && (v.decision == DECISION_DENY ==> g' == g && v.status >= ERR_MAGIC && v.status != PENDING_APPROVAL)
            && (v.decision == DECISION_ALLOW <==> v.status == STATUS_OK)
            && (v.decision == DECISION_QUORUM <==> v.status == PENDING_APPROVAL)
            && (v.decision == DECISION_ALLOW ==> g' == g.(lastSeenSequenceId := p.sequenceId))
            && (v.decision != DECISION_QUORUM ==> v == Plain(v.status, v.decision, p.sequenceId))
            && (v.decision == DECISION_QUORUM ==>
                  var challenge := ChallengeFor(c, p, nonce);
                  g' == GateState(p.sequenceId, true, p.sequenceId, QUORUM_MASK_TRIAD_DEFAULT, challenge) &&
                  v == Verdict(SOVV_MAGIC, PENDING_APPROVAL, DECISION_QUORUM, QUORUM_MASK_TRIAD_DEFAULT,
                               p.sequenceId, nonce, challenge))
  {
    WellFormedMeansPolicy(p);
    if PolicyFor(p.toolId).Some? {
      PolicyShape(p.toolId);
    }
  }

  /** The checks of a proposal, in the order in which they decide the error code. */
  predicate Fails(check: nat, g: GateState, p: Proposal) {
    match check
    case 0 => p.magic != SOVP_MAGIC
    case 1 => p.version != SOVP_VERSION
    case 2 => p.sequenceId <= g.lastSeenSequenceId
    case 3 => p.argLen > SOVP_MAX_ARGS
    case 4 => !CanonicalPadding(p)
    case 5 => PolicyFor(p.toolId).None?
    case 6 => PolicyFor(p.toolId).Some? &&
              !(PolicyFor(p.toolId).value.minArgLen <= p.argLen <= PolicyFor(p.toolId).value.maxArgLen)
    case _ => false
  }

  function ErrorOf(check: nat): u16 {
    match check
    case 0 => ERR_MAGIC
    case 1 => ERR_VERSION
    case 2 => ERR_SEQUENCE
    case 3 => ERR_ARGS_LEN
    case 4 => ERR_CANONICAL
    case 5 => ERR_UNKNOWN_TOOL
    case _ => ERR_ARGS_LEN
  }

  /** A denial names the first check that fails. */
  lemma DenialNamesFirstFailure(c: Crypto, g: GateState, p: Proposal, nonce: Nonce) returns (check: nat)
    requires ProposalStep(c, g, p, nonce).1.decision == DECISION_DENY
    ensures check <= 6 && Fails(check, g, p) && ProposalStep(c, g, p, nonce).1.status == ErrorOf(check)
    ensures forall k: nat :: k < check ==> !Fails(k, g, p)
  {
    check := 0;
    while !Fails(check, g, p)
      invariant check <= 7 && forall k: nat :: k < check ==> !Fails(k, g, p)
      decreases 7 - check
    {
      if check == 7 {
        assert !Fails(0, g, p) && !Fails(1, g, p) && !Fails(2, g, p) && !Fails(3, g, p);
        assert !Fails(4, g, p) && !Fails(5, g, p) && !Fails(6, g, p);
        PolicyShape(p.toolId);
        assert false;
      }
      check := check + 1;
    }
    assert check != 0 ==> !Fails(0, g, p);
    assert check > 1 ==> !Fails(1, g, p);
    assert check > 2 ==> !Fails(2, g, p);
    assert check > 3 ==> !Fails(3, g, p);
    assert check > 4 ==> !Fails(4, g, p);
    assert check > 5 ==> !Fails(5, g, p);
  }

  // ---------------------------------------------------------------------
  // Runs

  datatype Event = Propose(proposal: Proposal, nonce: Nonce) | Approve(approval: Approval)

  datatype Reply = Ruling(verdict: Verdict) | Status(status: u16)

  function Step(c: Crypto, g: GateState, e: Event): (GateState, Reply) {
    match e
    case Propose(p, nonce) => var (g', v) := ProposalStep(c, g, p, nonce); (g', Ruling(v))
    case Approve(a) => var (g', status) := ApprovalStep(c, g, a); (g', Status(status))
  }

  function StateAt(c: Crypto, run: seq<Event>, n: nat): GateState
    requires n <= |run|
  {
    if n == 0 then CLEARED else Step(c, StateAt(c, run, n - 1), run[n - 1]).0
  }

  function ReplyAt(c: Crypto, run: seq<Event>, n: nat): Reply
    requires n < |run|
  {
    Step(c, StateAt(c, run, n), run[n]).1
  }

  function Id(e: Event): u64 {
    match e
    case Propose(p, _) => p.sequenceId
    case Approve(a) => a.sequenceId
  }

  /** The proposal at position i got an ALLOW or QUORUM verdict. */
  predicate Accepted(c: Crypto, run: seq<Event>, i: nat) {
    i < |run| && run[i].Propose? && ReplyAt(c, run, i).verdict.decision != DECISION_DENY
  }

  predicate QuorumAsked(c: Crypto, run: seq<Event>, i: nat) {
    i < |run| && run[i].Propose? && ReplyAt(c, run, i).verdict.decision == DECISION_QUORUM
  }

  predicate Approved(c: Crypto, run: seq<Event>, i: nat) {
    i < |run| && run[i].Approve? && ReplyAt(c, run, i).status == STATUS_OK
  }

  /** What one event does to the state, told by its reply. */
  lemma StepEffect(c: Crypto, run: seq<Event>, n: nat)
    requires n < |run|
    ensures var g, g' := StateAt(c, run, n), StateAt(c, run, n + 1);
            && (Accepted(c, run, n) ==> g.lastSeenSequenceId < Id(run[n]) == g'.lastSeenSequenceId)
            && (!Accepted(c, run, n) ==> g'.lastSeenSequenceId == g.lastSeenSequenceId)
            && (QuorumAsked(c, run, n) ==>
                  g' == GateState(Id(run[n]), true, Id(run[n]), QUORUM_MASK_TRIAD_DEFAULT,
                                  ChallengeFor(c, run[n].proposal, run[n].nonce)))
            && (Approved(c, run, n) ==> g' == g.(hasActiveChallenge := false))
            && (!QuorumAsked(c, run, n) && !Approved(c, run, n) ==>
                  g' == g.(lastSeenSequenceId := g'.lastSeenSequenceId))
  {
    if run[n].Propose? {
      AdmissionExactly(c, StateAt(c, run, n), run[n].proposal, run[n].nonce);
    }
  }

  lemma {:induction false} LastSeenGrows(c: Crypto, run: seq<Event>, m: nat, n: nat)
    requires m <= n <= |run|
    ensures StateAt(c, run, m).lastSeenSequenceId <= StateAt(c, run, n).lastSeenSequenceId
  {
    hide Step, ReplyAt, QuorumAsked, Approved;
    if m < n {
      StepEffect(c, run, n - 1);
      LastSeenGrows(c, run, m, n - 1);
    }
  }

  lemma AcceptedInRange(c: Crypto, run: seq<Event>, i: nat)
    requires Accepted(c, run, i)
    ensures i < |run|
  {
    hide ReplyAt;
  }

  /** Accepted sequence ids strictly increase: no id is ever accepted twice. */
  lemma AcceptedIdsIncrease(c: Crypto, run: seq<Event>, i: nat, j: nat)
    requires i < j && Accepted(c, run, i) && Accepted(c, run, j)
    ensures Id(run[i]) < Id(run[j])
  {
    hide Accepted, StateAt, QuorumAsked, Approved, Id;
    AcceptedInRange(c, run, j);
    StepEffect(c, run, i);
    LastSeenGrows(c, run, i + 1, j);
    StepEffect(c, run, j);
  }

  // ---------------------------------------------------------------------
  // The pending challenge as a function of the history

  /** Position i asked for a quorum, and nothing since has replaced or redeemed it. */
  predicate PendingSince(c: Crypto, run: seq<Event>, n: nat, i: nat) {
    i < n && QuorumAsked(c, run, i) && forall k :: i < k < n ==> !QuorumAsked(c, run, k) && !Approved(c, run, k)
  }

  ghost predicate HoldsChallengeOf(c: Crypto, g: GateState, e: Event) {
    e.Propose? && g == GateState(g.lastSeenSequenceId, true, Id(e), QUORUM_MASK_TRIAD_DEFAULT,
                                 ChallengeFor(c, e.proposal, e.nonce))
  }

  lemma AskedIsProposal(c: Crypto, run: seq<Event>, i: nat)
    requires QuorumAsked(c, run, i)
    ensures i < |run| && run[i].Propose?
  {
    hide ReplyAt;
  }

  /** Denied proposals, allowed proposals and failed approvals leave the pending challenge as it
      is, however many of them follow. */
  lemma {:induction false} PendingIsStable(c: Crypto, run: seq<Event>, n: nat, i: nat)
    requires n <= |run| && PendingSince(c, run, n, i)
    ensures HoldsChallengeOf(c, StateAt(c, run, n), run[i])
  {
    hide StateAt, Accepted, Approved, QuorumAsked, ChallengeFor, Id;
    AskedIsProposal(c, run, i);
    StepEffect(c, run, n - 1);
    if i < n - 1 {
      assert !QuorumAsked(c, run, n - 1) && !Approved(c, run, n - 1);
      PendingIsStable(c, run, n - 1, i);
    }
  }

  lemma PendingExtends(c: Crypto, run: seq<Event>, n: nat, i: nat)
    requires PendingSince(c, run, n, i) && !QuorumAsked(c, run, n) && !Approved(c, run, n)
    ensures PendingSince(c, run, n + 1, i)
  {
    hide QuorumAsked, Approved;
  }

  lemma NothingAtFirst(c: Crypto, run: seq<Event>, n: nat)
    requires n <= |run| && StateAt(c, run, n).hasActiveChallenge
    ensures n > 0
  {
    hide Step;
  }

  /** A challenge is only ever pending because of such a position. */
  lemma {:induction false} PendingHasOrigin(c: Crypto, run: seq<Event>, n: nat) returns (i: nat)
    requires n <= |run| && StateAt(c, run, n).hasActiveChallenge
    ensures PendingSince(c, run, n, i)
  {
    hide StateAt, Accepted, QuorumAsked, Approved, ChallengeFor, Id;
    NothingAtFirst(c, run, n);
    StepEffect(c, run, n - 1);
    if QuorumAsked(c, run, n - 1) {
      i := n - 1;
    } else {
      assert !Approved(c, run, n - 1);
      i := PendingHasOrigin(c, run, n - 1);
      PendingExtends(c, run, n - 1, i);
    }
  }

  lemma PendingIsUnique(c: Crypto, run: seq<Event>, n: nat, i: nat, j: nat)
    requires PendingSince(c, run, n, i) && PendingSince(c, run, n, j)
    ensures i == j
  {
  }

  // ---------------------------------------------------------------------
  // Approvals

  /** The approval is in order for the challenge that event e created. */
  predicate Redeems(c: Crypto, a: Approval, e: Event) {
    && e.Propose?
    && a.magic == SOVQ_MAGIC && a.version == SOVP_VERSION && a.sequenceId == Id(e)
    && Popcount(a.signerBitmap) == a.quorumCount
    && And(a.signerBitmap, QUORUM_MASK_TRIAD_DEFAULT) == QUORUM_MASK_TRIAD_DEFAULT
    && forall i :: 0 <= i < a.quorumCount && i < 4 ==>
         c.verify(a.witnesses[i].publicKey, a.witnesses[i].signature, ChallengeFor(c, e.proposal, e.nonce))
  }

  lemma RedeemsExactly(c: Crypto, g: GateState, a: Approval, e: Event)
    requires HoldsChallengeOf(c, g, e)
    ensures ApprovalStep(c, g, a).1 == STATUS_OK <==> Redeems(c, a, e)
  {
  }

  /** The status of an approval names the first check that fails, in the order of magic, version,
      pending challenge and its id, count and mask, and the signatures of the first min(count, 4)
      entries. */
  lemma ApprovalStatusExactly(c: Crypto, g: GateState, a: Approval)
    ensures var status := ApprovalStep(c, g, a).1;
            var stale := !g.hasActiveChallenge || a.sequenceId != g.activeChallengeSeq;
            var miscounted := Popcount(a.signerBitmap) != a.quorumCount ||
                              And(a.signerBitmap, g.activeRequiredMask) != g.activeRequiredMask;
            var verified := forall i :: 0 <= i < a.quorumCount && i < 4 ==>
                              c.verify(a.witnesses[i].publicKey, a.witnesses[i].signature, g.activeChallenge);
            status == if a.magic != 0x534F5651 then 0xE001
                      else if a.version != 1 then 0xE002
                      else if stale then 0xE008
                      else if miscounted then 0xE00A
                      else if !verified then 0xE00B
                      else 0
    ensures ApprovalStep(c, g, a).0 ==
            if ApprovalStep(c, g, a).1 == 0 then g.(hasActiveChallenge := false) else g
  {
    hide Popcount, And;
    assert LeadingWitnessesVerify(c, a, g.activeChallenge, Checked(a.quorumCount)) <==>
           forall i :: 0 <= i < a.quorumCount && i < 4 ==>
             c.verify(a.witnesses[i].publicKey, a.witnesses[i].signature, g.activeChallenge);
  }

  lemma ApprovedMeans(c: Crypto, run: seq<Event>, j: nat)
    requires j < |run| && run[j].Approve?
    ensures Approved(c, run, j) <==> ApprovalStep(c, StateAt(c, run, j), run[j].approval).1 == STATUS_OK
    ensures Approved(c, run, j) ==> StateAt(c, run, j).hasActiveChallenge
  {
  }

  /** The request behind a successful approval: the most recent one, still open, and the only
      one ever made under that id. */
  lemma ApprovalOrigin(c: Crypto, run: seq<Event>, j: nat) returns (i: nat)
    requires Approved(c, run, j)
    ensures i < j && PendingSince(c, run, j, i) && Redeems(c, run[j].approval, run[i])
    ensures forall k: nat :: QuorumAsked(c, run, k) && Id(run[k]) == Id(run[j]) ==> k == i
  {
    ApprovedMeans(c, run, j);
    i := PendingHasOrigin(c, run, j);
    PendingIsStable(c, run, j, i);
    RedeemsExactly(c, StateAt(c, run, j), run[j].approval, run[i]);
    forall k: nat | QuorumAsked(c, run, k) && Id(run[k]) == Id(run[j])
      ensures k == i
    {
      OneRequestPerId(c, run, k, i);
    }
  }

  lemma OneRequestPerId(c: Crypto, run: seq<Event>, i: nat, k: nat)
    requires QuorumAsked(c, run, i) && QuorumAsked(c, run, k) && Id(run[i]) == Id(run[k])
    ensures i == k
  {
    if i < k {
      AcceptedIdsIncrease(c, run, i, k);
    } else if k < i {
      AcceptedIdsIncrease(c, run, k, i);
    }
  }

  /** In every run, an approval succeeds exactly when the most recent quorum request is still
      open and the approval is in order for that very request. */
  lemma ApprovalExactly(c: Crypto, run: seq<Event>, j: nat)
    requires j < |run| && run[j].Approve?
    ensures Approved(c, run, j) <==>
            exists i: nat :: i < j && PendingSince(c, run, j, i) && Redeems(c, run[j].approval, run[i])
  {
    if Approved(c, run, j) {
      var i := ApprovalOrigin(c, run, j);
    }
    if i: nat :| i < j && PendingSince(c, run, j, i) && Redeems(c, run[j].approval, run[i]) {
      PendingIsStable(c, run, j, i);
      RedeemsExactly(c, StateAt(c, run, j), run[j].approval, run[i]);
      ApprovedMeans(c, run, j);
    }
  }

  /** Approved ids strictly increase: each id is approved at most once, and an approval never
      reaches back behind an earlier one. */
  lemma ApprovedIdsIncrease(c: Crypto, run: seq<Event>, i: nat, j: nat)
    requires i < j && Approved(c, run, i) && Approved(c, run, j)
    ensures Id(run[i]) < Id(run[j])
  {
    var p := ApprovalOrigin(c, run, i);
    var q := ApprovalOrigin(c, run, j);
    assert i < q;
    AcceptedIdsIncrease(c, run, p, q);
  }

  /** Once a later request has taken its place, an id can never be approved any more. */
  lemma ReplacedIdIsStale(c: Crypto, run: seq<Event>, i: nat, k: nat, j: nat)
    requires i < k < j && QuorumAsked(c, run, i) && QuorumAsked(c, run, k)
    requires j < |run| && run[j].Approve? && Id(run[j]) == Id(run[i])
    ensures !Approved(c, run, j)
  {
    if Approved(c, run, j) {
      var origin := ApprovalOrigin(c, run, j);
    }
  }

  /** A successful approval carries at least three leading witness entries that verify against
      the challenge of its request. They need not be of different signers. */
  lemma ApprovalHasThreeWitnesses(c: Crypto, run: seq<Event>, j: nat) returns (i: nat)
    requires Approved(c, run, j)
    ensures PendingSince(c, run, j, i)
    ensures run[j].approval.quorumCount >= Popcount(QUORUM_MASK_TRIAD_DEFAULT) == 3
    ensures LeadingWitnessesVerify(c, run[j].approval, ChallengeFor(c, run[i].proposal, run[i].nonce), 3)
  {
    i := ApprovalOrigin(c, run, j);
    PopcountMonotone(run[j].approval.signerBitmap, QUORUM_MASK_TRIAD_DEFAULT);
  }

  lemma {:induction false} PrefixState(c: Crypto, run: seq<Event>, more: seq<Event>, n: nat)
    requires n <= |run|
    ensures StateAt(c, run + more, n) == StateAt(c, run, n)
  {
    hide Step;
    if n != 0 {
      PrefixState(c, run, more, n - 1);
    }
  }

  /** After any run, a well-formed call of a quorum tool under an id above the last one seen is
      asked for, and an approval in order for it then succeeds. */
  lemma FreshRequestCanBeApproved(c: Crypto, run: seq<Event>, p: Proposal, nonce: Nonce, a: Approval)
    requires WellFormed(p) && p.sequenceId > StateAt(c, run, |run|).lastSeenSequenceId
    requires PolicyFor(p.toolId).Some? && PolicyFor(p.toolId).value.decision == DECISION_QUORUM
    requires Redeems(c, a, Propose(p, nonce))
    ensures var longer := run + [Propose(p, nonce), Approve(a)];
            QuorumAsked(c, longer, |run|) && Approved(c, longer, |run| + 1)
  {
    hide ProposalStep, ApprovalStep, WellFormed, PolicyFor, Redeems;
    var n, longer := |run|, run + [Propose(p, nonce), Approve(a)];
    PrefixState(c, run, [Propose(p, nonce), Approve(a)], n);
    AdmissionExactly(c, StateAt(c, run, n), p, nonce);
    assert longer[n] == Propose(p, nonce) && longer[n + 1] == Approve(a);
    assert StateAt(c, longer, n + 1) == Step(c, StateAt(c, longer, n), longer[n]).0;
    RedeemsExactly(c, StateAt(c, longer, n + 1), a, Propose(p, nonce));
  }

  const MAX_ID: u64 := 0xFFFF_FFFF_FFFF_FFFF

  /** A call of READ_FILE with one argument byte. */
  function SmallCall(sequenceId: u64): Proposal {
    Proposal(SOVP_MAGIC, SOVP_VERSION, TOOL_READ_FILE, sequenceId, 0, 1, 0, 0, Zeros(992))
  }

  lemma SmallCallAccepted(c: Crypto, run: seq<Event>, sequenceId: u64, nonce: Nonce)
    requires sequenceId > StateAt(c, run, |run|).lastSeenSequenceId
    ensures var longer := run + [Propose(SmallCall(sequenceId), nonce)];
            Accepted(c, longer, |run|) && StateAt(c, longer, |run| + 1).lastSeenSequenceId == sequenceId
  {
    hide ProposalStep, WellFormed;
    var p := SmallCall(sequenceId);
    var longer := run + [Propose(p, nonce)];
    PrefixState(c, run, [Propose(p, nonce)], |run|);
    SmallCallWellFormed(sequenceId);
    AdmissionExactly(c, StateAt(c, run, |run|), p, nonce);
    assert longer[|run|] == Propose(p, nonce);
    StepEffect(c, longer, |run|);
  }

  lemma SmallCallWellFormed(sequenceId: u64)
    ensures WellFormed(SmallCall(sequenceId))
  {
    WellFormedMeansPolicy(SmallCall(sequenceId));
  }

  /** After a run some further proposal can be accepted exactly when the last id of all has not
      been seen. */
  lemma OpenToProposalsExactly(c: Crypto, run: seq<Event>)
    ensures (exists p, nonce :: Accepted(c, run + [Propose(p, nonce)], |run|)) <==>
            StateAt(c, run, |run|).lastSeenSequenceId < MAX_ID
  {
    hide Accepted, StateAt;
    var last := StateAt(c, run, |run|).lastSeenSequenceId;
    if last < MAX_ID {
      SmallCallAccepted(c, run, last + 1, Zeros(16));
    }
    if p, nonce :| Accepted(c, run + [Propose(p, nonce)], |run|) {
      PrefixState(c, run, [Propose(p, nonce)], |run|);
      StepEffect(c, run + [Propose(p, nonce)], |run|);
    }
  }

  /** Once the last id has been seen, nothing is ever accepted again. */
  lemma ClosedForEver(c: Crypto, run: seq<Event>, n: nat, j: nat)
    requires n <= j < |run| && StateAt(c, run, n).lastSeenSequenceId == MAX_ID
    ensures !Accepted(c, run, j)
  {
    hide Accepted, StateAt;
    LastSeenGrows(c, run, n, j);
    StepEffect(c, run, j);
  }

  /** One proposal is enough for that: whatever follows it is refused. */
  lemma OneProposalClosesTheGate(c: Crypto, nonce: Nonce, rest: seq<Event>, j: nat)
    requires 1 <= j <= |rest|
    ensures var run := [Propose(SmallCall(MAX_ID), nonce)] + rest;
            Accepted(c, run, 0) && !Accepted(c, run, j)
  {
    hide Accepted;
    var first := [Propose(SmallCall(MAX_ID), nonce)];
    SmallCallAccepted(c, [], MAX_ID, nonce);
    assert [] + first == first;
    AcceptedInPrefix(c, first, rest, 0);
    PrefixState(c, first, rest, 1);
    ClosedForEver(c, first + rest, 1, j);
  }

  lemma AcceptedInPrefix(c: Crypto, run: seq<Event>, more: seq<Event>, i: nat)
    requires i < |run|
    ensures Accepted(c, run + more, i) == Accepted(c, run, i)
  {
    hide Step;
    PrefixState(c, run, more, i);
  }

  /** The witnesses counted are entries of the frame, not signers: one valid entry, listed in
      every place, redeems. */
  lemma OneSignerFillsTheEntries(c: Crypto, e: Event, w: Witness)
    requires e.Propose?
    ensures Redeems(c, Approval(SOVQ_MAGIC, SOVP_VERSION, Id(e), 7, 3, [w, w, w, w]), e) <==>
            c.verify(w.publicKey, w.signature, ChallengeFor(c, e.proposal, e.nonce))
  {
    hide ChallengeFor;
    assert Popcount(7) == 3 && And(7, 7) == 7;
    var a := Approval(SOVQ_MAGIC, SOVP_VERSION, Id(e), 7, 3, [w, w, w, w]);
    var challenge := ChallengeFor(c, e.proposal, e.nonce);
    if LeadingWitnessesVerify(c, a, challenge, 3) {
      assert c.verify(a.witnesses[0].publicKey, a.witnesses[0].signature, challenge);
    }
  }

  // ---------------------------------------------------------------------
  // Challenges

  lemma PreImageInjective(f: ProposalFrame, n: Nonce, f': ProposalFrame, n': Nonce)
    requires PreImage(f, n) == PreImage(f', n')
    ensures f == f' && n == n'
  {
    assert f == PreImage(f, n)[15..1039] && f' == PreImage(f', n')[15..1039];
    assert n == PreImage(f, n)[1039..] && n' == PreImage(f', n')[1039..];
  }

  /** Two challenges are equal only for the same proposal and nonce, or else the two pre-images
      are a collision of the hash. */
  lemma ChallengeBinding(c: Crypto, p: Proposal, n: Nonce, p': Proposal, n': Nonce)
    requires ChallengeFor(c, p, n) == ChallengeFor(c, p', n')
    ensures var x, x' := PreImage(EncodeProposal(p), n), PreImage(EncodeProposal(p'), n');
            (p == p' && n == n') || (x != x' && c.sha512(x) == c.sha512(x'))
  {
    if PreImage(EncodeProposal(p), n) == PreImage(EncodeProposal(p'), n') {
      PreImageInjective(EncodeProposal(p), n, EncodeProposal(p'), n');
      DecodeEncodeProposal(p);
      DecodeEncodeProposal(p');
    }
  }
}
