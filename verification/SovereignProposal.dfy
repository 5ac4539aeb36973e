/** Frames, page layout and policy shared by the guest and the gate. */
module SovereignProposal {
  import opened Words
  import opened Bytes

  datatype Option<+T> = None | Some(value: T)

  const SOVP_MAGIC: u32 := 0x534F5650
  const SOVV_MAGIC: u32 := 0x534F5656
  const SOVQ_MAGIC: u32 := 0x534F5651
  const SOVX_MAGIC: u32 := 0x534F5658

  const SOVP_VERSION: u16 := 1
  const SOVP_MAX_ARGS: nat := 992
  const SOVP_MAX_RESULT: nat := 1008
  const SOVP_NONCE_LEN: nat := 16
  const SOVP_CHALLENGE_LEN: nat := 64
  const MAX_QUORUM_SIGNERS: nat := 4
  const PROPOSAL_SIZE: nat := 1024
  const APPROVAL_SIZE: nat := 440
  const VERDICT_SIZE: nat := 96
  const WITNESS_SIZE: nat := 104

  /** "SOVP-APPROVE-v1" */
  const SOVP_DOMAIN_SEP: seq<byte> :=
    [0x53, 0x4F, 0x56, 0x50, 0x2D, 0x41, 0x50, 0x50, 0x52, 0x4F, 0x56, 0x45, 0x2D, 0x76, 0x31]

  const PAGE_SIZE: nat := 4096
  const SOVP_OFFSET_PROPOSAL: nat := 0x0000
  const SOVP_OFFSET_APPROVAL: nat := 0x0400
  const SOVP_OFFSET_VERDICT: nat := 0x0600
  const SOVP_OFFSET_RESULT: nat := 0x0800

  const TOOL_READ_FILE: u16 := 0x0001
  const TOOL_HTTP_GET: u16 := 0x0002
  const TOOL_WRITE_FILE: u16 := 0x0101
  const TOOL_SEND_MESSAGE: u16 := 0x0102

  const DECISION_DENY: byte := 0
  const DECISION_ALLOW: byte := 1
  const DECISION_QUORUM: byte := 2

  const STATUS_OK: u16 := 0x0000
  const ERR_MAGIC: u16 := 0xE001
  const ERR_VERSION: u16 := 0xE002
  const ERR_ARGS_LEN: u16 := 0xE003
  const ERR_CANONICAL: u16 := 0xE004
  const ERR_SEQUENCE: u16 := 0xE005
  const ERR_UNKNOWN_TOOL: u16 := 0xE006
  const PENDING_APPROVAL: u16 := 0xE007
  const ERR_STALE: u16 := 0xE008
  const ERR_QUORUM_COUNT: u16 := 0xE00A
  const ERR_SIG_FAIL: u16 := 0xE00B

  const QUORUM_MASK_TRIAD_DEFAULT: byte := 0x07

  // ---------------------------------------------------------------------
  // Records

  type Nonce = s: seq<byte> | |s| == SOVP_NONCE_LEN witness Zeros(SOVP_NONCE_LEN)
  type Digest = s: seq<byte> | |s| == SOVP_CHALLENGE_LEN witness Zeros(SOVP_CHALLENGE_LEN)
  type Args = s: seq<byte> | |s| == SOVP_MAX_ARGS witness Zeros(SOVP_MAX_ARGS)
  type ProposalFrame = s: seq<byte> | |s| == PROPOSAL_SIZE witness Zeros(PROPOSAL_SIZE)
  type ApprovalFrame = s: seq<byte> | |s| == APPROVAL_SIZE witness Zeros(APPROVAL_SIZE)
  type VerdictFrame = s: seq<byte> | |s| == VERDICT_SIZE witness Zeros(VERDICT_SIZE)
  type Page = s: seq<byte> | |s| == PAGE_SIZE witness Zeros(PAGE_SIZE)

  datatype Proposal = Proposal(magic: u32, version: u16, toolId: u16, sequenceId: u64, sessionId: u64,
                               argLen: u16, reserved0: u16, reserved1: u32, args: Args)

  datatype Verdict = Verdict(magic: u32, status: u16, decision: byte, requiredMask: byte, sequenceId: u64,
                             nonce: Nonce, challenge: Digest)

  datatype Witness = Witness(signature: seq<byte>, publicKey: seq<byte>)

  type Witnesses = s: seq<Witness> | |s| == MAX_QUORUM_SIGNERS
    witness seq(MAX_QUORUM_SIGNERS, i => Witness([], []))

  /** The fields of an approval that the gate looks at. */
  datatype Approval = Approval(magic: u32, version: u16, sequenceId: u64, signerBitmap: byte, quorumCount: byte,
                               witnesses: Witnesses)

  // ---------------------------------------------------------------------
  // Frames as bytes

  /** The first 16 bytes that proposal, approval and result frames have in common: magic, two
      16-bit fields, sequence id. */
  function Head16(magic: u32, a: u16, b: u16, sequenceId: u64): (s: seq<byte>)
    ensures |s| == 16
  {
    LE(magic, 4) + LE(a, 2) + LE(b, 2) + LE(sequenceId, 8)
  }

  lemma Head16Layout(magic: u32, a: u16, b: u16, sequenceId: u64)
    ensures var h := Head16(magic, a, b, sequenceId);
            h[0..4] == LE(magic, 4) && h[4..6] == LE(a, 2) && h[6..8] == LE(b, 2) && h[8..16] == LE(sequenceId, 8)
  {
    hide LE;
    FourParts(LE(magic, 4), LE(a, 2), LE(b, 2), LE(sequenceId, 8));
  }

  lemma FourParts(m: seq<byte>, a: seq<byte>, b: seq<byte>, q: seq<byte>)
    requires |m| == 4 && |a| == 2 && |b| == 2 && |q| == 8
    ensures var h := m + a + b + q; h[0..4] == m && h[4..6] == a && h[6..8] == b && h[8..16] == q
  {
  }

  function IdentityFields(p: Proposal): (s: seq<byte>)
    ensures |s| == 16
  {
    Head16(p.magic, p.version, p.toolId, p.sequenceId)
  }

  function SessionFields(p: Proposal): (s: seq<byte>)
    ensures |s| == 16
  {
    LE(p.sessionId, 8) + LE(p.argLen, 2) + LE(p.reserved0, 2) + LE(p.reserved1, 4)
  }

  function EncodeProposal(p: Proposal): ProposalFrame {
    IdentityFields(p) + SessionFields(p) + p.args
  }

  /** The C view of a proposal: a packed record over the bytes. */
  function DecodeProposal(f: ProposalFrame): Proposal {
    Proposal(U32At(f, 0), U16At(f, 4), U16At(f, 6), U64At(f, 8), U64At(f, 16),
             U16At(f, 24), U16At(f, 26), U32At(f, 28), f[32..])
  }

  lemma SessionLayout(p: Proposal)
    ensures var b := SessionFields(p);
            b[0..8] == LE(p.sessionId, 8) && b[8..10] == LE(p.argLen, 2) &&
            b[10..12] == LE(p.reserved0, 2) && b[12..16] == LE(p.reserved1, 4)
  {
  }

  lemma Sections(a: seq<byte>, b: seq<byte>, c: seq<byte>)
    requires |a| == 16 && |b| == 16
    ensures var f := a + b + c;
            && f[0..4] == a[0..4] && f[4..6] == a[4..6] && f[6..8] == a[6..8] && f[8..16] == a[8..16]
            && f[16..24] == b[0..8] && f[24..26] == b[8..10] && f[26..28] == b[10..12] && f[28..32] == b[12..16]
            && f[32..] == c
  {
  }

  lemma ProposalLayout(p: Proposal)
    ensures var f := EncodeProposal(p);
            && f[0..4] == LE(p.magic, 4) && f[4..6] == LE(p.version, 2) && f[6..8] == LE(p.toolId, 2)
            && f[8..16] == LE(p.sequenceId, 8) && f[16..24] == LE(p.sessionId, 8)
            && f[24..26] == LE(p.argLen, 2) && f[26..28] == LE(p.reserved0, 2) && f[28..32] == LE(p.reserved1, 4)
            && f[32..] == p.args
  {
    Sections(IdentityFields(p), SessionFields(p), p.args);
    Head16Layout(p.magic, p.version, p.toolId, p.sequenceId);
    SessionLayout(p);
  }

  lemma DecodeEncodeProposal(p: Proposal)
    ensures DecodeProposal(EncodeProposal(p)) == p
  {
    var f := EncodeProposal(p);
    ProposalLayout(p);
    ReadU32(f, 0, p.magic);
    ReadU16(f, 4, p.version);
    ReadU16(f, 6, p.toolId);
    ReadU64(f, 8, p.sequenceId);
    ReadU64(f, 16, p.sessionId);
    ReadU16(f, 24, p.argLen);
    ReadU16(f, 26, p.reserved0);
    ReadU32(f, 28, p.reserved1);
  }

  lemma IdentityRebuilt(f: ProposalFrame)
    ensures IdentityFields(DecodeProposal(f)) == f[0..16]
  {
    LEOfFromLE(f[0..4]);
    LEOfFromLE(f[4..6]);
    LEOfFromLE(f[6..8]);
    LEOfFromLE(f[8..16]);
    assert f[0..16] == f[0..4] + f[4..6] + f[6..8] + f[8..16];
  }

  lemma SessionRebuilt(f: ProposalFrame)
    ensures SessionFields(DecodeProposal(f)) == f[16..32]
  {
    LEOfFromLE(f[16..24]);
    LEOfFromLE(f[24..26]);
    LEOfFromLE(f[26..28]);
    LEOfFromLE(f[28..32]);
    assert f[16..32] == f[16..24] + f[24..26] + f[26..28] + f[28..32];
  }

  lemma DecodedArgs(f: ProposalFrame)
    ensures DecodeProposal(f).args == f[32..]
  {
  }

  /** The record covers every byte: re-encoding it gives the frame back. */
  lemma EncodeDecodeProposal(f: ProposalFrame)
    ensures EncodeProposal(DecodeProposal(f)) == f
  {
    DecodedArgs(f);
    hide DecodeProposal, IdentityFields, SessionFields;
    IdentityRebuilt(f);
    SessionRebuilt(f);
    assert f == f[0..16] + f[16..32] + f[32..];
  }

  function EncodeVerdict(v: Verdict): VerdictFrame {
    LE(v.magic, 4) + LE(v.status, 2) + [v.decision] + [v.requiredMask] + LE(v.sequenceId, 8) + v.nonce + v.challenge
  }

  function DecodeVerdict(f: VerdictFrame): Verdict {
    Verdict(U32At(f, 0), U16At(f, 4), f[6], f[7], U64At(f, 8), f[16..32], f[32..96])
  }

  lemma VerdictSections(m: seq<byte>, s: seq<byte>, decision: byte, mask: byte, q: seq<byte>, n: seq<byte>,
                        d: seq<byte>)
    requires |m| == 4 && |s| == 2 && |q| == 8 && |n| == 16 && |d| == 64
    ensures var h := m + s + [decision] + [mask] + q;
            var f := h + n + d;
            && f[0..4] == m && f[4..6] == s && f[6] == decision && f[7] == mask && f[8..16] == q
            && f[16..32] == n && f[32..96] == d
  {
    var h := m + s + [decision] + [mask] + q;
    assert h[0..4] == m && h[4..6] == s && h[8..16] == q;
    ThreeParts(h, n, d);
  }

  lemma ThreeParts(h: seq<byte>, n: seq<byte>, d: seq<byte>)
    requires |h| == 16 && |n| == 16 && |d| == 64
    ensures var f := h + n + d;
            && f[0..4] == h[0..4] && f[4..6] == h[4..6] && f[6] == h[6] && f[7] == h[7] && f[8..16] == h[8..16]
            && f[16..32] == n && f[32..96] == d
  {
  }

  lemma DecodeEncodeVerdict(v: Verdict)
    ensures DecodeVerdict(EncodeVerdict(v)) == v
  {
    var f := EncodeVerdict(v);
    VerdictSections(LE(v.magic, 4), LE(v.status, 2), v.decision, v.requiredMask, LE(v.sequenceId, 8), v.nonce,
                    v.challenge);
    ReadU32(f, 0, v.magic);
    ReadU16(f, 4, v.status);
    ReadU64(f, 8, v.sequenceId);
  }

  function DecodeWitness(f: ApprovalFrame, i: nat): Witness
    requires i < MAX_QUORUM_SIGNERS
  {
    var at := 24 + WITNESS_SIZE * i;
    Witness(f[at + 8..at + 72], f[at + 72..at + 104])
  }

  function DecodeApproval(f: ApprovalFrame): Approval {
    Approval(U32At(f, 0), U16At(f, 4), U64At(f, 8), f[16], f[17],
             [DecodeWitness(f, 0), DecodeWitness(f, 1), DecodeWitness(f, 2), DecodeWitness(f, 3)])
  }

  // ---------------------------------------------------------------------
  // Policy

  datatype ToolPolicy = ToolPolicy(toolId: u16, decision: byte, requiredMask: byte, minArgLen: u16, maxArgLen: u16)

  const SOVP_POLICY: seq<ToolPolicy> := [
    ToolPolicy(TOOL_READ_FILE, DECISION_ALLOW, 0, 1, 256),
    ToolPolicy(TOOL_HTTP_GET, DECISION_ALLOW, 0, 1, 512),
    ToolPolicy(TOOL_WRITE_FILE, DECISION_QUORUM, QUORUM_MASK_TRIAD_DEFAULT, 2, 992),
    ToolPolicy(TOOL_SEND_MESSAGE, DECISION_QUORUM, QUORUM_MASK_TRIAD_DEFAULT, 2, 992)
  ]

  function PolicyFor(toolId: u16): Option<ToolPolicy> {
    if toolId == TOOL_READ_FILE then Some(SOVP_POLICY[0])
    else if toolId == TOOL_HTTP_GET then Some(SOVP_POLICY[1])
    else if toolId == TOOL_WRITE_FILE then Some(SOVP_POLICY[2])
    else if toolId == TOOL_SEND_MESSAGE then Some(SOVP_POLICY[3])
    else None
  }

  /** A tool that the policy lets run without a quorum. */
  predicate OpenTool(toolId: u16) {
    PolicyFor(toolId).Some? && PolicyFor(toolId).value.decision == DECISION_ALLOW
  }

  /** The table, tool by tool. */
  lemma PolicyTable(toolId: u16)
    ensures PolicyFor(toolId) ==
            if toolId == 0x0001 then Some(ToolPolicy(0x0001, 1, 0, 1, 256))
            else if toolId == 0x0002 then Some(ToolPolicy(0x0002, 1, 0, 1, 512))
            else if toolId == 0x0101 then Some(ToolPolicy(0x0101, 2, 7, 2, 992))
            else if toolId == 0x0102 then Some(ToolPolicy(0x0102, 2, 7, 2, 992))
            else None
  {
  }

  /** Every policy of the table allows outright with an empty mask or asks for the triad. */
  lemma PolicyShape(toolId: u16)
    requires PolicyFor(toolId).Some?
    ensures var policy := PolicyFor(toolId).value;
            && policy in SOVP_POLICY && policy.toolId == toolId
            && 1 <= policy.minArgLen <= policy.maxArgLen <= SOVP_MAX_ARGS
            && ((policy.decision == DECISION_ALLOW && policy.requiredMask == 0) ||
                (policy.decision == DECISION_QUORUM && policy.requiredMask == QUORUM_MASK_TRIAD_DEFAULT))
  {
  }
}
