/** The guest's agent: packing of frames. */
module SovrAgent {
  import opened Words
  import opened Bytes
  import opened PythonBytes
  import opened SovereignProposal
  import opened GateSpec

  /** `pack_witness` */
  function PackWitness(signerIdx: int, sig: seq<byte>, pubkey: seq<byte>): Packed {
    if !FitsU8(signerIdx) then StructError
    else Frame([signerIdx as byte] + Zeros(7) + Fit(sig, 64) + Fit(pubkey, 32))
  }

  /** `pack_proposal`. Or-ing the version 1 into `tool_id << 16` adds it, for every integer. */
  function PackProposal(toolId: int, sequenceId: int, sessionId: int, payload: seq<byte>): Packed {
    var verTool := 1 + toolId * 0x1_0000;
    if |payload| > 992 then ValueError
    else if !(0 <= verTool < 0x1_0000_0000) || !FitsU64(sequenceId) || !FitsU64(sessionId) then StructError
    else
      Frame(LE(SOVP_MAGIC, 4) + LE(verTool, 4) + LE(sequenceId, 8)
            + (LE(sessionId, 8) + LE(|payload|, 2) + LE(0, 2) + LE(0, 4)) + Ljust(payload, 992))
  }

  /** `pack_approval` */
  function PackApproval(sequenceId: int, signerBitmap: int, witnesses: seq<seq<byte>>): Packed {
    if !FitsU64(sequenceId) || !FitsU8(signerBitmap) || !FitsU8(|witnesses|) then StructError
    else
      var frame := LE(SOVQ_MAGIC, 4) + LE(1, 2) + LE(0, 2) + LE(sequenceId, 8)
                   + [signerBitmap as byte] + [|witnesses| as byte] + Zeros(6) + Ljust(Join(witnesses), 416);
      if |frame| != 440 then AssertionError else Frame(frame)
  }

  // ---------------------------------------------------------------------
  // Round trips

  predicate Packable(toolId: int, sequenceId: int, sessionId: int, payload: seq<byte>) {
    FitsU16(toolId) && FitsU64(sequenceId) && FitsU64(sessionId) && |payload| <= 992
  }

  /** The record that a packed proposal stands for. */
  function ProposalOf(toolId: int, sequenceId: int, sessionId: int, payload: seq<byte>): Proposal
    requires Packable(toolId, sequenceId, sessionId, payload)
  {
    Proposal(SOVP_MAGIC, SOVP_VERSION, toolId, sequenceId, sessionId, |payload|, 0, 0, payload + Zeros(992 - |payload|))
  }

  /** The 32-bit word of version and tool is the two 16-bit fields side by side. */
  lemma VersionToolWord(toolId: u16)
    ensures LE(1 + toolId * 0x1_0000, 4) == LE(1, 2) + LE(toolId, 2)
  {
    var w := 1 + toolId * 0x1_0000;
    assert w / 256 / 256 == toolId;
    assert LE(w, 4) == [w % 256] + LE(w / 256, 3) && LE(w / 256, 3) == [w / 256 % 256] + LE(w / 256 / 256, 2);
    assert LE(1, 2) == [1] + LE(0, 1) && LE(0, 1) == [0] + LE(0, 0);
  }

  /** Packing succeeds exactly for a 16-bit tool, 64-bit ids and at most 992 bytes of payload;
      the 1024 bytes then decode, for the C reader and for the Python reader, to the very fields
      packed, with version 1 and zero padding. */
  lemma ProposalRoundTrip(toolId: int, sequenceId: int, sessionId: int, payload: seq<byte>)
    ensures PackProposal(toolId, sequenceId, sessionId, payload).Frame?
            <==> Packable(toolId, sequenceId, sessionId, payload)
    ensures Packable(toolId, sequenceId, sessionId, payload) ==>
              var f := PackProposal(toolId, sequenceId, sessionId, payload).bytes;
              var p := ProposalOf(toolId, sequenceId, sessionId, payload);
              && |f| == 1024 && DecodeProposal(f) == p && CanonicalPadding(p) && p.args[..|payload|] == payload
              && p.magic == 0x534F5650 && p.version == 1 && p.toolId == toolId && p.sequenceId == sequenceId
              && p.sessionId == sessionId && p.argLen == |payload| && p.reserved0 == 0 && p.reserved1 == 0
  {
    if Packable(toolId, sequenceId, sessionId, payload) {
      var p := ProposalOf(toolId, sequenceId, sessionId, payload);
      VersionToolWord(toolId);
      var f := PackProposal(toolId, sequenceId, sessionId, payload).bytes;
      assert LE(SOVP_MAGIC, 4) + LE(1 + toolId * 0x1_0000, 4) + LE(sequenceId, 8) == IdentityFields(p);
      assert f == EncodeProposal(p);
      DecodeEncodeProposal(p);
    }
  }

  /** A signature and a key of their proper lengths. */
  type ProperWitness = w: Witness | |w.signature| == 64 && |w.publicKey| == 32
    witness Witness(Zeros(64), Zeros(32))

  function WitnessBytes(w: ProperWitness, i: byte): (s: seq<byte>)
    ensures |s| == 104
  {
    [i] + Zeros(7) + w.signature + w.publicKey
  }

  /** The witnesses as the agent packs them, one after the other. */
  function PackedWitnesses(ws: seq<ProperWitness>): (parts: seq<seq<byte>>)
    requires |ws| <= 4
    ensures |parts| == |ws| && forall i :: 0 <= i < |ws| ==> parts[i] == WitnessBytes(ws[i], i)
  {
    seq(|ws|, i requires 0 <= i < |ws| => WitnessBytes(ws[i], i))
  }

  lemma PackWitnessBytes(w: ProperWitness, i: byte)
    ensures PackWitness(i, w.signature, w.publicKey) == Frame(WitnessBytes(w, i))
  {
  }

  function ApprovalHeader(sequenceId: u64, signerBitmap: byte, count: byte): (s: seq<byte>)
    ensures |s| == 24
  {
    Head16(SOVQ_MAGIC, 1, 0, sequenceId) + [signerBitmap, count] + Zeros(6)
  }

  lemma ApprovalHeaderBytes(sequenceId: u64, signerBitmap: byte, count: byte, body: seq<byte>)
    ensures var f := ApprovalHeader(sequenceId, signerBitmap, count) + body;
            && f == LE(SOVQ_MAGIC, 4) + LE(1, 2) + LE(0, 2) + LE(sequenceId, 8)
                    + [signerBitmap] + [count] + Zeros(6) + body
            && f[0..4] == LE(SOVQ_MAGIC, 4) && f[4..6] == LE(1, 2) && f[8..16] == LE(sequenceId, 8)
            && f[16] == signerBitmap && f[17] == count
  {
    var h := Head16(SOVQ_MAGIC, 1, 0, sequenceId);
    var f := ApprovalHeader(sequenceId, signerBitmap, count) + body;
    Head16Layout(SOVQ_MAGIC, 1, 0, sequenceId);
    assert f[0..4] == h[0..4] && f[4..6] == h[4..6] && f[8..16] == h[8..16];
  }

  /** One witness entry of a packed approval, where the decoder looks for it. */
  lemma WitnessRoundTrip(f: ApprovalFrame, header: seq<byte>, ws: seq<ProperWitness>, i: nat)
    requires |header| == 24 && i < |ws| <= 4
    requires f == header + Ljust(Join(PackedWitnesses(ws)), 416)
    ensures DecodeWitness(f, i) == ws[i] && f[24 + 104 * i..32 + 104 * i] == [i] + Zeros(7)
  {
    var parts := PackedWitnesses(ws);
    var body := Ljust(Join(parts), 416);
    var entry := WitnessBytes(ws[i], i);
    JoinAt(parts, 104, i);
    assert body[104 * i..104 * i + 104] == entry;
    DropFirst(header, body, 104 * i, 104 * i + 8);
    SliceOfSlice(body, 104 * i, 104 * i + 104, 0, 8);
    assert entry[0..8] == [i] + Zeros(7);
    DropFirst(header, body, 104 * i + 8, 104 * i + 72);
    DropFirst(header, body, 104 * i + 72, 104 * i + 104);
    SliceOfSlice(body, 104 * i, 104 * i + 104, 8, 72);
    SliceOfSlice(body, 104 * i, 104 * i + 104, 72, 104);
    assert entry[8..72] == ws[i].signature && entry[72..104] == ws[i].publicKey;
  }

  /** An approval of up to four witnesses packs to 440 bytes that decode to the same sequence
      number, bitmap, count and witnesses. */
  lemma ApprovalRoundTrip(sequenceId: u64, signerBitmap: byte, ws: seq<ProperWitness>)
    requires |ws| <= 4
    ensures var packed := PackApproval(sequenceId, signerBitmap, PackedWitnesses(ws));
            && packed.Frame? && |packed.bytes| == 440
            && var a := DecodeApproval(packed.bytes);
               && a.magic == SOVQ_MAGIC && a.version == SOVP_VERSION && a.sequenceId == sequenceId
               && a.signerBitmap == signerBitmap && a.quorumCount == |ws|
               && forall i :: 0 <= i < |ws| ==> a.witnesses[i] == ws[i]
  {
    var parts := PackedWitnesses(ws);
    JoinLength(parts, 104);
    var header := ApprovalHeader(sequenceId, signerBitmap, |ws|);
    var f := header + Ljust(Join(parts), 416);
    ApprovalHeaderBytes(sequenceId, signerBitmap, |ws|, Ljust(Join(parts), 416));
    assert PackApproval(sequenceId, signerBitmap, parts) == Frame(f);
    ReadU32(f, 0, SOVQ_MAGIC);
    ReadU16(f, 4, 1);
    ReadU64(f, 8, sequenceId);
    forall i | 0 <= i < |ws|
      ensures DecodeApproval(f).witnesses[i] == ws[i]
    {
      WitnessRoundTrip(f, header, ws, i);
    }
  }

  /** Where everything lies in a packed approval. */
  lemma ApprovalLayout(sequenceId: u64, signerBitmap: byte, ws: seq<ProperWitness>)
    requires |ws| <= 4
    ensures var packed := PackApproval(sequenceId, signerBitmap, PackedWitnesses(ws));
            && packed.Frame? && |packed.bytes| == 440
            && var f := packed.bytes;
            && U32At(f, 0) == 0x534F5651 && U16At(f, 4) == 1 && U64At(f, 8) == sequenceId
            && f[16] == signerBitmap && f[17] == |ws|
            && (forall i :: 0 <= i < |ws| ==>
                  && f[24 + 104 * i..32 + 104 * i] == [i] + Zeros(7)
                  && f[32 + 104 * i..96 + 104 * i] == ws[i].signature
                  && f[96 + 104 * i..128 + 104 * i] == ws[i].publicKey)
            && forall k :: 24 + 104 * |ws| <= k < 440 ==> f[k] == 0
  {
    var parts := PackedWitnesses(ws);
    ApprovalRoundTrip(sequenceId, signerBitmap, ws);
    JoinLength(parts, 104);
    var f := PackApproval(sequenceId, signerBitmap, parts).bytes;
    ApprovalHeaderBytes(sequenceId, signerBitmap, |ws|, Ljust(Join(parts), 416));
    assert f == ApprovalHeader(sequenceId, signerBitmap, |ws|) + Ljust(Join(parts), 416);
    forall i | 0 <= i < |ws|
      ensures f[24 + 104 * i..32 + 104 * i] == [i] + Zeros(7)
      ensures f[32 + 104 * i..96 + 104 * i] == ws[i].signature && f[96 + 104 * i..128 + 104 * i] == ws[i].publicKey
    {
      WitnessRoundTrip(f, ApprovalHeader(sequenceId, signerBitmap, |ws|), ws, i);
    }
  }

  /** Whatever byte strings are passed as witnesses: packing succeeds exactly when the numbers
      fit their fields and the strings together fit 416 bytes. */
  lemma ApprovalPacksExactly(sequenceId: int, signerBitmap: int, witnesses: seq<seq<byte>>)
    ensures PackApproval(sequenceId, signerBitmap, witnesses).Frame? <==>
            FitsU64(sequenceId) && FitsU8(signerBitmap) && |witnesses| < 256 && |Join(witnesses)| <= 416
  {
  }
}
