/** The gate emulated in Python, on the transport's own page: a second implementation, with
    the pending challenge encoded by a non-zero sequence number. */
module UioTransport {
  import opened Bits
  import opened Words
  import opened Bytes
  import opened SovereignProposal

  /** The attributes of `SovereignGateUIO` and its page. */
  datatype Emulator = Emulator(lastSeq: u64, activeSeq: u64, activeMask: byte, activeChallenge: Digest, mem: Page)

  /** decision, required mask, minimum and maximum argument length */
  const POLICY: map<u16, (byte, byte, int, int)> := map[
    TOOL_READ_FILE := (DECISION_ALLOW, 0, 1, 256),
    TOOL_HTTP_GET := (DECISION_ALLOW, 0, 1, 512),
    TOOL_WRITE_FILE := (DECISION_QUORUM, 0x07, 2, 992),
    TOOL_SEND_MESSAGE := (DECISION_QUORUM, 0x07, 2, 992)
  ]

  /** `bytes(range(0xA0, 0xB0))` */
  const FIXED_NONCE: seq<byte> :=
    [0xA0, 0xA1, 0xA2, 0xA3, 0xA4, 0xA5, 0xA6, 0xA7, 0xA8, 0xA9, 0xAA, 0xAB, 0xAC, 0xAD, 0xAE, 0xAF]

  /** "EXEC_WRITE_OK\n" and "EXEC_READ_OK\n" */
  const EXEC_WRITE_OK: seq<byte> :=
    [0x45, 0x58, 0x45, 0x43, 0x5F, 0x57, 0x52, 0x49, 0x54, 0x45, 0x5F, 0x4F, 0x4B, 0x0A]
  const EXEC_READ_OK: seq<byte> :=
    [0x45, 0x58, 0x45, 0x43, 0x5F, 0x52, 0x45, 0x41, 0x44, 0x5F, 0x4F, 0x4B, 0x0A]

  function VerdictBytes(status: u16, decision: byte, mask: byte, seqId: u64, nonce: Nonce,
      challenge: Digest): VerdictFrame {
    EncodeVerdict(Verdict(SOVV_MAGIC, status, decision, mask, seqId, nonce, challenge))
  }

  function DenyBytes(status: u16, seqId: u64): VerdictFrame {
    VerdictBytes(status, DECISION_DENY, 0, seqId, Zeros(16), Zeros(64))
  }

  function ResultBytes(msg: seq<byte>, seqId: u64): (s: seq<byte>)
    requires |msg| <= SOVP_MAX_RESULT
    ensures |s| == 1024
  {
    LE(SOVX_MAGIC, 4) + LE(STATUS_OK, 2) + LE(|msg|, 2) + LE(seqId, 8) + (msg + Zeros(SOVP_MAX_RESULT - |msg|))
  }

  // ---------------------------------------------------------------------
  // Specification of the two writes. A write that does not fit the map raises and writes nothing.

  function ProposalWritten(page: Page, frame: seq<byte>): Page {
    var cleared := Splice(page, SOVP_OFFSET_APPROVAL, Zeros(4));
    if |frame| <= PAGE_SIZE then Splice(cleared, SOVP_OFFSET_PROPOSAL, frame) else cleared
  }

  function ApprovalWritten(page: Page, frame: seq<byte>): Page {
    if SOVP_OFFSET_APPROVAL + |frame| <= PAGE_SIZE then Splice(page, SOVP_OFFSET_APPROVAL, frame) else page
  }

  // ---------------------------------------------------------------------
  // Specification of one ring

  function ApprovalStatus(e: Emulator): u16 {
    var seqId, bitmap, count := U64At(e.mem, 0x408), e.mem[0x410], e.mem[0x411];
    if seqId != e.activeSeq || e.activeSeq == 0 then ERR_STALE
    else if CountOnes(BinDigits(bitmap)) != count || And(bitmap, e.activeMask) != e.activeMask then ERR_QUORUM_COUNT
    else STATUS_OK
  }

  function RingApproval(e: Emulator): Emulator {
    var seqId, status := U64At(e.mem, 0x408), ApprovalStatus(e);
    var decision := if status == STATUS_OK then DECISION_ALLOW else DECISION_DENY;
    var judged := Splice(e.mem, 0x600, VerdictBytes(status, decision, 0, seqId, Zeros(16), Zeros(64)));
    if status == STATUS_OK
    then e.(mem := Splice(Splice(judged, 0x800, ResultBytes(EXEC_WRITE_OK, seqId)), 0x400, Zeros(4)), activeSeq := 0)
    else e.(mem := Splice(judged, 0x400, Zeros(4)))
  }

  predicate DirtyPadding(mem: Page, argLen: nat) {
    exists i :: 32 + argLen <= i < 1024 && mem[i] != 0
  }

  /** The error of the first check that fails, or `STATUS_OK`. */
  function ProposalStatus(e: Emulator): u16 {
    var verTool, seqId, argLen := U32At(e.mem, 4), U64At(e.mem, 8), U16At(e.mem, 24);
    var ver, toolId := verTool % 0x1_0000, verTool / 0x1_0000;
    if U32At(e.mem, 0) != SOVP_MAGIC then ERR_MAGIC
    else if ver != SOVP_VERSION then ERR_VERSION
    else if seqId <= e.lastSeq then ERR_SEQUENCE
    else if argLen > 992 then ERR_ARGS_LEN
    else if DirtyPadding(e.mem, argLen) then ERR_CANONICAL
    else if toolId !in POLICY then ERR_UNKNOWN_TOOL
    else if argLen < POLICY[toolId].2 || argLen > POLICY[toolId].3 then ERR_ARGS_LEN
    else STATUS_OK
  }

  function Challenge(sha512: seq<byte> -> Digest, mem: Page): Digest {
    sha512(SOVP_DOMAIN_SEP + mem[0..1024] + FIXED_NONCE)
  }

  function RingProposal(sha512: seq<byte> -> Digest, e: Emulator): Emulator {
    var seqId, status := U64At(e.mem, 8), ProposalStatus(e);
    if status != STATUS_OK then e.(mem := Splice(e.mem, 0x600, DenyBytes(status, seqId)))
    else
      var toolId := U32At(e.mem, 4) / 0x1_0000;
      if POLICY[toolId].0 == DECISION_ALLOW then
        var judged := Splice(e.mem, 0x600, VerdictBytes(STATUS_OK, DECISION_ALLOW, 0, seqId, Zeros(16), Zeros(64)));
        e.(lastSeq := seqId, mem := Splice(judged, 0x800, ResultBytes(EXEC_READ_OK, seqId)))
      else
        var challenge, mask := Challenge(sha512, e.mem), POLICY[toolId].1;
        var judged := Splice(e.mem, 0x600,
            VerdictBytes(PENDING_APPROVAL, DECISION_QUORUM, mask, seqId, FIXED_NONCE, challenge));
        Emulator(seqId, seqId, mask, challenge, judged)
  }

  function RingDoorbell(sha512: seq<byte> -> Digest, e: Emulator): Emulator {
    if U32At(e.mem, 0x400) == SOVQ_MAGIC then RingApproval(e) else RingProposal(sha512, e)
  }

  // ---------------------------------------------------------------------
  // The Python class, in its emulation mode

  class SovereignGateUIO {
    const sha512: seq<byte> -> Digest
    const mem: array<byte>
    var lastSeq: u64
    var activeSeq: u64
    var activeMask: byte
    var activeChallenge: Digest

    ghost predicate Valid()
      reads this
    {
      mem.Length == PAGE_SIZE
    }

    function View(): Emulator
      requires Valid()
      reads this, mem
    {
      Emulator(lastSeq, activeSeq, activeMask, activeChallenge, mem[..])
    }

    /** `__init__`, without a device: an anonymous page of zeros. */
    constructor (sha512: seq<byte> -> Digest)
      ensures Valid() && fresh(mem) && this.sha512 == sha512
      ensures View() == Emulator(0, 0, 0, Zeros(64), Zeros(PAGE_SIZE))
    {
      this.sha512 := sha512;
      mem := new byte[PAGE_SIZE](i => 0);
      lastSeq := 0;
      activeSeq := 0;
      activeMask := 0;
      activeChallenge := Zeros(64);
      new;
      assert mem[..] == Zeros(PAGE_SIZE);
    }

    /** `mem.seek(off); mem.write(data)`: false stands for the ValueError of a write past the
        end of the map. */
    method MapWrite(off: nat, data: seq<byte>) returns (ok: bool)
      requires Valid()
      modifies mem
      ensures ok <==> off + |data| <= PAGE_SIZE
      ensures mem[..] == if ok then Splice(old(mem[..]), off, data) else old(mem[..])
    {
      ok := off + |data| <= PAGE_SIZE;
      if ok {
        Write(mem, off, data);
      }
    }

    /** `write_proposal` */
    method WriteProposal(frame: seq<byte>) returns (ok: bool)
      requires Valid()
      modifies mem
      ensures ok <==> |frame| <= PAGE_SIZE
      ensures mem[..] == ProposalWritten(old(mem[..]), frame)
    {
      var _ := MapWrite(SOVP_OFFSET_APPROVAL, Zeros(4));
      ok := MapWrite(SOVP_OFFSET_PROPOSAL, frame);
    }

    /** `write_approval` */
    method WriteApproval(frame: seq<byte>) returns (ok: bool)
      requires Valid()
      modifies mem
      ensures ok <==> SOVP_OFFSET_APPROVAL + |frame| <= PAGE_SIZE
      ensures mem[..] == ApprovalWritten(old(mem[..]), frame)
    {
      ok := MapWrite(SOVP_OFFSET_APPROVAL, frame);
    }

    /** `read_verdict` */
    method ReadVerdict() returns (frame: VerdictFrame)
      requires Valid()
      ensures frame == mem[..][0x600..0x660]
    {
      frame := mem[0x600..0x660];
    }

    /** `read_result` */
    method ReadResult() returns (frame: seq<byte>)
      requires Valid()
      ensures frame == mem[..][0x800..0xC00]
    {
      frame := mem[0x800..0xC00];
    }

    /** `_write_deny` */
    method WriteDeny(status: u16, seqId: u64)
      requires Valid()
      modifies mem
      ensures mem[..] == Splice(old(mem[..]), 0x600, DenyBytes(status, seqId))
    {
      Write(mem, SOVP_OFFSET_VERDICT, DenyBytes(status, seqId));
    }

    method RingWithApproval()
      requires Valid() && U32At(mem[..], 0x400) == SOVQ_MAGIC
      modifies this, mem
      ensures Valid() && View() == RingApproval(old(View()))
    {
      var seqId, bitmap, count := U64At(mem[..], 0x408), mem[0x410], mem[0x411];
      var status: u16;
      if seqId != activeSeq || activeSeq == 0 {
        status := ERR_STALE;
      } else if CountOnes(BinDigits(bitmap)) != count || And(bitmap, activeMask) != activeMask {
        status := ERR_QUORUM_COUNT;
      } else {
        status := STATUS_OK;
      }
      var decision := if status == STATUS_OK then DECISION_ALLOW else DECISION_DENY;
      Write(mem, SOVP_OFFSET_VERDICT, VerdictBytes(status, decision, 0, seqId, Zeros(16), Zeros(64)));
      if status == STATUS_OK {
        Write(mem, SOVP_OFFSET_RESULT, ResultBytes(EXEC_WRITE_OK, seqId));
        activeSeq := 0;
      }
      Write(mem, SOVP_OFFSET_APPROVAL, Zeros(4));
    }

    method AnyNonZero(data: seq<byte>) returns (found: bool)
      ensures found <==> exists i :: 0 <= i < |data| && data[i] != 0
    {
      var i := 0;
      while i < |data|
        invariant 0 <= i <= |data| && forall k :: 0 <= k < i ==> data[k] == 0
      {
        if data[i] != 0 {
          return true;
        }
        i := i + 1;
      }
      return false;
    }

    method RingWithProposal()
      requires Valid() && U32At(mem[..], 0x400) != SOVQ_MAGIC
      modifies this, mem
      ensures Valid() && View() == RingProposal(sha512, old(View()))
    {
      ghost var before := View();
      var page: Page := mem[..];
      var magic, verTool, seqId, argLen := U32At(page, 0), U32At(page, 4), U64At(page, 8), U16At(page, 24);
      var ver, toolId := verTool % 0x1_0000, verTool / 0x1_0000;
      var args := page[32..1024];

      if magic != SOVP_MAGIC { WriteDeny(ERR_MAGIC, seqId); return; }
      if ver != SOVP_VERSION { WriteDeny(ERR_VERSION, seqId); return; }
      if seqId <= lastSeq { WriteDeny(ERR_SEQUENCE, seqId); return; }
      if argLen > 992 { WriteDeny(ERR_ARGS_LEN, seqId); return; }
      var dirty := AnyNonZero(args[argLen..]);
      PaddingTail(page, argLen);
      if dirty { WriteDeny(ERR_CANONICAL, seqId); return; }
      if toolId !in POLICY { WriteDeny(ERR_UNKNOWN_TOOL, seqId); return; }
      var (decision, mask, minLen, maxLen) := POLICY[toolId];
      if argLen < minLen || argLen > maxLen { WriteDeny(ERR_ARGS_LEN, seqId); return; }
      assert ProposalStatus(before) == STATUS_OK;

      lastSeq := seqId;
      if decision == DECISION_ALLOW {
        Write(mem, SOVP_OFFSET_VERDICT, VerdictBytes(STATUS_OK, DECISION_ALLOW, 0, seqId, Zeros(16), Zeros(64)));
        Write(mem, SOVP_OFFSET_RESULT, ResultBytes(EXEC_READ_OK, seqId));
        return;
      }
      assert decision == DECISION_QUORUM;
      var challenge := sha512(SOVP_DOMAIN_SEP + page[0..1024] + FIXED_NONCE);
      activeSeq := seqId;
      activeMask := mask;
      activeChallenge := challenge;
      Write(mem, SOVP_OFFSET_VERDICT,
        VerdictBytes(PENDING_APPROVAL, DECISION_QUORUM, mask, seqId, FIXED_NONCE, challenge));
    }

    /** `ring_doorbell` */
    method Ring()
      requires Valid()
      modifies this, mem
      ensures Valid() && View() == RingDoorbell(sha512, old(View()))
    {
      if U32At(mem[..], 0x400) == SOVQ_MAGIC {
        RingWithApproval();
      } else {
        RingWithProposal();
      }
    }
  }

  lemma PaddingTail(page: Page, argLen: nat)
    requires argLen <= 992
    ensures (exists i :: 0 <= i < 992 - argLen && page[32..1024][argLen..][i] != 0) <==> DirtyPadding(page, argLen)
  {
    var tail := page[32..1024][argLen..];
    assert forall i :: 0 <= i < 992 - argLen ==> tail[i] == page[32 + argLen + i];
    if i :| 0 <= i < 992 - argLen && tail[i] != 0 {
      assert page[32 + argLen + i] != 0;
    }
    if i :| 32 + argLen <= i < 1024 && page[i] != 0 {
      assert tail[i - 32 - argLen] != 0;
    }
  }
}
