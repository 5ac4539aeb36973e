/** The two approval formats, which the documentation puts at the same place of the dataport:
    the 440-byte frame that the gate reads and the 424-byte block of the notarizer. */
module ApprovalFormats {
  import opened SovereignProposal
  import opened GateSpec
  import opened ToolGateComponent
  import opened Triad

  /** No bytes are good in both formats: what the dataport reader accepts is, to the gate, of
      the wrong magic or version: the mask, which is 7 modulo 8, is the low byte of the version. */
  lemma FormatsAreDisjoint(sc: Scheme, pubKeys: seq<File>, c: Crypto, g: GateState, f: ApprovalFrame)
    requires |pubKeys| == 3 && ExitCode(sc, Some(f), pubKeys) == 0
    ensures var (g', status) := ApprovalStep(c, g, DecodeApproval(f));
            g' == g && status == if DecodeApproval(f).magic == SOVQ_MAGIC then ERR_VERSION else ERR_MAGIC
  {
  }

  /** An accepted block on the page does not redeem the pending challenge, whatever the gate is
      waiting for: the ring is a denial, or is taken for a proposal. */
  lemma BlockDoesNotApprove(sc: Scheme, pubKeys: seq<File>, c: Crypto, s: System, nonce: Nonce, reply: ExecReply)
    requires |pubKeys| == 3 && ExitCode(sc, Some(ApprovalRegion(s.page)), pubKeys) == 0
    ensures var s' := Doorbell(c, s, nonce, reply);
            s.gate.hasActiveChallenge ==> s'.gate.hasActiveChallenge
    ensures ApprovalMagic(s.page) == SOVQ_MAGIC ==> Doorbell(c, s, nonce, reply).calls == s.calls
  {
    hide ApprovalStep, DecodeApproval, ExitCode, DecodeProposal, CanonicalPadding;
    FormatsAreDisjoint(sc, pubKeys, c, s.gate, ApprovalRegion(s.page));
  }
}
