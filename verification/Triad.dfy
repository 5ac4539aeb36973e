/** The notarizer's 424-byte triad block: how it is signed and packed, and how the dataport
    reader judges it. */
module Triad {
  import opened Bits
  import opened Words
  import opened Bytes
  import opened PythonBytes
  import opened SovereignProposal

  type Signature = s: seq<byte> | |s| == 64 witness Zeros(64)
  type Key = s: seq<byte> | |s| == 32 witness Zeros(32)

  /** A signature scheme, left uninterpreted. */
  datatype Scheme = Scheme(sign: (Key, seq<byte>) -> Signature, publicKey: Key -> Key,
                           verify: (Key, seq<byte>, Signature) -> bool)

  /** The one thing asked of a scheme: what a key signs, its public key verifies. */
  ghost predicate Sound(sc: Scheme) {
    forall key, message :: sc.verify(sc.publicKey(key), message, sc.sign(key, message))
  }

  /** The contents of a file, if it can be opened. */
  type File = Option<seq<byte>>

  const BLOCK_SIZE: nat := 424
  const SIGNATURE_SLOTS: nat := 6
  const TRIAD_MASK: byte := 0x07

  // ---------------------------------------------------------------------
  // Signing

  predicate Usable(key: File) {
    key.Some? && |key.value| == 32
  }

  predicate AllUsable(keys: seq<File>) {
    forall i :: 0 <= i < |keys| ==> Usable(keys[i])
  }

  predicate FirstUnusable(keys: seq<File>, i: nat)
    requires i < |keys|
  {
    !Usable(keys[i]) && AllUsable(keys[..i])
  }

  function SignWith(sc: Scheme, key: File, message: seq<byte>): Signature
    requires Usable(key)
  {
    sc.sign(key.value, message)
  }

  function Taken(keyPaths: seq<File>): (keys: seq<File>)
    ensures |keys| <= SIGNATURE_SLOTS && keys <= keyPaths && (|keys| == 6 || keys == keyPaths)
  {
    if |keyPaths| > SIGNATURE_SLOTS then keyPaths[..SIGNATURE_SLOTS] else keyPaths
  }

  function Signatures(sc: Scheme, message: seq<byte>, keys: seq<File>): (sigs: seq<seq<byte>>)
    requires AllUsable(keys)
    ensures |sigs| == |keys|
    ensures forall i :: 0 <= i < |sigs| ==> |sigs[i]| == 64 && sigs[i] == SignWith(sc, keys[i], message)
  {
    seq(|keys|, i requires 0 <= i < |keys| => SignWith(sc, keys[i], message))
  }

  /** One signature to a slot, in the order of the keys, and zeros in the slots left over. */
  function SignatureArray(sc: Scheme, message: seq<byte>, keys: seq<File>): seq<byte>
    requires AllUsable(keys)
  {
    Ljust(Join(Signatures(sc, message, keys)), 384)
  }

  /** Filling slot n of the array. */
  lemma FillSlot(sc: Scheme, message: seq<byte>, keys: seq<File>, n: nat)
    requires n < |keys| <= SIGNATURE_SLOTS
    requires AllUsable(keys[..n + 1])
    ensures |SignatureArray(sc, message, keys[..n])| == 384
    ensures Splice(SignatureArray(sc, message, keys[..n]), n * 64, SignWith(sc, keys[n], message))
            == SignatureArray(sc, message, keys[..n + 1])
  {
    assert keys[..n + 1][n] == keys[n] && keys[..n + 1][..n] == keys[..n];
    var before, sig := Signatures(sc, message, keys[..n]), SignWith(sc, keys[n], message);
    assert Signatures(sc, message, keys[..n + 1]) == before + [sig];
    JoinLength(before, 64);
    JoinSnoc(before, sig);
    FillZeros(Join(before), sig, 384);
  }

  lemma FillZeros(a: seq<byte>, b: seq<byte>, n: nat)
    requires |a| + |b| <= n
    ensures Splice(Ljust(a, n), |a|, b) == Ljust(a + b, n)
  {
  }

  /** The loop of `sign_challenge`. When a key file cannot be used, `idx` is its position. */
  method SignSlots(sc: Scheme, signMessage: seq<byte>, keys: seq<File>) returns (result: Packed, idx: nat)
    requires |keys| <= SIGNATURE_SLOTS
    ensures idx <= |keys| && AllUsable(keys[..idx])
    ensures idx == |keys| ==> result == Frame(SignatureArray(sc, signMessage, keys[..idx]))
    ensures idx < |keys| ==> !Usable(keys[idx]) && result == if keys[idx].None? then OSError else ValueError
  {
    var packedSignatures := new byte[384](i => 0);
    assert packedSignatures[..] == SignatureArray(sc, signMessage, keys[..0]);
    hide SignatureArray, SignWith, Splice;
    idx := 0;
    while idx < |keys|
      invariant 0 <= idx <= |keys| && AllUsable(keys[..idx])
      invariant packedSignatures[..] == SignatureArray(sc, signMessage, keys[..idx])
    {
      if keys[idx].None? {
        return OSError, idx;
      }
      var rawPriv := keys[idx].value;
      if |rawPriv| != 32 {
        return ValueError, idx;
      }
      FillSlot(sc, signMessage, keys, idx);
      Write(packedSignatures, idx * 64, SignWith(sc, keys[idx], signMessage));
      idx := idx + 1;
    }
    result := Frame(packedSignatures[..]);
  }

  /** `sign_challenge` */
  method SignChallenge(sc: Scheme, seqId: int, challengeNonce: seq<byte>, keyPaths: seq<File>) returns (result: Packed)
    ensures result.Frame? <==> |challengeNonce| == 32 && FitsU32(seqId) && AllUsable(Taken(keyPaths))
    ensures result.Frame? ==> result.bytes == SignatureArray(sc, LE(seqId, 4) + challengeNonce, Taken(keyPaths))
    ensures |challengeNonce| != 32 ==> result == ValueError
    ensures |challengeNonce| == 32 && !FitsU32(seqId) ==> result == StructError
    ensures |challengeNonce| == 32 && FitsU32(seqId) && !result.Frame? ==>
              exists i :: 0 <= i < |Taken(keyPaths)| && FirstUnusable(Taken(keyPaths), i) &&
                          result == if Taken(keyPaths)[i].None? then OSError else ValueError
  {
    if |challengeNonce| != 32 {
      return ValueError;
    }
    if !FitsU32(seqId) {
      return StructError;
    }
    var signMessage := LE(seqId, 4) + challengeNonce;
    var keys, idx := Taken(keyPaths), 0;
    result, idx := SignSlots(sc, signMessage, keys);
    assert idx == |keys| ==> keys[..idx] == keys;
    assert idx < |keys| ==> FirstUnusable(keys, idx);
  }

  /** `build_approval_block` */
  function BuildApprovalBlock(seqId: int, challengeNonce: seq<byte>, witnessMask: int,
      packedSignatures: seq<byte>): Packed {
    if !FitsU32(seqId) || !FitsU8(witnessMask) then StructError
    else
      Frame(LE(seqId, 4) + [witnessMask as byte] + [0, 0, 0] + Fit(challengeNonce, 32) + Fit(packedSignatures, 384))
  }

  // ---------------------------------------------------------------------
  // Judging

  /** A public key file serves when its first 32 bytes can be read. */
  predicate Loads(file: File) {
    file.Some? && |file.value| >= 32
  }

  /** What the witnesses sign: sequence number and nonce, as they stand in the block. */
  function SignedPart(block: seq<byte>): seq<byte>
    requires |block| >= BLOCK_SIZE
  {
    block[0..4] + block[8..40]
  }

  function Slot(block: seq<byte>, i: nat): Signature
    requires |block| >= BLOCK_SIZE && i < SIGNATURE_SLOTS
  {
    block[40 + 64 * i..104 + 64 * i]
  }

  predicate SlotVerifies(sc: Scheme, key: File, block: seq<byte>, i: nat)
    requires |block| >= BLOCK_SIZE && i < SIGNATURE_SLOTS
  {
    Loads(key) && sc.verify(key.value[..32], SignedPart(block), Slot(block, i))
  }

  /** The exit code of the reader. */
  function ExitCode(sc: Scheme, file: File, pubKeys: seq<File>): int
    requires |pubKeys| == 3
  {
    if file.None? || |file.value| < BLOCK_SIZE then 1
    else if file.value[4] % 8 != 7 then 2
    else if !forall i :: 0 <= i < 3 ==> SlotVerifies(sc, pubKeys[i], file.value, i) then 3
    else 0
  }

  /** Masking with 7 asks for bits 0 to 2, whatever the other bits are. */
  lemma TriadBits(mask: byte)
    ensures And(mask, TRIAD_MASK) == TRIAD_MASK <==> mask % 8 == 7
  {
    assert Pow2(3) == 8;
    AndLowMask(mask, 3);
  }

  /** The 36 bytes rebuilt from the record, one byte of the sequence number at a time. */
  method RebuildMessage(seqId: u32, challengeNonce: seq<byte>) returns (message: seq<byte>)
    requires |challengeNonce| == 32
    ensures message == LE(seqId, 4) + challengeNonce
  {
    var signMessage := new byte[36];
    signMessage[0] := seqId % 0x100;
    signMessage[1] := (seqId / 0x100) % 0x100;
    signMessage[2] := (seqId / 0x1_0000) % 0x100;
    signMessage[3] := (seqId / 0x100_0000) % 0x100;
    FourBytes(seqId);
    ghost var low := signMessage[..4];
    Write(signMessage, 4, challengeNonce);
    message := signMessage[..];
    assert message == low + challengeNonce;
  }

  lemma FourBytes(v: u32)
    ensures LE(v, 4) == [v % 0x100, (v / 0x100) % 0x100, (v / 0x1_0000) % 0x100, (v / 0x100_0000) % 0x100]
  {
    var w := v / 0x100;
    assert LE(v, 4) == [v % 0x100] + LE(w, 3) && LE(w, 3) == [w % 0x100] + LE(w / 0x100, 2);
    assert LE(w / 0x100, 2) == [w / 0x100 % 0x100] + LE(w / 0x100 / 0x100, 1);
    assert w / 0x100 == v / 0x1_0000 && w / 0x100 / 0x100 == v / 0x100_0000;
  }

  /** `main` of the reader, on the contents of the approval file and of the three key files. */
  method ReadApproval(sc: Scheme, file: File, pubKeys: seq<File>) returns (code: int)
    requires |pubKeys| == 3
    ensures code == ExitCode(sc, file, pubKeys)
    ensures code == 1 <==> file.None? || |file.value| < 424
    ensures code != 1 ==>
              && (code == 2 <==> file.value[4] % 8 != 7)
              && (code == 3 <==> file.value[4] % 8 == 7 &&
                                 exists i :: 0 <= i < 3 && !SlotVerifies(sc, pubKeys[i], file.value, i))
              && (code == 0 <==> file.value[4] % 8 == 7 &&
                                 forall i :: 0 <= i < 3 ==> SlotVerifies(sc, pubKeys[i], file.value, i))
  {
    if file.None? || |file.value| < BLOCK_SIZE {
      return 1;
    }
    var approval := file.value[..BLOCK_SIZE];
    TriadBits(approval[4]);
    if And(approval[4], TRIAD_MASK) != TRIAD_MASK {
      return 2;
    }
    var signMessage := RebuildMessage(U32At(approval, 0), approval[8..40]);
    LEOfFromLE(approval[0..4]);
    assert signMessage == SignedPart(file.value);
    var validSigCount := 0;
    var i := 0;
    while i < 3
      invariant 0 <= validSigCount <= i <= 3
      invariant validSigCount == i <==> forall k :: 0 <= k < i ==> SlotVerifies(sc, pubKeys[k], file.value, k)
    {
      if Loads(pubKeys[i]) {
        var sig := approval[40 + 64 * i..104 + 64 * i];
        assert sig == Slot(file.value, i);
        if sc.verify(pubKeys[i].value[..32], signMessage, sig) {
          validSigCount := validSigCount + 1;
        }
      }
      i := i + 1;
    }
    if validSigCount < 3 {
      return 3;
    }
    return 0;
  }

  // ---------------------------------------------------------------------
  // Round trip

  /** The block that signing and packing give, under any mask and for any number of keys. */
  function SignedBlock(sc: Scheme, seqId: u32, nonce: seq<byte>, mask: byte, keys: seq<File>): (block: seq<byte>)
    requires |nonce| == 32 && |keys| <= SIGNATURE_SLOTS && AllUsable(keys)
    ensures |block| == BLOCK_SIZE
  {
    BuildApprovalBlock(seqId, nonce, mask, SignatureArray(sc, LE(seqId, 4) + nonce, keys)).bytes
  }

  lemma BlockLayout(m: seq<byte>, mask: byte, nonce: seq<byte>, sigs: seq<byte>)
    requires |m| == 4 && |nonce| == 32 && |sigs| == 384
    ensures var block := m + [mask] + [0, 0, 0] + nonce + sigs;
            && |block| == BLOCK_SIZE && block[4] == mask && SignedPart(block) == m + nonce
            && forall i :: 0 <= i < SIGNATURE_SLOTS ==> Slot(block, i) == sigs[64 * i..64 * i + 64]
  {
  }

  /** Slot i holds the signature of key i over sequence number and nonce. */
  lemma SlotHolds(sc: Scheme, message: seq<byte>, keys: seq<File>, i: nat)
    requires i < |keys| <= SIGNATURE_SLOTS && AllUsable(keys)
    ensures var sigs := SignatureArray(sc, message, keys);
            |sigs| == 384 && sigs[64 * i..64 * i + 64] == SignWith(sc, keys[i], message)
  {
    var parts := Signatures(sc, message, keys);
    JoinAt(parts, 64, i);
    var joined := Join(parts);
    assert (joined + Zeros(384 - |joined|))[64 * i..64 * i + 64] == joined[64 * i..64 * i + 64];
  }

  /** The reader's view of a signed block. */
  lemma SignedBlockParts(sc: Scheme, seqId: u32, nonce: seq<byte>, mask: byte, keys: seq<File>)
    requires |nonce| == 32 && |keys| <= SIGNATURE_SLOTS && AllUsable(keys)
    ensures var message, block := LE(seqId, 4) + nonce, SignedBlock(sc, seqId, nonce, mask, keys);
            && block[4] == mask && SignedPart(block) == message
            && forall i :: 0 <= i < |keys| ==> Slot(block, i) == SignWith(sc, keys[i], message)
  {
    hide SignatureArray, LE, SignWith;
    var message := LE(seqId, 4) + nonce;
    var sigs := SignatureArray(sc, message, keys);
    ArrayLength(sc, message, keys);
    BlockLayout(LE(seqId, 4), mask, nonce, sigs);
    forall i | 0 <= i < |keys|
      ensures sigs[64 * i..64 * i + 64] == SignWith(sc, keys[i], message)
    {
      SlotHolds(sc, message, keys, i);
    }
  }

  lemma ArrayLength(sc: Scheme, message: seq<byte>, keys: seq<File>)
    requires |keys| <= SIGNATURE_SLOTS && AllUsable(keys)
    ensures |SignatureArray(sc, message, keys)| == 384
    ensures forall k :: 64 * |keys| <= k < 384 ==> SignatureArray(sc, message, keys)[k] == 0
  {
    JoinLength(Signatures(sc, message, keys), 64);
  }

  /** A packed block is accepted exactly when the mask has bits 0 to 2 and the three public keys
      on file verify what the first three private keys signed. */
  lemma BlockAcceptedExactly(sc: Scheme, seqId: u32, nonce: seq<byte>, mask: byte, keys: seq<File>, pubKeys: seq<File>)
    requires |nonce| == 32 && 3 <= |keys| <= SIGNATURE_SLOTS && |pubKeys| == 3
    requires AllUsable(keys)
    ensures var message := LE(seqId, 4) + nonce;
            ExitCode(sc, Some(SignedBlock(sc, seqId, nonce, mask, keys)), pubKeys) == 0 <==>
            && mask % 8 == 7
            && forall i :: 0 <= i < 3 ==>
                 Loads(pubKeys[i]) && sc.verify(pubKeys[i].value[..32], message, SignWith(sc, keys[i], message))
  {
    hide SignedBlock, SignedPart, Slot, LE, Usable;
    SignedBlockParts(sc, seqId, nonce, mask, keys);
  }

  /** The files of the public keys belonging to the private ones. */
  function PublicFiles(sc: Scheme, keys: seq<Key>): (files: seq<File>)
    ensures |files| == |keys|
    ensures forall i :: 0 <= i < |keys| ==> files[i] == Some(sc.publicKey(keys[i]))
  {
    seq(|keys|, i requires 0 <= i < |keys| => Some(sc.publicKey(keys[i])))
  }

  function PrivateFiles(keys: seq<Key>): (files: seq<File>)
    ensures |files| == |keys|
    ensures forall i :: 0 <= i < |keys| ==> files[i] == Some(keys[i])
  {
    seq(|keys|, i requires 0 <= i < |keys| => Some(keys[i]))
  }

  /** For every sequence number, nonce and triple of keys, the notarizer's block under mask 7 is
      424 bytes and the reader accepts it. */
  lemma TriadRoundTrip(sc: Scheme, seqId: u32, nonce: seq<byte>, keys: seq<Key>)
    requires Sound(sc) && |nonce| == 32 && |keys| == 3
    ensures var block := SignedBlock(sc, seqId, nonce, TRIAD_MASK, PrivateFiles(keys));
            |block| == 424 && ExitCode(sc, Some(block), PublicFiles(sc, keys)) == 0
  {
    var message := LE(seqId, 4) + nonce;
    BlockAcceptedExactly(sc, seqId, nonce, TRIAD_MASK, PrivateFiles(keys), PublicFiles(sc, keys));
    forall i | 0 <= i < 3
      ensures sc.verify(PublicFiles(sc, keys)[i].value[..32], message, SignWith(sc, PrivateFiles(keys)[i], message))
    {
      assert sc.publicKey(keys[i])[..32] == sc.publicKey(keys[i]);
    }
  }

  /** What the verdict rests on: sequence number, nonce and the first three slots, which the
      signatures bind, and the low three bits of the mask. The other mask bits, the reserved
      bytes, slots 3 to 5 and anything after the block make no difference. */
  lemma ReaderSeesOnly(sc: Scheme, a: seq<byte>, b: seq<byte>, pubKeys: seq<File>)
    requires |a| >= BLOCK_SIZE && |b| >= BLOCK_SIZE && |pubKeys| == 3
    requires a[0..4] == b[0..4] && a[4] % 8 == b[4] % 8 && a[8..232] == b[8..232]
    ensures ExitCode(sc, Some(a), pubKeys) == ExitCode(sc, Some(b), pubKeys)
  {
    SliceOfSlice(a, 8, 232, 0, 32);
    SliceOfSlice(b, 8, 232, 0, 32);
    forall i | 0 <= i < 3
      ensures Slot(a, i) == Slot(b, i)
    {
      SliceOfSlice(a, 8, 232, 32 + 64 * i, 96 + 64 * i);
      SliceOfSlice(b, 8, 232, 32 + 64 * i, 96 + 64 * i);
    }
  }

  /** `main` of the notarizer from the keys on: mask 7, three signers, one block. */
  method Notarize(sc: Scheme, seqId: int, challengeNonce: seq<byte>, keys: seq<Key>) returns (block: Packed)
    requires |keys| == 3
    ensures block.Frame? <==> FitsU32(seqId) && |challengeNonce| == 32
    ensures block.Frame? ==> block.bytes == SignedBlock(sc, seqId, challengeNonce, TRIAD_MASK, PrivateFiles(keys))
  {
    var packedSigs := SignChallenge(sc, seqId, challengeNonce, PrivateFiles(keys));
    if !packedSigs.Frame? {
      return packedSigs;
    }
    block := BuildApprovalBlock(seqId, challengeNonce, TRIAD_MASK, packedSigs.bytes);
  }
}
