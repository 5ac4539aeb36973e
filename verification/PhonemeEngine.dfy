/** The 32-bit phoneme word: packing a descriptor into a register and back. */
module PhonemeEngine {

  datatype PhonemeDesc = PhonemeDesc(onsetId: bv8, nucleusId: bv8, nasal: bool, isLong: bool,
                                     toneId: bv8, codaId: bv8, prefixId: bv8, provenance: bv16)

  const ONSET_MASK: bv8 := 0x3F
  const NUCL_MASK: bv8 := 0x07
  const TONE_MASK: bv8 := 0x03
  const CODA_MASK: bv8 := 0x3F
  const PREF_MASK: bv8 := 0x07
  const PROV_MASK: bv16 := 0x3FF

  function BoolWord(b: bool): bv32 {
    if b then 1 else 0
  }

  /** `sovr_phoneme_pack` */
  function Pack(d: PhonemeDesc): bv32 {
    var w: bv32 := 0;
    var w := w | (((d.onsetId & ONSET_MASK) as bv32) << 26);
    var w := w | (((d.nucleusId & NUCL_MASK) as bv32) << 23);
    var w := w | ((BoolWord(d.nasal) & 0x01) << 22);
    var w := w | ((BoolWord(d.isLong) & 0x01) << 21);
    var w := w | (((d.toneId & TONE_MASK) as bv32) << 19);
    var w := w | (((d.codaId & CODA_MASK) as bv32) << 13);
    var w := w | (((d.prefixId & PREF_MASK) as bv32) << 10);
    w | (((d.provenance & PROV_MASK) as bv32) << 0)
  }

  /** `sovr_phoneme_unpack` */
  function Unpack(w: bv32): PhonemeDesc {
    PhonemeDesc(((w >> 26) & 0x3F) as bv8,
                ((w >> 23) & 0x07) as bv8,
                ((w >> 22) & 0x01) != 0,
                ((w >> 21) & 0x01) != 0,
                ((w >> 19) & 0x03) as bv8,
                ((w >> 13) & 0x3F) as bv8,
                ((w >> 10) & 0x07) as bv8,
                ((w >> 0) & 0x3FF) as bv16)
  }

  predicate InRange(d: PhonemeDesc) {
    d.onsetId < 64 && d.nucleusId < 8 && d.toneId < 4 && d.codaId < 64 && d.prefixId < 8 && d.provenance < 1024
  }

  /** Unpacking what was packed gives the descriptor back exactly when every field fits its
      bits. */
  lemma UnpackPack(d: PhonemeDesc)
    ensures Unpack(Pack(d)) == d <==> InRange(d)
  {
  }

  /** Every word is the packing of the descriptor it unpacks to, and that one is in range:
      together with `UnpackPack`, the codec is a bijection. */
  lemma PackUnpack(w: bv32)
    ensures InRange(Unpack(w)) && Pack(Unpack(w)) == w
  {
  }

  /** Where each field lies in the word: onset in bits 31 to 26, nucleus 25 to 23, nasal 22, length
      21, tone 20 and 19, coda 18 to 13, prefix 12 to 10, provenance 9 to 0. */
  lemma FieldPositions(d: PhonemeDesc)
    requires InRange(d)
    ensures var w := Pack(d);
            && w & 0xFC00_0000 == (d.onsetId as bv32) << 26 && w & 0x0380_0000 == (d.nucleusId as bv32) << 23
            && (w & 0x0040_0000 != 0 <==> d.nasal) && (w & 0x0020_0000 != 0 <==> d.isLong)
            && w & 0x0018_0000 == (d.toneId as bv32) << 19 && w & 0x0007_E000 == (d.codaId as bv32) << 13
            && w & 0x0000_1C00 == (d.prefixId as bv32) << 10 && w & 0x0000_03FF == d.provenance as bv32
  {
  }

  /** The fields in which two descriptors differ, bit by bit. */
  function Difference(d: PhonemeDesc, e: PhonemeDesc): PhonemeDesc {
    PhonemeDesc(d.onsetId ^ e.onsetId, d.nucleusId ^ e.nucleusId, d.nasal != e.nasal, d.isLong != e.isLong,
                d.toneId ^ e.toneId, d.codaId ^ e.codaId, d.prefixId ^ e.prefixId, d.provenance ^ e.provenance)
  }

  /** Two words differ in just the bits that the differing fields occupy. */
  lemma FieldsAreIndependent(d: PhonemeDesc, e: PhonemeDesc)
    ensures Pack(d) ^ Pack(e) == Pack(Difference(d, e))
  {
  }

  /** A minimal pair: changing the tone flips bits 19 and 20 only, as the tones differ. */
  lemma ToneFlip(d: PhonemeDesc, tone: bv8)
    ensures Pack(d.(toneId := tone)) ^ Pack(d) == (((tone ^ d.toneId) & TONE_MASK) as bv32) << 19
  {
    FieldsAreIndependent(d.(toneId := tone), d);
  }

  /** `sovr_validate_phoneme_word` */
  predicate ValidWord(w: bv32) {
    var desc := Unpack(w);
    if desc.onsetId > 51 then false
    else if desc.nucleusId > 7 then false
    else if desc.toneId > 3 then false
    else if desc.codaId > 31 && desc.codaId != 63 then false
    else true
  }

  /** The nucleus and tone tests can never fail: the masks already bound those fields. So a
      word is legal exactly when its onset is at most 51 and its coda at most 31 or 63. */
  lemma ValidWordExactly(w: bv32)
    ensures ValidWord(w) <==>
            Unpack(w).onsetId <= 51 && (Unpack(w).codaId <= 31 || Unpack(w).codaId == 63)
  {
  }

}

/** A 64-bit coordinate as the ring stores it, read as a signed number and as a phoneme word. */
module Coordinate {
  import opened PhonemeEngine

  /** The word as a two's-complement number: when the top bit is set, minus its negation. */
  function Signed(w: bv64): int {
    if w >> 63 == 0 then w as int else -((0 - w) as int)
  }

  lemma NonZero(w: bv64)
    requires w as int == 0
    ensures w == 0
  {
  }

  /** `(uint32_t)(candidate[4] & 0xFFFFFFFF)` */
  function PhonemeWord(channel4: bv64): bv32 {
    (channel4 & 0xFFFF_FFFF) as bv32
  }

  /** The gate in front of the shear test: an all-zero word passes unexamined. */
  predicate PhonemePasses(channel4: bv64) {
    PhonemeWord(channel4) == 0 || ValidWord(PhonemeWord(channel4))
  }

  /** Every value from 0 to 150000 decodes to a legal word. */
  lemma NonNegativeChannel(w: bv64)
    requires w as int <= 150000
    ensures ValidWord(PhonemeWord(w))
  {
    assert w <= 150000;
  }

  /** Every value from -150000 to -1 has all the onset bits set. */
  lemma NegativeChannel(w: bv64)
    requires w >> 63 != 0 && (0 - w) as int <= 150000
    ensures !PhonemePasses(w)
  {
    assert 0 - w <= 150000;
    assert PhonemeWord(w) >> 26 == 63;
  }

  /** Within the shear bound, the phoneme test rejects just the negative values of channel 4. */
  lemma PhonemeRejectsNegatives(w: bv64)
    requires -150000 <= Signed(w) <= 150000
    ensures PhonemePasses(w) <==> Signed(w) >= 0
  {
    if w >> 63 == 0 {
      NonNegativeChannel(w);
    } else {
      NegativeChannel(w);
      if (0 - w) as int == 0 {
        NonZero(0 - w);
      }
    }
  }
}
