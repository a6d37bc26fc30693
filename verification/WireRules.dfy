/** The header validation as a table: for every record type what its header may say. */
module WireRules {
  import opened Bytes
  import opened Wire

  const CONTROL := {Rekey, Resync, Close}
  const DATA := {RecordType.ExactState, BatchEnvelope}
  const HINTS := {EpisodeHint, RecordType.ReplayHint}

  /** The flag bits in use; bit `i` has weight 2 to the `i`. */
  const USED_BITS := {1, 2, 4, 8, 16, 64, 128, 256, 512, 1024, 2048}
  const ALL_BITS := USED_BITS + {32, 4096, 8192, 16384, 32768}

  /** Only flags of this set are set. */
  predicate OnlyFlags(flags: U16, allowed: set<nat>) {
    forall bit :: bit in ALL_BITS && Contains(flags, bit) ==> bit in allowed
  }

  /** The flags a record that is neither exact data nor a batch may carry. */
  function FlagsOf(t: RecordType): set<nat> {
    if t in CONTROL then {POST_REKEY_CONFIRM}
    else if t == SourceMeta || t == Repair then {}
    else {POST_REKEY_CONFIRM, PAYLOAD_ZSTD, PAYLOAD_ZSTD_DICT}
  }

  /** The payload lengths such a record may announce. */
  predicate LengthAllowed(t: RecordType, n: nat) {
    if t == Rekey then n == 36
    else if t == Resync then n !in {1, 2, 3}
    else if t == Close then n in {0, 2}
    else if t in HINTS then true
    else n > 0
  }

  /** A data header drops an item, carries one, or is a batch; it never asks for both ways of dropping. */
  predicate DataHeaderAllowed(h: Header) {
    var evict, invalidate := Contains(h.flags, 1), Contains(h.flags, 2);
    && !(evict && invalidate)
    && (evict || invalidate ==> h.payloadLen == 0 && h.codecMode == Plain && h.itemId > 0)
    && (!evict && !invalidate && h.recordType == RecordType.ExactState ==>
          h.payloadLen > 0 && h.codecMode != Plain && h.itemId > 0)
  }

  /** A header is accepted exactly if it has version 2, no unused flag bit, and follows its type's rules:
      control and repair records name no item, all others but data do; only data is ever encoded. */
  lemma ValidHeaderIsTable(h: Header)
    ensures ValidHeader(h) <==>
            && h.version == 2 && OnlyFlags(h.flags, USED_BITS)
            && if h.recordType in DATA then DataHeaderAllowed(h)
               else
                 && h.codecMode == Plain
                 && OnlyFlags(h.flags, FlagsOf(h.recordType))
                 && LengthAllowed(h.recordType, h.payloadLen)
                 && (h.recordType in CONTROL + {Repair} <==> h.itemId == 0)
  {
    FlagsDecided(h.flags);
    hide Contains, OnlyFlags;
  }

  function Weight(flags: U16, bit: U16): nat
    requires 0 < bit
  {
    if Contains(flags, bit) then bit else 0
  }

  /** What is left of the flags above one bit is that bit and what is left above it. */
  lemma Halves(flags: U16, bit: U16)
    requires 0 < bit
    ensures Above(flags, bit) == Above(flags, 2 * bit) + Weight(flags, bit)
  {
    var q := flags / bit;
    assert q == 2 * (q / 2) + q % 2;
    HalfOf(flags, bit);
    assert bit * q == bit * (2 * (flags / (2 * bit))) + bit * (q % 2);
  }

  /** The flags without the bits below this one. */
  function Above(flags: U16, bit: nat): nat
    requires 0 < bit
  {
    bit * (flags / bit)
  }

  lemma HalfOf(flags: nat, bit: nat)
    requires 0 < bit
    ensures (flags / bit) / 2 == flags / (2 * bit)
  {
    var q, r := (flags / bit) / 2, (flags / bit) % 2;
    var low := flags % bit;
    assert flags == bit * (2 * q + r) + low;
    assert bit * (2 * q + r) + low == (2 * bit) * q + (bit * r + low);
    assert r == 0 || r == 1;
    QuotientIs(flags, 2 * bit, q, bit * r + low);
  }

  /** The flags are the sum of the weights of the bits set. */
  lemma SumOfBits(flags: U16)
    ensures flags ==
            Weight(flags, 1) + Weight(flags, 2) + Weight(flags, 4) + Weight(flags, 8) + Weight(flags, 16)
            + Weight(flags, 32) + Weight(flags, 64) + Weight(flags, 128) + Weight(flags, 256) + Weight(flags, 512)
            + Weight(flags, 1024) + Weight(flags, 2048) + Weight(flags, 4096) + Weight(flags, 8192)
            + Weight(flags, 16384) + Weight(flags, 32768)
  {
    assert Above(flags, 1) == flags && Above(flags, 65536) == 0;
    hide Weight, Above;
    Halves(flags, 1);
    Halves(flags, 2);
    Halves(flags, 4);
    Halves(flags, 8);
    Halves(flags, 16);
    Halves(flags, 32);
    Halves(flags, 64);
    Halves(flags, 128);
    Halves(flags, 256);
    Halves(flags, 512);
    Halves(flags, 1024);
    Halves(flags, 2048);
    Halves(flags, 4096);
    Halves(flags, 8192);
    Halves(flags, 16384);
    Halves(flags, 32768);
  }

  /** The sets of flags the validation compares with, as bits. */
  lemma FlagsDecided(flags: U16)
    ensures OnlyKnownBits(flags) <==> OnlyFlags(flags, USED_BITS)
    ensures OnlyFlags(flags, {}) <==> flags == 0
    ensures OnlyFlags(flags, {POST_REKEY_CONFIRM}) <==> flags == 0 || flags == 4
    ensures OnlyFlags(flags, {POST_REKEY_CONFIRM, PAYLOAD_ZSTD, PAYLOAD_ZSTD_DICT}) <==>
            flags in {0, 4, 1024, 1028, 2048, 2052, 3072, 3076}
  {
    hide Contains;
    SumOfBits(flags);
  }

  // ---- Codes ----

  const TYPES := [Rekey, Resync, Close, SourceMeta, Repair, PredictiveConfirm, PredictiveCorrect, AssemblyDef,
    TransformDef, RecordType.SchemaDef, EpisodeHint, RecordType.ReplayHint, RecordType.ExactState, MemoryRetire,
    TransformCorrect, RecordType.MemoryAck, BatchEnvelope]

  const MODES := [Plain, PackedExact, PredictedExact, DirectExact]

  /** The record types are numbered from 2 on, leaving out 6, 7 and 8; the codec modes from 0 on. Any
      other code is refused. */
  lemma CodesAreNumbered(code: Byte)
    ensures RecordType.FromCode(code) ==
            if 2 <= code <= 5 then Some(TYPES[code - 2]) else if 9 <= code <= 21 then Some(TYPES[code - 5]) else None
    ensures CodecMode.FromCode(code) == if code < 4 then Some(MODES[code]) else None
  {
  }
}
