/** The record codec of shared_protocol/src/protocol.rs: a 37-byte header, the
    payload and a 16-byte authentication tag. Decoding validates the header. */
module Wire {
  import opened Bytes

  const PROTOCOL_VERSION: Byte := 2
  const AUTH_TAG_LEN: nat := 16
  const HEADER_LEN: nat := 37
  const REKEY_PAYLOAD_LEN: nat := 36
  const CLOSE_CODE_LEN: nat := 2

  datatype Option<+T> = None | Some(value: T)

  datatype RecordType =
    | Rekey | Resync | Close | SourceMeta | Repair
    | PredictiveConfirm | PredictiveCorrect
    | AssemblyDef | TransformDef | SchemaDef
    | EpisodeHint | ReplayHint | ExactState
    | MemoryRetire | TransformCorrect | MemoryAck | BatchEnvelope
  {
    function Code(): Byte {
      match this
      case Rekey => 2
      case Resync => 3
      case Close => 4
      case SourceMeta => 5
      case Repair => 9
      case PredictiveConfirm => 10
      case PredictiveCorrect => 11
      case AssemblyDef => 12
      case TransformDef => 13
      case SchemaDef => 14
      case EpisodeHint => 15
      case ReplayHint => 16
      case ExactState => 17
      case MemoryRetire => 18
      case TransformCorrect => 19
      case MemoryAck => 20
      case BatchEnvelope => 21
    }

    /** Codes 6, 7 and 8 are retired: they decode to nothing. */
    static function FromCode(code: Byte): (t: Option<RecordType>)
      ensures t.Some? ==> t.value.Code() == code
    {
      match code
      case 2 => Some(Rekey)
      case 3 => Some(Resync)
      case 4 => Some(Close)
      case 5 => Some(SourceMeta)
      case 9 => Some(Repair)
      case 10 => Some(PredictiveConfirm)
      case 11 => Some(PredictiveCorrect)
      case 12 => Some(AssemblyDef)
      case 13 => Some(TransformDef)
      case 14 => Some(SchemaDef)
      case 15 => Some(EpisodeHint)
      case 16 => Some(ReplayHint)
      case 17 => Some(ExactState)
      case 18 => Some(MemoryRetire)
      case 19 => Some(TransformCorrect)
      case 20 => Some(MemoryAck)
      case 21 => Some(BatchEnvelope)
      case _ => None
    }
  }

  datatype CodecMode = Plain | PackedExact | PredictedExact | DirectExact
  {
    function Code(): Byte {
      match this
      case Plain => 0
      case PackedExact => 1
      case PredictedExact => 2
      case DirectExact => 3
    }

    static function FromCode(code: Byte): (m: Option<CodecMode>)
      ensures m.Some? ==> m.value.Code() == code
    {
      match code
      case 0 => Some(Plain)
      case 1 => Some(PackedExact)
      case 2 => Some(PredictedExact)
      case 3 => Some(DirectExact)
      case _ => None
    }
  }

  const IS_EVICT: U16 := 1
  const IS_INVALIDATE: U16 := 2
  const POST_REKEY_CONFIRM: U16 := 4
  const PAYLOAD_ZSTD: U16 := 1024
  const PAYLOAD_ZSTD_DICT: U16 := 2048

  /** The bit whose weight is the power of two `flag` is set. */
  predicate Contains(flags: U16, flag: U16)
    requires 0 < flag
  {
    (flags / flag) % 2 == 1
  }

  /** Bits 5 and 12 to 15 are the reserved ones. */
  predicate OnlyKnownBits(flags: U16) {
    flags < 4096 && !Contains(flags, 32)
  }

  datatype Header = Header(
    version: Byte,
    streamId: U64,
    epochId: U32,
    seqNo: U64,
    recordType: RecordType,
    codecMode: CodecMode,
    flags: U16,
    itemId: U64,
    payloadLen: U32)

  type AuthTag = s: seq<Byte> | |s| == 16 witness seq(16, _ => 0)

  datatype Record = Record(header: Header, payload: seq<Byte>, authTag: AuthTag)

  predicate ValidDataHeader(h: Header) {
    var evict := Contains(h.flags, IS_EVICT);
    var invalidate := Contains(h.flags, IS_INVALIDATE);
    if evict && invalidate then false
    else if evict || invalidate then
      h.payloadLen == 0 && h.codecMode == Plain && h.itemId != 0
    else if h.recordType == BatchEnvelope then true
    else h.itemId != 0 && h.payloadLen != 0 && h.codecMode != Plain
  }

  predicate ValidControlHeader(h: Header) {
    && h.codecMode == Plain
    && h.itemId == 0
    && (h.flags == 0 || h.flags == POST_REKEY_CONFIRM)
    && (h.recordType == Rekey ==> h.payloadLen == REKEY_PAYLOAD_LEN)
    && (h.recordType == Resync ==> h.payloadLen == 0 || 4 <= h.payloadLen)
    && (h.recordType == Close ==> h.payloadLen == 0 || h.payloadLen == CLOSE_CODE_LEN)
  }

  predicate ValidPredictiveHeader(h: Header) {
    && h.flags in {
        0, PAYLOAD_ZSTD, PAYLOAD_ZSTD_DICT, PAYLOAD_ZSTD + PAYLOAD_ZSTD_DICT,
        POST_REKEY_CONFIRM, POST_REKEY_CONFIRM + PAYLOAD_ZSTD, POST_REKEY_CONFIRM + PAYLOAD_ZSTD_DICT,
        POST_REKEY_CONFIRM + PAYLOAD_ZSTD + PAYLOAD_ZSTD_DICT
      }
    && h.itemId != 0
    && h.codecMode == Plain
    && (h.recordType != EpisodeHint && h.recordType != ReplayHint ==> h.payloadLen != 0)
  }

  predicate ValidHeader(h: Header) {
    && h.version == PROTOCOL_VERSION
    && OnlyKnownBits(h.flags)
    && match h.recordType
       case ExactState | BatchEnvelope => ValidDataHeader(h)
       case Rekey | Resync | Close => ValidControlHeader(h)
       case SourceMeta =>
         h.codecMode == Plain && h.flags == 0 && h.itemId != 0 && h.payloadLen != 0
       case Repair =>
         h.codecMode == Plain && h.flags == 0 && h.itemId == 0 && h.payloadLen != 0
       case _ => ValidPredictiveHeader(h)
  }

  predicate ValidRecord(r: Record) {
    ValidHeader(r.header) && |r.payload| == r.header.payloadLen
  }

  function AadBytes(h: Header): (bs: seq<Byte>)
    ensures |bs| == HEADER_LEN
  {
    [h.version] + LE64(h.streamId) + LE32(h.epochId) + LE64(h.seqNo)
    + [h.recordType.Code()] + [h.codecMode.Code()] + LE16(h.flags)
    + LE64(h.itemId) + LE32(h.payloadLen)
  }

  function FromAadBytes(bs: seq<Byte>): Option<Header> {
    if |bs| != HEADER_LEN then None
    else
      var t := RecordType.FromCode(bs[21]);
      if t.None? then None
      else
        var m := CodecMode.FromCode(bs[22]);
        if m.None? then None
        else Some(Header(bs[0], U64Of(bs[1..9]), U32Of(bs[9..13]), U64Of(bs[13..21]),
                         t.value, m.value, U16Of(bs[23..25]), U64Of(bs[25..33]), U32Of(bs[33..37])))
  }

  function ToBytes(r: Record): (bs: seq<Byte>)
    ensures |bs| == HEADER_LEN + |r.payload| + AUTH_TAG_LEN
  {
    AadBytes(r.header) + r.payload + r.authTag
  }

  function FromBytes(bs: seq<Byte>): Option<Record> {
    if |bs| < HEADER_LEN + AUTH_TAG_LEN then None
    else
      var h := FromAadBytes(bs[..HEADER_LEN]);
      if h.None? then None
      else
        var n := h.value.payloadLen;
        if |bs| != HEADER_LEN + n + AUTH_TAG_LEN then None
        else
          var r := Record(h.value, bs[HEADER_LEN..HEADER_LEN + n], bs[HEADER_LEN + n..]);
          if ValidRecord(r) then Some(r) else None
  }

  /** Where each header field sits on the wire. */
  lemma HeaderLayout(h: Header)
    ensures var bs := AadBytes(h);
            && bs[0] == h.version
            && bs[1..9] == LE64(h.streamId) && bs[9..13] == LE32(h.epochId)
            && bs[13..21] == LE64(h.seqNo)
            && bs[21] == h.recordType.Code() && bs[22] == h.codecMode.Code()
            && bs[23..25] == LE16(h.flags) && bs[25..33] == LE64(h.itemId)
            && bs[33..37] == LE32(h.payloadLen)
  {
  }

  lemma HeaderRoundTrip(h: Header)
    ensures FromAadBytes(AadBytes(h)) == Some(h)
  {
    HeaderLayout(h);
  }

  lemma HeaderBytesRoundTrip(bs: seq<Byte>)
    requires FromAadBytes(bs).Some?
    ensures AadBytes(FromAadBytes(bs).value) == bs
  {
    assert bs == [bs[0]] + bs[1..9] + bs[9..13] + bs[13..21] + [bs[21]] + [bs[22]]
                 + bs[23..25] + bs[25..33] + bs[33..37];
  }

  /** Decoding undoes encoding for exactly the valid records; an invalid one is refused. */
  lemma RecordRoundTrip(r: Record)
    ensures FromBytes(ToBytes(r)) == if ValidRecord(r) then Some(r) else None
  {
    var bs := ToBytes(r);
    HeaderRoundTrip(r.header);
    assert bs[..HEADER_LEN] == AadBytes(r.header);
    if |r.payload| == r.header.payloadLen {
      assert bs[HEADER_LEN..HEADER_LEN + |r.payload|] == r.payload;
      assert bs[HEADER_LEN + |r.payload|..] == r.authTag;
    }
  }

  /** Encoding undoes decoding: no two byte strings decode to the same record. */
  lemma RecordBytesRoundTrip(bs: seq<Byte>)
    requires FromBytes(bs).Some?
    ensures ToBytes(FromBytes(bs).value) == bs
    ensures ValidRecord(FromBytes(bs).value)
  {
    HeaderBytesRoundTrip(bs[..HEADER_LEN]);
    var n := FromBytes(bs).value.header.payloadLen;
    assert bs == bs[..HEADER_LEN] + bs[HEADER_LEN..HEADER_LEN + n] + bs[HEADER_LEN + n..];
  }
}
