/** Length-prefixed record groups and the two decoders that read them back:
    the server's chunk loop and the browser's fallback loop. */
module Framing {
  import opened Bytes
  import opened Wire

  /** A frame as the senders write it: `bytes.len() as u32` truncates, then the bytes. */
  function EncodeFrame(bytes: seq<Byte>): (out: seq<Byte>)
    ensures |out| == 4 + |bytes|
  {
    LE32(|bytes| % 0x1_0000_0000) + bytes
  }

  function EncodeGroup(records: seq<Record>): seq<Byte> {
    if records == [] then [] else EncodeFrame(ToBytes(records[0])) + EncodeGroup(records[1..])
  }

  /** A record that a receiver accepts and whose length fits the prefix. */
  predicate Sendable(r: Record) {
    ValidRecord(r) && |ToBytes(r)| < 0x1_0000_0000
  }

  predicate AllSendable(records: seq<Record>) {
    forall i :: 0 <= i < |records| ==> Sendable(records[i])
  }

  /** What the chunk loop computes: the records of a frame that is exactly a
      sequence of non-empty length-prefixed records. */
  function ParseChunk(frame: seq<Byte>): Option<seq<Record>> {
    if frame == [] then Some([])
    else if |frame| < 4 then None
    else
      var n := U32Of(frame[..4]);
      if n == 0 || |frame| - 4 < n then None
      else
        var r := FromBytes(frame[4..4 + n]);
        if r.None? then None
        else
          var rest := ParseChunk(frame[4 + n..]);
          if rest.None? then None else Some([r.value] + rest.value)
  }

  /** A packed group if the frame is one, otherwise a single bare record. */
  function DecodeTransport(frame: seq<Byte>): Option<seq<Record>> {
    var chunk := ParseChunk(frame);
    if 4 <= |frame| && chunk.Some? && chunk.value != [] then chunk
    else
      var r := FromBytes(frame);
      if r.None? then None else Some([r.value])
  }

  /** One turn of the chunk loop over a frame that starts with a written record. */
  lemma ParseStep(bytes: seq<Byte>, rest: seq<Byte>)
    requires 0 < |bytes| < 0x1_0000_0000
    ensures ParseChunk(EncodeFrame(bytes) + rest) ==
            if FromBytes(bytes).None? || ParseChunk(rest).None? then None
            else Some([FromBytes(bytes).value] + ParseChunk(rest).value)
  {
    hide FromBytes, LE32;
    var frame := EncodeFrame(bytes) + rest;
    assert frame[..4] == LE32(|bytes|);
    assert frame[4..4 + |bytes|] == bytes;
    assert frame[4 + |bytes|..] == rest;
  }

  lemma {:induction false} ParseEncodedGroup(records: seq<Record>)
    requires AllSendable(records)
    ensures ParseChunk(EncodeGroup(records)) == Some(records)
  {
    if records != [] {
      var first, rest := records[0], records[1..];
      ParseEncodedGroup(rest);
      assert Sendable(first);
      RecordRoundTrip(first);
      hide FromBytes, ToBytes, ValidRecord, EncodeFrame, ParseChunk, AllSendable;
      ParseStep(ToBytes(first), EncodeGroup(rest));
      assert [first] + rest == records;
    }
  }

  /** The same turn, seen from a cursor into a longer frame. */
  lemma ParseAt(frame: seq<Byte>, cursor: nat)
    requires cursor < |frame|
    ensures ParseChunk(frame[cursor..]) ==
            if |frame| - cursor < 4 then None
            else
              var n := U32Of(frame[cursor..cursor + 4]);
              if n == 0 || |frame| - cursor - 4 < n then None
              else
                var r := FromBytes(frame[cursor + 4..cursor + 4 + n]);
                var rest := ParseChunk(frame[cursor + 4 + n..]);
                if r.None? || rest.None? then None else Some([r.value] + rest.value)
  {
    hide FromBytes, U32Of;
    var tail := frame[cursor..];
    if 4 <= |tail| {
      assert tail[..4] == frame[cursor..cursor + 4];
      var n := U32Of(tail[..4]);
      if n <= |tail| - 4 {
        assert tail[4..4 + n] == frame[cursor + 4..cursor + 4 + n];
        assert tail[4 + n..] == frame[cursor + 4 + n..];
      }
    }
  }

  lemma FrameReassembled(frame: seq<Byte>)
    requires 4 <= |frame| && U32Of(frame[..4]) <= |frame| - 4
    ensures var n := U32Of(frame[..4]);
            frame == EncodeFrame(frame[4..4 + n]) + frame[4 + n..]
  {
    hide LE32, U32Of;
    var n := U32Of(frame[..4]);
    assert LE32(n) == frame[..4];
    assert frame == frame[..4] + frame[4..4 + n] + frame[4 + n..];
  }

  lemma {:induction false} EncodeParsedGroup(frame: seq<Byte>)
    requires ParseChunk(frame).Some?
    ensures AllSendable(ParseChunk(frame).value)
    ensures EncodeGroup(ParseChunk(frame).value) == frame
  {
    hide FromBytes, ToBytes, ValidRecord, EncodeFrame, U32Of;
    if frame != [] {
      var n := U32Of(frame[..4]);
      var r := FromBytes(frame[4..4 + n]).value;
      var rest := ParseChunk(frame[4 + n..]).value;
      RecordBytesRoundTrip(frame[4..4 + n]);
      EncodeParsedGroup(frame[4 + n..]);
      FrameReassembled(frame);
      assert ([r] + rest)[1..] == rest;
    }
  }

  /** The frames the chunk loop accepts are exactly the encodings of sendable
      groups, and it returns the only group with that encoding. */
  lemma ChunkLoopCharacterised(frame: seq<Byte>, records: seq<Record>)
    ensures ParseChunk(frame) == Some(records) <==> AllSendable(records) && EncodeGroup(records) == frame
  {
    if ParseChunk(frame) == Some(records) {
      EncodeParsedGroup(frame);
    }
    if AllSendable(records) && EncodeGroup(records) == frame {
      ParseEncodedGroup(records);
    }
  }

  /** The whole decoder, for every frame and every result. */
  lemma DecodeCharacterised(frame: seq<Byte>, records: seq<Record>)
    ensures DecodeTransport(frame) == Some(records) <==>
            || (records != [] && AllSendable(records) && EncodeGroup(records) == frame)
            || ( && (forall group :: group != [] && AllSendable(group) ==> EncodeGroup(group) != frame)
                 && |records| == 1 && ValidRecord(records[0]) && ToBytes(records[0]) == frame)
  {
    hide FromBytes, ToBytes, ValidRecord;
    forall group ensures ParseChunk(frame) == Some(group) <==> AllSendable(group) && EncodeGroup(group) == frame {
      ChunkLoopCharacterised(frame, group);
    }
    hide ParseChunk;
    if FromBytes(frame).Some? {
      RecordBytesRoundTrip(frame);
    }
    if |records| == 1 {
      RecordRoundTrip(records[0]);
      assert records == [records[0]];
    }
  }

  /** Group framing and decoding undo each other. */
  lemma GroupRoundTrip(records: seq<Record>)
    requires records != [] && AllSendable(records)
    ensures DecodeTransport(EncodeGroup(records)) == Some(records)
  {
    DecodeCharacterised(EncodeGroup(records), records);
  }

  /** A bare record is also accepted, but only when its bytes do not happen to
      be a packed group: byte 4 of a packed group is the version of its first record. */
  lemma BareRecordDecodes(r: Record)
    requires ValidRecord(r)
    ensures DecodeTransport(ToBytes(r)) == Some([r]) <==> ParseChunk(ToBytes(r)).None?
    ensures ToBytes(r)[4] != PROTOCOL_VERSION ==> DecodeTransport(ToBytes(r)) == Some([r])
  {
    var frame := ToBytes(r);
    RecordRoundTrip(r);
    if ParseChunk(frame).Some? {
      var records := ParseChunk(frame).value;
      EncodeParsedGroup(frame);
      assert records != [];
      assert frame[4] == ToBytes(records[0])[0] == records[0].header.version;
      assert |ToBytes(records[0])| < |frame|;
    }
  }

  const ZERO_TAG: AuthTag := seq(16, _ => 0)

  /** A record whose packed group is, byte for byte, a valid bare record: its
      sequence number and item id play the outer type, codec and length. */
  function MisleadingInner(): Record {
    Record(Header(PROTOCOL_VERSION, 0, 0, U64Of([0, 0, 0, 0, 17, 3, 0, 0]), ExactState, DirectExact, 0,
                  U64Of([0, 0, 0, 0, 209, 0, 0, 0]), 205),
           seq(205, _ => 0), ZERO_TAG)
  }

  lemma {:induction false} DecodeNonZero(bs: seq<Byte>, i: nat)
    requires i < |bs| && bs[i] != 0
    ensures DecodeLE(bs) != 0
  {
    if i > 0 {
      DecodeNonZero(bs[1..], i - 1);
    }
  }

  /** The bytes of a packed record that a bare reading takes for type, codec,
      flags, item id and payload length. */
  lemma OverlaidBytes(r: Record)
    ensures var body := ToBytes(r);
            && body[17..21] == LE64(r.header.seqNo)[4..]
            && body[21] == r.header.recordType.Code()
            && body[29..33] == LE64(r.header.itemId)[4..]
  {
    HeaderLayout(r.header);
    hide AadBytes, LE64;
    var header := AadBytes(r.header);
    var body := ToBytes(r);
    assert header == body[..37];
    assert body[17..21] == header[13..21][4..];
    assert body[29..33] == header[25..33][4..];
  }

  lemma MisleadingInnerIsValid()
    ensures ValidRecord(MisleadingInner()) && |ToBytes(MisleadingInner())| == 258
    ensures LE64(MisleadingInner().header.seqNo) == [0, 0, 0, 0, 17, 3, 0, 0]
    ensures LE64(MisleadingInner().header.itemId) == [0, 0, 0, 0, 209, 0, 0, 0]
    ensures MisleadingInner().header.recordType == ExactState
  {
    hide LE64, DecodeLE, AadBytes;
    var itemBytes: seq<Byte> := [0, 0, 0, 0, 209, 0, 0, 0];
    DecodeNonZero(itemBytes, 4);
    assert U64Of(itemBytes) == DecodeLE(itemBytes);
  }

  /** The header a bare reading sees in such a frame. */
  lemma OverlaidHeader(frame: seq<Byte>)
    requires |frame| == 262 && frame[21..25] == [17, 3, 0, 0] && frame[33..37] == [209, 0, 0, 0]
    ensures FromAadBytes(frame[..HEADER_LEN]) ==
            Some(Header(frame[0], U64Of(frame[1..9]), U32Of(frame[9..13]), U64Of(frame[13..21]),
                        ExactState, DirectExact, 0, U64Of(frame[25..33]), 209))
  {
    hide U64Of, LE64, DecodeLE;
    assert frame[21] == frame[21..25][0] && frame[22] == frame[21..25][1];
    assert frame[23..25] == frame[21..25][2..] == [0, 0];
    SmallWords();
    var h := frame[..HEADER_LEN];
    assert h[1..9] == frame[1..9] && h[9..13] == frame[9..13] && h[13..21] == frame[13..21];
    assert h[23..25] == frame[23..25] && h[25..33] == frame[25..33] && h[33..37] == frame[33..37];
  }

  lemma SmallWords()
    ensures U32Of([209, 0, 0, 0]) == 209 && U16Of([0, 0]) == 0
  {
  }

  /** Enough of a frame's bytes to see that it is a valid bare ExactState record. */
  lemma BareRecordAccepted(frame: seq<Byte>)
    requires |frame| == 262 && frame[0] == PROTOCOL_VERSION
    requires frame[21..25] == [17, 3, 0, 0] && frame[25] != 0
    requires frame[33..37] == [209, 0, 0, 0]
    ensures FromBytes(frame).Some?
  {
    hide FromAadBytes, DecodeLE, LE64, LE32;
    OverlaidHeader(frame);
    DecodeNonZero(frame[25..33], 0);
    assert U64Of(frame[25..33]) == DecodeLE(frame[25..33]);
  }

  /** So the property "a bare record decodes to itself" is false of the code. */
  lemma BareRecordCanBeMisread() returns (outer: Record)
    ensures ValidRecord(outer)
    ensures DecodeTransport(ToBytes(outer)) == Some([MisleadingInner()])
    ensures outer != MisleadingInner()
  {
    hide FromBytes, ToBytes, AadBytes, ValidRecord, MisleadingInner, ParseChunk, DecodeTransport, DecodeLE, LE64;
    var inner := MisleadingInner();
    MisleadingInnerIsValid();
    OverlaidBytes(inner);
    var body := ToBytes(inner);
    var frame := EncodeGroup([inner]);
    assert EncodeGroup([inner][1..]) == [];
    assert frame == LE32(258) + body;
    assert LE32(258) == [2, 1, 0, 0];
    assert frame[21..25] == body[17..21] == [17, 3, 0, 0];
    assert frame[25] == body[21] == 17;
    assert frame[33..37] == body[29..33] == [209, 0, 0, 0];
    assert frame[0] == PROTOCOL_VERSION;
    BareRecordAccepted(frame);
    RecordBytesRoundTrip(frame);
    GroupRoundTrip([inner]);
    outer := FromBytes(frame).value;
    assert |ToBytes(outer)| == 262;
  }

  /** The loop of decode_transport_records, in the server and in the shared crate. */
  method DecodeTransportRecords(frame: seq<Byte>) returns (result: Option<seq<Record>>)
    ensures result == DecodeTransport(frame)
  {
    hide FromBytes, U32Of;
    if |frame| >= 4 {
      var cursor := 0;
      var records: seq<Record> := [];
      var chunkOk := true;
      assert frame[0..] == frame;
      while cursor < |frame| && chunkOk
        invariant 0 <= cursor <= |frame|
        invariant !chunkOk ==> ParseChunk(frame).None?
        invariant chunkOk ==> ParseChunk(frame) == Prepend(records, ParseChunk(frame[cursor..]))
        decreases |frame| - cursor, chunkOk
      {
        ParseAt(frame, cursor);
        if |frame| - cursor < 4 {
          chunkOk := false;
          break;
        }
        var recordLen := U32Of(frame[cursor..cursor + 4]);
        cursor := cursor + 4;
        if recordLen == 0 || |frame| - cursor < recordLen {
          chunkOk := false;
          break;
        }
        var decoded := FromBytes(frame[cursor..cursor + recordLen]);
        match decoded {
          case Some(record) =>
            PrependStep(records, record, ParseChunk(frame[cursor + recordLen..]));
            records := records + [record];
          case None =>
            chunkOk := false;
            break;
        }
        cursor := cursor + recordLen;
      }
      if chunkOk && records != [] && cursor == |frame| {
        return Some(records);
      }
    }
    var single := FromBytes(frame);
    match single {
      case Some(record) => return Some([record]);
      case None => return None;
    }
  }

  ghost function Prepend(records: seq<Record>, rest: Option<seq<Record>>): (all: Option<seq<Record>>)
    ensures records == [] ==> all == rest
    ensures rest == Some([]) ==> all == Some(records)
  {
    if rest.None? then None
    else
      assert records == [] ==> records + rest.value == rest.value;
      assert rest.value == [] ==> records + rest.value == records;
      Some(records + rest.value)
  }

  lemma PrependStep(records: seq<Record>, record: Record, rest: Option<seq<Record>>)
    ensures Prepend(records, Prepend([record], rest)) == Prepend(records + [record], rest)
  {
    if rest.Some? {
      assert records + ([record] + rest.value) == (records + [record]) + rest.value;
    }
  }

  /** The browser tries the shared decoder and then a loop of its own. Its loop
      never adds a frame: both receivers accept the same frames with the same records. */
  method DecodeWebBenchTransportRecords(frame: seq<Byte>) returns (result: Option<seq<Record>>)
    ensures result == DecodeTransport(frame)
  {
    hide FromBytes, U32Of;
    var shared := DecodeTransportRecords(frame);
    if shared.Some? {
      return shared;
    }
    if |frame| < 4 {
      return None;
    }
    var cursor := 0;
    var records: seq<Record> := [];
    assert frame[0..] == frame;
    while cursor < |frame|
      invariant 0 <= cursor <= |frame|
      invariant ParseChunk(frame) == Prepend(records, ParseChunk(frame[cursor..]))
    {
      ParseAt(frame, cursor);
      if |frame| - cursor < 4 {
        return None;
      }
      var recordLen := U32Of(frame[cursor..cursor + 4]);
      cursor := cursor + 4;
      if recordLen == 0 || |frame| - cursor < recordLen {
        return None;
      }
      var decoded := FromBytes(frame[cursor..cursor + recordLen]);
      if decoded.None? {
        return None;
      }
      PrependStep(records, decoded.value, ParseChunk(frame[cursor + recordLen..]));
      records := records + [decoded.value];
      cursor := cursor + recordLen;
    }
    return if records == [] then None else Some(records);
  }
}
