/** The stateful side of the batcher and of the two senders. */
module Senders {
  import opened Bytes
  import opened Wire
  import opened Framing
  import opened Burst

  function Max(a: nat, b: nat): (m: nat)
    ensures a <= m && b <= m && (m == a || m == b)
  {
    if a < b then b else a
  }

  /** The largest payload of any group, 0 when there is none. */
  function MaxPayload(groups: seq<seq<Record>>): nat {
    if groups == [] then 0
    else Max(MaxPayload(groups[..|groups| - 1]), PayloadSum(groups[|groups| - 1]))
  }

  /** No group has a larger payload, and some group has this one. */
  lemma {:induction false} MaxPayloadIsLargest(groups: seq<seq<Record>>)
    ensures forall i :: 0 <= i < |groups| ==> PayloadSum(groups[i]) <= MaxPayload(groups)
    ensures groups != [] ==> exists i :: 0 <= i < |groups| && PayloadSum(groups[i]) == MaxPayload(groups)
  {
    hide PayloadSum;
    if groups != [] {
      var last := |groups| - 1;
      MaxPayloadIsLargest(groups[..last]);
      forall i | 0 <= i < |groups| ensures PayloadSum(groups[i]) <= MaxPayload(groups) {
        assert i < last ==> groups[i] == groups[..last][i];
      }
      if MaxPayload(groups) != PayloadSum(groups[last]) && last > 0 {
        var i :| 0 <= i < last && PayloadSum(groups[..last][i]) == MaxPayload(groups[..last]);
        assert groups[..last][i] == groups[i];
      }
    }
  }

  lemma EmitOne(emitted: seq<seq<Record>>, group: seq<Record>)
    ensures PayloadSum(Concat(emitted + [group])) == PayloadSum(Concat(emitted)) + PayloadSum(group)
    ensures MaxPayload(emitted + [group]) == Max(MaxPayload(emitted), PayloadSum(group))
  {
    hide PayloadSum;
    ConcatAppend(emitted, [group]);
    assert Concat([group]) == group + [] == group;
    PayloadSumAppend(Concat(emitted), group);
    assert (emitted + [group])[..|emitted|] == emitted;
  }

  lemma BufferOne(buffer: seq<Record>, frame: Record)
    ensures PayloadSum(buffer + [frame]) == PayloadSum(buffer) + PayloadLen(frame)
    ensures TransportSum(buffer + [frame]) == TransportSum(buffer) + TransportLen(frame)
  {
    hide PayloadLen, TransportLen;
    PayloadSumAppend(buffer, [frame]);
    TransportSumAppend(buffer, [frame]);
    assert [frame][1..] == [];
  }

  lemma EmptySums()
    ensures PayloadSum([]) == 0 && TransportSum([]) == 0 && WireSum([]) == 0
  {
  }

  method PayloadBytes(frames: seq<Record>) returns (total: nat)
    ensures total == PayloadSum(frames)
  {
    hide PayloadLen;
    total := 0;
    for i := 0 to |frames|
      invariant total + PayloadSum(frames[i..]) == PayloadSum(frames)
    {
      assert frames[i..][1..] == frames[i + 1..];
      total := total + PayloadLen(frames[i]);
    }
  }

  class BurstAccumulator {
    const cap: nat
    var frames: seq<Record>
    var bufferedPayloadBytes: nat
    var bufferedTransportBytes: nat
    var peakBufferedPayloadBytes: nat
    var peakBufferedFrameCount: nat
    var burstCount: nat
    var totalBurstPayloadBytes: nat
    var maxBurstPayloadBytes: nat
    ghost var emitted: seq<seq<Record>>  // every group flushed so far

    ghost predicate Valid()
      reads this
    {
      && bufferedPayloadBytes == PayloadSum(frames)
      && bufferedTransportBytes == TransportSum(frames)
      && Pending(cap, frames)
      && burstCount == |emitted|
      && totalBurstPayloadBytes == PayloadSum(Concat(emitted))
      && maxBurstPayloadBytes == MaxPayload(emitted)
      && bufferedPayloadBytes <= peakBufferedPayloadBytes
      && |frames| <= peakBufferedFrameCount
    }

    constructor (cap: nat)
      ensures Valid() && this.cap == cap
      ensures frames == [] && emitted == []
      ensures peakBufferedPayloadBytes == 0 && peakBufferedFrameCount == 0
    {
      this.cap := cap;
      frames, emitted := [], [];
      bufferedPayloadBytes, bufferedTransportBytes := 0, 0;
      peakBufferedPayloadBytes, peakBufferedFrameCount := 0, 0;
      burstCount, totalBurstPayloadBytes, maxBurstPayloadBytes := 0, 0, 0;
    }

    /** Take the buffer as one group. Only the accounting of the buffer itself is needed. */
    method TakeFlush() returns (group: seq<Record>)
      requires burstCount == |emitted| && totalBurstPayloadBytes == PayloadSum(Concat(emitted))
      requires maxBurstPayloadBytes == MaxPayload(emitted)
      modifies this
      ensures Valid() && frames == [] && group == old(frames)
      ensures emitted == old(emitted) + [group]
      ensures peakBufferedPayloadBytes == old(peakBufferedPayloadBytes)
      ensures peakBufferedFrameCount == old(peakBufferedFrameCount)
    {
      hide PayloadSum, MaxPayload, Concat;
      group := frames;
      var payloadBytes := PayloadBytes(frames);
      burstCount := burstCount + 1;
      totalBurstPayloadBytes := totalBurstPayloadBytes + payloadBytes;
      maxBurstPayloadBytes := Max(maxBurstPayloadBytes, payloadBytes);
      bufferedPayloadBytes := 0;
      bufferedTransportBytes := 0;
      frames := [];
      EmptySums();
      EmitOne(emitted, group);
      emitted := emitted + [group];
    }

    method Push(frame: Record, flushed: seq<seq<Record>>) returns (out: seq<seq<Record>>)
      requires Valid()
      modifies this
      ensures Valid()
      ensures var p := PushOne(cap, old(frames), frame);
              && out == flushed + p.flushed
              && frames == p.buffer
              && emitted == old(emitted) + p.flushed
      ensures var grown := Grown(cap, old(frames), frame);
              && peakBufferedFrameCount == Max(old(peakBufferedFrameCount), |grown|)
              && peakBufferedPayloadBytes == Max(old(peakBufferedPayloadBytes), PayloadSum(grown))
    {
      hide PayloadLen, TransportLen, PayloadSum, MaxPayload, Concat;
      out := flushed;
      var nextPayload := PayloadLen(frame);
      var nextTransport := TransportLen(frame);
      if frames != [] && bufferedTransportBytes + nextTransport > cap {
        var group := TakeFlush();
        out := out + [group];
      }
      BufferOne(frames, frame);
      bufferedPayloadBytes := bufferedPayloadBytes + nextPayload;
      bufferedTransportBytes := bufferedTransportBytes + nextTransport;
      frames := frames + [frame];
      peakBufferedPayloadBytes := Max(peakBufferedPayloadBytes, bufferedPayloadBytes);
      peakBufferedFrameCount := Max(peakBufferedFrameCount, |frames|);
      if bufferedTransportBytes >= cap {
        var group := TakeFlush();
        out := out + [group];
      }
    }

    method FlushRemaining(flushed: seq<seq<Record>>) returns (out: seq<seq<Record>>)
      requires Valid()
      modifies this
      ensures Valid() && frames == []
      ensures out == flushed + FlushRest(old(frames))
      ensures emitted == old(emitted) + FlushRest(old(frames))
    {
      out := flushed;
      if frames != [] {
        var group := TakeFlush();
        out := out + [group];
      }
    }
  }

  /** The counters both senders keep. */
  class SideProgress {
    var records: nat
    var payloadBytes: nat
    var wireBytes: nat
    var bursts: nat

    constructor ()
      ensures records == 0 && payloadBytes == 0 && wireBytes == 0 && bursts == 0
    {
      records, payloadBytes, wireBytes, bursts := 0, 0, 0, 0;
    }

    method AccumulateRecordMetrics(r: Record)
      modifies this`records, this`payloadBytes
      ensures records == old(records) + 1
      ensures payloadBytes == old(payloadBytes) + PayloadLen(r)
    {
      records := records + 1;
      payloadBytes := payloadBytes + PayloadLen(r);
    }
  }

  /** The spool file of the browser sender. */
  class SpoolFile {
    var contents: seq<Byte>

    constructor ()
      ensures contents == []
    {
      contents := [];
    }
  }

  /** The messages a websocket was given, in order. */
  class WebSocket {
    var messages: seq<seq<Byte>>

    constructor ()
      ensures messages == []
    {
      messages := [];
    }
  }

  const MARKER: seq<Byte> := LE32(0)

  function SpoolBytes(groups: seq<seq<Record>>, markers: bool): seq<Byte> {
    if groups == [] then []
    else EncodeGroup(groups[0]) + (if markers then MARKER else []) + SpoolBytes(groups[1..], markers)
  }

  function WireSum(frames: seq<Record>): nat {
    if frames == [] then 0 else |ToBytes(frames[0])| + WireSum(frames[1..])
  }

  method WriteSenderFrameBytes(file: SpoolFile, progress: SideProgress, frame: Record)
    modifies file, progress`records, progress`payloadBytes, progress`wireBytes
    ensures file.contents == old(file.contents) + EncodeFrame(ToBytes(frame))
    ensures progress.records == old(progress.records) + 1
    ensures progress.payloadBytes == old(progress.payloadBytes) + PayloadLen(frame)
    ensures progress.wireBytes == old(progress.wireBytes) + |ToBytes(frame)|
  {
    var wireBytes := ToBytes(frame);
    file.contents := file.contents + LE32(|wireBytes| % 0x1_0000_0000);
    file.contents := file.contents + wireBytes;
    progress.AccumulateRecordMetrics(frame);
    progress.wireBytes := progress.wireBytes + |wireBytes|;
  }

  /** The inner loop of write_sender_burst_groups. */
  method WriteSenderBurst(file: SpoolFile, progress: SideProgress, burst: seq<Record>)
    modifies file, progress`records, progress`payloadBytes, progress`wireBytes
    ensures file.contents == old(file.contents) + EncodeGroup(burst)
    ensures progress.records == old(progress.records) + |burst|
    ensures progress.payloadBytes == old(progress.payloadBytes) + PayloadSum(burst)
    ensures progress.wireBytes == old(progress.wireBytes) + WireSum(burst)
  {
    hide ToBytes, EncodeFrame, PayloadLen;
    for i := 0 to |burst|
      invariant file.contents + EncodeGroup(burst[i..]) == old(file.contents) + EncodeGroup(burst)
      invariant progress.records == old(progress.records) + i
      invariant progress.payloadBytes + PayloadSum(burst[i..]) == old(progress.payloadBytes) + PayloadSum(burst)
      invariant progress.wireBytes + WireSum(burst[i..]) == old(progress.wireBytes) + WireSum(burst)
    {
      assert burst[i..][1..] == burst[i + 1..] && burst[i..][0] == burst[i];
      AppendAssociative(file.contents, EncodeFrame(ToBytes(burst[i])), EncodeGroup(burst[i + 1..]));
      WriteSenderFrameBytes(file, progress, burst[i]);
    }
    assert burst[|burst|..] == [];
    assert file.contents + [] == file.contents;
  }

  method WriteSenderBurstGroups(file: SpoolFile, progress: SideProgress, bursts: seq<seq<Record>>, includeMarkers: bool)
    modifies file, progress
    ensures file.contents == old(file.contents) + SpoolBytes(bursts, includeMarkers)
    ensures progress.bursts == old(progress.bursts) + |bursts|
    ensures progress.records == old(progress.records) + |Concat(bursts)|
    ensures progress.payloadBytes == old(progress.payloadBytes) + PayloadSum(Concat(bursts))
    ensures progress.wireBytes == old(progress.wireBytes) + WireSum(Concat(bursts))
  {
    hide ToBytes, EncodeGroup, PayloadSum, WireSum;
    for i := 0 to |bursts|
      invariant file.contents + SpoolBytes(bursts[i..], includeMarkers) ==
                old(file.contents) + SpoolBytes(bursts, includeMarkers)
      invariant progress.bursts == old(progress.bursts) + i
      invariant progress.records + |Concat(bursts[i..])| == old(progress.records) + |Concat(bursts)|
      invariant progress.payloadBytes + PayloadSum(Concat(bursts[i..])) ==
                old(progress.payloadBytes) + PayloadSum(Concat(bursts))
      invariant progress.wireBytes + WireSum(Concat(bursts[i..])) == old(progress.wireBytes) + WireSum(Concat(bursts))
    {
      var burst, rest := bursts[i], bursts[i + 1..];
      assert bursts[i..][1..] == rest && bursts[i..][0] == burst;
      PayloadSumAppend(burst, Concat(rest));
      WireSumAppend(burst, Concat(rest));
      ghost var tail := SpoolBytes(rest, includeMarkers);
      ghost var marker := if includeMarkers then MARKER else [];
      AppendAssociative(file.contents, EncodeGroup(burst), marker + tail);
      AppendAssociative(EncodeGroup(burst), marker, tail);
      AppendAssociative(file.contents + EncodeGroup(burst), marker, tail);
      progress.bursts := progress.bursts + 1;
      WriteSenderBurst(file, progress, burst);
      if includeMarkers {
        file.contents := file.contents + LE32(0);
      } else {
        assert file.contents + [] == file.contents;
      }
    }
    assert bursts[|bursts|..] == [];
    EmptySums();
    assert file.contents + [] == file.contents;
  }

  lemma {:induction false} WireSumAppend(a: seq<Record>, b: seq<Record>)
    ensures WireSum(a + b) == WireSum(a) + WireSum(b)
  {
    hide ToBytes;
    if a == [] {
      assert a + b == b;
    } else {
      WireSumAppend(a[1..], b);
      assert (a + b)[1..] == a[1..] + b;
    }
  }

  lemma {:induction false} GroupLength(burst: seq<Record>)
    ensures |EncodeGroup(burst)| == TransportSum(burst)
  {
    hide ToBytes;
    if burst != [] {
      GroupLength(burst[1..]);
    }
  }

  /** The spool counts the records without their four-byte prefixes. */
  lemma {:induction false} WireSumIsBare(frames: seq<Record>)
    ensures WireSum(frames) + 4 * |frames| == |EncodeGroup(frames)|
  {
    hide ToBytes;
    if frames != [] {
      WireSumIsBare(frames[1..]);
    }
  }

  /** One message per group; an empty group is not sent. */
  function Messages(groups: seq<seq<Record>>): seq<seq<Byte>> {
    if groups == [] then []
    else (if groups[0] == [] then [] else [EncodeGroup(groups[0])]) + Messages(groups[1..])
  }

  method SendFrame(socket: WebSocket, progress: SideProgress, frames: seq<Record>)
    modifies socket, progress
    ensures socket.messages == old(socket.messages) + Messages([frames])
    ensures progress.bursts == old(progress.bursts) + |Messages([frames])|
    ensures progress.records == old(progress.records) + |frames|
    ensures progress.payloadBytes == old(progress.payloadBytes) + PayloadSum(frames)
    ensures progress.wireBytes == old(progress.wireBytes) + TransportSum(frames)
  {
    hide ToBytes, EncodeFrame, PayloadLen;
    assert Messages([frames][1..]) == [];
    if frames == [] {
      return;
    }
    progress.bursts := progress.bursts + 1;
    var chunk: seq<Byte> := [];
    for i := 0 to |frames|
      invariant chunk + EncodeGroup(frames[i..]) == EncodeGroup(frames)
      invariant progress.records == old(progress.records) + i
      invariant progress.payloadBytes + PayloadSum(frames[i..]) == old(progress.payloadBytes) + PayloadSum(frames)
      invariant progress.bursts == old(progress.bursts) + 1 && progress.wireBytes == old(progress.wireBytes)
      invariant socket.messages == old(socket.messages)
    {
      assert frames[i..][1..] == frames[i + 1..] && frames[i..][0] == frames[i];
      AppendAssociative(chunk, EncodeFrame(ToBytes(frames[i])), EncodeGroup(frames[i + 1..]));
      progress.AccumulateRecordMetrics(frames[i]);
      chunk := chunk + EncodeFrame(ToBytes(frames[i]));
    }
    assert frames[|frames|..] == [];
    assert chunk + [] == chunk;
    GroupLength(frames);
    progress.wireBytes := progress.wireBytes + |chunk|;
    socket.messages := socket.messages + [chunk];
  }

  method FlushBursts(socket: WebSocket, progress: SideProgress, bursts: seq<seq<Record>>)
    modifies socket, progress
    ensures socket.messages == old(socket.messages) + Messages(bursts)
    ensures progress.bursts == old(progress.bursts) + |Messages(bursts)|
    ensures progress.records == old(progress.records) + |Concat(bursts)|
    ensures progress.payloadBytes == old(progress.payloadBytes) + PayloadSum(Concat(bursts))
    ensures progress.wireBytes == old(progress.wireBytes) + TransportSum(Concat(bursts))
  {
    hide EncodeGroup, PayloadSum, TransportSum;
    for i := 0 to |bursts|
      invariant socket.messages + Messages(bursts[i..]) == old(socket.messages) + Messages(bursts)
      invariant progress.bursts + |Messages(bursts[i..])| == old(progress.bursts) + |Messages(bursts)|
      invariant progress.records + |Concat(bursts[i..])| == old(progress.records) + |Concat(bursts)|
      invariant progress.payloadBytes + PayloadSum(Concat(bursts[i..])) ==
                old(progress.payloadBytes) + PayloadSum(Concat(bursts))
      invariant progress.wireBytes + TransportSum(Concat(bursts[i..])) ==
                old(progress.wireBytes) + TransportSum(Concat(bursts))
    {
      var burst, rest := bursts[i], bursts[i + 1..];
      assert bursts[i..][1..] == rest && bursts[i..][0] == burst;
      PayloadSumAppend(burst, Concat(rest));
      TransportSumAppend(burst, Concat(rest));
      assert [burst][1..] == [] && Messages([burst]) + [] == Messages([burst]);
      AppendAssociative(socket.messages, Messages([burst]), Messages(rest));
      SendFrame(socket, progress, burst);
    }
    assert bursts[|bursts|..] == [];
    EmptySums();
    assert socket.messages + [] == socket.messages;
  }

  /** The groups one frame sends: what the push flushes, and the rest of the
      buffer when the target is reached. */
  function SentGroups(cap: nat, buffer: seq<Record>, frame: Record, done: bool): seq<seq<Record>> {
    var p := PushOne(cap, buffer, frame);
    p.flushed + if done then FlushRest(p.buffer) else []
  }

  /** Whatever is pushed is either sent or still buffered. */
  lemma SentPlusBuffered(cap: nat, buffer: seq<Record>, frame: Record, done: bool)
    requires Pending(cap, buffer)
    ensures var left := if done then [] else PushOne(cap, buffer, frame).buffer;
            PayloadSum(Concat(SentGroups(cap, buffer, frame, done))) + PayloadSum(left)
            == PayloadSum(buffer) + PayloadLen(frame)
  {
    var p := PushOne(cap, buffer, frame);
    PushOneStep(cap, buffer, frame);
    BufferOne(buffer, frame);
    hide PayloadLen, TransportLen, PushOne;
    PayloadSumAppend(Concat(p.flushed), p.buffer);
    if done {
      BufferIsGroup(cap, p.buffer);
      ConcatAppend(p.flushed, FlushRest(p.buffer));
    } else {
      assert p.flushed + [] == p.flushed;
    }
  }

  predicate ReachesTarget(sentPayload: nat, bufferedPayload: nat, frame: Record, target: nat) {
    sentPayload + bufferedPayload + PayloadLen(frame) >= target
  }

  method PushFrame(socket: WebSocket, progress: SideProgress, buffer: BurstAccumulator, frame: Record, target: nat)
    returns (done: bool)
    requires buffer.Valid()
    modifies socket, progress, buffer
    ensures buffer.Valid()
    ensures done == ReachesTarget(old(progress.payloadBytes), old(buffer.bufferedPayloadBytes), frame, target)
    ensures done ==> buffer.frames == []
    ensures !done ==> buffer.frames == PushOne(buffer.cap, old(buffer.frames), frame).buffer
    ensures progress.payloadBytes + buffer.bufferedPayloadBytes
            == old(progress.payloadBytes + buffer.bufferedPayloadBytes) + PayloadLen(frame)
    ensures var groups := SentGroups(buffer.cap, old(buffer.frames), frame, done);
            && buffer.emitted == old(buffer.emitted) + groups
            && socket.messages == old(socket.messages) + Messages(groups)
            && progress.wireBytes == old(progress.wireBytes) + TransportSum(Concat(groups))
            && progress.records == old(progress.records) + |Concat(groups)|
            && progress.bursts == old(progress.bursts) + |Messages(groups)|
  {
    hide PayloadLen, TransportLen, PushOne, PayloadSum, TransportSum, MaxPayload, Concat, Messages;
    var framePayload := PayloadLen(frame);
    var flushed: seq<seq<Record>> := [];
    ghost var before := buffer.frames;
    EmptySums();
    if progress.payloadBytes + buffer.bufferedPayloadBytes + framePayload >= target {
      SentPlusBuffered(buffer.cap, before, frame, true);
      flushed := buffer.Push(frame, flushed);
      flushed := buffer.FlushRemaining(flushed);
      assert flushed == SentGroups(buffer.cap, before, frame, true);
      FlushBursts(socket, progress, flushed);
      return true;
    }
    SentPlusBuffered(buffer.cap, before, frame, false);
    flushed := buffer.Push(frame, flushed);
    assert flushed == SentGroups(buffer.cap, before, frame, false);
    FlushBursts(socket, progress, flushed);
    return progress.payloadBytes >= target;
  }

  /** The close record goes out with whatever is still buffered. */
  method PushCloseFrame(socket: WebSocket, progress: SideProgress, buffer: BurstAccumulator, frame: Record)
    requires buffer.Valid()
    modifies socket, progress, buffer
    ensures buffer.Valid() && buffer.frames == []
    ensures progress.payloadBytes == old(progress.payloadBytes + buffer.bufferedPayloadBytes) + PayloadLen(frame)
    ensures var groups := SentGroups(buffer.cap, old(buffer.frames), frame, true);
            && buffer.emitted == old(buffer.emitted) + groups
            && socket.messages == old(socket.messages) + Messages(groups)
            && progress.wireBytes == old(progress.wireBytes) + TransportSum(Concat(groups))
            && progress.records == old(progress.records) + |Concat(groups)|
            && progress.bursts == old(progress.bursts) + |Messages(groups)|
  {
    hide PayloadLen, TransportLen, PushOne, PayloadSum, TransportSum, MaxPayload, Concat, Messages;
    ghost var before := buffer.frames;
    var flushed: seq<seq<Record>> := [];
    EmptySums();
    SentPlusBuffered(buffer.cap, before, frame, true);
    flushed := buffer.Push(frame, flushed);
    flushed := buffer.FlushRemaining(flushed);
    assert flushed == SentGroups(buffer.cap, before, frame, true);
    FlushBursts(socket, progress, flushed);
  }

  /** Send whatever is buffered, nothing if nothing is. */
  method FlushToSocket(socket: WebSocket, progress: SideProgress, buffer: BurstAccumulator)
    requires buffer.Valid()
    modifies socket, progress, buffer
    ensures buffer.Valid() && buffer.frames == []
    ensures progress.payloadBytes == old(progress.payloadBytes + buffer.bufferedPayloadBytes)
    ensures var groups := FlushRest(old(buffer.frames));
            && buffer.emitted == old(buffer.emitted) + groups
            && socket.messages == old(socket.messages) + Messages(groups)
            && progress.wireBytes == old(progress.wireBytes) + TransportSum(Concat(groups))
            && progress.records == old(progress.records) + |Concat(groups)|
            && progress.bursts == old(progress.bursts) + |Messages(groups)|
  {
    hide PayloadLen, TransportLen, PayloadSum, TransportSum, Concat, Messages;
    var flushed: seq<seq<Record>> := [];
    EmptySums();
    BufferIsGroup(buffer.cap, buffer.frames);
    ghost var rest := FlushRest(buffer.frames);
    flushed := buffer.FlushRemaining(flushed);
    assert flushed == rest;
    FlushBursts(socket, progress, flushed);
  }

  method WriteSenderFrame(file: SpoolFile, progress: SideProgress, buffer: BurstAccumulator, frame: Record, target: nat)
    returns (done: bool)
    requires buffer.Valid()
    modifies file, progress, buffer
    ensures buffer.Valid()
    ensures done == ReachesTarget(old(progress.payloadBytes), old(buffer.bufferedPayloadBytes), frame, target)
    ensures done ==> buffer.frames == []
    ensures !done ==> buffer.frames == PushOne(buffer.cap, old(buffer.frames), frame).buffer
    ensures progress.payloadBytes + buffer.bufferedPayloadBytes
            == old(progress.payloadBytes + buffer.bufferedPayloadBytes) + PayloadLen(frame)
    ensures var groups := SentGroups(buffer.cap, old(buffer.frames), frame, done);
            && buffer.emitted == old(buffer.emitted) + groups
            && file.contents == old(file.contents) + SpoolBytes(groups, true)
            && progress.wireBytes == old(progress.wireBytes) + WireSum(Concat(groups))
            && progress.records == old(progress.records) + |Concat(groups)|
            && progress.bursts == old(progress.bursts) + |groups|
  {
    hide PayloadLen, TransportLen, PushOne, PayloadSum, TransportSum, MaxPayload, Concat, SpoolBytes, WireSum;
    var framePayload := PayloadLen(frame);
    ghost var before := buffer.frames;
    EmptySums();
    if progress.payloadBytes + buffer.bufferedPayloadBytes + framePayload >= target {
      SentPlusBuffered(buffer.cap, before, frame, true);
      var flushed: seq<seq<Record>> := [];
      flushed := buffer.Push(frame, flushed);
      flushed := buffer.FlushRemaining(flushed);
      assert flushed == SentGroups(buffer.cap, before, frame, true);
      WriteSenderBurstGroups(file, progress, flushed, true);
      return true;
    }
    SentPlusBuffered(buffer.cap, before, frame, false);
    var flushed: seq<seq<Record>> := [];
    flushed := buffer.Push(frame, flushed);
    assert flushed == SentGroups(buffer.cap, before, frame, false);
    WriteSenderBurstGroups(file, progress, flushed, true);
    return progress.payloadBytes >= target;
  }

  method WriteSenderCloseFrame(file: SpoolFile, progress: SideProgress, buffer: BurstAccumulator, frame: Record)
    requires buffer.Valid()
    modifies file, progress, buffer
    ensures buffer.Valid() && buffer.frames == []
    ensures var groups := SentGroups(buffer.cap, old(buffer.frames), frame, true);
            && buffer.emitted == old(buffer.emitted) + groups
            && file.contents == old(file.contents) + SpoolBytes(groups, true)
            && progress.wireBytes == old(progress.wireBytes) + WireSum(Concat(groups))
            && progress.records == old(progress.records) + |Concat(groups)|
            && progress.bursts == old(progress.bursts) + |groups|
    ensures progress.payloadBytes == old(progress.payloadBytes + buffer.bufferedPayloadBytes) + PayloadLen(frame)
  {
    hide PayloadLen, TransportLen, PushOne, PayloadSum, TransportSum, MaxPayload, Concat, SpoolBytes, WireSum;
    ghost var before := buffer.frames;
    var flushed: seq<seq<Record>> := [];
    EmptySums();
    SentPlusBuffered(buffer.cap, before, frame, true);
    flushed := buffer.Push(frame, flushed);
    flushed := buffer.FlushRemaining(flushed);
    assert flushed == SentGroups(buffer.cap, before, frame, true);
    WriteSenderBurstGroups(file, progress, flushed, true);
  }

  method FlushSenderBursts(file: SpoolFile, progress: SideProgress, buffer: BurstAccumulator, includeMarkers: bool)
    requires buffer.Valid()
    modifies file, progress, buffer
    ensures buffer.Valid() && buffer.frames == []
    ensures file.contents == old(file.contents) + SpoolBytes(FlushRest(old(buffer.frames)), includeMarkers)
    ensures buffer.emitted == old(buffer.emitted) + FlushRest(old(buffer.frames))
    ensures progress.payloadBytes == old(progress.payloadBytes + buffer.bufferedPayloadBytes)
    ensures progress.wireBytes == old(progress.wireBytes) + WireSum(old(buffer.frames))
    ensures progress.records == old(progress.records) + |old(buffer.frames)|
    ensures progress.bursts == old(progress.bursts) + |FlushRest(old(buffer.frames))|
  {
    hide PayloadLen, TransportLen, PayloadSum, TransportSum, SpoolBytes, WireSum;
    var flushed: seq<seq<Record>> := [];
    EmptySums();
    BufferIsGroup(buffer.cap, buffer.frames);
    ghost var rest := FlushRest(buffer.frames);
    flushed := buffer.FlushRemaining(flushed);
    assert flushed == rest;
    WriteSenderBurstGroups(file, progress, flushed, includeMarkers);
  }
}
