/** The browser sender: it re-reads the spool in arbitrary chunks and sends one
    websocket message per group. */
module Spool {
  import opened Bytes
  import opened Wire
  import opened Framing
  import opened Burst
  import opened Senders

  // ---- The spool as a sequence of tokens ----

  datatype Token = Marker | Item(record: Record)

  function PrintToken(token: Token): (bytes: seq<Byte>)
    ensures |bytes| >= 4
  {
    match token
    case Marker => MARKER
    case Item(r) => EncodeFrame(ToBytes(r))
  }

  function Print(tokens: seq<Token>): seq<Byte> {
    if tokens == [] then [] else PrintToken(tokens[0]) + Print(tokens[1..])
  }

  predicate WellFormed(tokens: seq<Token>) {
    forall i :: 0 <= i < |tokens| && tokens[i].Item? ==> Sendable(tokens[i].record)
  }

  /** Too short for a length, or for the record the length announces. */
  predicate Incomplete(bytes: seq<Byte>) {
    |bytes| < 4 || |bytes| - 4 < U32Of(bytes[..4])
  }

  /** Starts with a complete, non-empty frame that does not decode. */
  predicate Undecodable(bytes: seq<Byte>) {
    && !Incomplete(bytes)
    && var n := U32Of(bytes[..4]);
       n != 0 && FromBytes(bytes[4..4 + n]).None?
  }

  datatype Head = Stuck | Corrupt | Read(token: Token, tail: seq<Byte>)

  /** The next token of a byte string. */
  function ReadToken(bytes: seq<Byte>): (head: Head)
    ensures head.Read? ==> |head.tail| < |bytes|
  {
    if |bytes| < 4 then Stuck
    else
      var n := U32Of(bytes[..4]);
      if n == 0 then Read(Marker, bytes[4..])
      else if |bytes| - 4 < n then Stuck
      else
        var r := FromBytes(bytes[4..4 + n]);
        if r.None? then Corrupt else Read(Item(r.value), bytes[4 + n..])
  }

  lemma ReadPrinted(token: Token, tail: seq<Byte>)
    requires WellFormed([token])
    ensures ReadToken(PrintToken(token) + tail) == Read(token, tail)
  {
    match token
    case Item(r) =>
      assert Sendable([token][0].record);
      RecordRoundTrip(r);
      var body := ToBytes(r);
      hide FromBytes, ToBytes, ValidRecord, U32Of, LE32;
      ReadFrame(body, tail);
    case Marker =>
      hide LE32;
      var bytes := MARKER + tail;
      assert bytes[..4] == MARKER;
      assert bytes[4..] == tail;
  }

  lemma ReadFrame(body: seq<Byte>, tail: seq<Byte>)
    requires 0 < |body| < 0x1_0000_0000
    ensures ReadToken(EncodeFrame(body) + tail) ==
            if FromBytes(body).None? then Corrupt else Read(Item(FromBytes(body).value), tail)
  {
    hide FromBytes, LE32;
    var bytes := EncodeFrame(body) + tail;
    assert bytes[..4] == LE32(|body|);
    assert bytes[4..4 + |body|] == body;
    assert bytes[4 + |body|..] == tail;
  }

  lemma PrintRead(bytes: seq<Byte>)
    ensures ReadToken(bytes).Stuck? <==> Incomplete(bytes)
    ensures ReadToken(bytes).Corrupt? <==> Undecodable(bytes)
    ensures var head := ReadToken(bytes);
            head.Read? ==> WellFormed([head.token]) && bytes == PrintToken(head.token) + head.tail
  {
    hide FromBytes, ToBytes, ValidRecord, EncodeFrame, U32Of;
    var head := ReadToken(bytes);
    if head.Read? {
      if head.token == Marker {
        assert bytes == bytes[..4] + bytes[4..];
      } else {
        RecordBytesRoundTrip(bytes[4..4 + U32Of(bytes[..4])]);
        FrameReassembled(bytes);
      }
    }
  }

  // ---- The incremental loop as a function of the whole stream ----

  datatype Parsed = Parsed(rest: seq<Byte>, outbound: seq<Byte>, sent: seq<seq<Byte>>, failed: bool)

  /** What reading a token does to the outbound message and the messages sent. */
  function Deliver(token: Token, outbound: seq<Byte>, sent: seq<seq<Byte>>): (seq<Byte>, seq<seq<Byte>>) {
    match token
    case Marker => ([], if outbound == [] then sent else sent + [outbound])
    case Item(r) => (outbound + EncodeFrame(ToBytes(r)), sent)
  }

  function ParseStream(bytes: seq<Byte>, outbound: seq<Byte>, sent: seq<seq<Byte>>): Parsed
    decreases |bytes|
  {
    match ReadToken(bytes)
    case Stuck => Parsed(bytes, outbound, sent, false)
    case Corrupt => Parsed([], outbound, sent, true)
    case Read(token, tail) =>
      var (outbound', sent') := Deliver(token, outbound, sent);
      ParseStream(tail, outbound', sent')
  }

  datatype Outcome = Completed | WireDecodeFailed | Truncated

  function Finish(p: Parsed): (Outcome, seq<seq<Byte>>) {
    if p.failed then (WireDecodeFailed, p.sent)
    else if p.rest != [] then (Truncated, p.sent)
    else (Completed, if p.outbound == [] then p.sent else p.sent + [p.outbound])
  }

  /** How the whole stream ends and the messages sent by then. */
  function SenderRun(stream: seq<Byte>): (Outcome, seq<seq<Byte>>) {
    Finish(ParseStream(stream, [], []))
  }

  /** A token that is complete in a prefix reads the same in the whole. */
  lemma ReadTokenPrefix(a: seq<Byte>, b: seq<Byte>)
    ensures var head := ReadToken(a);
            && (head.Read? ==> ReadToken(a + b) == Read(head.token, head.tail + b))
            && (head.Corrupt? ==> ReadToken(a + b) == Corrupt)
  {
    hide FromBytes, U32Of;
    if |a| >= 4 {
      assert (a + b)[..4] == a[..4];
      var n := U32Of(a[..4]);
      if n <= |a| - 4 {
        assert (a + b)[4..4 + n] == a[4..4 + n];
        assert (a + b)[4 + n..] == a[4 + n..] + b;
      }
    }
  }

  /** Parsing may stop anywhere and go on from the unread rest. */
  lemma {:induction false} ParseStreamSplit(a: seq<Byte>, b: seq<Byte>, outbound: seq<Byte>, sent: seq<seq<Byte>>)
    ensures var p := ParseStream(a, outbound, sent);
            ParseStream(a + b, outbound, sent) == if p.failed then p else ParseStream(p.rest + b, p.outbound, p.sent)
    decreases |a|
  {
    hide Deliver;
    var head := ReadToken(a);
    ReadTokenPrefix(a, b);
    hide ReadToken;
    if head.Read? {
      var (outbound', sent') := Deliver(head.token, outbound, sent);
      ParseStreamSplit(head.tail, b, outbound', sent');
    }
  }

  method CompactPending(pending: seq<Byte>, cursor: nat) returns (pending': seq<Byte>, cursor': nat)
    requires cursor <= |pending|
    ensures cursor' == 0 && pending' == pending[cursor..]
  {
    if cursor == 0 {
      return pending, cursor;
    }
    if cursor >= |pending| {
      return [], 0;
    }
    return pending[cursor..], 0;
  }

  /** The inner loop: read every complete token of `pending` from the cursor on. */
  method ReadPending(pending: seq<Byte>, cursor0: nat, outbound0: seq<Byte>, socket: WebSocket)
    returns (cursor: nat, outbound: seq<Byte>, failed: bool)
    requires cursor0 <= |pending|
    modifies socket
    ensures cursor <= |pending|
    ensures var p := ParseStream(pending[cursor0..], outbound0, old(socket.messages));
            && failed == p.failed
            && socket.messages == p.sent
            && (!failed ==> pending[cursor..] == p.rest && outbound == p.outbound)
  {
    hide FromBytes, ToBytes, U32Of, EncodeFrame, ParseStream, ReadToken;
    cursor, outbound, failed := cursor0, outbound0, false;
    ghost var p := ParseStream(pending[cursor0..], outbound0, socket.messages);
    while true
      invariant cursor <= |pending|
      invariant ParseStream(pending[cursor..], outbound, socket.messages) == p
      decreases |pending| - cursor
    {
      ParseAtCursor(pending, cursor, outbound, socket.messages);
      if |pending| - cursor < 4 {
        break;
      }
      var frameLen := U32Of(pending[cursor..cursor + 4]);
      cursor := cursor + 4;
      if frameLen == 0 {
        if outbound != [] {
          socket.messages := socket.messages + [outbound];
          outbound := [];
        }
        continue;
      }
      if |pending| - cursor < frameLen {
        cursor := cursor - 4;
        break;
      }
      var frame := pending[cursor..cursor + frameLen];
      cursor := cursor + frameLen;
      var record := FromBytes(frame);
      if record.None? {
        failed := true;
        return;
      }
      outbound := outbound + EncodeFrame(ToBytes(record.value));
    }
  }

  lemma ReadAt(pending: seq<Byte>, cursor: nat)
    requires cursor <= |pending|
    ensures ReadToken(pending[cursor..]) ==
            if |pending| - cursor < 4 then Stuck
            else
              var n := U32Of(pending[cursor..cursor + 4]);
              if n == 0 then Read(Marker, pending[cursor + 4..])
              else if |pending| - cursor - 4 < n then Stuck
              else
                var r := FromBytes(pending[cursor + 4..cursor + 4 + n]);
                if r.None? then Corrupt else Read(Item(r.value), pending[cursor + 4 + n..])
  {
    hide FromBytes, U32Of;
    var tail := pending[cursor..];
    if 4 <= |tail| {
      assert tail[..4] == pending[cursor..cursor + 4];
      assert tail[4..] == pending[cursor + 4..];
      var n := U32Of(tail[..4]);
      if n <= |tail| - 4 {
        assert tail[4..4 + n] == pending[cursor + 4..cursor + 4 + n];
        assert tail[4 + n..] == pending[cursor + 4 + n..];
      }
    }
  }

  /** One turn of the inner loop, in place. */
  lemma ParseAtCursor(pending: seq<Byte>, cursor: nat, outbound: seq<Byte>, sent: seq<seq<Byte>>)
    requires cursor <= |pending|
    ensures ParseStream(pending[cursor..], outbound, sent) ==
            if |pending| - cursor < 4 then Parsed(pending[cursor..], outbound, sent, false)
            else
              var n := U32Of(pending[cursor..cursor + 4]);
              if n == 0 then ParseStream(pending[cursor + 4..], [], if outbound == [] then sent else sent + [outbound])
              else if |pending| - cursor - 4 < n then Parsed(pending[cursor..], outbound, sent, false)
              else
                var r := FromBytes(pending[cursor + 4..cursor + 4 + n]);
                if r.None? then Parsed([], outbound, sent, true)
                else ParseStream(pending[cursor + 4 + n..], outbound + EncodeFrame(ToBytes(r.value)), sent)
  {
    ReadAt(pending, cursor);
    hide FromBytes, ToBytes, U32Of, EncodeFrame, ReadToken;
  }

  /** The reader loop over the chunks the browser happens to deliver. The outcome
      and the messages depend only on the bytes, not on how they were cut. */
  method RunWebBenchSender(chunks: seq<seq<Byte>>, socket: WebSocket) returns (outcome: Outcome)
    requires socket.messages == []
    modifies socket
    ensures (outcome, socket.messages) == SenderRun(Concat(chunks))
  {
    hide ParseStream;
    var pending: seq<Byte> := [];
    var outbound: seq<Byte> := [];
    var cursor := 0;
    assert pending[cursor..] + Concat(chunks) == Concat(chunks) && chunks[0..] == chunks;
    for i := 0 to |chunks|
      invariant cursor <= |pending|
      invariant var p := Parsed(pending[cursor..], outbound, socket.messages, false);
                && ReadToken(p.rest) == Stuck
                && ParseStream(Concat(chunks), [], []) == Continue(p, Concat(chunks[i..]))
    {
      ghost var before := Parsed(pending[cursor..], outbound, socket.messages, false);
      ghost var unread := Concat(chunks[i + 1..]);
      assert chunks[i..][1..] == chunks[i + 1..] && chunks[i..][0] == chunks[i];
      AppendAssociative(before.rest, chunks[i], unread);
      ParseStreamSplit(before.rest + chunks[i], unread, outbound, socket.messages);
      pending := pending + chunks[i];
      assert pending[cursor..] == before.rest + chunks[i];
      var failed: bool;
      ParseStops(before.rest + chunks[i], outbound, socket.messages);
      cursor, outbound, failed := ReadPending(pending, cursor, outbound, socket);
      if failed {
        return WireDecodeFailed;
      }
      pending, cursor := CompactPending(pending, cursor);
    }
    assert chunks[|chunks|..] == [];
    assert pending[cursor..] + [] == pending[cursor..];
    ParseStuck(pending[cursor..], outbound, socket.messages);
    if |pending| - cursor != 0 {
      return Truncated;
    }
    if outbound != [] {
      socket.messages := socket.messages + [outbound];
    }
    return Completed;
  }

  function Continue(p: Parsed, more: seq<Byte>): Parsed {
    ParseStream(p.rest + more, p.outbound, p.sent)
  }

  /** What is left unread has no complete token. */
  lemma {:induction false} ParseStops(bytes: seq<Byte>, outbound: seq<Byte>, sent: seq<seq<Byte>>)
    ensures var p := ParseStream(bytes, outbound, sent);
            !p.failed ==> ReadToken(p.rest) == Stuck
    decreases |bytes|
  {
    hide Deliver, ReadToken;
    var head := ReadToken(bytes);
    if head.Read? {
      var (outbound', sent') := Deliver(head.token, outbound, sent);
      ParseStops(head.tail, outbound', sent');
    }
  }

  lemma ParseStuck(bytes: seq<Byte>, outbound: seq<Byte>, sent: seq<seq<Byte>>)
    requires ReadToken(bytes) == Stuck
    ensures ParseStream(bytes, outbound, sent) == Parsed(bytes, outbound, sent, false)
  {
  }

  // ---- What the outcome says about the stream ----

  function DeliverAll(tokens: seq<Token>, outbound: seq<Byte>, sent: seq<seq<Byte>>): (seq<Byte>, seq<seq<Byte>>) {
    if tokens == [] then (outbound, sent)
    else
      var (outbound', sent') := Deliver(tokens[0], outbound, sent);
      DeliverAll(tokens[1..], outbound', sent')
  }

  lemma {:induction false} ParsePrinted(tokens: seq<Token>, tail: seq<Byte>, outbound: seq<Byte>, sent: seq<seq<Byte>>)
    requires WellFormed(tokens)
    ensures var (outbound', sent') := DeliverAll(tokens, outbound, sent);
            ParseStream(Print(tokens) + tail, outbound, sent) == ParseStream(tail, outbound', sent')
  {
    if tokens == [] {
      assert Print(tokens) + tail == tail;
    } else {
      var (outbound', sent') := Deliver(tokens[0], outbound, sent);
      assert WellFormed([tokens[0]]) && WellFormed(tokens[1..]);
      ParsePrinted(tokens[1..], tail, outbound', sent');
      ReadPrinted(tokens[0], Print(tokens[1..]) + tail);
      hide ReadToken, PrintToken, Deliver;
      AppendAssociative(PrintToken(tokens[0]), Print(tokens[1..]), tail);
    }
  }

  /** Every stream is whole tokens followed by something that is not one. */
  lemma {:induction false} TokensOf(stream: seq<Byte>) returns (tokens: seq<Token>, rest: seq<Byte>)
    ensures WellFormed(tokens) && stream == Print(tokens) + rest
    ensures Incomplete(rest) || Undecodable(rest)
    decreases |stream|
  {
    PrintRead(stream);
    hide ReadToken, PrintToken, Sendable, Incomplete, Undecodable;
    var head := ReadToken(stream);
    if head.Read? {
      var later;
      later, rest := TokensOf(head.tail);
      tokens := [head.token] + later;
      assert WellFormed(tokens) by {
        assert [head.token][0] == head.token;
        assert forall i :: 0 < i < |tokens| ==> tokens[i] == later[i - 1];
      }
      assert tokens[1..] == later;
      AppendAssociative(PrintToken(head.token), Print(later), rest);
    } else {
      tokens, rest := [], stream;
      assert Print([]) + stream == stream;
    }
  }

  ghost predicate WholeTokens(stream: seq<Byte>) {
    exists tokens :: WellFormed(tokens) && Print(tokens) == stream
  }

  /** Whole tokens, then the start of one that never ends. */
  ghost predicate CutShort(stream: seq<Byte>) {
    exists tokens, rest :: WellFormed(tokens) && rest != [] && Incomplete(rest) && stream == Print(tokens) + rest
  }

  ghost predicate Corrupted(stream: seq<Byte>) {
    exists tokens, rest :: WellFormed(tokens) && Undecodable(rest) && stream == Print(tokens) + rest
  }

  lemma OutcomeOfTokens(tokens: seq<Token>, rest: seq<Byte>)
    requires WellFormed(tokens)
    ensures rest == [] ==> SenderRun(Print(tokens) + rest).0 == Completed
    ensures rest != [] && Incomplete(rest) ==> SenderRun(Print(tokens) + rest).0 == Truncated
    ensures Undecodable(rest) ==> SenderRun(Print(tokens) + rest).0 == WireDecodeFailed
  {
    var (outbound, sent) := DeliverAll(tokens, [], []);
    ParsePrinted(tokens, rest, [], []);
    PrintRead(rest);
    hide ReadToken, Incomplete, Undecodable;
  }

  /** The three outcomes, decided by the shape of the stream alone. */
  lemma SenderOutcome(stream: seq<Byte>)
    ensures SenderRun(stream).0 == Completed <==> WholeTokens(stream)
    ensures SenderRun(stream).0 == Truncated <==> CutShort(stream)
    ensures SenderRun(stream).0 == WireDecodeFailed <==> Corrupted(stream)
  {
    hide SenderRun, Incomplete, Undecodable;
    var tokens, rest := TokensOf(stream);
    OutcomeOfTokens(tokens, rest);
    assert rest == [] ==> Print(tokens) + rest == Print(tokens);
    if WholeTokens(stream) {
      var ts :| WellFormed(ts) && Print(ts) == stream;
      OutcomeOfTokens(ts, []);
      assert Print(ts) + [] == stream;
    }
    if CutShort(stream) {
      var ts, r :| WellFormed(ts) && r != [] && Incomplete(r) && stream == Print(ts) + r;
      OutcomeOfTokens(ts, r);
    }
    if Corrupted(stream) {
      var ts, r :| WellFormed(ts) && Undecodable(r) && stream == Print(ts) + r;
      OutcomeOfTokens(ts, r);
    }
  }

  /** A stream has at most one token decomposition. */
  lemma {:induction false} PrintInjective(a: seq<Token>, b: seq<Token>)
    requires WellFormed(a) && WellFormed(b) && Print(a) == Print(b)
    ensures a == b
  {
    hide PrintToken;
    if a != [] && b != [] {
      assert WellFormed([a[0]]) && WellFormed([b[0]]);
      ReadPrinted(a[0], Print(a[1..]));
      ReadPrinted(b[0], Print(b[1..]));
      PrintInjective(a[1..], b[1..]);
      assert a == [a[0]] + a[1..] && b == [b[0]] + b[1..];
    }
  }

  // ---- The spool writer and the streaming reader undo each other ----

  predicate SendableGroups(groups: seq<seq<Record>>) {
    forall i :: 0 <= i < |groups| ==> groups[i] != [] && AllSendable(groups[i])
  }

  lemma {:induction false} ParseGroup(group: seq<Record>, tail: seq<Byte>, outbound: seq<Byte>, sent: seq<seq<Byte>>)
    requires AllSendable(group)
    ensures ParseStream(EncodeGroup(group) + tail, outbound, sent) ==
            ParseStream(tail, outbound + EncodeGroup(group), sent)
  {
    if group == [] {
      assert EncodeGroup(group) + tail == tail && outbound + EncodeGroup(group) == outbound;
    } else {
      var first, rest := group[0], group[1..];
      var frame := EncodeFrame(ToBytes(first));
      ParseGroup(rest, tail, outbound + frame, sent);
      assert WellFormed([Item(first)]);
      ReadPrinted(Item(first), EncodeGroup(rest) + tail);
      hide ReadToken, EncodeFrame, ToBytes;
      AppendAssociative(frame, EncodeGroup(rest), tail);
      AppendAssociative(outbound, frame, EncodeGroup(rest));
    }
  }

  lemma ParseMarker(tail: seq<Byte>, outbound: seq<Byte>, sent: seq<seq<Byte>>)
    ensures ParseStream(MARKER + tail, outbound, sent) ==
            ParseStream(tail, [], if outbound == [] then sent else sent + [outbound])
  {
    ReadPrinted(Marker, tail);
    hide ReadToken;
  }

  lemma MessagesOne(group: seq<Record>)
    ensures Messages([group]) == if EncodeGroup(group) == [] then [] else [EncodeGroup(group)]
  {
    assert EncodeGroup(group) == [] <==> group == [];
    hide EncodeGroup;
    assert [group][1..] == [];
  }

  lemma ParseOneMarked(group: seq<Record>, tail: seq<Byte>, sent: seq<seq<Byte>>)
    requires AllSendable(group)
    ensures ParseStream(EncodeGroup(group) + (MARKER + tail), [], sent) ==
            ParseStream(tail, [], sent + Messages([group]))
  {
    hide ParseStream, EncodeGroup, Messages;
    ParseGroup(group, MARKER + tail, [], sent);
    assert [] + EncodeGroup(group) == EncodeGroup(group);
    ParseMarker(tail, EncodeGroup(group), sent);
    MessagesOne(group);
    assert sent + [] == sent;
  }

  lemma SpoolBytesFirst(groups: seq<seq<Record>>, tail: seq<Byte>)
    requires groups != []
    ensures SpoolBytes(groups, true) + tail ==
            EncodeGroup(groups[0]) + (MARKER + (SpoolBytes(groups[1..], true) + tail))
  {
    var group, rest := EncodeGroup(groups[0]), SpoolBytes(groups[1..], true);
    hide EncodeGroup;
    AppendAssociative(group, MARKER, rest);
    AppendAssociative(group, MARKER + rest, tail);
    AppendAssociative(MARKER, rest, tail);
  }

  lemma MessagesFirst(groups: seq<seq<Record>>)
    requires groups != []
    ensures Messages(groups) == Messages([groups[0]]) + Messages(groups[1..])
  {
    MessagesOne(groups[0]);
    assert EncodeGroup(groups[0]) == [] <==> groups[0] == [];
    hide EncodeGroup;
  }

  /** Groups with their markers: each one that has records is sent, and nothing stays open. */
  lemma {:induction false} ParseMarked(groups: seq<seq<Record>>, tail: seq<Byte>, sent: seq<seq<Byte>>)
    requires forall i :: 0 <= i < |groups| ==> AllSendable(groups[i])
    ensures ParseStream(SpoolBytes(groups, true) + tail, [], sent) == ParseStream(tail, [], sent + Messages(groups))
  {
    hide ParseStream, EncodeGroup;
    if groups == [] {
      assert sent + [] == sent && SpoolBytes(groups, true) + tail == tail;
    } else {
      var here := Messages([groups[0]]);
      SpoolBytesFirst(groups, tail);
      ParseOneMarked(groups[0], SpoolBytes(groups[1..], true) + tail, sent);
      ParseMarked(groups[1..], tail, sent + here);
      MessagesFirst(groups);
      AppendAssociative(sent, here, Messages(groups[1..]));
    }
  }

  lemma ParseSpool(groups: seq<seq<Record>>, sent: seq<seq<Byte>>)
    requires SendableGroups(groups)
    ensures ParseStream(SpoolBytes(groups, true), [], sent) == Parsed([], [], sent + Messages(groups), false)
  {
    hide SpoolBytes, Messages;
    ParseMarked(groups, [], sent);
    assert SpoolBytes(groups, true) + [] == SpoolBytes(groups, true);
  }

  lemma {:induction false} MessagesAt(groups: seq<seq<Record>>, i: nat)
    requires SendableGroups(groups) && i < |groups|
    ensures |Messages(groups)| == |groups|
    ensures Messages(groups)[i] == EncodeGroup(groups[i])
  {
    hide EncodeGroup;
    if |groups| > 1 {
      MessagesAt(groups[1..], if i == 0 then 0 else i - 1);
    } else {
      assert Messages(groups[1..]) == [];
    }
  }

  /** However the spool of some groups is cut into chunks, the browser sends one
      message per group, and the receiver gets every group back from its message. */
  lemma SpoolRoundTrip(groups: seq<seq<Record>>, chunks: seq<seq<Byte>>)
    requires SendableGroups(groups) && Concat(chunks) == SpoolBytes(groups, true)
    ensures var (outcome, messages) := SenderRun(Concat(chunks));
            && outcome == Completed
            && |messages| == |groups|
            && forall i :: 0 <= i < |groups| ==> DecodeTransport(messages[i]) == Some(groups[i])
  {
    hide ParseStream, DecodeTransport, SpoolBytes, EncodeGroup;
    ParseSpool(groups, []);
    var messages := Messages(groups);
    assert [] + messages == messages;
    forall i | 0 <= i < |groups|
      ensures |messages| == |groups| && DecodeTransport(messages[i]) == Some(groups[i])
    {
      MessagesAt(groups, i);
      GroupRoundTrip(groups[i]);
    }
    if groups != [] {
      MessagesAt(groups, 0);
    }
  }

  // ---- Streams that break off ----

  /** What is sent of a stream of marked groups, further records without a marker, and a rest: every
      group whose marker came; the open records only if the stream ends with them. */
  lemma SentOfStream(groups: seq<seq<Record>>, open: seq<Record>, rest: seq<Byte>)
    requires AllSendable(open) && forall i :: 0 <= i < |groups| ==> AllSendable(groups[i])
    requires Incomplete(rest) || Undecodable(rest)
    ensures SenderRun(SpoolBytes(groups, true) + (EncodeGroup(open) + rest)) ==
            if Undecodable(rest) then (WireDecodeFailed, Messages(groups))
            else if rest != [] then (Truncated, Messages(groups))
            else (Completed, Messages(groups + [open]))
  {
    var sent := Messages(groups);
    ParseMarked(groups, EncodeGroup(open) + rest, []);
    assert [] + sent == sent;
    ParseGroup(open, rest, [], sent);
    assert [] + EncodeGroup(open) == EncodeGroup(open);
    PrintRead(rest);
    assert rest == [] ==> ReadToken(rest).Stuck?;
    MessagesSnoc(groups, open);
    hide ReadToken, Incomplete, Undecodable, EncodeGroup;
  }

  lemma {:induction false} MessagesSnoc(groups: seq<seq<Record>>, open: seq<Record>)
    ensures Messages(groups + [open]) ==
            if EncodeGroup(open) == [] then Messages(groups) else Messages(groups) + [EncodeGroup(open)]
  {
    hide EncodeGroup, Messages;
    MessagesOne(open);
    if groups == [] {
      NoMessages();
      assert groups + [open] == [open];
    } else {
      var all, rest := groups + [open], groups[1..];
      assert all[1..] == rest + [open] && all[0] == groups[0];
      MessagesSnoc(rest, open);
      MessagesFirst(groups);
      MessagesFirst(all);
      AppendAssociative(Messages([groups[0]]), Messages(rest), [EncodeGroup(open)]);
    }
  }

  lemma NoMessages()
    ensures Messages([]) == []
  {
  }

  // ---- The whole sender run ----

  /** The run stops at the first frame that brings the payload to the target. */
  predicate StopsAt(frames: seq<Record>, target: nat, used: nat) {
    && 0 < used <= |frames|
    && PayloadSum(frames[..used]) >= target
    && (used == 1 || PayloadSum(frames[..used - 1]) < target)
  }

  /** The groups of a whole run: the frames up to the target, then the close record alone. */
  function RunGroups(cap: nat, frames: seq<Record>, close: Record): seq<seq<Record>> {
    Greedy(cap, frames) + [[close]]
  }

  /** The loop of write_web_bench_sender_spool over the frames a session emits.
      The session emits for ever; `reached` says whether these frames were enough. */
  method WriteWebBenchSenderSpool(cap: nat, frames: seq<Record>, close: Record, target: nat)
    returns (file: SpoolFile, progress: SideProgress, buffer: BurstAccumulator, reached: bool, used: nat)
    ensures fresh(file) && fresh(progress) && fresh(buffer) && buffer.Valid()
    ensures reached ==> StopsAt(frames, target, used)
    ensures reached ==> buffer.emitted == RunGroups(cap, frames[..used], close)
    ensures reached ==> file.contents == SpoolBytes(RunGroups(cap, frames[..used], close), true)
    ensures reached && target > 0 ==> PayloadSum(frames[..used]) - target < PayloadLen(frames[used - 1])
    ensures reached ==> progress.payloadBytes == PayloadSum(frames[..used]) + PayloadLen(close)
    ensures !reached ==> used == |frames| && (frames == [] || PayloadSum(frames) < target)
    ensures !reached ==> progress.payloadBytes + buffer.bufferedPayloadBytes == PayloadSum(frames)
  {
    hide PayloadLen, TransportLen, PayloadSum, TransportSum, PushOne, MaxPayload, SpoolBytes, SentGroups, PushAll,
      Greedy;
    file := new SpoolFile();
    progress := new SideProgress();
    buffer := new BurstAccumulator(cap);
    reached, used := false, 0;
    EmptySums();
    StartOfRun(cap, frames);
    while !reached && used < |frames|
      invariant used <= |frames|
      invariant fresh(file) && fresh(progress) && fresh(buffer)
      invariant buffer.Valid() && buffer.cap == cap
      invariant file.contents == SpoolBytes(buffer.emitted, true)
      invariant progress.payloadBytes + buffer.bufferedPayloadBytes == PayloadSum(frames[..used])
      invariant !reached ==> PushAll(cap, [], frames[..used]) == Pushed(buffer.emitted, buffer.frames)
      invariant !reached && used > 0 ==> PayloadSum(frames[..used]) < target
      invariant reached ==> StopsAt(frames, target, used)
      invariant reached ==> buffer.frames == [] && buffer.emitted == Greedy(cap, frames[..used])
      decreases |frames| - used
    {
      ghost var done := ReachesTarget(progress.payloadBytes, buffer.bufferedPayloadBytes, frames[used], target);
      RunStep(cap, frames, used, done);
      reached := WriteSenderFrame(file, progress, buffer, frames[used], target);
      used := used + 1;
    }
    if reached {
      OverBy(frames, target, used);
      CloseAlone(cap, buffer.emitted, close);
      WriteSenderCloseFrame(file, progress, buffer, close);
      SpoolAppend(buffer.emitted, []);
      FlushSenderBursts(file, progress, buffer, true);
      assert buffer.emitted + [] == buffer.emitted;
    } else {
      assert frames[..used] == frames;
    }
  }

  lemma OverBy(frames: seq<Record>, target: nat, used: nat)
    requires StopsAt(frames, target, used)
    ensures target > 0 ==> PayloadSum(frames[..used]) - target < PayloadLen(frames[used - 1])
  {
    assert frames[..used] == frames[..used - 1] + [frames[used - 1]];
    BufferOne(frames[..used - 1], frames[used - 1]);
    EmptySums();
  }

  lemma StartOfRun(cap: nat, frames: seq<Record>)
    ensures SpoolBytes([], true) == [] && PushAll(cap, [], frames[..0]) == Pushed([], [])
  {
  }

  /** One more frame: the groups sent so far stay those of the run. */
  lemma RunStep(cap: nat, frames: seq<Record>, used: nat, done: bool)
    requires used < |frames|
    ensures var run := PushAll(cap, [], frames[..used]);
            var next := PushAll(cap, [], frames[..used + 1]);
            var groups := SentGroups(cap, run.buffer, frames[used], done);
            && run.flushed + groups == (if done then Greedy(cap, frames[..used + 1]) else next.flushed)
            && next.buffer == PushOne(cap, run.buffer, frames[used]).buffer
            && SpoolBytes(run.flushed + groups, true) == SpoolBytes(run.flushed, true) + SpoolBytes(groups, true)
    ensures frames[..used + 1][..used] == frames[..used]
    ensures PayloadSum(frames[..used + 1]) == PayloadSum(frames[..used]) + PayloadLen(frames[used])
  {
    hide PushOne, PushAll, SpoolBytes, PayloadSum, PayloadLen;
    var run := PushAll(cap, [], frames[..used]);
    var p := PushOne(cap, run.buffer, frames[used]);
    assert frames[..used + 1] == frames[..used] + [frames[used]];
    PushAllSnoc(cap, [], frames[..used], frames[used]);
    BufferOne(frames[..used], frames[used]);
    AppendAssociative(run.flushed, p.flushed, FlushRest(p.buffer));
    assert p.flushed + [] == p.flushed;
    SpoolAppend(run.flushed, SentGroups(cap, run.buffer, frames[used], done));
  }

  /** A close record pushed into an empty buffer makes a group of its own. */
  lemma CloseAlone(cap: nat, emitted: seq<seq<Record>>, close: Record)
    ensures SentGroups(cap, [], close, true) == [[close]]
    ensures SpoolBytes(emitted + [[close]], true) == SpoolBytes(emitted, true) + SpoolBytes([[close]], true)
  {
    hide SpoolBytes, TransportSum;
    assert [] + [close] == [close];
    assert [] + [[close]] == [[close]];
    SpoolAppend(emitted, [[close]]);
  }

  lemma {:induction false} SpoolAppend(a: seq<seq<Record>>, b: seq<seq<Record>>)
    ensures SpoolBytes(a + b, true) == SpoolBytes(a, true) + SpoolBytes(b, true)
  {
    hide EncodeGroup;
    if a == [] {
      assert a + b == b;
      assert [] + SpoolBytes(b, true) == SpoolBytes(b, true);
    } else {
      SpoolAppend(a[1..], b);
      assert (a + b)[1..] == a[1..] + b && (a + b)[0] == a[0];
      AppendAssociative(EncodeGroup(a[0]) + MARKER, SpoolBytes(a[1..], true), SpoolBytes(b, true));
    }
  }

  lemma {:induction false} ConcatParts<T>(groups: seq<seq<T>>, i: nat, x: T)
    requires i < |groups| && x in groups[i]
    ensures x in Concat(groups)
  {
    if i > 0 {
      ConcatParts(groups[1..], i - 1, x);
    }
  }

  /** The groups of a run are what a receiver accepts, and hold the frames and then the close record. */
  lemma RunGroupsAreSendable(cap: nat, frames: seq<Record>, close: Record)
    requires AllSendable(frames) && Sendable(close)
    ensures SendableGroups(RunGroups(cap, frames, close))
    ensures Concat(RunGroups(cap, frames, close)) == frames + [close]
  {
    hide Greedy, Sendable;
    var groups := RunGroups(cap, frames, close);
    var greedy := Greedy(cap, frames);
    GreedyIsGrouping(cap, frames);
    ConcatAppend(greedy, [[close]]);
    assert Concat([[close]]) == [close] by {
      assert [[close]][1..] == [];
      assert [close] + [] == [close];
    }
    forall i | 0 <= i < |groups| ensures groups[i] != [] && AllSendable(groups[i]) {
      if i < |greedy| {
        assert Fits(cap, greedy[i]);
        forall k | 0 <= k < |greedy[i]| ensures Sendable(greedy[i][k]) {
          ConcatParts(greedy, i, greedy[i][k]);
        }
      }
    }
  }

  /** End to end, unauthenticated: the sender's run, the spool, the browser reading
      it in any chunks and the receiver decoding each message give back exactly the
      minimal groups of the frames, the close record last. */
  lemma SenderToReceiver(cap: nat, frames: seq<Record>, close: Record, chunks: seq<seq<Byte>>)
    requires AllSendable(frames) && Sendable(close)
    requires Concat(chunks) == SpoolBytes(RunGroups(cap, frames, close), true)
    ensures var groups := RunGroups(cap, frames, close);
            var (outcome, messages) := SenderRun(Concat(chunks));
            && outcome == Completed
            && |messages| == |groups|
            && (forall i :: 0 <= i < |groups| ==> DecodeTransport(messages[i]) == Some(groups[i]))
            && Concat(groups) == frames + [close]
  {
    hide DecodeTransport, SpoolBytes, RunGroups, Sendable, SenderRun, Concat;
    RunGroupsAreSendable(cap, frames, close);
    SpoolRoundTrip(RunGroups(cap, frames, close), chunks);
  }
}
