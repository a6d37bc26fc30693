/** The whole run of the websocket sender. */
module SocketRun {
  import opened Bytes
  import opened Wire
  import opened Framing
  import opened Burst
  import opened Senders
  import opened Spool

  /** `used` of the frames were pushed and the target is not reached. */
  ghost predicate Going(socket: WebSocket, progress: SideProgress, buffer: BurstAccumulator, all: seq<Record>,
          used: nat, target: nat)
    reads socket, progress, buffer
  {
    && buffer.Valid() && used <= |all|
    && socket.messages == Messages(buffer.emitted)
    && progress.payloadBytes + buffer.bufferedPayloadBytes == PayloadSum(all[..used])
    && PushAll(buffer.cap, [], all[..used]) == Pushed(buffer.emitted, buffer.frames)
    && (used > 0 ==> PayloadSum(all[..used]) < target)
  }

  /** The run stops at the first frame that reaches the target, before any frame if the target is 0. */
  predicate EndsAt(all: seq<Record>, target: nat, used: nat) {
    if target == 0 then used == 0 else StopsAt(all, target, used)
  }

  /** The frames were all sent, in the groups of the greedy run. */
  ghost predicate Done(socket: WebSocket, progress: SideProgress, buffer: BurstAccumulator, all: seq<Record>,
          used: nat, target: nat)
    reads socket, progress, buffer
  {
    && buffer.Valid() && used <= |all| && buffer.frames == []
    && socket.messages == Messages(buffer.emitted)
    && progress.payloadBytes == PayloadSum(all[..used])
    && buffer.emitted == Greedy(buffer.cap, all[..used])
    && EndsAt(all, target, used)
  }

  lemma {:induction false} MessagesAppend(a: seq<seq<Record>>, b: seq<seq<Record>>)
    ensures Messages(a + b) == Messages(a) + Messages(b)
  {
    hide EncodeGroup;
    if a == [] {
      assert a + b == b;
      assert [] + Messages(b) == Messages(b);
    } else {
      MessagesAppend(a[1..], b);
      assert (a + b)[1..] == a[1..] + b && (a + b)[0] == a[0];
      var first := if a[0] == [] then [] else [EncodeGroup(a[0])];
      AppendAssociative(first, Messages(a[1..]), Messages(b));
    }
  }

  lemma {:induction false} ConcatSplit<T>(groups: seq<seq<T>>, i: nat)
    requires i < |groups|
    ensures Concat(groups[..i + 1]) == Concat(groups[..i]) + groups[i]
    ensures Concat(groups[..i + 1]) <= Concat(groups)
  {
    assert groups == groups[..i + 1] + groups[i + 1..];
    ConcatAppend(groups[..i + 1], groups[i + 1..]);
    assert groups[..i + 1] == groups[..i] + [groups[i]];
    ConcatAppend(groups[..i], [groups[i]]);
    assert [groups[i]][1..] == [] && groups[i] + [] == groups[i];
  }

  /** One frame of the run. */
  method PushNext(socket: WebSocket, progress: SideProgress, buffer: BurstAccumulator, frame: Record, target: nat,
          ghost all: seq<Record>, ghost used: nat)
    returns (reached: bool)
    requires Going(socket, progress, buffer, all, used, target)
    requires target > 0 && used < |all| && all[used] == frame
    modifies socket, progress, buffer
    ensures if reached then Done(socket, progress, buffer, all, used + 1, target)
            else Going(socket, progress, buffer, all, used + 1, target)
  {
    hide PayloadLen, TransportLen, PayloadSum, TransportSum, PushOne, MaxPayload, SentGroups, PushAll, Greedy,
      Messages, SpoolBytes;
    ghost var done := ReachesTarget(progress.payloadBytes, buffer.bufferedPayloadBytes, frame, target);
    ghost var groups := SentGroups(buffer.cap, buffer.frames, frame, done);
    RunStep(buffer.cap, all, used, done);
    MessagesAppend(buffer.emitted, groups);
    EmptySums();
    reached := PushFrame(socket, progress, buffer, frame, target);
  }

  /** The frames of one event, up to the one that reaches the target. */
  method PushEvent(socket: WebSocket, progress: SideProgress, buffer: BurstAccumulator, frames: seq<Record>,
          target: nat, ghost all: seq<Record>, ghost used: nat)
    returns (reached: bool, ghost now: nat)
    requires Going(socket, progress, buffer, all, used, target)
    requires target > 0 && used + |frames| <= |all| && all[used..used + |frames|] == frames
    modifies socket, progress, buffer
    ensures if reached then Done(socket, progress, buffer, all, now, target)
            else now == used + |frames| && Going(socket, progress, buffer, all, now, target)
  {
    hide Going, Done;
    reached, now := false, used;
    for j := 0 to |frames|
      invariant !reached && now == used + j && Going(socket, progress, buffer, all, now, target)
    {
      assert all[now] == all[used..used + |frames|][j];
      reached := PushNext(socket, progress, buffer, frames[j], target, all, now);
      now := now + 1;
      if reached {
        return;
      }
    }
  }

  lemma NothingPushed(cap: nat, all: seq<Record>)
    ensures PushAll(cap, [], all[..0]) == Pushed([], []) && Greedy(cap, all[..0]) == [] && Messages([]) == []
  {
  }

  /** The check before each event: only a target of 0 is reached there. */
  method FlushAtTarget(socket: WebSocket, progress: SideProgress, buffer: BurstAccumulator, target: nat,
          ghost all: seq<Record>, ghost used: nat)
    requires Going(socket, progress, buffer, all, used, target)
    requires progress.payloadBytes + buffer.bufferedPayloadBytes >= target
    modifies socket, progress, buffer
    ensures used == 0 && target == 0 && Done(socket, progress, buffer, all, used, target)
  {
    hide PayloadLen, TransportLen, PayloadSum, TransportSum, MaxPayload, PushAll, Greedy, Messages;
    assert used == 0 && all[..used] == [];
    EmptySums();
    NothingPushed(buffer.cap, all);
    FlushToSocket(socket, progress, buffer);
  }

  lemma NothingConcat(events: seq<seq<Record>>)
    ensures Concat(events[..0]) == []
  {
  }

  lemma NextFrames(before: seq<Record>, frames: seq<Record>, all: seq<Record>)
    requires before + frames <= all
    ensures |before| + |frames| <= |all| && all[|before|..|before| + |frames|] == frames
  {
    assert (before + frames)[|before|..] == frames;
  }

  lemma Overshoot(all: seq<Record>, target: nat, used: nat)
    requires EndsAt(all, target, used) && target > 0
    ensures 0 < used <= |all| && PayloadSum(all[..used]) - target < PayloadLen(all[used - 1])
  {
    hide PayloadSum, PayloadLen;
    OverBy(all, target, used);
  }

  /** The close record and the last flush. */
  method SendClose(socket: WebSocket, progress: SideProgress, buffer: BurstAccumulator, close: Record,
          ghost all: seq<Record>, ghost used: nat, ghost target: nat)
    requires Done(socket, progress, buffer, all, used, target)
    modifies socket, progress, buffer
    ensures buffer.Valid() && buffer.emitted == RunGroups(buffer.cap, all[..used], close)
    ensures socket.messages == Messages(RunGroups(buffer.cap, all[..used], close))
    ensures progress.payloadBytes == PayloadSum(all[..used]) + PayloadLen(close)
  {
    hide PayloadLen, PayloadSum, TransportSum, Greedy, Messages, SentGroups, EndsAt, MaxPayload, Concat;
    EmptySums();
    ghost var greedy := buffer.emitted;
    CloseAlone(buffer.cap, greedy, close);
    MessagesAppend(greedy, [[close]]);
    NothingPushed(buffer.cap, all);
    PushCloseFrame(socket, progress, buffer, close);
    FlushToSocket(socket, progress, buffer);
    assert buffer.emitted == greedy + [[close]] + [] == greedy + [[close]];
    assert socket.messages == Messages(greedy) + Messages([[close]]) + [];
  }

  lemma GoingMeans(socket: WebSocket, progress: SideProgress, buffer: BurstAccumulator, all: seq<Record>, used: nat,
          target: nat)
    requires Going(socket, progress, buffer, all, used, target)
    ensures buffer.Valid() && used <= |all| && (used > 0 ==> PayloadSum(all[..used]) < target)
    ensures progress.payloadBytes + buffer.bufferedPayloadBytes == PayloadSum(all[..used])
  {
  }

  lemma DoneMeans(socket: WebSocket, progress: SideProgress, buffer: BurstAccumulator, all: seq<Record>, used: nat,
          target: nat)
    requires Done(socket, progress, buffer, all, used, target)
    ensures used <= |all| && EndsAt(all, target, used)
    ensures target > 0 ==> used > 0 && PayloadSum(all[..used]) - target < PayloadLen(all[used - 1])
  {
    hide PayloadSum, PayloadLen, EndsAt;
    if target > 0 {
      Overshoot(all, target, used);
    }
  }

  method StartRun(cap: nat, ghost all: seq<Record>, ghost target: nat)
    returns (socket: WebSocket, progress: SideProgress, buffer: BurstAccumulator)
    ensures fresh(socket) && fresh(progress) && fresh(buffer) && buffer.cap == cap
    ensures Going(socket, progress, buffer, all, 0, target)
  {
    hide PayloadSum, PushAll, Messages, MaxPayload;
    socket := new WebSocket();
    progress := new SideProgress();
    buffer := new BurstAccumulator(cap);
    assert all[..0] == [];
    EmptySums();
    NothingPushed(cap, all);
  }

  /** The sender over the frames its events emit; `reached` says whether these events were enough. */
  method RunWebsocketSender(cap: nat, events: seq<seq<Record>>, close: Record, target: nat)
    returns (socket: WebSocket, progress: SideProgress, buffer: BurstAccumulator, reached: bool, ghost used: nat)
    ensures fresh(socket) && fresh(progress) && fresh(buffer)
    ensures used <= |Concat(events)|
    ensures reached ==> EndsAt(Concat(events), target, used)
    ensures reached ==> buffer.emitted == RunGroups(cap, Concat(events)[..used], close)
    ensures reached ==> socket.messages == Messages(RunGroups(cap, Concat(events)[..used], close))
    ensures reached ==> progress.payloadBytes == PayloadSum(Concat(events)[..used]) + PayloadLen(close)
    ensures reached && target > 0 ==>
            used > 0 && PayloadSum(Concat(events)[..used]) - target < PayloadLen(Concat(events)[used - 1])
    ensures target == 0 && events != [] ==> reached && used == 0
    ensures !reached ==> used == |Concat(events)| && (used > 0 ==> PayloadSum(Concat(events)) < target)
    ensures !reached ==> progress.payloadBytes + buffer.bufferedPayloadBytes == PayloadSum(Concat(events))
  {
    hide PayloadLen, PayloadSum, Messages, EndsAt, Concat, RunGroups, Going, Done;
    reached, used := false, 0;
    ghost var all := Concat(events);
    NothingConcat(events);
    socket, progress, buffer := StartRun(cap, all, target);
    var i := 0;
    while !reached && i < |events|
      invariant fresh(socket) && fresh(progress) && fresh(buffer) && buffer.cap == cap && i <= |events|
      invariant if reached then Done(socket, progress, buffer, all, used, target)
                else Going(socket, progress, buffer, all, used, target) && used == |Concat(events[..i])|
      invariant target == 0 ==> used == 0 && (i == 0 || reached)
      decreases |events| - i, !reached
    {
      if progress.payloadBytes + buffer.bufferedPayloadBytes >= target {
        FlushAtTarget(socket, progress, buffer, target, all, used);
        reached := true;
        continue;
      }
      ConcatSplit(events, i);
      NextFrames(Concat(events[..i]), events[i], all);
      reached, used := PushEvent(socket, progress, buffer, events[i], target, all, used);
      i := i + 1;
    }
    assert events[..|events|] == events;
    if reached {
      DoneMeans(socket, progress, buffer, all, used, target);
      SendClose(socket, progress, buffer, close, all, used, target);
    } else {
      GoingMeans(socket, progress, buffer, all, used, target);
      assert all[..used] == all;
    }
  }

  /** The messages of a run decode, one by one, to the greedy groups of the frames and the close record. */
  lemma SocketToReceiver(cap: nat, frames: seq<Record>, close: Record)
    requires AllSendable(frames) && Sendable(close)
    ensures var groups := RunGroups(cap, frames, close);
            var messages := Messages(groups);
            && |messages| == |groups|
            && (forall i :: 0 <= i < |groups| ==> DecodeTransport(messages[i]) == Some(groups[i]))
            && Concat(groups) == frames + [close]
  {
    hide DecodeTransport, RunGroups, Sendable, Concat, Messages, EncodeGroup;
    RunGroupsAreSendable(cap, frames, close);
    var groups := RunGroups(cap, frames, close);
    if groups != [] {
      MessagesAt(groups, 0);
    } else {
      NothingSent();
    }
    forall i | 0 <= i < |groups|
      ensures |Messages(groups)| == |groups| && DecodeTransport(Messages(groups)[i]) == Some(groups[i])
    {
      MessagesAt(groups, i);
      GroupRoundTrip(groups[i]);
    }
  }

  lemma NothingSent()
    ensures Messages([]) == []
  {
  }
}
