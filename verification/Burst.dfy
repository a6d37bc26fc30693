/** Packing records into bursts of bounded transport size, and the two senders
    that use it: one websocket message per burst, or a spool file with markers. */
module Burst {
  import opened Bytes
  import opened Wire
  import opened Framing

  /** Control-plane records carry no application payload. */
  function PayloadLen(r: Record): nat {
    match r.header.recordType
    case Rekey | Close | Resync | MemoryAck => 0
    case _ => |r.payload|
  }

  function TransportLen(r: Record): nat {
    4 + |ToBytes(r)|
  }

  function PayloadSum(frames: seq<Record>): nat {
    if frames == [] then 0 else PayloadLen(frames[0]) + PayloadSum(frames[1..])
  }

  function TransportSum(frames: seq<Record>): nat {
    if frames == [] then 0 else TransportLen(frames[0]) + TransportSum(frames[1..])
  }

  /** The record types without an application payload. */
  const CONTROL_PLANE := {Rekey, Close, Resync, RecordType.MemoryAck}

  /** The application bytes of the frames, one after the other. */
  function ApplicationBytes(frames: seq<Record>): seq<Byte> {
    if frames == [] then []
    else if frames[|frames| - 1].header.recordType in CONTROL_PLANE then ApplicationBytes(frames[..|frames| - 1])
    else ApplicationBytes(frames[..|frames| - 1]) + frames[|frames| - 1].payload
  }

  /** The counted payload is the number of application bytes. */
  lemma {:induction false} PayloadSumCounts(frames: seq<Record>)
    ensures PayloadSum(frames) == |ApplicationBytes(frames)|
  {
    if frames != [] {
      var front, last := frames[..|frames| - 1], frames[|frames| - 1];
      PayloadSumCounts(front);
      assert frames == front + [last];
      PayloadSumAppend(front, [last]);
      assert [last][1..] == [];
    }
  }

  function Concat<T>(groups: seq<seq<T>>): seq<T> {
    if groups == [] then [] else groups[0] + Concat(groups[1..])
  }

  lemma AppendAssociative<T>(a: seq<T>, b: seq<T>, c: seq<T>)
    ensures (a + b) + c == a + (b + c)
  {
  }

  lemma {:induction false} PayloadSumAppend(a: seq<Record>, b: seq<Record>)
    ensures PayloadSum(a + b) == PayloadSum(a) + PayloadSum(b)
  {
    hide PayloadLen;
    if a == [] {
      assert a + b == b;
    } else {
      PayloadSumAppend(a[1..], b);
      assert (a + b)[1..] == a[1..] + b;
    }
  }

  lemma {:induction false} TransportSumAppend(a: seq<Record>, b: seq<Record>)
    ensures TransportSum(a + b) == TransportSum(a) + TransportSum(b)
  {
    hide TransportLen;
    if a == [] {
      assert a + b == b;
    } else {
      TransportSumAppend(a[1..], b);
      assert (a + b)[1..] == a[1..] + b;
    }
  }

  lemma {:induction false} ConcatAppend<T>(a: seq<seq<T>>, b: seq<seq<T>>)
    ensures Concat(a + b) == Concat(a) + Concat(b)
  {
    if a == [] {
      assert a + b == b;
    } else {
      ConcatAppend(a[1..], b);
      assert (a + b)[1..] == a[1..] + b && (a + b)[0] == a[0];
      AppendAssociative(a[0], Concat(a[1..]), Concat(b));
    }
  }

  /** Two ways of cutting one sequence, the first cut no earlier than the second. */
  lemma CutLater<T>(a: seq<T>, b: seq<T>, c: seq<T>, d: seq<T>)
    requires a + b == c + d && |c| <= |a|
    ensures a == c + a[|c|..]
    ensures a[|c|..] + b == d
  {
    assert (a + b)[..|c|] == a[..|c|] && (c + d)[..|c|] == c;
    assert (a + b)[|c|..] == a[|c|..] + b && (c + d)[|c|..] == d;
  }

  // ---- The greedy batcher as a function of what was pushed ----

  /** What one push does: the groups it flushes and the buffer it leaves. */
  datatype Pushed = Pushed(flushed: seq<seq<Record>>, buffer: seq<Record>)

  predicate Spills(cap: nat, buffer: seq<Record>, frame: Record) {
    buffer != [] && TransportSum(buffer) + TransportLen(frame) > cap
  }

  /** The buffer just after the frame is added. */
  function Grown(cap: nat, buffer: seq<Record>, frame: Record): seq<Record> {
    (if Spills(cap, buffer, frame) then [] else buffer) + [frame]
  }

  function PushOne(cap: nat, buffer: seq<Record>, frame: Record): Pushed {
    var early := if Spills(cap, buffer, frame) then [buffer] else [];
    var grown := Grown(cap, buffer, frame);
    if TransportSum(grown) >= cap then Pushed(early + [grown], []) else Pushed(early, grown)
  }

  function PushAll(cap: nat, buffer: seq<Record>, frames: seq<Record>): Pushed
    decreases |frames|
  {
    if frames == [] then Pushed([], buffer)
    else
      var first := PushOne(cap, buffer, frames[0]);
      var rest := PushAll(cap, first.buffer, frames[1..]);
      Pushed(first.flushed + rest.flushed, rest.buffer)
  }

  function FlushRest(buffer: seq<Record>): seq<seq<Record>> {
    if buffer == [] then [] else [buffer]
  }

  /** The groups of a run: push every frame, then flush once. */
  function Greedy(cap: nat, frames: seq<Record>): seq<seq<Record>> {
    var run := PushAll(cap, [], frames);
    run.flushed + FlushRest(run.buffer)
  }

  predicate Fits(cap: nat, group: seq<Record>) {
    |group| == 1 || (group != [] && TransportSum(group) <= cap)
  }

  /** An order-preserving grouping of the frames within the cap. */
  predicate Grouping(cap: nat, frames: seq<Record>, groups: seq<seq<Record>>) {
    && Concat(groups) == frames
    && forall i :: 0 <= i < |groups| ==> Fits(cap, groups[i])
  }

  /** No group could have taken the first frame of the next one. */
  predicate Saturated(cap: nat, groups: seq<seq<Record>>) {
    |groups| <= 1
    || ( && (groups[1] != [] ==> TransportSum(groups[0]) + TransportLen(groups[1][0]) > cap)
         && Saturated(cap, groups[1..]))
  }

  predicate Pending(cap: nat, buffer: seq<Record>) {
    buffer != [] ==> TransportSum(buffer) < cap
  }

  lemma PushOneStep(cap: nat, buffer: seq<Record>, frame: Record)
    requires Pending(cap, buffer)
    ensures var p := PushOne(cap, buffer, frame);
            && Concat(p.flushed) + p.buffer == buffer + [frame]
            && Pending(cap, p.buffer)
            && (forall i :: 0 <= i < |p.flushed| ==> Fits(cap, p.flushed[i]))
  {
    hide TransportLen;
    TransportSumAppend(buffer, [frame]);
    assert TransportSum([frame]) == TransportLen(frame);
    var grown := Grown(cap, buffer, frame);
    if Spills(cap, buffer, frame) {
      assert grown == [frame];
    }
    assert Concat([grown]) == grown + [] == grown;
    assert Concat([buffer]) == buffer + [] == buffer;
    ConcatAppend([buffer], [grown]);
  }

  lemma TransportPositive(r: Record)
    ensures TransportLen(r) > 0
  {
  }

  lemma SaturatedPrepend(cap: nat, group: seq<Record>, later: seq<seq<Record>>)
    requires Saturated(cap, later)
    requires later != [] && later[0] != [] ==> TransportSum(group) + TransportLen(later[0][0]) > cap
    ensures Saturated(cap, [group] + later)
  {
    assert ([group] + later)[1..] == later;
  }

  /** The groups one push flushes stay saturated in front of groups that begin
      with the buffer it leaves. */
  lemma SaturatedJoin(cap: nat, buffer: seq<Record>, f: Record, later: seq<seq<Record>>)
    requires Pending(cap, buffer) && Saturated(cap, later)
    requires var left := PushOne(cap, buffer, f).buffer;
             left != [] ==> later != [] && left <= later[0]
    ensures Saturated(cap, PushOne(cap, buffer, f).flushed + later)
  {
    hide TransportLen, Saturated;
    var p := PushOne(cap, buffer, f);
    var spill := Spills(cap, buffer, f);
    var grown := Grown(cap, buffer, f);
    if TransportSum(grown) >= cap {
      if later != [] && later[0] != [] {
        TransportPositive(later[0][0]);
      }
      SaturatedPrepend(cap, grown, later);
      if spill {
        assert grown == [f];
        SaturatedPrepend(cap, buffer, [grown] + later);
        assert p.flushed + later == [buffer] + ([grown] + later);
      } else {
        assert p.flushed == [grown];
      }
    } else if spill {
      assert later[0][0] == f;
      SaturatedPrepend(cap, buffer, later);
    } else {
      assert p.flushed + later == later;
    }
  }

  lemma {:induction false} RunIsGrouping(cap: nat, buffer: seq<Record>, frames: seq<Record>)
    requires Pending(cap, buffer)
    ensures var run := PushAll(cap, buffer, frames);
            Grouping(cap, buffer + frames, run.flushed + FlushRest(run.buffer))
    decreases |frames|
  {
    hide TransportLen, TransportSum, Fits, PushOne;
    var run := PushAll(cap, buffer, frames);
    if frames == [] {
      BufferIsGroup(cap, buffer);
      assert run.flushed + FlushRest(run.buffer) == FlushRest(buffer);
      assert buffer + frames == buffer;
    } else {
      var first := PushOne(cap, buffer, frames[0]);
      PushOneStep(cap, buffer, frames[0]);
      RunIsGrouping(cap, first.buffer, frames[1..]);
      var rest := PushAll(cap, first.buffer, frames[1..]);
      var later := rest.flushed + FlushRest(rest.buffer);
      assert run.flushed + FlushRest(run.buffer) == first.flushed + later;
      ConcatAppend(first.flushed, later);
      AppendAssociative(Concat(first.flushed), first.buffer, frames[1..]);
      AppendAssociative(buffer, [frames[0]], frames[1..]);
      assert [frames[0]] + frames[1..] == frames;
    }
  }

  lemma BufferIsGroup(cap: nat, buffer: seq<Record>)
    requires Pending(cap, buffer)
    ensures Grouping(cap, buffer, FlushRest(buffer))
  {
    if buffer != [] {
      assert Concat([buffer]) == buffer + [] == buffer;
    }
  }

  lemma {:induction false} RunIsSaturated(cap: nat, buffer: seq<Record>, frames: seq<Record>)
    requires Pending(cap, buffer)
    ensures var run := PushAll(cap, buffer, frames);
            var groups := run.flushed + FlushRest(run.buffer);
            && Saturated(cap, groups)
            && (buffer != [] ==> groups != [] && buffer <= groups[0])
    decreases |frames|
  {
    hide TransportLen, Saturated;
    var run := PushAll(cap, buffer, frames);
    var groups := run.flushed + FlushRest(run.buffer);
    if frames == [] {
      assert groups == FlushRest(buffer);
      SingleIsSaturated(cap, groups);
    } else {
      var first := PushOne(cap, buffer, frames[0]);
      PushOneStep(cap, buffer, frames[0]);
      RunIsSaturated(cap, first.buffer, frames[1..]);
      var rest := PushAll(cap, first.buffer, frames[1..]);
      var later := rest.flushed + FlushRest(rest.buffer);
      assert groups == first.flushed + later;
      SaturatedJoin(cap, buffer, frames[0], later);
    }
  }

  lemma SingleIsSaturated(cap: nat, groups: seq<seq<Record>>)
    requires |groups| <= 1
    ensures Saturated(cap, groups)
  {
  }

  /** Among groupings of a sequence, a saturated one has the fewest groups, even
      when it only has to cover a suffix of what the other one covers. */
  lemma {:induction false} SaturatedIsMinimal(cap: nat, mine: seq<seq<Record>>, other: seq<seq<Record>>,
          skipped: seq<Record>)
    requires forall i :: 0 <= i < |mine| ==> Fits(cap, mine[i])
    requires Saturated(cap, mine)
    requires forall i :: 0 <= i < |other| ==> Fits(cap, other[i])
    requires skipped + Concat(mine) == Concat(other)
    ensures |mine| <= |other|
    decreases |mine| + |other|
  {
    hide TransportLen;
    if mine != [] {
      assert mine[0] != [];
      assert other != [];
      var h, beyond := other[0], Concat(other[1..]);
      if |h| <= |skipped| {
        CutLater(skipped, Concat(mine), h, beyond);
        SaturatedIsMinimal(cap, mine, other[1..], skipped[|h|..]);
      } else if |mine| > 1 {
        var g, rest := mine[0], Concat(mine[1..]);
        CutLater(h, beyond, skipped, Concat(mine));
        var tail := h[|skipped|..];
        NextFrameWouldFit(cap, mine, h, skipped, tail, beyond);
        CutLater(g, rest, tail, beyond);
        SaturatedIsMinimal(cap, mine[1..], other[1..], g[|tail|..]);
      }
    }
  }

  /** If another group reached past the end of a saturated one, the saturated one
      would have had room for one more frame. */
  lemma NextFrameWouldFit(cap: nat, mine: seq<seq<Record>>, h: seq<Record>, skipped: seq<Record>, tail: seq<Record>,
          beyond: seq<Record>)
    requires |mine| > 1 && mine[0] != [] && mine[1] != []
    requires Saturated(cap, mine) && Fits(cap, h) && h == skipped + tail
    requires tail + beyond == mine[0] + Concat(mine[1..])
    ensures |tail| <= |mine[0]|
  {
    hide TransportLen;
    var g, f := mine[0], mine[1][0];
    if |g| < |tail| {
      assert Concat(mine[1..])[0] == f;
      CutLater(tail, beyond, g, Concat(mine[1..]));
      assert tail[|g|..][0] == (tail[|g|..] + beyond)[0] == f;
      assert tail == (g + [f]) + tail[|g| + 1..];
      TransportSumAppend(skipped, tail);
      TransportSumAppend(g + [f], tail[|g| + 1..]);
      TransportSumAppend(g, [f]);
    }
  }

  /** Pushing one more frame continues the run. */
  lemma {:induction false} PushAllSnoc(cap: nat, buffer: seq<Record>, frames: seq<Record>, f: Record)
    ensures var run := PushAll(cap, buffer, frames);
            var last := PushOne(cap, run.buffer, f);
            PushAll(cap, buffer, frames + [f]) == Pushed(run.flushed + last.flushed, last.buffer)
    decreases |frames|
  {
    hide PushOne;
    if frames == [] {
      assert [f][1..] == [];
      var p := PushOne(cap, buffer, f);
      assert p.flushed + [] == p.flushed && [] + p.flushed == p.flushed;
    } else {
      var first := PushOne(cap, buffer, frames[0]);
      var rest := PushAll(cap, first.buffer, frames[1..]);
      var last := PushOne(cap, rest.buffer, f);
      PushAllSnoc(cap, first.buffer, frames[1..], f);
      assert (frames + [f])[1..] == frames[1..] + [f];
      AppendAssociative(first.flushed, rest.flushed, last.flushed);
    }
  }

  /** The groups of a run concatenate to the frames in order and fit the cap ... */
  lemma GreedyIsGrouping(cap: nat, frames: seq<Record>)
    ensures Grouping(cap, frames, Greedy(cap, frames))
  {
    RunIsGrouping(cap, [], frames);
    assert [] + frames == frames;
  }

  /** ... and no order-preserving grouping within the cap has fewer. */
  lemma GreedyIsMinimal(cap: nat, frames: seq<Record>, groups: seq<seq<Record>>)
    requires Grouping(cap, frames, groups)
    ensures |Greedy(cap, frames)| <= |groups|
  {
    GreedyIsGrouping(cap, frames);
    RunIsSaturated(cap, [], frames);
    assert [] + Concat(Greedy(cap, frames)) == Concat(groups);
    SaturatedIsMinimal(cap, Greedy(cap, frames), groups, []);
  }
}
