/** The workload generator: a live set indexed for random choice, with removal by swapping,
    and the stream of events it emits over a benchmark corpus. */
module Workload {
  import opened Corpus

  datatype Locality = HighLocality | MixedLocality | LowLocality {
    function InsertThreshold(): nat {
      match this case HighLocality => 15 case MixedLocality => 35 case LowLocality => 55
    }

    function UpsertThreshold(): nat {
      match this case HighLocality => 85 case MixedLocality => 80 case LowLocality => 70
    }

    function EvictThreshold(): nat {
      match this case HighLocality => 95 case MixedLocality => 92 case LowLocality => 88
    }
  }

  /** Of 100 rolls, how many insert, revise, evict and invalidate. */
  function Shares(l: Locality): (nat, nat, nat, nat) {
    match l
    case HighLocality => (15, 70, 10, 5)
    case MixedLocality => (35, 45, 12, 8)
    case LowLocality => (55, 15, 18, 12)
  }

  lemma SharesOfRolls(l: Locality)
    ensures var (insert, revise, evict, invalidate) := Shares(l);
            && l.InsertThreshold() == insert && l.UpsertThreshold() - l.InsertThreshold() == revise
            && l.EvictThreshold() - l.UpsertThreshold() == evict && 100 - l.EvictThreshold() == invalidate
  {
  }

  const HOT_LIMIT: nat := 8

  datatype ItemState = ItemState(corpusIndex: nat, revision: nat)

  datatype WorkloadEvent =
    | Insert(id: nat, input: InputCorpusChunk)
    | UpsertObject(id: nat, input: InputCorpusChunk)
    | Evict(id: nat)
    | Invalidate(id: nat)

  /** What the random generator returns during one event: the roll, whether the hot part of the
      list is used and which entry of it, whether the next chunk is a related one, and a chunk
      of the whole corpus. */
  datatype Draw = Draw(roll: nat, hot: bool, pick: nat, related: bool, corpusIndex: nat)

  function HotCount(n: nat): (count: nat)
    ensures count <= 8 && count <= n && (count == 8 || count == n)
  {
    if n < HOT_LIMIT then n else HOT_LIMIT
  }

  predicate Possible(d: Draw, c: InputCorpus, live: nat) {
    && d.roll < 100
    && d.corpusIndex < |c.chunks|
    && (live > 0 ==> d.pick < if d.hot then HotCount(live) else live)
  }

  // ---- The list of live ids and its index ----

  /** `positions` is the inverse of `ids`. */
  ghost predicate Inverse(ids: seq<nat>, positions: map<nat, nat>) {
    && (forall i :: 0 <= i < |ids| ==> ids[i] in positions && positions[ids[i]] == i)
    && forall id :: id in positions ==> positions[id] < |ids| && ids[positions[id]] == id
  }

  lemma InverseMeansDistinct(ids: seq<nat>, positions: map<nat, nat>)
    requires Inverse(ids, positions)
    ensures forall i, j :: 0 <= i < j < |ids| ==> ids[i] != ids[j]
    ensures positions.Keys == set id | id in ids
  {
    forall i, j | 0 <= i < j < |ids| ensures ids[i] != ids[j] {
      assert positions[ids[i]] == i && positions[ids[j]] == j;
    }
  }

  /** Removal by moving the last entry into the gap. */
  function SwapRemoved(ids: seq<nat>, index: nat): (rest: seq<nat>)
    requires index < |ids|
    ensures |rest| == |ids| - 1
    ensures multiset(rest) == multiset(ids) - multiset{ids[index]}
  {
    var last := |ids| - 1;
    assert ids == ids[..last] + [ids[last]];
    if index == last then ids[..last] else ids[..last][index := ids[last]]
  }

  lemma SwapRemoveKeepsInverse(ids: seq<nat>, positions: map<nat, nat>, id: nat)
    requires Inverse(ids, positions) && id in positions
    ensures var index := positions[id];
            var rest, without := SwapRemoved(ids, index), positions - {id};
            Inverse(rest, if index < |rest| then without[rest[index] := index] else without)
  {
  }

  lemma AppendKeepsInverse(ids: seq<nat>, positions: map<nat, nat>, id: nat)
    requires Inverse(ids, positions) && id !in positions
    ensures Inverse(ids + [id], positions[id := |ids|])
  {
  }

  lemma LiveTogether(ids: seq<nat>, positions: map<nat, nat>, items: map<nat, ItemState>)
    requires Inverse(ids, positions) && positions.Keys == items.Keys
    ensures items == map[] <==> ids == []
    ensures forall i :: 0 <= i < |ids| ==> ids[i] in items && positions[ids[i]] == i
  {
    forall i | 0 <= i < |ids| ensures ids[i] in items {
      assert ids[i] in positions.Keys;
    }
    if ids == [] {
      forall id ensures id !in items.Keys {
        assert id in items.Keys ==> id in positions;
      }
      assert items.Keys == {};
      assert items == map[];
    } else {
      assert ids[0] in items;
    }
  }

  // ---- What a trace of events means ----

  /** The live items after the events, each with its latest input and how often it was revised. */
  function Replay(events: seq<WorkloadEvent>): map<nat, (InputCorpusChunk, nat)> {
    if events == [] then map[]
    else
      var before, last := Replay(events[..|events| - 1]), events[|events| - 1];
      match last
      case Insert(id, input) => before[id := (input, 0)]
      case UpsertObject(id, input) => before[id := (input, if id in before then before[id].1 + 1 else 0)]
      case Evict(id) => before - {id}
      case Invalidate(id) => before - {id}
  }

  function InsertedIds(events: seq<WorkloadEvent>): seq<nat> {
    if events == [] then []
    else
      var before, last := InsertedIds(events[..|events| - 1]), events[|events| - 1];
      if last.Insert? then before + [last.id] else before
  }

  /** An insert names an id never inserted before; every other event names a live one. */
  ghost predicate ProperTrace(events: seq<WorkloadEvent>) {
    events != [] ==>
      var before, last := events[..|events| - 1], events[|events| - 1];
      && ProperTrace(before)
      && if last.Insert? then last.id !in InsertedIds(before) else last.id in Replay(before)
  }

  /** The items and the next id are what the events say. */
  ghost predicate TraceAgrees(c: InputCorpus, events: seq<WorkloadEvent>, items: map<nat, ItemState>, nextItemId: nat) {
    && ProperTrace(events)
    && Replay(events).Keys == items.Keys
    && (forall id :: id in items ==> items[id].corpusIndex < |c.chunks|)
    && (forall id :: id in items ==> Replay(events)[id] == (c.chunks[items[id].corpusIndex], items[id].revision))
    && nextItemId == |InsertedIds(events)| + 1
    && forall i :: 0 <= i < |InsertedIds(events)| ==> InsertedIds(events)[i] == i + 1
  }

  lemma CorpusIndicesInRange(c: InputCorpus, events: seq<WorkloadEvent>, items: map<nat, ItemState>, nextItemId: nat)
    requires TraceAgrees(c, events, items, nextItemId)
    ensures forall id :: id in items ==> items[id].corpusIndex < |c.chunks|
  {
  }

  lemma TraceInserts(c: InputCorpus, events: seq<WorkloadEvent>, items: map<nat, ItemState>, nextItemId: nat,
          corpusIndex: nat)
    requires TraceAgrees(c, events, items, nextItemId) && corpusIndex < |c.chunks|
    ensures nextItemId !in items
    ensures TraceAgrees(c, events + [Insert(nextItemId, c.chunks[corpusIndex])],
                        items[nextItemId := ItemState(corpusIndex, 0)], nextItemId + 1)
  {
    var event := Insert(nextItemId, c.chunks[corpusIndex]);
    assert (events + [event])[..|events|] == events;
    LiveWereInserted(events);
  }

  lemma TraceRevises(c: InputCorpus, events: seq<WorkloadEvent>, items: map<nat, ItemState>, nextItemId: nat, id: nat,
          corpusIndex: nat)
    requires TraceAgrees(c, events, items, nextItemId) && corpusIndex < |c.chunks| && id in items
    ensures TraceAgrees(c, events + [UpsertObject(id, c.chunks[corpusIndex])],
                        items[id := ItemState(corpusIndex, items[id].revision + 1)], nextItemId)
  {
    var event := UpsertObject(id, c.chunks[corpusIndex]);
    assert (events + [event])[..|events|] == events;
  }

  lemma TraceRemoves(c: InputCorpus, events: seq<WorkloadEvent>, items: map<nat, ItemState>, nextItemId: nat,
          event: WorkloadEvent)
    requires TraceAgrees(c, events, items, nextItemId) && event.id in items && (event.Evict? || event.Invalidate?)
    ensures TraceAgrees(c, events + [event], items - {event.id}, nextItemId)
  {
    assert (events + [event])[..|events|] == events;
  }

  /** Whatever a proper trace leaves live was inserted, and no id was inserted twice. */
  lemma {:induction false} LiveWereInserted(events: seq<WorkloadEvent>)
    requires ProperTrace(events)
    ensures forall id :: id in Replay(events) ==> id in InsertedIds(events)
    ensures forall i, j :: 0 <= i < j < |InsertedIds(events)| ==> InsertedIds(events)[i] != InsertedIds(events)[j]
  {
    if events != [] {
      LiveWereInserted(events[..|events| - 1]);
    }
  }

  // ---- Related chunks ----

  /** The next chunk of the same file, going round. */
  function RelatedIndex(c: InputCorpus, current: nat): (next: nat)
    requires Layout(c) && current < |c.chunks|
    ensures next < |c.chunks| && c.chunks[next].fileIndex == c.chunks[current].fileIndex
    ensures c.chunks[next].chunkIndex ==
            (c.chunks[current].chunkIndex + 1) % c.files[c.chunks[current].fileIndex].chunkCount
  {
    var chunk := c.chunks[current];
    var file := c.files[chunk.fileIndex];
    if file.chunkCount > 1 then
      var nextChunkIndex := (chunk.chunkIndex + 1) % file.chunkCount;
      assert StandsAt(c, chunk.fileIndex, nextChunkIndex);
      file.firstChunkIndex + nextChunkIndex
    else current
  }

  /** Where an item's next content comes from. */
  function NextIndex(c: InputCorpus, d: Draw, current: nat): (next: nat)
    requires Layout(c) && current < |c.chunks| && d.corpusIndex < |c.chunks|
    ensures next < |c.chunks|
    ensures !d.related ==> next == d.corpusIndex
    ensures d.related ==>
              var from, to := c.chunks[current], c.chunks[next];
              && to.fileIndex == from.fileIndex
              && to.chunkIndex ==
                   if from.chunkIndex + 1 == c.files[from.fileIndex].chunkCount then 0 else from.chunkIndex + 1
  {
    if d.related then RelatedIndex(c, current) else d.corpusIndex
  }

  function RelatedAfter(c: InputCorpus, current: nat, steps: nat): (index: nat)
    requires Layout(c) && current < |c.chunks|
    ensures index < |c.chunks| && c.chunks[index].fileIndex == c.chunks[current].fileIndex
  {
    if steps == 0 then current else RelatedIndex(c, RelatedAfter(c, current, steps - 1))
  }

  lemma WrapOnce(index: nat, count: nat)
    requires index < count
    ensures (index + 1) % count == if index + 1 == count then 0 else index + 1
  {
  }

  /** Going round: the walk takes the file's chunks in order, and after as many steps as there
      are chunks it is back where it began. */
  lemma {:induction false} RelatedGoesRound(c: InputCorpus, current: nat, steps: nat)
    requires Layout(c) && current < |c.chunks|
    requires steps <= c.files[c.chunks[current].fileIndex].chunkCount
    ensures var chunk := c.chunks[current];
            var count := c.files[chunk.fileIndex].chunkCount;
            c.chunks[RelatedAfter(c, current, steps)].chunkIndex ==
              if chunk.chunkIndex + steps < count then chunk.chunkIndex + steps else chunk.chunkIndex + steps - count
    ensures steps == c.files[c.chunks[current].fileIndex].chunkCount ==> RelatedAfter(c, current, steps) == current
  {
    hide RelatedIndex, StandsAt;
    if steps > 0 {
      RelatedGoesRound(c, current, steps - 1);
      var count := c.files[c.chunks[current].fileIndex].chunkCount;
      WrapOnce(c.chunks[RelatedAfter(c, current, steps - 1)].chunkIndex, count);
    }
  }

  /** So every chunk of the file is reached, in fewer steps than there are chunks. */
  lemma WholeFileIsRelated(c: InputCorpus, current: nat, other: nat)
    requires Layout(c) && current < |c.chunks| && other < |c.chunks|
    requires c.chunks[other].fileIndex == c.chunks[current].fileIndex
    ensures exists steps: nat ::
              steps < c.files[c.chunks[current].fileIndex].chunkCount && RelatedAfter(c, current, steps) == other
  {
    var from, to := c.chunks[current].chunkIndex, c.chunks[other].chunkIndex;
    var count := c.files[c.chunks[current].fileIndex].chunkCount;
    var steps := if from <= to then to - from else to + count - from;
    RelatedGoesRound(c, current, steps);
    assert RelatedAfter(c, current, steps) == other;
  }

  // ---- The generator ----

  class WorkloadGenerator {
    const workload: Locality
    const corpus: InputCorpus
    var nextItemId: nat
    var liveItems: map<nat, ItemState>
    var liveIds: seq<nat>
    var liveIdPositions: map<nat, nat>
    var step: nat
    ghost var events: seq<WorkloadEvent>  // everything emitted so far

    ghost predicate Valid()
      reads this
    {
      && Layout(corpus)
      && Inverse(liveIds, liveIdPositions)
      && liveIdPositions.Keys == liveItems.Keys
      && step == |events|
      && TraceAgrees(corpus, events, liveItems, nextItemId)
    }

    constructor (workload: Locality, corpus: InputCorpus)
      requires Layout(corpus)
      ensures Valid() && events == [] && this.workload == workload && this.corpus == corpus
    {
      this.workload, this.corpus := workload, corpus;
      nextItemId, step := 1, 0;
      liveItems, liveIds, liveIdPositions := map[], [], map[];
      events := [];
    }

    /** One more event. Its kind is the one the roll selects, an insert takes the next id,
        and every other kind names the live id picked. */
    method NextEvent(d: Draw) returns (event: WorkloadEvent)
      requires Valid() && Possible(d, corpus, |liveIds|)
      modifies this
      ensures Valid() && events == old(events) + [event]
      ensures event.Insert? <==> old(liveIds) == [] || d.roll < workload.InsertThreshold()
      ensures !event.Insert? ==> (event.UpsertObject? <==> d.roll < workload.UpsertThreshold())
      ensures event.Evict? || event.Invalidate? ==> (event.Evict? <==> d.roll < workload.EvictThreshold())
      ensures event.Insert? ==> event == Insert(old(nextItemId), corpus.chunks[d.corpusIndex])
      ensures event.Insert? ==> liveIds == old(liveIds) + [event.id]
      ensures !event.Insert? ==> d.pick < |old(liveIds)| && event.id == old(liveIds)[d.pick]
      ensures !event.Insert? ==> event.id in old(liveItems)
      ensures event.UpsertObject? ==> liveIds == old(liveIds)
      ensures event.UpsertObject? ==> old(liveItems)[event.id].corpusIndex < |corpus.chunks|
      ensures event.UpsertObject? ==>
              event.input == corpus.chunks[NextIndex(corpus, d, old(liveItems)[event.id].corpusIndex)]
      ensures event.Evict? || event.Invalidate? ==> liveIds == SwapRemoved(old(liveIds), d.pick)
    {
      hide Inverse, TraceAgrees, Layout, SwapRemoved, NextIndex;
      CorpusIndicesInRange(corpus, events, liveItems, nextItemId);
      LiveTogether(liveIds, liveIdPositions, liveItems);
      step := step + 1;
      if liveItems == map[] {
        event := InsertEvent(d);
        return;
      }
      if d.roll < workload.InsertThreshold() {
        event := InsertEvent(d);
      } else if d.roll < workload.UpsertThreshold() {
        var itemId := ChooseItemId(d);
        var currentCorpusIndex := liveItems[itemId].corpusIndex;
        var nextCorpusIndex := NextRelatedCorpusIndex(d, currentCorpusIndex);
        var state := ItemState(nextCorpusIndex, liveItems[itemId].revision + 1);
        event := UpsertObject(itemId, corpus.chunks[nextCorpusIndex]);
        TraceRevises(corpus, events, liveItems, nextItemId, itemId, nextCorpusIndex);
        liveItems := liveItems[itemId := state];
        events := events + [event];
      } else if d.roll < workload.EvictThreshold() {
        var itemId := ChooseItemId(d);
        event := Evict(itemId);
        TraceRemoves(corpus, events, liveItems, nextItemId, event);
        liveItems := liveItems - {itemId};
        RemoveLiveItem(itemId);
        events := events + [event];
      } else {
        var itemId := ChooseItemId(d);
        event := Invalidate(itemId);
        TraceRemoves(corpus, events, liveItems, nextItemId, event);
        liveItems := liveItems - {itemId};
        RemoveLiveItem(itemId);
        events := events + [event];
      }
    }

    /** The new item stands at the end of the list. */
    method InsertEvent(d: Draw) returns (event: WorkloadEvent)
      requires Layout(corpus) && d.corpusIndex < |corpus.chunks|
      requires Inverse(liveIds, liveIdPositions) && liveIdPositions.Keys == liveItems.Keys
      requires TraceAgrees(corpus, events, liveItems, nextItemId)
      modifies `nextItemId, `liveItems, `liveIds, `liveIdPositions, `events
      ensures event == Insert(old(nextItemId), corpus.chunks[d.corpusIndex])
      ensures events == old(events) + [event]
      ensures liveIds == old(liveIds) + [event.id]
      ensures Inverse(liveIds, liveIdPositions) && liveIdPositions.Keys == liveItems.Keys
      ensures TraceAgrees(corpus, events, liveItems, nextItemId)
    {
      hide Inverse, TraceAgrees, Layout;
      var itemId := nextItemId;
      TraceInserts(corpus, events, liveItems, itemId, d.corpusIndex);
      AppendKeepsInverse(liveIds, liveIdPositions, itemId);
      nextItemId := nextItemId + 1;
      var corpusIndex := d.corpusIndex;
      liveItems := liveItems[itemId := ItemState(corpusIndex, 0)];
      liveIdPositions := liveIdPositions[itemId := |liveIds|];
      liveIds := liveIds + [itemId];
      event := Insert(itemId, corpus.chunks[corpusIndex]);
      events := events + [event];
    }

    method NextRelatedCorpusIndex(d: Draw, currentIndex: nat) returns (index: nat)
      requires Layout(corpus) && currentIndex < |corpus.chunks| && d.corpusIndex < |corpus.chunks|
      ensures index == NextIndex(corpus, d, currentIndex)
    {
      var current := corpus.chunks[currentIndex];
      var file := corpus.files[current.fileIndex];
      if d.related {
        if file.chunkCount > 1 {
          var nextChunkIndex := (current.chunkIndex + 1) % file.chunkCount;
          index := file.firstChunkIndex + nextChunkIndex;
        } else {
          index := currentIndex;
        }
      } else {
        index := d.corpusIndex;
      }
    }

    method ChooseItemId(d: Draw) returns (itemId: nat)
      requires liveIds != [] && Possible(d, corpus, |liveIds|)
      ensures d.pick < |liveIds| && itemId == liveIds[d.pick]
      ensures d.hot ==> itemId in liveIds[..HotCount(|liveIds|)]
    {
      var hotLimit := HotCount(|liveIds|);
      var hotIds := liveIds[..hotLimit];
      if hotIds != [] && d.hot {
        itemId := hotIds[d.pick];
      } else {
        itemId := liveIds[d.pick];
      }
    }

    method RemoveLiveItem(itemId: nat)
      requires Inverse(liveIds, liveIdPositions)
      modifies `liveIds, `liveIdPositions
      ensures Inverse(liveIds, liveIdPositions) && liveIdPositions.Keys == old(liveIdPositions).Keys - {itemId}
      ensures liveIds == if itemId in old(liveIdPositions)
                         then SwapRemoved(old(liveIds), old(liveIdPositions)[itemId]) else old(liveIds)
    {
      if itemId !in liveIdPositions {
        return;
      }
      SwapRemoveKeepsInverse(liveIds, liveIdPositions, itemId);
      var index := liveIdPositions[itemId];
      liveIdPositions := liveIdPositions - {itemId};
      liveIds := SwapRemoved(liveIds, index);
      if index < |liveIds| {
        var swapped := liveIds[index];
        liveIdPositions := liveIdPositions[swapped := index];
      }
    }
  }
}
