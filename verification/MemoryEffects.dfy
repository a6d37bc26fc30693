/** What each record does to the catalog, the predictors, the source bindings, the hints and the
    two queues, and which records apply at all. */
module MemoryEffects {
  import opened Bytes
  import opened Wire
  import opened Ids
  import opened Graph
  import opened Memory
  import opened MemoryInvariant
  import opened MemoryPlanes
  import opened DispatchProofs
  import opened MemoryRuns
  import opened MemoryFates
  import opened Dependencies

  // ---- What is reconstructed ----

  /** The record reconstructs these bytes for the item, in this state. */
  ghost predicate Reconstructs(env: Env, m: Mem, input: Input, item: U64, bytes: Data, state: Mem) {
    match input
    case ExactData(id, raw) => id == item && env.decodeData(m, id, raw) == Some(bytes) && state == m
    case InstanceOf(id, classId, instance) =>
      && id == item && classId in m.tx.classes
      && env.applyTransform(m.catalog, m.tx.classes[classId], instance) == Some(bytes)
      && state == m.(tx := m.tx.(materialized := m.tx.materialized[classId := bytes]))
    case Dispatch(_, id, _, p) =>
      && id == item && Staging(input) && Apply(env, m, input).ok
      && state == Stage(env, m, p).mem && env.execute(state, p) == Some(bytes)
    case _ => false
  }

  /** A received item or a successful dispatch asks the catalog for the block its bytes belong to; a block
      that is there stays, another one is inserted. */
  ghost predicate Promoted(env: Env, before: Catalog, after: Catalog, kind: nat, bytes: Data) {
    && (env.blockId(kind, bytes) in before.blocks ==> after == before)
    && (env.blockId(kind, bytes) !in before.blocks ==> after == env.insertBlock(before, kind, bytes))
  }

  lemma DispatchMaterializes(env: Env, m: Mem, input: Input)
    requires Staging(input)
    ensures var s, r := Stage(env, m, input.payload).mem, Apply(env, m, input);
            if r.ok then
              && env.execute(s, input.payload).Some?
              && var bytes := env.execute(s, input.payload).value;
                 r.mem.items == Materialize(env, s, input, input.item, bytes, true).items &&
                 r.mem.catalog == Materialize(env, s, input, input.item, bytes, true).catalog
            else r.mem.items == m.items && r.mem.catalog == m.catalog
  {
    hide Stage, CheckStaged, RevisionsOf, EnqueueAll, DispatchAcks, Promote, RemoveAssemblies, RemoveSchemas;
    StageShape(env, m, input.payload);
  }

  lemma CatalogAfterReceipt(env: Env, m: Mem, input: Input)
    requires (input.ExactData? || Staging(input)) && Apply(env, m, input).ok
    ensures exists item, bytes, state ::
              Reconstructs(env, m, input, item, bytes, state) &&
              Promoted(env, m.catalog, Apply(env, m, input).mem.catalog,
                       env.describe(state, input, item, bytes).kind, bytes)
  {
    hide Stage, ApplyDispatch, Unresolved, IsResolved;
    if input.ExactData? {
      var bytes := env.decodeData(m, input.item, input.raw).value;
      assert Reconstructs(env, m, input, input.item, bytes, m);
    } else {
      DispatchMaterializes(env, m, input);
      StageShape(env, m, input.payload);
      var s := Stage(env, m, input.payload).mem;
      var bytes := env.execute(s, input.payload).value;
      assert Reconstructs(env, m, input, input.item, bytes, s);
    }
  }

  lemma CatalogAfterOther(env: Env, m: Mem, input: Input)
    requires !((input.ExactData? || Staging(input)) && Apply(env, m, input).ok)
    ensures Apply(env, m, input).mem.catalog ==
            match input
            case CatalogRepair(sync) =>
              var synced := env.applySync(m.catalog, sync);
              if synced.Some? then synced.value else m.catalog
            case FullResync => EMPTY_CATALOG
            case PlaneResync(plane, _) => if plane == AtomSubstratePlane then EMPTY_CATALOG else m.catalog
            case _ => m.catalog
  {
    hide Stage, ApplyDispatch, Unresolved, IsResolved, RetireAssembly, RetireSchema, RetireTransform, KeepHints,
      InstallAssembly, InstallSchema, ItemsNamed, EnqueueAck, ReplayAck, CacheAll, Promote;
    if Staging(input) {
      DispatchMaterializes(env, m, input);
    } else if input.Dispatch? {
      NotStaged(env, m, input);
    }
  }

  /** Which catalog block each record asks for, and what else changes the catalog. */
  lemma CatalogFollowsRecords(env: Env, m: Mem, input: Input)
    ensures var after := Apply(env, m, input).mem.catalog;
            if (input.ExactData? || Staging(input)) && Apply(env, m, input).ok then
              exists item, bytes, state ::
                Reconstructs(env, m, input, item, bytes, state) &&
                Promoted(env, m.catalog, after, env.describe(state, input, item, bytes).kind, bytes)
            else
              after == match input
                       case CatalogRepair(sync) =>
                         var synced := env.applySync(m.catalog, sync);
                         if synced.Some? then synced.value else m.catalog
                       case FullResync => EMPTY_CATALOG
                       case PlaneResync(plane, _) => if plane == AtomSubstratePlane then EMPTY_CATALOG else m.catalog
                       case _ => m.catalog
  {
    hide Apply, Promoted, Reconstructs;
    if (input.ExactData? || Staging(input)) && Apply(env, m, input).ok {
      CatalogAfterReceipt(env, m, input);
    } else {
      CatalogAfterOther(env, m, input);
    }
  }

  // ---- Predictors and source bindings ----

  function DescribedIf(env: Env, state: Mem, input: Input, key: U64, id: U64, bytes: Option<Data>): Fate<Predictor> {
    if key == id && bytes.Some? then Given(env.describe(state, input, id, bytes.value)) else Kept
  }

  /** The predictor of an item describes the bytes last reconstructed for it. */
  function PredictorFate(env: Env, m: Mem, input: Input, id: U64): Fate<Predictor> {
    match input
    case ExactData(item, raw) => DescribedIf(env, m, input, item, id, env.decodeData(m, item, raw))
    case InstanceOf(item, classId, instance) =>
      if classId !in m.tx.classes then Kept
      else
        var bytes := env.applyTransform(m.catalog, m.tx.classes[classId], instance);
        if bytes.None? then Kept
        else
          var stored := m.(tx := m.tx.(materialized := m.tx.materialized[classId := bytes.value]));
          DescribedIf(env, stored, input, item, id, bytes)
    case Dispatch(_, item, _, p) =>
      var staged := Stage(env, m, p).mem;
      if Staging(input) && Apply(env, m, input).ok then
        DescribedIf(env, staged, input, item, id, env.execute(staged, p))
      else Kept
    case DropItem(item) => if item == id then Gone else Kept
    case Retire(_, plane, _, objectId) =>
      if plane == AtomSubstratePlane && NamesItem(m.items, objectId, id) then Gone else Kept
    case FullResync => Gone
    case PlaneResync(_, resetPredictors) => if resetPredictors then Gone else Kept
    case _ => Kept
  }

  /** A binding is what the last source record of the item said. */
  function BindingFate(m: Mem, input: Input, id: U64): Fate<SourceDescriptor> {
    match input
    case SourceMetaFor(item, descriptor) => if item == id then Given(descriptor) else Kept
    case DropItem(item) => if item == id then Gone else Kept
    case Retire(_, plane, _, objectId) =>
      if plane == AtomSubstratePlane && NamesItem(m.items, objectId, id) then Gone else Kept
    case FullResync => Gone
    case PlaneResync(plane, _) => if plane == AtomSubstratePlane then Gone else Kept
    case _ => Kept
  }

  lemma DescribedAfterDispatch(env: Env, m: Mem, input: Input, id: U64)
    requires input.Dispatch?
    ensures Lookup(Apply(env, m, input).mem.items.predictors, id) ==
            After(Lookup(m.items.predictors, id), PredictorFate(env, m, input, id))
    ensures Lookup(Apply(env, m, input).mem.items.bindings, id) ==
            After(Lookup(m.items.bindings, id), BindingFate(m, input, id))
  {
    hide Apply, Stage, Promote;
    if Staging(input) {
      DispatchMaterializes(env, m, input);
      StageShape(env, m, input.payload);
    } else {
      NotStaged(env, m, input);
    }
  }

  lemma DescribedAfterRetire(env: Env, m: Mem, input: Input, id: U64)
    requires input.Retire?
    ensures Lookup(Apply(env, m, input).mem.items.predictors, id) ==
            After(Lookup(m.items.predictors, id), PredictorFate(env, m, input, id))
    ensures Lookup(Apply(env, m, input).mem.items.bindings, id) ==
            After(Lookup(m.items.bindings, id), BindingFate(m, input, id))
  {
    hide RetireAssembly, RetireSchema, RetireTransform, KeepHints, EnqueueAck, ParseItemId, Unresolved, Stage;
  }

  lemma PredictorAfterOther(env: Env, m: Mem, input: Input, id: U64)
    requires !input.Dispatch? && !input.Retire?
    ensures Lookup(Apply(env, m, input).mem.items.predictors, id) ==
            After(Lookup(m.items.predictors, id), PredictorFate(env, m, input, id))
  {
    hide ApplyDispatch, RetireObject, InstallAssembly, InstallSchema, EnqueueAck, ReplayAck, CacheAll, Promote,
      Stage, Unresolved;
  }

  lemma BindingAfterOther(env: Env, m: Mem, input: Input, id: U64)
    requires !input.Dispatch? && !input.Retire?
    ensures Lookup(Apply(env, m, input).mem.items.bindings, id) ==
            After(Lookup(m.items.bindings, id), BindingFate(m, input, id))
  {
    hide ApplyDispatch, RetireObject, InstallAssembly, InstallSchema, EnqueueAck, ReplayAck, CacheAll, Promote,
      Unresolved;
  }

  lemma DescriptionFollowsFate(env: Env, m: Mem, input: Input, id: U64)
    ensures Lookup(Apply(env, m, input).mem.items.predictors, id) ==
            After(Lookup(m.items.predictors, id), PredictorFate(env, m, input, id))
    ensures Lookup(Apply(env, m, input).mem.items.bindings, id) ==
            After(Lookup(m.items.bindings, id), BindingFate(m, input, id))
  {
    hide Apply, PredictorFate, BindingFate;
    if input.Dispatch? {
      DescribedAfterDispatch(env, m, input, id);
    } else if input.Retire? {
      DescribedAfterRetire(env, m, input, id);
    } else {
      PredictorAfterOther(env, m, input, id);
      BindingAfterOther(env, m, input, id);
    }
  }

  /** Over every run predictors and bindings are what the last record that touched them made them. */
  lemma DescriptionsAreTheirHistory(env: Env, events: seq<Event>, id: U64)
    ensures Lookup(Run(env, events).items.predictors, id) ==
            History(env, events, (m: Mem, input: Input) => PredictorFate(env, m, input, id))
    ensures Lookup(Run(env, events).items.bindings, id) ==
            History(env, events, (m: Mem, input: Input) => BindingFate(m, input, id))
  {
    hide Apply, PredictorFate, BindingFate, Inv;
    forall m, input
      ensures Lookup(Apply(env, m, input).mem.items.predictors, id) ==
              After(Lookup(m.items.predictors, id), PredictorFate(env, m, input, id))
      ensures Lookup(Apply(env, m, input).mem.items.bindings, id) ==
              After(Lookup(m.items.bindings, id), BindingFate(m, input, id))
    {
      DescriptionFollowsFate(env, m, input, id);
    }
    StoreIsItsHistory(env, events, (m: Mem) => Lookup(m.items.predictors, id),
        (m: Mem, input: Input) => PredictorFate(env, m, input, id));
    StoreIsItsHistory(env, events, (m: Mem) => Lookup(m.items.bindings, id),
        (m: Mem, input: Input) => BindingFate(m, input, id));
  }

  // ---- Which records apply ----

  /** When a record applies, in terms of the state it finds. */
  ghost predicate Applies(env: Env, m: Mem, input: Input) {
    match input
    case Undecodable => false
    case ExactData(item, raw) => env.decodeData(m, item, raw).Some?
    case CatalogRepair(sync) => env.applySync(m.catalog, sync).Some?
    case InstanceOf(_, classId, instance) =>
      classId in m.tx.classes && env.applyTransform(m.catalog, m.tx.classes[classId], instance).Some?
    case DefineAssembly(a) => env.planLen(a) == a.bodyLen
    case Dispatch(recordType, _, _, p) =>
      && (recordType == PredictiveConfirm ==> p.family == ExactAtom)
      && (recordType == PredictiveCorrect ==> p.family == Hybrid)
      && (recordType == PredictiveConfirm || recordType == PredictiveCorrect)
      && (forall i :: 0 <= i < |p.assemblies| ==> env.planLen(p.assemblies[i]) == p.assemblies[i].bodyLen)
      && (forall i :: 0 <= i < |p.closure| ==> MetWith(m, p, p.closure[i]))
      && env.execute(Stage(env, m, p).mem, p).Some?
    case _ => true
  }

  lemma AppliesExactly(env: Env, m: Mem, input: Input)
    requires Inv(env, m)
    ensures Apply(env, m, input).ok <==> Applies(env, m, input)
  {
    hide Inv, ApplyDispatch, Stage, MetWith, RetireObject, ResyncPlane, Materialize, Prune, CacheAll, EnqueueAck,
      InstallSchema, AssemblyName, SignatureOf, EnqueueRepair, RemoveItems;
    if input.Dispatch? && IsPredictive(input.recordType) {
      DispatchSucceedsExactly(env, m, input.recordType, input.item, input.seqNo, input.payload);
    }
  }

  /** A record that does not apply changes nothing, unless it is a dispatch that had begun to stage. */
  lemma FailureChangesNothing(env: Env, m: Mem, input: Input)
    requires !Apply(env, m, input).ok && !Staging(input)
    ensures Apply(env, m, input).mem == m
  {
    hide ApplyDispatch, RetireObject, ResyncPlane, Materialize, Prune, CacheAll, EnqueueAck, InstallSchema,
      AssemblyName, SignatureOf, EnqueueRepair, RemoveItems;
    if input.Dispatch? {
      NotStaged(env, m, input);
    }
  }

  // ---- Hints ----

  /** Hints are appended in the order they come; a dispatch that fails takes its own back. */
  lemma HintsAfter(env: Env, m: Mem, input: Input)
    ensures var after := Apply(env, m, input).mem.hints;
            match input
            case Hint(hint) => after == m.hints + [hint]
            case Replay(_, hint) => after == m.hints + [hint]
            case Dispatch(_, _, _, p) => after == if Apply(env, m, input).ok then m.hints + p.hints else m.hints
            case Retire(_, plane, _, objectId) =>
              after == if plane == EpisodePlane then KeepHints(m.hints, objectId) else m.hints
            case FullResync => after == []
            case PlaneResync(plane, _) =>
              after == if plane == EpisodePlane || plane == AtomSubstratePlane then [] else m.hints
            case _ => after == m.hints
  {
    hide ApplyDispatch, RetireAssembly, RetireSchema, RetireTransform, KeepHints, ItemsNamed, InstallAssembly,
      InstallSchema, EnqueueAck, ReplayAck, CacheAll, Promote, Unresolved;
    if input.Dispatch? {
      HintsAfterDispatch(env, m, input);
    }
  }

  lemma HintsAfterDispatch(env: Env, m: Mem, input: Input)
    requires input.Dispatch?
    ensures Apply(env, m, input).mem.hints ==
            if Apply(env, m, input).ok then m.hints + input.payload.hints else m.hints
  {
    hide Stage, DispatchBody, EnqueueAll, DispatchAcks, Promote, RemoveAssemblies, RemoveSchemas;
    if Staging(input) {
      StageShape(env, m, input.payload);
      var s := Stage(env, m, input.payload);
      UnstageHints(m.hints, s.hints);
      if Apply(env, m, input).ok {
        CompleteListsAll(env, m, input.payload);
      }
    }
  }

  lemma {:induction false} KeptHintsInOrder(a: seq<EpisodeHint>, b: seq<EpisodeHint>, objectId: string)
    ensures KeepHints(a + b, objectId) == KeepHints(a, objectId) + KeepHints(b, objectId)
  {
    hide Dec;
    if b == [] {
      assert a + b == a;
    } else {
      var shorter := b[..|b| - 1];
      assert (a + b)[..|a + b| - 1] == a + shorter;
      KeptHintsInOrder(a, shorter, objectId);
    }
  }

  lemma {:induction false} KeptSchemasInOrder(a: seq<SchemaDef>, b: seq<SchemaDef>, ids: set<U64>)
    ensures KeepSchemas(a + b, ids) == KeepSchemas(a, ids) + KeepSchemas(b, ids)
  {
    if b == [] {
      assert a + b == a;
    } else {
      var shorter := b[..|b| - 1];
      assert (a + b)[..|a + b| - 1] == a + shorter;
      KeptSchemasInOrder(a, shorter, ids);
    }
  }

  lemma {:induction false} KeptAssembliesInOrder(a: seq<Assembly>, b: seq<Assembly>, ids: set<U64>)
    ensures KeepAssemblies(a + b, ids) == KeepAssemblies(a, ids) + KeepAssemblies(b, ids)
  {
    if b == [] {
      assert a + b == a;
    } else {
      var shorter := b[..|b| - 1];
      assert (a + b)[..|a + b| - 1] == a + shorter;
      KeptAssembliesInOrder(a, shorter, ids);
    }
  }

  lemma {:induction false} UnresolvedInOrder(catalog: Catalog, cache: set<U64>, a: seq<RepairRequest>,
          b: seq<RepairRequest>)
    ensures Unresolved(catalog, cache, a + b) == Unresolved(catalog, cache, a) + Unresolved(catalog, cache, b)
  {
    hide IsResolved;
    if b == [] {
      assert a + b == a;
    } else {
      var shorter := b[..|b| - 1];
      assert (a + b)[..|a + b| - 1] == a + shorter;
      UnresolvedInOrder(catalog, cache, a, shorter);
    }
  }

  // ---- The queue of acks ----

  lemma {:induction false} EnqueuedBehind(acks: seq<Ack>, more: seq<Ack>)
    ensures acks <= EnqueueAll(acks, more)
    ensures NoDuplicates(more) && (forall ack :: ack in more ==> ack !in acks) ==> EnqueueAll(acks, more) == acks + more
    decreases |more|
  {
    if more == [] {
      assert acks + more == acks;
    } else {
      EnqueuedBehind(EnqueueAck(acks, more[0]), more[1..]);
      assert acks <= EnqueueAck(acks, more[0]);
      if NoDuplicates(more) && forall ack :: ack in more ==> ack !in acks {
        assert more[0] in more;
        forall ack | ack in more[1..] ensures ack in more && ack !in acks + [more[0]] {
        }
        assert acks + more == acks + [more[0]] + more[1..];
      }
    }
  }

  /** The acks of a dispatch: its assemblies, its schemas, its dictionaries, each in its order. */
  lemma DispatchAcksAt(p: Payload, t: RecordType, n: nat, i: nat)
    requires i < |DispatchAcks(p, t, n)|
    ensures |DispatchAcks(p, t, n)| == |p.assemblies| + |p.schemas| + |p.dictionaries|
    ensures var ack, a, s := DispatchAcks(p, t, n)[i], |p.assemblies|, |p.assemblies| + |p.schemas|;
            if i < a then ack == Ack(AssemblyPlane, AssemblyObject, "assembly:" + Dec(p.assemblies[i].id), t, n)
            else if i < s then ack == Ack(SchemaPlane, SchemaObject, "schema:" + Dec(p.schemas[i - a].schemaId), t, n)
            else
              ack == Ack(AtomSubstratePlane, DictionaryObject, "dictionary:" + Dec(p.dictionaries[i - s].id), t, n)
  {
    hide Dec;
  }

  /** The ack a record adds to the queue, apart from those of a dispatch. */
  ghost predicate Acks(input: Input, ack: Ack) {
    match input
    case Replay(seqNo, hint) =>
      ack == Ack(EpisodePlane, ReplayHintObject, "replay:" + Dec(hint.contextHash), RecordType.ReplayHint, seqNo)
    case Retire(seqNo, plane, kind, objectId) => ack == Ack(plane, kind, objectId, MemoryRetire, seqNo)
    case _ => false
  }

  /** The queue of acks: a resync empties it, otherwise what was pending stays in front in its order, and
      behind it come the acks of the record, those that were not pending yet. */
  lemma AcksAfter(env: Env, m: Mem, input: Input, ack: Ack)
    ensures var r := Apply(env, m, input);
            if input.FullResync? || input.PlaneResync? then r.mem.acks == []
            else
              && m.acks <= r.mem.acks
              && (ack in r.mem.acks <==>
                    || ack in m.acks || Acks(input, ack)
                    || (input.Dispatch? && r.ok && ack in DispatchAcks(input.payload, input.recordType, input.seqNo)))
  {
    hide ApplyDispatch, DispatchAcks, RetireObject, ResyncPlane, Materialize, Prune, CacheAll, Dec;
    if input.Dispatch? {
      if IsPredictive(input.recordType) {
        var Dispatch(recordType, item, seqNo, p) := input;
        DispatchAcksOnly(env, m, recordType, item, seqNo, p, ack);
        DispatchAcksBehind(env, m, recordType, item, seqNo, p);
      }
    } else {
      OtherAcks(env, m, input);
    }
    hide Apply;
  }

  lemma DispatchAcksBehind(env: Env, m: Mem, recordType: RecordType, item: U64, seqNo: nat, p: Payload)
    ensures m.acks <= ApplyDispatch(env, m, recordType, item, seqNo, p).mem.acks
  {
    EnqueuedBehind(m.acks, DispatchAcks(p, recordType, seqNo));
    hide EnqueueAll, DispatchAcks, DispatchBody, Promote, Installable, StageAssemblies, StageSchemas,
      StageDictionaries, RemoveAssemblies, RemoveSchemas;
  }

  /** The queue of repair requests: what a record asks comes last and once; a pruning leaves those not
      answered, in their order. */
  lemma RepairsAfter(env: Env, m: Mem, input: Input)
    ensures var after := Apply(env, m, input).mem;
            if Prunes(env, m, input) then after.repairs == Unresolved(after.catalog, after.items.cache.Keys, m.repairs)
            else if input.RepairAsked? && input.request !in m.repairs then after.repairs == m.repairs + [input.request]
            else after.repairs == m.repairs
  {
    hide ApplyDispatch, RetireAssembly, RetireSchema, RetireTransform, KeepHints, InstallAssembly, InstallSchema,
      ItemsNamed, EnqueueAck, ReplayAck, CacheAll, Promote, Unresolved;
    if input.Dispatch? {
      DispatchLeavesRepairs(env, m, input);
    }
  }

  // ---- What is known of the installed definitions ----

  /** The version kept beside an assembly and the head kept beside a schema say what the definition says. */
  lemma InstalledDescribed(env: Env, m: Mem, id: U64)
    requires Inv(env, m)
    ensures id in m.asm.assemblies ==>
              var a := m.asm.assemblies[id];
              && id in m.asm.sync && m.asm.sync[id].revision == a.revision && m.asm.sync[id].outputLen == a.bodyLen
              && m.asm.sync[id].bodyShapeHash == env.shapeHash(a.body)
              && m.asm.sync[id].dependencyFingerprint == env.fingerprint(a.dependencies)
    ensures id in m.sch.payloads ==>
              var def := m.sch.payloads[id];
              && id in m.sch.heads && m.sch.heads[id].id == id
              && m.sch.heads[id].revision == def.revision && m.sch.heads[id].outputLen == def.outputLen
  {
    hide LogAgrees, IndexAgrees, CacheAgrees, NoDuplicates, LastSchemas;
  }

  // ---- What a repair request waits for ----

  const MISSING := "missing prior state "

  /** The text of a request for the prior states of some items. */
  function MissingText(items: seq<U64>): string
    requires items != []
  {
    if |items| == 1 then MISSING + Dec(items[0]) else MISSING + Dec(items[0]) + ", " + MissingText(items[1..])
  }

  function PartTexts(items: seq<U64>): seq<string> {
    seq(|items|, i requires 0 <= i < |items| => MISSING + Dec(items[i]))
  }

  lemma {:induction false} CutPlain(part: string)
    requires forall k :: 0 <= k < |part| ==> part[k] != ','
    ensures CutAtComma(part) == (part, None)
  {
    if part != [] {
      CutPlain(part[1..]);
      assert part == [part[0]] + part[1..];
    }
  }

  lemma {:induction false} CutFirst(part: string, rest: string)
    requires forall k :: 0 <= k < |part| ==> part[k] != ','
    ensures CutAtComma(part + ", " + rest) == (part, Some(rest))
  {
    var s := part + ", " + rest;
    if part == [] {
      assert ", " <= s && s[2..] == rest;
    } else {
      CutFirst(part[1..], rest);
      assert s[1..] == part[1..] + ", " + rest && s[0] == part[0];
      assert part == [part[0]] + part[1..];
    }
  }

  lemma NoComma(id: U64)
    ensures var part := MISSING + Dec(id); forall k :: 0 <= k < |part| ==> part[k] != ','
  {
  }

  lemma {:induction false} SplitMissing(items: seq<U64>)
    requires items != []
    ensures SplitAtCommas(MissingText(items)) == PartTexts(items)
  {
    hide Dec, CutAtComma;
    NoComma(items[0]);
    if |items| == 1 {
      CutPlain(MISSING + Dec(items[0]));
    } else {
      CutFirst(MISSING + Dec(items[0]), MissingText(items[1..]));
      SplitMissing(items[1..]);
      assert PartTexts(items) == [MISSING + Dec(items[0])] + PartTexts(items[1..]);
    }
  }

  /** A request that misses prior states is answered exactly when all the items it names are cached. */
  lemma MissingIsResolved(catalog: Catalog, cache: set<U64>, request: RepairRequest, items: seq<U64>)
    requires items != [] && request.cause == UnsupportedStateReference(MissingText(items))
    ensures IsResolved(catalog, cache, request) <==> forall id :: id in items ==> id in cache
  {
    hide Dec, ParseName, SplitAtCommas, MissingText;
    SplitMissing(items);
    forall i | 0 <= i < |items| ensures StillMissing(cache, PartTexts(items)[i]) <==> items[i] !in cache {
      assert PartTexts(items)[i] == Name(MISSING, items[i]);
      ParseNameOfName(MISSING, items[i]);
    }
    if forall id :: id in items ==> id in cache {
      forall i | 0 <= i < |items| ensures !StillMissing(cache, PartTexts(items)[i]) {
        assert items[i] in items;
      }
    } else {
      var i :| 0 <= i < |items| && items[i] !in cache;
      assert StillMissing(cache, PartTexts(items)[i]);
    }
  }

  /** A request for a basis, or after a version mismatch, is answered exactly when every block and every
      bundle it names is in the catalog. */
  lemma BasisIsResolved(catalog: Catalog, cache: set<U64>, request: RepairRequest)
    requires !request.cause.UnsupportedStateReference?
    ensures IsResolved(catalog, cache, request) <==>
            && (forall block :: block in request.missingBlocks ==> block in catalog.blocks)
            && (forall bundle :: bundle in request.missingBundles ==> bundle in catalog.bundles)
  {
  }

  /** A pending request for one item's prior state is dropped by the received item that caches it, and
      is kept by every record after which the item is not cached. */
  lemma MissingWaitsForItem(env: Env, m: Mem, input: Input, request: RepairRequest, id: U64)
    requires request in m.repairs && request.cause == UnsupportedStateReference(MissingText([id]))
    ensures input.ExactData? && input.item == id && Apply(env, m, input).ok ==>
              request !in Apply(env, m, input).mem.repairs
    ensures id !in Apply(env, m, input).mem.items.cache ==> request in Apply(env, m, input).mem.repairs
  {
    hide MissingText, IsResolved, Materialize, Promote, Prune;
    RepairFollowsFate(env, m, input, request);
    var after := Apply(env, m, input).mem;
    MissingIsResolved(after.catalog, after.items.cache.Keys, request, [id]);
    if input.ExactData? && input.item == id && Apply(env, m, input).ok {
      ReceivedIsCached(env, m, id, input.raw);
    }
    hide Apply;
  }

  lemma ReceivedIsCached(env: Env, m: Mem, id: U64, raw: nat)
    requires Apply(env, m, ExactData(id, raw)).ok
    ensures id in Apply(env, m, ExactData(id, raw)).mem.items.cache
  {
    hide Unresolved, Promote;
  }
}
