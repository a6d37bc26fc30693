/** Whole runs of records: the invariant, and where every pending ack comes from. */
module MemoryRuns {
  import opened Bytes
  import opened Wire
  import opened Ids
  import opened Graph
  import opened Memory
  import opened MemoryInvariant
  import opened DispatchProofs

  /** A record arrives, or the caller takes acks or repair requests out of their queues. */
  datatype Event = Arrives(input: Input) | TakeAcks | PopAck | TakeRepairs | PopRepair

  function Step(env: Env, m: Mem, event: Event): Mem {
    match event
    case Arrives(input) => Apply(env, m, input).mem
    case TakeAcks => m.(acks := [])
    case PopAck => if m.acks == [] then m else m.(acks := m.acks[1..])
    case TakeRepairs => m.(repairs := [])
    case PopRepair => if m.repairs == [] then m else m.(repairs := m.repairs[1..])
  }

  /** The state after a run; a record that fails does not end the run. */
  function Run(env: Env, events: seq<Event>): Mem {
    if events == [] then EMPTY else Step(env, Run(env, events[..|events| - 1]), events[|events| - 1])
  }

  lemma TailNoDuplicates<T>(s: seq<T>)
    requires s != [] && NoDuplicates(s)
    ensures NoDuplicates(s[1..])
  {
    forall i, j | 0 <= i < j < |s[1..]| ensures s[1..][i] != s[1..][j] {
      assert s[1..][i] == s[i + 1] && s[1..][j] == s[j + 1];
    }
  }

  lemma StepKeepsInv(env: Env, m: Mem, event: Event)
    requires Inv(env, m)
    ensures Inv(env, Step(env, m, event))
  {
    hide AssembliesAgree, SchemasAgree, Apply;
    match event
    case Arrives(input) => ApplyKeepsInv(env, m, input);
    case PopAck =>
      if m.acks != [] {
        TailNoDuplicates(m.acks);
      }
    case PopRepair =>
      if m.repairs != [] {
        TailNoDuplicates(m.repairs);
      }
    case _ =>
  }

  /** Over every run the stores agree, transforms have classes and acks do not repeat. */
  lemma {:induction false} RunKeepsInv(env: Env, events: seq<Event>)
    ensures Inv(env, Run(env, events))
  {
    hide Inv, Step;
    if events == [] {
      EmptyInv(env);
    } else {
      RunKeepsInv(env, events[..|events| - 1]);
      StepKeepsInv(env, Run(env, events[..|events| - 1]), events[|events| - 1]);
    }
  }

  // ---- Acks ----

  predicate IsPredictive(t: RecordType) {
    t == PredictiveConfirm || t == PredictiveCorrect
  }

  predicate IsResync(event: Event) {
    event.Arrives? && (event.input.FullResync? || event.input.PlaneResync?)
  }

  /** The object an ack names is in its store. */
  predicate Installed(m: Mem, ack: Ack) {
    Check(m, Dependency(ack.kind, ack.objectId, 0)) == Available
  }

  /** Event `i` is a dispatch of the acked type and number that succeeded, carried
      the acked definition, and left it installed. */
  ghost predicate Produced(env: Env, events: seq<Event>, i: nat, ack: Ack)
    requires i < |events|
  {
    && events[i].Arrives? && events[i].input.Dispatch?
    && events[i].input.recordType == ack.recordType
    && events[i].input.seqNo == ack.seqNo
    && ack in DispatchAcks(events[i].input.payload, ack.recordType, ack.seqNo)
    && Apply(env, Run(env, events[..i]), events[i].input).ok
    && Installed(Run(env, events[..i + 1]), ack)
  }

  /** ... and no resync came after it. */
  ghost predicate Justified(env: Env, events: seq<Event>, ack: Ack) {
    exists i :: 0 <= i < |events| && Produced(env, events, i, ack) &&
                forall j :: i < j < |events| ==> !IsResync(events[j])
  }

  lemma {:induction false} EnqueueAllMembers(acks: seq<Ack>, more: seq<Ack>, ack: Ack)
    ensures ack in EnqueueAll(acks, more) <==> ack in acks || ack in more
    decreases |more|
  {
    if more != [] {
      EnqueueAllMembers(EnqueueAck(acks, more[0]), more[1..], ack);
      assert more == [more[0]] + more[1..];
    }
  }

  lemma {:induction false} SchemaRevisionPresent(defs: seq<SchemaDef>, i: nat)
    requires i < |defs|
    ensures defs[i].schemaId in SchemaRevisions(defs)
  {
    if i < |defs| - 1 {
      SchemaRevisionPresent(defs[..|defs| - 1], i);
    }
  }

  lemma {:induction false} AssemblyRevisionPresent(defs: seq<Assembly>, i: nat)
    requires i < |defs|
    ensures defs[i].id in AssemblyRevisions(defs)
  {
    if i < |defs| - 1 {
      AssemblyRevisionPresent(defs[..|defs| - 1], i);
    }
  }

  lemma {:induction false} DictionaryRevisionPresent(defs: seq<Dictionary>, i: nat)
    requires i < |defs|
    ensures defs[i].id in DictionaryRevisions(defs)
  {
    if i < |defs| - 1 {
      DictionaryRevisionPresent(defs[..|defs| - 1], i);
    }
  }

  /** What an ack of a dispatch names. */
  lemma AckSource(p: Payload, recordType: RecordType, seqNo: nat, ack: Ack)
    requires ack in DispatchAcks(p, recordType, seqNo)
    ensures ack.recordType == recordType && ack.seqNo == seqNo
    ensures || (ack.kind == AssemblyObject &&
                exists i :: 0 <= i < |p.assemblies| && ack.objectId == AssemblyName(p.assemblies[i].id))
            || (ack.kind == SchemaObject &&
                exists i :: 0 <= i < |p.schemas| && ack.objectId == Name("schema:", p.schemas[i].schemaId))
            || (ack.kind == DictionaryObject &&
                exists i :: 0 <= i < |p.dictionaries| && ack.objectId == Name("dictionary:", p.dictionaries[i].id))
  {
    hide AssemblyName, Name;
  }

  /** A canonical name is installed exactly when its id is in the store. */
  lemma InstalledByName(m: Mem, id: U64)
    ensures Check(m, Dependency(AssemblyObject, AssemblyName(id), 0)) == Available <==> id in m.asm.assemblies
    ensures Check(m, Dependency(SchemaObject, Name("schema:", id), 0)) == Available <==> id in m.sch.payloads
    ensures Check(m, Dependency(DictionaryObject, Name("dictionary:", id), 0)) == Available <==> id in m.dictionaries
  {
    ParseNameOfName("assembly:", id);
    ParseNameOfName("schema:", id);
    ParseNameOfName("dictionary:", id);
    hide ParseName, Name;
  }

  /** Every ack of a completely staged dispatch names something its staging installed. */
  lemma StagedAckInstalled(env: Env, m: Mem, p: Payload, recordType: RecordType, seqNo: nat, ack: Ack)
    requires Stage(env, m, p).complete
    requires ack in DispatchAcks(p, recordType, seqNo)
    ensures Installed(Stage(env, m, p).mem, ack)
  {
    var s := Stage(env, m, p).mem;
    hide Stage, AssemblyRevisions, SchemaRevisions, DictionaryRevisions, Name, AssemblyName, DispatchAcks, Check;
    StageHasRevisions(env, m, p);
    AckSource(p, recordType, seqNo, ack);
    if ack.kind == AssemblyObject {
      var i :| 0 <= i < |p.assemblies| && ack.objectId == AssemblyName(p.assemblies[i].id);
      AssemblyRevisionPresent(p.assemblies, i);
      InstalledByName(s, p.assemblies[i].id);
    } else if ack.kind == SchemaObject {
      var i :| 0 <= i < |p.schemas| && ack.objectId == Name("schema:", p.schemas[i].schemaId);
      SchemaRevisionPresent(p.schemas, i);
      InstalledByName(s, p.schemas[i].schemaId);
    } else {
      var i :| 0 <= i < |p.dictionaries| && ack.objectId == Name("dictionary:", p.dictionaries[i].id);
      DictionaryRevisionPresent(p.dictionaries, i);
      InstalledByName(s, p.dictionaries[i].id);
    }
  }

  lemma CheckFrame(a: Mem, b: Mem, d: Dependency)
    requires d.kind in {AssemblyObject, SchemaObject, DictionaryObject}
    requires a.asm == b.asm && a.sch == b.sch && a.dictionaries == b.dictionaries
    ensures Check(a, d) == Check(b, d)
  {
    hide ParseName;
  }

  /** Committing keeps what staging installed. */
  lemma CommittedAckInstalled(env: Env, m: Mem, recordType: RecordType, item: U64, seqNo: nat, p: Payload, ack: Ack)
    requires ApplyDispatch(env, m, recordType, item, seqNo, p).ok
    requires ack in DispatchAcks(p, recordType, seqNo)
    ensures Installed(ApplyDispatch(env, m, recordType, item, seqNo, p).mem, ack)
  {
    hide Stage, EnqueueAll, DispatchAcks, Promote, DispatchBody, Check;
    AckSource(p, recordType, seqNo, ack);
    StagedAckInstalled(env, m, p, recordType, seqNo, ack);
    var after := ApplyDispatch(env, m, recordType, item, seqNo, p).mem;
    CheckFrame(Stage(env, m, p).mem, after, Dependency(ack.kind, ack.objectId, 0));
  }

  /** The acks after one dispatch: on failure the old ones, on success also its own. */
  lemma DispatchAcksOnly(env: Env, m: Mem, recordType: RecordType, item: U64, seqNo: nat, p: Payload, ack: Ack)
    ensures var r := ApplyDispatch(env, m, recordType, item, seqNo, p);
            && (!r.ok ==> r.mem.acks == m.acks)
            && (r.ok ==> (ack in r.mem.acks <==> ack in m.acks || ack in DispatchAcks(p, recordType, seqNo)))
  {
    EnqueueAllMembers(m.acks, DispatchAcks(p, recordType, seqNo), ack);
    hide EnqueueAll, DispatchAcks, DispatchBody, Promote, Installable, StageAssemblies, StageSchemas,
      StageDictionaries, RemoveAssemblies, RemoveSchemas;
  }

  lemma DispatchAckStep(env: Env, m: Mem, input: Input, ack: Ack)
    requires input.Dispatch? && ack in Apply(env, m, input).mem.acks
    ensures ack in m.acks
            || ( && Apply(env, m, input).ok && input.recordType == ack.recordType && input.seqNo == ack.seqNo
                 && ack in DispatchAcks(input.payload, ack.recordType, ack.seqNo))
  {
    hide ApplyDispatch, DispatchAcks;
    var Dispatch(recordType, item, seqNo, p) := input;
    if IsPredictive(recordType) {
      DispatchAcksOnly(env, m, recordType, item, seqNo, p, ack);
      if ack !in m.acks {
        AckSource(p, recordType, seqNo, ack);
      }
    }
  }

  /** Apart from dispatches, only retirements and replay hints add acks. */
  lemma OtherAcks(env: Env, m: Mem, input: Input)
    requires !input.Dispatch?
    ensures Apply(env, m, input).mem.acks ==
            match input
            case Replay(seqNo, hint) => EnqueueAck(m.acks, ReplayAck(seqNo, hint))
            case Retire(seqNo, plane, kind, objectId) =>
              EnqueueAck(m.acks, Ack(plane, kind, objectId, MemoryRetire, seqNo))
            case FullResync => []
            case PlaneResync(_, _) => []
            case _ => m.acks
  {
    hide EnqueueAck, ReplayAck, InstallAssembly, InstallSchema, RetireAssembly, RetireSchema, RetireTransform,
      RemoveItems, KeepHints, ItemsNamed, Promote, CacheAll, ApplyDispatch;
  }

  /** The acks one event can add that speak of a predictive record. */
  lemma PredictiveAckStep(env: Env, m: Mem, event: Event, ack: Ack)
    requires IsPredictive(ack.recordType) && ack in Step(env, m, event).acks
    ensures !IsResync(event)
    ensures ack in m.acks
            || ( && event.Arrives? && event.input.Dispatch? && Apply(env, m, event.input).ok
                 && event.input.recordType == ack.recordType && event.input.seqNo == ack.seqNo
                 && ack in DispatchAcks(event.input.payload, ack.recordType, ack.seqNo))
  {
    match event
    case Arrives(input) =>
      if input.Dispatch? {
        DispatchAckStep(env, m, input, ack);
      } else {
        OtherAcks(env, m, input);
      }
      hide Apply, Name, DispatchAcks;
    case PopAck =>
      assert m.acks == [] || m.acks == [m.acks[0]] + m.acks[1..];
    case _ =>
  }

  /** Over every run, each pending ack of a predictive record was produced by a
      dispatch of that type and number that succeeded and installed the object,
      after the last resync. */
  lemma {:induction false} PendingAcksJustified(env: Env, events: seq<Event>, ack: Ack)
    requires ack in Run(env, events).acks && IsPredictive(ack.recordType)
    ensures Justified(env, events, ack)
  {
    if events != [] {
      var before := events[..|events| - 1];
      var m := Run(env, before);
      PredictiveAckStep(env, m, events[|events| - 1], ack);
      hide DispatchAcks, Apply, Step, Produced;
      if ack in m.acks {
        PendingAcksJustified(env, before, ack);
        var i :| 0 <= i < |before| && Produced(env, before, i, ack) &&
                 forall j :: i < j < |before| ==> !IsResync(before[j]);
        JustifiedLonger(env, events, before, i, ack);
      } else {
        NewlyJustified(env, events, ack);
      }
    }
  }

  lemma JustifiedLonger(env: Env, events: seq<Event>, before: seq<Event>, i: nat, ack: Ack)
    requires events != [] && before == events[..|events| - 1] && !IsResync(events[|events| - 1])
    requires i < |before| && Produced(env, before, i, ack)
    requires forall j :: i < j < |before| ==> !IsResync(before[j])
    ensures Justified(env, events, ack)
  {
    hide Run, Apply, DispatchAcks, Installed;
    assert before[i] == events[i] && before[..i] == events[..i] && before[..i + 1] == events[..i + 1];
    assert Produced(env, events, i, ack);
    forall j | i < j < |events| ensures !IsResync(events[j]) {
      if j < |before| {
        assert before[j] == events[j];
      }
    }
  }

  lemma NewlyJustified(env: Env, events: seq<Event>, ack: Ack)
    requires events != []
    requires var event := events[|events| - 1];
             var m := Run(env, events[..|events| - 1]);
             && IsPredictive(ack.recordType)
             && event.Arrives? && event.input.Dispatch? && Apply(env, m, event.input).ok
             && event.input.recordType == ack.recordType && event.input.seqNo == ack.seqNo
             && ack in DispatchAcks(event.input.payload, ack.recordType, ack.seqNo)
    ensures Justified(env, events, ack)
  {
    var i := |events| - 1;
    var m, input := Run(env, events[..i]), events[i].input;
    assert events[..i + 1] == events;
    hide ApplyDispatch, DispatchAcks, Installed;
    CommittedAckInstalled(env, m, input.recordType, input.item, input.seqNo, input.payload, ack);
    assert Run(env, events) == ApplyDispatch(env, m, input.recordType, input.item, input.seqNo, input.payload).mem;
    hide Run;
    assert Produced(env, events, i, ack);
  }

  // ---- Names that are acked and names that retire ----

  lemma DecHasNoColon(id: U64, s: string, i: nat)
    requires i < |s| && s[i] == ':'
    ensures Dec(id) != s
  {
  }

  lemma NothingBare(keys: set<U64>, name: string, i: nat)
    requires i < |name| && name[i] == ':'
    ensures NamedBare(keys, name) == {}
  {
    forall id | id in keys ensures Dec(id) != name {
      DecHasNoColon(id, name, i);
    }
    hide Dec;
  }

  /** Retiring an object under the name its install was acked with works for an assembly ... */
  lemma AckedNameRetiresAssembly(m: Mem, id: U64)
    ensures id !in RetireObject(m, AssemblyPlane, AssemblyName(id)).asm.assemblies
  {
    assert "assembly" + [':'] == "assembly:";
    ParseLastOfName("assembly", id);
    hide Name, ParseLast, KeepAssemblies;
  }

  /** ... but does nothing for a schema, which only its bare digits retire. */
  lemma AckedNameKeepsSchema(m: Mem, id: U64)
    ensures RetireObject(m, SchemaPlane, Name("schema:", id)) == m
    ensures id !in RetireObject(m, SchemaPlane, Dec(id)).sch.payloads
  {
    var name := Name("schema:", id);
    assert name[6] == ':';
    NothingBare(m.sch.payloads.Keys, name, 6);
    NothingBare(m.sch.heads.Keys, name, 6);
    NothingBare(LoggedIds(m.sch.defs), name, 6);
    KeepAllSchemas(m.sch.defs, {});
    MinusExact(m.sch.payloads, {});
    MinusExact(m.sch.heads, {});
    hide Name, Dec, KeepSchemas, LoggedIds;
  }

  /** ... and a dictionary's acked name, on the plane it was acked for, retires no dictionary but
      drops the cached item that happens to have its number. */
  lemma AckedNameKeepsDictionary(m: Mem, id: U64)
    ensures var after := RetireObject(m, AtomSubstratePlane, Name("dictionary:", id));
            after.dictionaries == m.dictionaries && after.items == RemoveItems(m.items, {id})
  {
    var name := Name("dictionary:", id);
    ParseNameOfName("dictionary:", id);
    assert name[0] == 'd' && "dictionary:" <= name;
    assert !("block:" <= name) && !("bundle:" <= name) && !("assembly:" <= name) && !("schema:" <= name) &&
           !("transform:" <= name) by {
      assert "block:"[0] == 'b' && "bundle:"[0] == 'b' && "assembly:"[0] == 'a' && "schema:"[0] == 's';
      assert "transform:"[0] == 't';
    }
    assert ParseItemId(name) == Some(id);
    hide Name, ParseItemId, ParseName;
  }

  // ---- What a substrate resync leaves behind ----

  lemma TwoEvents(env: Env, first: Event, second: Event)
    ensures Run(env, [first]) == Step(env, EMPTY, first)
    ensures Run(env, [first, second]) == Step(env, Step(env, EMPTY, first), second)
  {
    hide Step;
    assert [first][..0] == [] && [first, second][..1] == [first];
  }

  /** The predictor of a received item outlives its cache entry. */
  lemma PredictorsSurvive(env: Env, item: U64, raw: nat)
    requires env.decodeData(EMPTY, item, raw).Some?
    ensures var m := Run(env, [Arrives(ExactData(item, raw)), Arrives(PlaneResync(AtomSubstratePlane, false))]);
            item in m.items.predictors && item !in m.items.cache
  {
    TwoEvents(env, Arrives(ExactData(item, raw)), Arrives(PlaneResync(AtomSubstratePlane, false)));
    hide Run, Promote, Unresolved;
  }

  /** A repair request outlives every resync. */
  lemma RepairsSurvive(env: Env, request: RepairRequest, plane: MemoryPlane, resetPredictors: bool)
    ensures Run(env, [Arrives(RepairAsked(request)), Arrives(PlaneResync(plane, resetPredictors))]).repairs == [request]
    ensures Run(env, [Arrives(RepairAsked(request)), Arrives(FullResync)]).repairs == [request]
  {
    TwoEvents(env, Arrives(RepairAsked(request)), Arrives(PlaneResync(plane, resetPredictors)));
    TwoEvents(env, Arrives(RepairAsked(request)), Arrives(FullResync));
    hide Run;
  }
}
