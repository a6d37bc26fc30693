/** When a dependency is available, what the check answers otherwise, and so exactly when a
    predictive dispatch succeeds. */
module Dependencies {
  import opened Bytes
  import opened Wire
  import opened Ids
  import opened Graph
  import opened Memory
  import opened MemoryInvariant
  import opened DispatchProofs
  import opened MemoryFates

  /** The object id is the prefix and a decimal id. */
  predicate Denotes(objectId: string, prefix: string, id: U64) {
    prefix <= objectId && ParseU64(objectId[|prefix|..]) == Some(id)
  }

  ghost predicate DenotesIn(objectId: string, prefix: string, ids: set<U64>) {
    exists id :: Denotes(objectId, prefix, id) && id in ids
  }

  ghost predicate HintHeld(hints: seq<EpisodeHint>, objectId: string) {
    exists hint :: hint in hints && objectId == Dec(hint.contextHash)
  }

  /** The canonical prefixes a sparse cue may be named by. */
  const CUE_PREFIXES := {"block:", "bundle:", "assembly:", "schema:", "transform:", "dictionary:"}

  ghost predicate CueNames(objectId: string, id: U64) {
    exists prefix :: prefix in CUE_PREFIXES && Denotes(objectId, prefix, id)
  }

  predicate HasRevisions(kind: ObjectKind) {
    kind == AssemblyObject || kind == SchemaObject || kind == DictionaryObject
  }

  /** The revision the client holds of the definition. */
  function HeldRevision(m: Mem, kind: ObjectKind, id: U64): Option<nat> {
    if kind == AssemblyObject && id in m.asm.assemblies then Some(m.asm.assemblies[id].revision)
    else if kind == SchemaObject && id in m.sch.payloads then Some(m.sch.payloads[id].revision)
    else if kind == DictionaryObject && id in m.dictionaries then Some(m.dictionaries[id].revision)
    else None
  }

  function PrefixOf(kind: ObjectKind): string {
    match kind
    case AssemblyObject => "assembly:"
    case SchemaObject => "schema:"
    case DictionaryObject => "dictionary:"
    case TransformObject => "transform:"
    case _ => ""
  }

  predicate AtLeastAt(held: Option<nat>, required: nat) {
    held.Some? && required <= held.value
  }

  /** The client holds what the dependency asks for, in the revision asked for or a later one. */
  ghost predicate Met(m: Mem, d: Dependency) {
    match d.kind
    case AssemblyObject | SchemaObject | DictionaryObject =>
      exists id ::
        Denotes(d.objectId, PrefixOf(d.kind), id) && AtLeastAt(HeldRevision(m, d.kind, id), d.requiredRevision)
    case TransformObject =>
      if d.requiredRevision > 0 then DenotesIn(d.objectId, "transform:", m.tx.classes.Keys)
      else DenotesIn(d.objectId, "transform:", m.tx.materialized.Keys)
    case ExactBlockObject => DenotesIn(d.objectId, "block:", m.catalog.blocks.Keys)
    case ExactRangeObject => DenotesIn(d.objectId, "range:", m.catalog.blocks.Keys)
    case ExactBundleObject => DenotesIn(d.objectId, "bundle:", m.catalog.bundles)
    case ExactStateObject | AtomFragmentObject | PredictiveObject | SourceDescriptorObject | ResidualBufferObject =>
      DenotesIn(d.objectId, "item:", m.items.cache.Keys)
    case EpisodeHintObject | ReplayHintObject => HintHeld(m.hints, d.objectId)
    case SparseCueObject =>
      if exists id :: CueNames(d.objectId, id) then
        exists id ::
          CueNames(d.objectId, id) &&
          (id in m.items.cache || id in m.items.predictors || id in m.items.bindings)
      else HintHeld(m.hints, d.objectId)
  }

  lemma ParseIsDenotes(objectId: string, prefix: string, id: U64)
    ensures ParseName(objectId, prefix) == Some(id) <==> Denotes(objectId, prefix, id)
  {
  }

  /** No two of the canonical prefixes fit one object id. */
  lemma OnePrefix(objectId: string, a: string, b: string)
    requires a in CUE_PREFIXES && b in CUE_PREFIXES && a <= objectId && b <= objectId
    ensures a == b
  {
    assert a[0] == objectId[0] == b[0] && a[1] == objectId[1] == b[1];
  }

  lemma CueIsParsed(objectId: string, id: U64)
    ensures ParseItemId(objectId) == Some(id) <==> CueNames(objectId, id)
  {
    hide ParseU64;
    if prefix :| prefix in CUE_PREFIXES && Denotes(objectId, prefix, id) {
      forall other | other in CUE_PREFIXES && other <= objectId ensures other == prefix {
        OnePrefix(objectId, prefix, other);
      }
    }
    forall prefix ensures ParseName(objectId, prefix) == Some(id) <==> Denotes(objectId, prefix, id) {
      ParseIsDenotes(objectId, prefix, id);
    }
  }

  lemma HintIsHeld(hints: seq<EpisodeHint>, objectId: string)
    ensures HintNamed(hints, objectId) <==> HintHeld(hints, objectId)
  {
    hide Dec;
    if hint :| hint in hints && objectId == Dec(hint.contextHash) {
      var i :| 0 <= i < |hints| && hints[i] == hint;
    }
  }

  lemma RevisionIsMet(env: Env, m: Mem, d: Dependency)
    requires Inv(env, m) && HasRevisions(d.kind)
    ensures Check(m, d) == Available <==> Met(m, d)
  {
    hide LogAgrees, IndexAgrees, CacheAgrees, SchemasAgree, TransformsAgree, NoDuplicates, ParseName, Denotes,
      ParseItemId, CueNames, HintNamed, HintHeld;
    forall id: U64
      ensures ParseName(d.objectId, PrefixOf(d.kind)) == Some(id) <==> Denotes(d.objectId, PrefixOf(d.kind), id)
    {
      ParseIsDenotes(d.objectId, PrefixOf(d.kind), id);
    }
    var id := ParseName(d.objectId, PrefixOf(d.kind));
    if id.Some? {
      assert Denotes(d.objectId, PrefixOf(d.kind), id.value);
    }
  }

  lemma PresenceIsMet(m: Mem, d: Dependency)
    requires !HasRevisions(d.kind)
    ensures Check(m, d) == Available <==> Met(m, d)
  {
    hide ParseName, Denotes, ParseItemId, CueNames, HintNamed, HintHeld;
    forall prefix, id: U64 ensures ParseName(d.objectId, prefix) == Some(id) <==> Denotes(d.objectId, prefix, id) {
      ParseIsDenotes(d.objectId, prefix, id);
    }
    forall id: U64 ensures ParseItemId(d.objectId) == Some(id) <==> CueNames(d.objectId, id) {
      CueIsParsed(d.objectId, id);
    }
    HintIsHeld(m.hints, d.objectId);
  }

  /** The check answers `Available` exactly when the client holds what is asked for. */
  lemma CheckedIsMet(env: Env, m: Mem, d: Dependency)
    requires Inv(env, m)
    ensures Check(m, d) == Available <==> Met(m, d)
  {
    hide Inv, Check, Met;
    if HasRevisions(d.kind) {
      RevisionIsMet(env, m, d);
    } else {
      PresenceIsMet(m, d);
    }
  }

  /** A too old revision is reported with the revision held, a name without an id as malformed, and
      everything else that is not available as missing. */
  lemma CheckReports(env: Env, m: Mem, d: Dependency)
    requires Inv(env, m)
    ensures Check(m, d) == MalformedIdentity <==>
            (HasRevisions(d.kind) || d.kind == TransformObject) &&
            !exists id :: Denotes(d.objectId, PrefixOf(d.kind), id)
    ensures forall actual, required ::
              Check(m, d) == WrongRevision(actual, required) <==>
              HasRevisions(d.kind) && actual < required == d.requiredRevision &&
              exists id :: Denotes(d.objectId, PrefixOf(d.kind), id) && HeldRevision(m, d.kind, id) == Some(actual)
  {
    hide LogAgrees, IndexAgrees, CacheAgrees, SchemasAgree, TransformsAgree, NoDuplicates, ParseName, Denotes,
      ParseItemId, HintNamed;
    forall id: U64
      ensures ParseName(d.objectId, PrefixOf(d.kind)) == Some(id) <==> Denotes(d.objectId, PrefixOf(d.kind), id)
    {
      ParseIsDenotes(d.objectId, PrefixOf(d.kind), id);
    }
  }

  // ---- The dependencies of a dispatch, in terms of the state it finds and what it carries ----

  /** The revision of the last inline definition of the id, or without one the revision held. */
  function NewestRevision(m: Mem, p: Payload, kind: ObjectKind, id: U64): Option<nat> {
    if kind == AssemblyObject && id in LastAssemblies(p.assemblies) then Some(LastAssemblies(p.assemblies)[id].revision)
    else if kind == SchemaObject && id in LastSchemas(p.schemas) then Some(LastSchemas(p.schemas)[id].revision)
    else if kind == DictionaryObject && id in LastDictionaries(p.dictionaries) then
      Some(LastDictionaries(p.dictionaries)[id].revision)
    else HeldRevision(m, kind, id)
  }

  /** The dependency is met by what the dispatch carries or by the state it finds. */
  ghost predicate MetWith(m: Mem, p: Payload, d: Dependency) {
    if HasRevisions(d.kind) then
      exists id ::
        Denotes(d.objectId, PrefixOf(d.kind), id) && AtLeastAt(NewestRevision(m, p, d.kind, id), d.requiredRevision)
    else Met(m.(hints := m.hints + p.hints), d)
  }

  lemma StagedIsNewest(env: Env, m: Mem, p: Payload, kind: ObjectKind, id: U64)
    requires Stage(env, m, p).complete
    ensures HeldRevision(Stage(env, m, p).mem, kind, id) == NewestRevision(m, p, kind, id)
  {
    hide Stage, StageAssemblies, StageSchemas, StageDictionaries, Installable, LastAssemblies, LastSchemas,
      LastDictionaries;
    StageShape(env, m, p);
    CompleteListsAll(env, m, p);
    CompleteInstallsAll(env, m, p);
    if kind == AssemblyObject {
      StagedAssembly(env, m.asm, p.assemblies, id);
    } else if kind == SchemaObject {
      StagedSchema(m.sch, p.schemas, id);
    } else if kind == DictionaryObject {
      StagedDictionary(m.dictionaries, p.dictionaries, id);
    }
  }

  lemma StagedMeets(env: Env, m: Mem, p: Payload, d: Dependency)
    requires Stage(env, m, p).complete
    ensures Met(Stage(env, m, p).mem, d) <==> MetWith(m, p, d)
  {
    hide Stage, Denotes, NewestRevision, HeldRevision;
    if HasRevisions(d.kind) {
      forall id: U64
        ensures HeldRevision(Stage(env, m, p).mem, d.kind, id) == NewestRevision(m, p, d.kind, id)
      {
        StagedIsNewest(env, m, p, d.kind, id);
      }
    } else {
      StageShape(env, m, p);
      CompleteListsAll(env, m, p);
      PresenceFrame(Stage(env, m, p).mem, m.(hints := m.hints + p.hints), d);
    }
  }

  lemma PresenceFrame(a: Mem, b: Mem, d: Dependency)
    requires !HasRevisions(d.kind)
    requires a.items == b.items && a.catalog == b.catalog && a.tx == b.tx && a.hints == b.hints
    ensures Met(a, d) <==> Met(b, d)
  {
    hide Denotes, CueNames, HintHeld;
  }

  lemma StagedInv(env: Env, m: Mem, p: Payload)
    requires Inv(env, m)
    ensures Inv(env, Stage(env, m, p).mem)
  {
    hide AssembliesAgree, SchemasAgree, TransformsAgree, NoDuplicates, Stage, StageAssemblies, StageSchemas,
      StageDictionaries;
    var s := Stage(env, m, p);
    StageShape(env, m, p);
    StageKeeps(env, m.asm, s.assemblies);
    StageSchemasKeeps(m.sch, s.schemas);
  }

  lemma ClosureChecked(env: Env, m: Mem, p: Payload, d: Dependency)
    requires Inv(env, m) && Stage(env, m, p).complete
    ensures CheckStaged(Stage(env, m, p).mem, d, RevisionsOf(p)) == Available <==> MetWith(m, p, d)
  {
    hide Inv, Stage, CheckStaged, Check, Met, MetWith, RevisionsOf;
    StagedInv(env, m, p);
    StagedCheckAgrees(env, m, p, d);
    CheckedIsMet(env, Stage(env, m, p).mem, d);
    StagedMeets(env, m, p, d);
  }

  lemma CompleteExactly(env: Env, m: Mem, p: Payload)
    ensures Stage(env, m, p).complete <==>
            forall i :: 0 <= i < |p.assemblies| ==> env.planLen(p.assemblies[i]) == p.assemblies[i].bodyLen
  {
    if Stage(env, m, p).complete {
      CompleteInstallsAll(env, m, p);
    } else {
      FirstRefused(env, p.assemblies);
    }
    hide StageAssemblies, StageSchemas, StageDictionaries, Installable;
  }

  lemma {:induction false} FirstRefused(env: Env, defs: seq<Assembly>)
    ensures var n := Installable(env, defs); n < |defs| ==> env.planLen(defs[n]) != defs[n].bodyLen
  {
    if defs != [] {
      FirstRefused(env, defs[1..]);
    }
  }

  /** A predictive dispatch succeeds if and only if it comes in the record type of its route family,
      no inline assembly is refused, every dependency is met, by what the dispatch carries or by what
      was there, and the route yields bytes. */
  lemma DispatchSucceedsExactly(env: Env, m: Mem, recordType: RecordType, item: U64, seqNo: nat, p: Payload)
    requires Inv(env, m) && (recordType == PredictiveConfirm || recordType == PredictiveCorrect)
    ensures ApplyDispatch(env, m, recordType, item, seqNo, p).ok <==>
            && p.family == (if recordType == PredictiveConfirm then ExactAtom else Hybrid)
            && (forall i :: 0 <= i < |p.assemblies| ==> env.planLen(p.assemblies[i]) == p.assemblies[i].bodyLen)
            && (forall i :: 0 <= i < |p.closure| ==> MetWith(m, p, p.closure[i]))
            && env.execute(Stage(env, m, p).mem, p).Some?
  {
    hide Inv, Stage, CheckStaged, RevisionsOf, EnqueueAll, DispatchAcks, Promote, MetWith, Rollback;
    CompleteExactly(env, m, p);
    if Stage(env, m, p).complete {
      forall i | 0 <= i < |p.closure|
        ensures CheckStaged(Stage(env, m, p).mem, p.closure[i], RevisionsOf(p)) == Available <==>
                MetWith(m, p, p.closure[i])
      {
        ClosureChecked(env, m, p, p.closure[i]);
      }
    }
  }
}
