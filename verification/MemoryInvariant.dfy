/** The store invariant and the proof that every record keeps it. */
module MemoryInvariant {
  import opened Bytes
  import opened Wire
  import opened Ids
  import opened Graph
  import opened Memory

  /** The last definition of each id. */
  function LastAssemblies(defs: seq<Assembly>): map<U64, Assembly> {
    if defs == [] then map[] else LastAssemblies(defs[..|defs| - 1])[defs[|defs| - 1].id := defs[|defs| - 1]]
  }

  function LastSchemas(defs: seq<SchemaDef>): map<U64, SchemaDef> {
    if defs == [] then map[] else LastSchemas(defs[..|defs| - 1])[defs[|defs| - 1].schemaId := defs[|defs| - 1]]
  }

  /** `assemblies` is the last-wins fold of the log. */
  ghost predicate LogAgrees(s: AssemblyStore) {
    && s.assemblies == LastAssemblies(s.defs)
    && forall id :: id in s.assemblies ==> s.assemblies[id].id == id
  }

  /** Exactly the signatures of the installed assemblies. */
  ghost predicate SyncAgrees(env: Env, s: AssemblyStore) {
    && s.sync.Keys == s.assemblies.Keys
    && forall id :: id in s.assemblies ==> s.sync[id] == SignatureOf(env, s.assemblies[id])
  }

  /** Exactly the names of the installed assemblies. */
  ghost predicate IndexAgrees(s: AssemblyStore) {
    && (forall id :: id in s.assemblies ==> AssemblyName(id) in s.index)
    && (forall name :: name in s.index ==> s.index[name] in s.assemblies && name == AssemblyName(s.index[name]))
  }

  /** The source cache holds every installed assembly, and perhaps others. */
  ghost predicate CacheAgrees(s: AssemblyStore) {
    forall id :: id in s.assemblies ==> AssemblyName(id) in s.cached && s.cached[AssemblyName(id)] == s.assemblies[id]
  }

  ghost predicate AssembliesAgree(env: Env, s: AssemblyStore) {
    LogAgrees(s) && SyncAgrees(env, s) && IndexAgrees(s) && CacheAgrees(s)
  }

  /** Both schema maps are the last-wins fold of the log. */
  ghost predicate SchemasAgree(s: SchemaStore) {
    && s.payloads == LastSchemas(s.defs)
    && s.heads.Keys == s.payloads.Keys
    && (forall id :: id in s.payloads ==> s.payloads[id].schemaId == id && s.heads[id] == HeadOf(s.payloads[id]))
  }

  /** Every materialized transform has a class. */
  ghost predicate TransformsAgree(s: TransformStore) {
    s.materialized.Keys <= s.classes.Keys
  }

  ghost predicate NoDuplicates<T>(s: seq<T>) {
    forall i, j :: 0 <= i < j < |s| ==> s[i] != s[j]
  }

  ghost predicate Inv(env: Env, m: Mem) {
    && AssembliesAgree(env, m.asm) && SchemasAgree(m.sch) && TransformsAgree(m.tx)
    && NoDuplicates(m.acks) && NoDuplicates(m.repairs)
  }

  // ---- Assemblies ----

  lemma NameOf(a: U64, b: U64)
    ensures AssemblyName(a) == AssemblyName(b) <==> a == b
  {
    if AssemblyName(a) == AssemblyName(b) {
      NameInjective("assembly:", a, b);
    }
  }

  lemma LogOne(s: AssemblyStore, r: AssemblyStore, a: Assembly)
    requires LogAgrees(s) && r.assemblies == s.assemblies[a.id := a] && r.defs == s.defs + [a]
    ensures LogAgrees(r)
  {
    assert r.defs[..|s.defs|] == s.defs;
  }

  lemma IndexOne(s: AssemblyStore, r: AssemblyStore, a: Assembly)
    requires IndexAgrees(s) && r.assemblies == s.assemblies[a.id := a] && r.index == s.index[AssemblyName(a.id) := a.id]
    ensures IndexAgrees(r)
  {
    hide AssemblyName;
  }

  lemma CacheOne(s: AssemblyStore, r: AssemblyStore, a: Assembly)
    requires CacheAgrees(s) && r.assemblies == s.assemblies[a.id := a] && r.cached == s.cached[AssemblyName(a.id) := a]
    ensures CacheAgrees(r)
  {
    hide AssemblyName;
    forall id | id in r.assemblies
      ensures AssemblyName(id) in r.cached && r.cached[AssemblyName(id)] == r.assemblies[id]
    {
      NameOf(id, a.id);
    }
  }

  lemma InstallKeeps(env: Env, s: AssemblyStore, a: Assembly)
    requires AssembliesAgree(env, s) && InstallAssembly(env, s, a).Some?
    ensures AssembliesAgree(env, InstallAssembly(env, s, a).value)
  {
    hide AssemblyName, SignatureOf, LogAgrees, IndexAgrees, CacheAgrees;
    var r := InstallAssembly(env, s, a).value;
    LogOne(s, r, a);
    IndexOne(s, r, a);
    CacheOne(s, r, a);
  }

  lemma {:induction false} LastOfKept(defs: seq<Assembly>, ids: set<U64>)
    ensures LastAssemblies(KeepAssemblies(defs, ids)) == LastAssemblies(defs) - ids
  {
    if defs != [] {
      var prefix, last := defs[..|defs| - 1], defs[|defs| - 1];
      LastOfKept(prefix, ids);
      if last.id !in ids {
        assert (KeepAssemblies(prefix, ids) + [last])[..|KeepAssemblies(prefix, ids)|] == KeepAssemblies(prefix, ids);
      }
    }
  }

  lemma RemoveKeeps(env: Env, s: AssemblyStore, ids: set<U64>)
    requires AssembliesAgree(env, s)
    ensures AssembliesAgree(env, RemoveAssemblies(s, ids))
  {
    hide AssemblyName, SignatureOf;
    LastOfKept(s.defs, ids);
    hide LastAssemblies, KeepAssemblies;
    var r := RemoveAssemblies(s, ids);
    forall id | id in r.assemblies ensures AssemblyName(id) in r.index {
      NameOf(s.index[AssemblyName(id)], id);
    }
  }

  /** Retiring by name or removing by id is the same while the index agrees. */
  lemma RetireIsRemove(s: AssemblyStore, objectId: string)
    requires IndexAgrees(s) && ParseLast(objectId).Some?
    ensures RetireAssembly(s, objectId) == RemoveAssemblies(s, {ParseLast(objectId).value})
  {
    hide AssemblyName, KeepAssemblies, ParseLast;
    var id := ParseLast(objectId).value;
    forall name | name in s.index ensures name == AssemblyName(id) <==> s.index[name] == id {
      NameOf(s.index[name], id);
    }
    assert s.index - {AssemblyName(id)} == KeepNames(s.index, {id});
  }

  lemma RetireKeeps(env: Env, s: AssemblyStore, objectId: string)
    requires AssembliesAgree(env, s)
    ensures AssembliesAgree(env, RetireAssembly(s, objectId))
  {
    if ParseLast(objectId).Some? {
      RetireIsRemove(s, objectId);
      RemoveKeeps(env, s, {ParseLast(objectId).value});
      hide AssembliesAgree;
    }
  }

  lemma {:induction false} StageKeeps(env: Env, s: AssemblyStore, defs: seq<Assembly>)
    requires AssembliesAgree(env, s)
    ensures AssembliesAgree(env, StageAssemblies(env, s, defs))
  {
    hide AssembliesAgree, InstallAssembly;
    if defs != [] {
      var before := StageAssemblies(env, s, defs[..|defs| - 1]);
      StageKeeps(env, s, defs[..|defs| - 1]);
      if InstallAssembly(env, before, defs[|defs| - 1]).Some? {
        InstallKeeps(env, before, defs[|defs| - 1]);
      }
    }
  }

  // ---- Schemas ----

  lemma InstallSchemaKeeps(s: SchemaStore, def: SchemaDef)
    requires SchemasAgree(s)
    ensures SchemasAgree(InstallSchema(s, def))
  {
    assert (s.defs + [def])[..|s.defs|] == s.defs;
  }

  lemma {:induction false} LastOfKeptSchemas(defs: seq<SchemaDef>, ids: set<U64>)
    ensures LastSchemas(KeepSchemas(defs, ids)) == LastSchemas(defs) - ids
  {
    if defs != [] {
      var prefix, last := defs[..|defs| - 1], defs[|defs| - 1];
      LastOfKeptSchemas(prefix, ids);
      if last.schemaId !in ids {
        assert (KeepSchemas(prefix, ids) + [last])[..|KeepSchemas(prefix, ids)|] == KeepSchemas(prefix, ids);
      }
    }
  }

  lemma RemoveSchemasKeeps(s: SchemaStore, ids: set<U64>)
    requires SchemasAgree(s)
    ensures SchemasAgree(RemoveSchemas(s, ids))
  {
    LastOfKeptSchemas(s.defs, ids);
    hide HeadOf, KeepSchemas, LastSchemas;
  }

  lemma {:induction false} LoggedAreLast(defs: seq<SchemaDef>)
    ensures LastSchemas(defs).Keys == LoggedIds(defs)
  {
    if defs != [] {
      var prefix, last := defs[..|defs| - 1], defs[|defs| - 1];
      LoggedAreLast(prefix);
      assert forall i :: 0 <= i < |prefix| ==> defs[i] == prefix[i];
      assert LoggedIds(defs) == LoggedIds(prefix) + {last.schemaId};
    }
  }

  /** The log and the maps name the same schemas, so all three are pruned alike. */
  lemma RetireSchemaIsRemove(s: SchemaStore, objectId: string)
    requires SchemasAgree(s)
    ensures RetireSchema(s, objectId) == RemoveSchemas(s, NamedBare(s.payloads.Keys, objectId))
  {
    LoggedAreLast(s.defs);
    hide LastSchemas, LoggedIds, KeepSchemas, NamedBare;
  }

  lemma {:induction false} StageSchemasKeeps(s: SchemaStore, defs: seq<SchemaDef>)
    requires SchemasAgree(s)
    ensures SchemasAgree(StageSchemas(s, defs))
  {
    hide SchemasAgree, InstallSchema;
    if defs != [] {
      StageSchemasKeeps(s, defs[..|defs| - 1]);
      InstallSchemaKeeps(StageSchemas(s, defs[..|defs| - 1]), defs[|defs| - 1]);
    }
  }

  // ---- Acks ----

  lemma {:induction false} EnqueueKeeps(acks: seq<Ack>, more: seq<Ack>)
    requires NoDuplicates(acks)
    ensures NoDuplicates(EnqueueAll(acks, more))
    decreases |more|
  {
    if more != [] {
      EnqueueKeeps(EnqueueAck(acks, more[0]), more[1..]);
    }
  }

  // ---- Repair requests ----

  lemma {:induction false} UnresolvedAre(catalog: Catalog, cache: set<U64>, requests: seq<RepairRequest>,
          request: RepairRequest)
    ensures request in Unresolved(catalog, cache, requests) <==>
            request in requests && !IsResolved(catalog, cache, request)
  {
    hide IsResolved;
    if requests != [] {
      var prefix, last := requests[..|requests| - 1], requests[|requests| - 1];
      UnresolvedAre(catalog, cache, prefix, request);
      assert requests == prefix + [last];
    }
  }

  lemma {:induction false} UnresolvedKeeps(catalog: Catalog, cache: set<U64>, requests: seq<RepairRequest>)
    requires NoDuplicates(requests)
    ensures NoDuplicates(Unresolved(catalog, cache, requests))
  {
    hide IsResolved;
    if requests != [] {
      var prefix, last := requests[..|requests| - 1], requests[|requests| - 1];
      UnresolvedKeeps(catalog, cache, prefix);
      UnresolvedAre(catalog, cache, prefix, last);
    }
  }

  /** Pruning leaves the unresolved requests, each once, and nothing else changes. */
  lemma PruneKeepsInv(env: Env, m: Mem)
    requires Inv(env, m)
    ensures Inv(env, Prune(m))
  {
    hide AssembliesAgree, SchemasAgree, TransformsAgree, NoDuplicates, Unresolved;
    UnresolvedKeeps(m.catalog, m.items.cache.Keys, m.repairs);
  }

  // ---- Every record keeps the invariant ----

  lemma DispatchKeepsInv(env: Env, m: Mem, recordType: RecordType, item: U64, seqNo: nat, p: Payload)
    requires Inv(env, m)
    ensures Inv(env, ApplyDispatch(env, m, recordType, item, seqNo, p).mem)
  {
    hide AssembliesAgree, SchemasAgree, NoDuplicates, RemoveAssemblies, RemoveSchemas, StageAssemblies, StageSchemas,
      AssemblyIds, SchemaIds, DictionaryIds, DispatchBody, DispatchAcks, EnqueueAll, Installable;
    var s := Stage(env, m, p);
    StageKeeps(env, m.asm, p.assemblies[..Installable(env, p.assemblies)]);
    StageSchemasKeeps(m.sch, p.schemas);
    assert p.assemblies[..|p.assemblies|] == p.assemblies;
    RemoveKeeps(env, s.mem.asm, AssemblyIds(s.assemblies));
    RemoveSchemasKeeps(s.mem.sch, SchemaIds(s.schemas));
    EnqueueKeeps(m.acks, DispatchAcks(p, recordType, seqNo));
  }

  lemma DefineKeepsInv(env: Env, m: Mem, input: Input)
    requires Inv(env, m) && (input.DefineAssembly? || input.DefineSchema?)
    ensures Inv(env, Apply(env, m, input).mem)
  {
    hide AssembliesAgree, SchemasAgree, NoDuplicates, InstallAssembly, InstallSchema;
    match input
    case DefineAssembly(a) =>
      if InstallAssembly(env, m.asm, a).Some? {
        InstallKeeps(env, m.asm, a);
      }
    case DefineSchema(def) => InstallSchemaKeeps(m.sch, def);
  }

  lemma AckKeeps(acks: seq<Ack>, ack: Ack)
    requires NoDuplicates(acks)
    ensures NoDuplicates(EnqueueAck(acks, ack))
  {
  }

  lemma RetireObjectKeepsInv(env: Env, m: Mem, plane: MemoryPlane, objectId: string)
    requires Inv(env, m)
    ensures Inv(env, RetireObject(m, plane, objectId))
  {
    hide AssembliesAgree, SchemasAgree, NoDuplicates, RetireAssembly, RetireSchema, RemoveSchemas, KeepHints,
      ItemsNamed, Dec, Unresolved;
    UnresolvedKeeps(m.catalog, RemoveItems(m.items, ItemsNamed(m.items, objectId)).cache.Keys, m.repairs);
    RetireKeeps(env, m.asm, objectId);
    RetireSchemaIsRemove(m.sch, objectId);
    RemoveSchemasKeeps(m.sch, NamedBare(m.sch.payloads.Keys, objectId));
  }

  lemma ResyncKeepsInv(env: Env, m: Mem, plane: MemoryPlane, resetPredictors: bool)
    requires Inv(env, m)
    ensures Inv(env, ResyncPlane(m, plane, resetPredictors))
  {
    hide AssembliesAgree, SchemasAgree;
    EmptyInv(env);
  }

  predicate Inert(input: Input) {
    match input
    case Undecodable | Control | BatchData(_) | SourceMetaFor(_, _) | RepairAsked(_) | InstanceOf(_, _, _)
       | DefineTransform(_) | Hint(_) => true
    case _ => false
  }

  /** Records that touch neither definitions nor acks nor end with a pruning. */
  lemma InertKeepsInv(env: Env, m: Mem, input: Input)
    requires Inv(env, m) && Inert(input)
    ensures Inv(env, Apply(env, m, input).mem)
  {
    hide AssembliesAgree, SchemasAgree, CacheAll, Promote;
  }

  /** Records that change items or the catalog and then prune. */
  lemma PruningKeepsInv(env: Env, m: Mem, input: Input)
    requires Inv(env, m) && (input.ExactData? || input.DropItem? || input.CatalogRepair?)
    ensures Inv(env, Apply(env, m, input).mem)
  {
    hide AssembliesAgree, SchemasAgree, TransformsAgree, NoDuplicates, Prune, RemoveItems, Promote;
    match input
    case ExactData(item, raw) =>
      var bytes := env.decodeData(m, item, raw);
      if bytes.Some? {
        PruneKeepsInv(env, Materialize(env, m, input, item, bytes.value, true));
      }
    case DropItem(item) => PruneKeepsInv(env, m.(items := RemoveItems(m.items, {item})));
    case CatalogRepair(sync) =>
      var catalog := env.applySync(m.catalog, sync);
      if catalog.Some? {
        PruneKeepsInv(env, m.(catalog := catalog.value));
      }
  }

  /** Install, retire, resync, dispatch and rollback all keep the stores in agreement. */
  lemma ApplyKeepsInv(env: Env, m: Mem, input: Input)
    requires Inv(env, m)
    ensures Inv(env, Apply(env, m, input).mem)
  {
    hide AssembliesAgree, SchemasAgree, NoDuplicates, ApplyDispatch, RetireObject, ResyncPlane, EnqueueAck, ReplayAck;
    match input
    case Dispatch(recordType, item, seqNo, p) =>
      DispatchKeepsInv(env, m, recordType, item, seqNo, p);
    case DefineAssembly(_) => DefineKeepsInv(env, m, input);
    case DefineSchema(_) => DefineKeepsInv(env, m, input);
    case Retire(seqNo, plane, kind, objectId) =>
      var ack := Ack(plane, kind, objectId, MemoryRetire, seqNo);
      AckKeeps(m.acks, ack);
      RetireObjectKeepsInv(env, m.(acks := EnqueueAck(m.acks, ack)), plane, objectId);
    case Replay(seqNo, hint) => AckKeeps(m.acks, ReplayAck(seqNo, hint));
    case FullResync => EmptyInv(env);
    case ExactData(_, _) => PruningKeepsInv(env, m, input);
    case DropItem(_) => PruningKeepsInv(env, m, input);
    case CatalogRepair(_) => PruningKeepsInv(env, m, input);
    case PlaneResync(plane, resetPredictors) => ResyncKeepsInv(env, m, plane, resetPredictors);
    case _ => InertKeepsInv(env, m, input);
  }

  lemma EmptyInv(env: Env)
    ensures Inv(env, EMPTY)
    ensures AssembliesAgree(env, NO_ASSEMBLIES) && SchemasAgree(NO_SCHEMAS)
  {
  }
}
