/** The predictive dispatch: what a failed one leaves behind, and when its two
    dependency checks agree. */
module DispatchProofs {
  import opened Bytes
  import opened Wire
  import opened Ids
  import opened Graph
  import opened Memory
  import opened MemoryInvariant

  // ---- Rollback: as if the staged ids had been removed ----

  lemma UpdateThenRemove<K, V>(m: map<K, V>, k: K, v: V, ids: set<K>)
    requires k in ids
    ensures m[k := v] - ids == m - ids
  {
  }

  lemma KeepNone(defs: seq<Assembly>, a: Assembly, ids: set<U64>)
    requires a.id in ids
    ensures KeepAssemblies(defs + [a], ids) == KeepAssemblies(defs, ids)
  {
    assert (defs + [a])[..|defs|] == defs;
  }

  lemma KeepNoSchema(defs: seq<SchemaDef>, def: SchemaDef, ids: set<U64>)
    requires def.schemaId in ids
    ensures KeepSchemas(defs + [def], ids) == KeepSchemas(defs, ids)
  {
    assert (defs + [def])[..|defs|] == defs;
  }

  lemma KeepNoName(s: AssemblyStore, a: Assembly, ids: set<U64>)
    requires IndexAgrees(s) && a.id in ids
    ensures KeepNames(s.index[AssemblyName(a.id) := a.id], ids) == KeepNames(s.index, ids)
  {
    hide AssemblyName;
    forall name | name in s.index && name == AssemblyName(a.id) ensures s.index[name] in ids {
      NameOf(s.index[name], a.id);
    }
  }

  lemma InstallThenRemove(env: Env, s: AssemblyStore, a: Assembly, ids: set<U64>)
    requires IndexAgrees(s) && a.id in ids && InstallAssembly(env, s, a).Some?
    ensures var r := InstallAssembly(env, s, a).value;
            RemoveAssemblies(r, ids) == RemoveAssemblies(s, ids).(cached := r.cached)
  {
    hide AssemblyName, SignatureOf, KeepAssemblies, KeepNames;
    KeepNone(s.defs, a, ids);
    UpdateThenRemove(s.assemblies, a.id, a, ids);
    UpdateThenRemove(s.sync, a.id, SignatureOf(env, a), ids);
    KeepNoName(s, a, ids);
  }

  lemma PrefixIds(defs: seq<Assembly>, ids: set<U64>)
    requires defs != [] && AssemblyIds(defs) <= ids
    ensures defs[|defs| - 1].id in ids && AssemblyIds(defs[..|defs| - 1]) <= ids
  {
    var prefix := defs[..|defs| - 1];
    assert defs[|defs| - 1].id in AssemblyIds(defs);
    forall id | id in AssemblyIds(prefix) ensures id in AssemblyIds(defs) {
      var i :| 0 <= i < |prefix| && prefix[i].id == id;
      assert defs[i].id == id;
    }
  }

  lemma {:induction false} StageThenRemove(env: Env, s: AssemblyStore, defs: seq<Assembly>, ids: set<U64>)
    requires AssembliesAgree(env, s) && AssemblyIds(defs) <= ids
    ensures var r := StageAssemblies(env, s, defs);
            RemoveAssemblies(r, ids) == RemoveAssemblies(s, ids).(cached := r.cached)
  {
    if defs != [] {
      var prefix, last := defs[..|defs| - 1], defs[|defs| - 1];
      PrefixIds(defs, ids);
      hide AssemblyIds, RemoveAssemblies;
      StageThenRemove(env, s, prefix, ids);
      var before := StageAssemblies(env, s, prefix);
      StageKeeps(env, s, prefix);
      if InstallAssembly(env, before, last).Some? {
        InstallThenRemove(env, before, last, ids);
      }
    }
  }

  lemma {:induction false} StageSchemasThenRemove(s: SchemaStore, defs: seq<SchemaDef>, ids: set<U64>)
    requires SchemaIds(defs) <= ids
    ensures RemoveSchemas(StageSchemas(s, defs), ids) == RemoveSchemas(s, ids)
  {
    if defs != [] {
      var prefix, last := defs[..|defs| - 1], defs[|defs| - 1];
      assert last.schemaId in SchemaIds(defs);
      assert SchemaIds(prefix) <= SchemaIds(defs) by {
        assert forall i :: 0 <= i < |prefix| ==> prefix[i] == defs[i];
      }
      hide SchemaIds, HeadOf;
      StageSchemasThenRemove(s, prefix, ids);
      var before := StageSchemas(s, prefix);
      KeepNoSchema(before.defs, last, ids);
      hide KeepSchemas;
      UpdateThenRemove(before.heads, last.schemaId, HeadOf(last), ids);
      UpdateThenRemove(before.payloads, last.schemaId, last, ids);
    }
  }

  lemma {:induction false} StageDictionariesThenRemove(s: map<U64, Dictionary>, defs: seq<Dictionary>, ids: set<U64>)
    requires DictionaryIds(defs) <= ids
    ensures StageDictionaries(s, defs) - ids == s - ids
  {
    if defs != [] {
      var prefix, last := defs[..|defs| - 1], defs[|defs| - 1];
      assert last.id in DictionaryIds(defs);
      assert DictionaryIds(prefix) <= DictionaryIds(defs) by {
        assert forall i :: 0 <= i < |prefix| ==> prefix[i] == defs[i];
      }
      hide DictionaryIds;
      StageDictionariesThenRemove(s, prefix, ids);
      UpdateThenRemove(StageDictionaries(s, prefix), last.id, last, ids);
    }
  }

  lemma UnstageHints(before: seq<EpisodeHint>, staged: seq<EpisodeHint>)
    ensures var all := before + staged;
            (if 0 < |staged| <= |all| then all[..|all| - |staged|] else all) == before
  {
  }

  /** The state with the staged definitions' ids removed from every store. */
  function Without(m: Mem, s: Staged): Mem {
    m.(asm := RemoveAssemblies(m.asm, AssemblyIds(s.assemblies)),
       sch := RemoveSchemas(m.sch, SchemaIds(s.schemas)),
       dictionaries := m.dictionaries - DictionaryIds(s.dictionaries))
  }

  /** Complete or not, a staging is the staged lists installed one after the other. */
  lemma StageShape(env: Env, m: Mem, p: Payload)
    ensures var s := Stage(env, m, p);
            s.mem == m.(asm := StageAssemblies(env, m.asm, s.assemblies),
                        sch := StageSchemas(m.sch, s.schemas),
                        dictionaries := StageDictionaries(m.dictionaries, s.dictionaries),
                        hints := m.hints + s.hints)
  {
    hide Installable, StageAssemblies;
    assert p.assemblies[..|p.assemblies|] == p.assemblies;
    assert m.hints + [] == m.hints;
  }

  /** Rolling back whatever was staged, all of it or a part, removes exactly the
      staged ids; only the source cache keeps the staged assemblies. */
  lemma RollbackIsWithout(env: Env, m: Mem, p: Payload)
    requires Inv(env, m)
    ensures var s := Stage(env, m, p);
            var w := Without(m, s);
            Rollback(s) == w.(asm := w.asm.(cached := s.mem.asm.cached))
  {
    hide Stage, AssemblyIds, SchemaIds, DictionaryIds, AssembliesAgree, SchemasAgree, StageAssemblies, StageSchemas,
      StageDictionaries, RemoveAssemblies, RemoveSchemas;
    var s := Stage(env, m, p);
    StageShape(env, m, p);
    StageThenRemove(env, m.asm, s.assemblies, AssemblyIds(s.assemblies));
    StageSchemasThenRemove(m.sch, s.schemas, SchemaIds(s.schemas));
    StageDictionariesThenRemove(m.dictionaries, s.dictionaries, DictionaryIds(s.dictionaries));
    UnstageHints(m.hints, s.hints);
  }

  /** None of the staged ids was installed before. */
  predicate Fresh(m: Mem, s: Staged) {
    && AssemblyIds(s.assemblies) !! m.asm.assemblies.Keys
    && SchemaIds(s.schemas) !! m.sch.payloads.Keys
    && DictionaryIds(s.dictionaries) !! m.dictionaries.Keys
  }

  lemma MinusExact<K, V>(m: map<K, V>, ids: set<K>)
    ensures m - ids == m <==> ids !! m.Keys
  {
    if k :| k in ids && k in m.Keys {
      assert k !in m - ids;
    } else {
      assert m - ids == m;
    }
  }

  lemma {:induction false} KeepAllAssemblies(defs: seq<Assembly>, ids: set<U64>)
    requires ids !! LastAssemblies(defs).Keys
    ensures KeepAssemblies(defs, ids) == defs
  {
    if defs != [] {
      var prefix := defs[..|defs| - 1];
      assert defs[|defs| - 1].id in LastAssemblies(defs);
      assert LastAssemblies(prefix).Keys <= LastAssemblies(defs).Keys;
      KeepAllAssemblies(prefix, ids);
    }
  }

  lemma {:induction false} KeepAllSchemas(defs: seq<SchemaDef>, ids: set<U64>)
    requires ids !! LastSchemas(defs).Keys
    ensures KeepSchemas(defs, ids) == defs
  {
    if defs != [] {
      var prefix := defs[..|defs| - 1];
      assert defs[|defs| - 1].schemaId in LastSchemas(defs);
      assert LastSchemas(prefix).Keys <= LastSchemas(defs).Keys;
      KeepAllSchemas(prefix, ids);
    }
  }

  lemma RemoveAssembliesExact(env: Env, s: AssemblyStore, ids: set<U64>)
    requires AssembliesAgree(env, s)
    ensures RemoveAssemblies(s, ids) == s <==> ids !! s.assemblies.Keys
  {
    MinusExact(s.assemblies, ids);
    if ids !! s.assemblies.Keys {
      KeepAllAssemblies(s.defs, ids);
      MinusExact(s.sync, ids);
      hide AssemblyName, SignatureOf, KeepAssemblies, LastAssemblies, CacheAgrees;
      assert KeepNames(s.index, ids) == s.index;
    }
  }

  lemma RemoveSchemasExact(s: SchemaStore, ids: set<U64>)
    requires SchemasAgree(s)
    ensures RemoveSchemas(s, ids) == s <==> ids !! s.payloads.Keys
  {
    MinusExact(s.payloads, ids);
    MinusExact(s.heads, ids);
    if ids !! s.payloads.Keys {
      KeepAllSchemas(s.defs, ids);
    }
  }

  /** A failed dispatch leaves every store, the caches, the catalog and the pending
      acks exactly as before if and only if none of the definitions it had staged
      was already installed. Only the assembly source cache is never rolled back. */
  lemma FailedDispatchRestores(env: Env, m: Mem, recordType: RecordType, item: U64, seqNo: nat, p: Payload)
    requires Inv(env, m)
    requires recordType == p.family.DispatchRecordType()
    requires !ApplyDispatch(env, m, recordType, item, seqNo, p).ok
    ensures var r := ApplyDispatch(env, m, recordType, item, seqNo, p).mem;
            var s := Stage(env, m, p);
            var w := Without(m, s);
            && r == w.(asm := w.asm.(cached := s.mem.asm.cached))
            && (r == m.(asm := m.asm.(cached := r.asm.cached)) <==> Fresh(m, s))
  {
    var s := Stage(env, m, p);
    RollbackIsWithout(env, m, p);
    hide Stage, Rollback, DispatchBody, AssembliesAgree, SchemasAgree, AssemblyIds, SchemaIds, DictionaryIds;
    RemoveAssembliesExact(env, m.asm, AssemblyIds(s.assemblies));
    RemoveSchemasExact(m.sch, SchemaIds(s.schemas));
    MinusExact(m.dictionaries, DictionaryIds(s.dictionaries));
    CacheAside(m.asm, AssemblyIds(s.assemblies));
    hide RemoveAssemblies, RemoveSchemas;
  }

  lemma CacheAside(s: AssemblyStore, ids: set<U64>)
    ensures RemoveAssemblies(s, ids).cached == s.cached
  {
  }

  /** Freshness is needed: a failed dispatch erases every staged assembly that was
      already installed. */
  lemma FailedDispatchErases(env: Env, m: Mem, recordType: RecordType, item: U64, seqNo: nat, p: Payload, id: U64)
    requires Inv(env, m) && recordType == p.family.DispatchRecordType()
    requires !ApplyDispatch(env, m, recordType, item, seqNo, p).ok
    requires id in AssemblyIds(Stage(env, m, p).assemblies)
    ensures id !in ApplyDispatch(env, m, recordType, item, seqNo, p).mem.asm.assemblies
  {
    hide Stage, ApplyDispatch, Inv, AssemblyIds;
    FailedDispatchRestores(env, m, recordType, item, seqNo, p);
  }

  /** A dependency that is never met: its name is malformed. */
  const UNMET := Dependency(AssemblyObject, "", 0)

  /** One assembly resent inline with that dependency. */
  function Resend(a: Assembly): Payload {
    Payload(ExactAtom, [a], [], [], [], [UNMET], 0)
  }

  lemma ResendFails(env: Env, m: Mem, seqNo: nat, a: Assembly)
    requires env.planLen(a) == a.bodyLen
    ensures !ApplyDispatch(env, m, PredictiveConfirm, 0, seqNo, Resend(a)).ok
    ensures a.id in AssemblyIds(Stage(env, m, Resend(a)).assemblies)
  {
    var p := Resend(a);
    assert Installable(env, [a][1..]) == 0;
    assert Installable(env, [a]) == 1;
    assert Stage(env, m, p).assemblies == [a] && [a][0] == a;
    hide Stage, StageAssemblies, StageSchemas, StageDictionaries, Installable, Rollback;
    var s := Stage(env, m, p);
    assert p.closure[0] == UNMET && CheckStaged(s.mem, UNMET, RevisionsOf(p)) == MalformedIdentity;
    assert DispatchBody(env, s.mem, p) == None;
  }

  lemma InstalledOnce(env: Env, a: Assembly)
    requires env.planLen(a) == a.bodyLen
    ensures var m := Apply(env, EMPTY, DefineAssembly(a)).mem;
            Inv(env, m) && a.id in m.asm.assemblies
  {
    hide Inv, AssemblyName, SignatureOf;
    EmptyInv(env);
    ApplyKeepsInv(env, EMPTY, DefineAssembly(a));
  }

  /** The concrete case: install an assembly, resend it in a dispatch that fails. */
  lemma FailedDispatchCanErase(env: Env, a: Assembly)
    requires env.planLen(a) == a.bodyLen
    ensures var m := Apply(env, EMPTY, DefineAssembly(a)).mem;
            var r := ApplyDispatch(env, m, PredictiveConfirm, 0, 0, Resend(a));
            a.id in m.asm.assemblies && !r.ok && a.id !in r.mem.asm.assemblies
  {
    hide Inv, ApplyDispatch, Stage, Apply, AssemblyIds;
    var m := Apply(env, EMPTY, DefineAssembly(a)).mem;
    InstalledOnce(env, a);
    ResendFails(env, m, 0, a);
    FailedDispatchErases(env, m, PredictiveConfirm, 0, 0, Resend(a), a.id);
  }

  // ---- The dependency checks ----

  lemma {:induction false} InstallableAll(env: Env, defs: seq<Assembly>, i: nat)
    requires i < Installable(env, defs)
    ensures env.planLen(defs[i]) == defs[i].bodyLen
  {
    if i > 0 {
      InstallableAll(env, defs[1..], i - 1);
    }
  }

  /** With the install plan computed from the assembly itself, nothing is refused. */
  lemma {:induction false} PlanFromBodyInstallsAll(env: Env, defs: seq<Assembly>)
    requires forall a :: env.planLen(a) == a.bodyLen
    ensures Installable(env, defs) == |defs|
  {
    if defs != [] {
      PlanFromBodyInstallsAll(env, defs[1..]);
    }
  }

  lemma {:induction false} StagedAssemblyRevision(env: Env, s: AssemblyStore, defs: seq<Assembly>, id: U64)
    requires forall i :: 0 <= i < |defs| ==> env.planLen(defs[i]) == defs[i].bodyLen
    requires id in AssemblyRevisions(defs)
    ensures var r := StageAssemblies(env, s, defs);
            id in r.assemblies && id in r.sync && r.sync[id].revision == AssemblyRevisions(defs)[id]
  {
    var prefix, last := defs[..|defs| - 1], defs[|defs| - 1];
    if id != last.id {
      StagedAssemblyRevision(env, s, prefix, id);
    }
  }

  lemma {:induction false} StagedSchemaRevision(s: SchemaStore, defs: seq<SchemaDef>, id: U64)
    requires id in SchemaRevisions(defs)
    ensures var r := StageSchemas(s, defs);
            id in r.payloads && r.payloads[id].revision == SchemaRevisions(defs)[id]
  {
    var prefix, last := defs[..|defs| - 1], defs[|defs| - 1];
    if id != last.schemaId {
      StagedSchemaRevision(s, prefix, id);
    }
  }

  lemma {:induction false} StagedDictionaryRevision(s: map<U64, Dictionary>, defs: seq<Dictionary>, id: U64)
    requires id in DictionaryRevisions(defs)
    ensures var r := StageDictionaries(s, defs);
            id in r && r[id].revision == DictionaryRevisions(defs)[id]
  {
    var prefix, last := defs[..|defs| - 1], defs[|defs| - 1];
    if id != last.id {
      StagedDictionaryRevision(s, prefix, id);
    }
  }

  /** The revisions of a complete staging are those of the stores it produced. */
  ghost predicate RevisionsInStores(m: Mem, r: StagedRevisions) {
    && (forall id :: id in r.assemblies ==>
          id in m.asm.assemblies && id in m.asm.sync && m.asm.sync[id].revision == r.assemblies[id])
    && (forall id :: id in r.schemas ==> id in m.sch.payloads && m.sch.payloads[id].revision == r.schemas[id])
    && (forall id :: id in r.dictionaries ==> id in m.dictionaries && m.dictionaries[id].revision == r.dictionaries[id])
  }

  lemma StageHasRevisions(env: Env, m: Mem, p: Payload)
    requires Stage(env, m, p).complete
    ensures RevisionsInStores(Stage(env, m, p).mem, RevisionsOf(p))
  {
    forall i | 0 <= i < |p.assemblies| ensures env.planLen(p.assemblies[i]) == p.assemblies[i].bodyLen {
      InstallableAll(env, p.assemblies, i);
    }
    assert p.assemblies[..|p.assemblies|] == p.assemblies;
    hide Installable, StageAssemblies, StageSchemas, StageDictionaries, AssemblyRevisions, SchemaRevisions,
      DictionaryRevisions;
    var s := Stage(env, m, p).mem;
    forall id | id in AssemblyRevisions(p.assemblies)
      ensures id in s.asm.assemblies && id in s.asm.sync &&
              s.asm.sync[id].revision == AssemblyRevisions(p.assemblies)[id]
    {
      StagedAssemblyRevision(env, m.asm, p.assemblies, id);
    }
    forall id | id in SchemaRevisions(p.schemas)
      ensures id in s.sch.payloads && s.sch.payloads[id].revision == SchemaRevisions(p.schemas)[id]
    {
      StagedSchemaRevision(m.sch, p.schemas, id);
    }
    forall id | id in DictionaryRevisions(p.dictionaries)
      ensures id in s.dictionaries && s.dictionaries[id].revision == DictionaryRevisions(p.dictionaries)[id]
    {
      StagedDictionaryRevision(m.dictionaries, p.dictionaries, id);
    }
  }

  /** After the staging loops the two dependency checks answer alike for every
      dependency: repeated ids, revision 0 and malformed names included. */
  lemma StagedCheckAgrees(env: Env, m: Mem, p: Payload, d: Dependency)
    requires Stage(env, m, p).complete
    ensures CheckStaged(Stage(env, m, p).mem, d, RevisionsOf(p)) == Check(Stage(env, m, p).mem, d)
  {
    hide Stage, RevisionsOf, ParseName;
    StageHasRevisions(env, m, p);
  }

  /** A dispatch that succeeds came as a confirm or correct record, so it never took
      the direct-state shortcut, and its whole dependency closure was available. */
  lemma DispatchedClosureHeld(env: Env, m: Mem, recordType: RecordType, item: U64, seqNo: nat, p: Payload)
    requires recordType == PredictiveConfirm || recordType == PredictiveCorrect
    requires ApplyDispatch(env, m, recordType, item, seqNo, p).ok
    ensures p.family != DirectState && Stage(env, m, p).complete
    ensures forall i :: 0 <= i < |p.closure| ==> Check(Stage(env, m, p).mem, p.closure[i]) == Available
    ensures var r := ApplyDispatch(env, m, recordType, item, seqNo, p).mem;
            item in r.items.cache && Some(r.items.cache[item]) == env.execute(Stage(env, m, p).mem, p)
  {
    hide Stage, CheckStaged, RevisionsOf, Check, EnqueueAll, DispatchAcks, Promote;
    var s := Stage(env, m, p);
    forall i | 0 <= i < |p.closure| ensures Check(s.mem, p.closure[i]) == Available {
      StagedCheckAgrees(env, m, p, p.closure[i]);
    }
  }
}
