/** What retiring an object and resyncing a plane mean, store by store. */
module MemoryPlanes {
  import opened Bytes
  import opened Wire
  import opened Ids
  import opened Graph
  import opened Memory
  import opened MemoryInvariant

  /** The ids in `gone` have no entry left, every other entry is as before. */
  ghost predicate KeptUnless<V>(before: map<U64, V>, after: map<U64, V>, gone: U64 -> bool) {
    forall id :: Lookup(after, id) == if gone(id) then None else Lookup(before, id)
  }

  // ---- Assemblies ----

  /** The definitions of one id, in the order they were logged. */
  function DefsOf(defs: seq<Assembly>, id: U64): seq<Assembly> {
    if defs == [] then []
    else DefsOf(defs[..|defs| - 1], id) + if defs[|defs| - 1].id == id then [defs[|defs| - 1]] else []
  }

  /** None of the durable stores knows the assembly, and they know the others as before. */
  ghost predicate AssemblyForgotten(before: AssemblyStore, after: AssemblyStore, id: U64) {
    && KeptUnless(before.assemblies, after.assemblies, (other: U64) => other == id)
    && KeptUnless(before.sync, after.sync, (other: U64) => other == id)
    && AssemblyName(id) !in after.index
    && (forall name :: name != AssemblyName(id) ==>
          (name in after.index <==> name in before.index) &&
          (name in before.index ==> after.index[name] == before.index[name]))
    && (forall other :: DefsOf(after.defs, other) == if other == id then [] else DefsOf(before.defs, other))
    && after.cached == before.cached
  }

  lemma {:induction false} KeptDefsOf(defs: seq<Assembly>, ids: set<U64>, id: U64)
    ensures DefsOf(KeepAssemblies(defs, ids), id) == if id in ids then [] else DefsOf(defs, id)
  {
    if defs != [] {
      var prefix, last := defs[..|defs| - 1], defs[|defs| - 1];
      KeptDefsOf(prefix, ids, id);
      if last.id !in ids {
        var kept := KeepAssemblies(prefix, ids);
        assert (kept + [last])[..|kept|] == kept;
      }
    }
  }

  lemma RetiredAssemblyIsForgotten(s: AssemblyStore, objectId: string)
    ensures ParseLast(objectId).Some? ==> AssemblyForgotten(s, RetireAssembly(s, objectId), ParseLast(objectId).value)
    ensures ParseLast(objectId).None? ==> RetireAssembly(s, objectId) == s
  {
    hide ParseLast, AssemblyName, KeepAssemblies, DefsOf;
    if ParseLast(objectId).Some? {
      var id := ParseLast(objectId).value;
      forall other
        ensures DefsOf(KeepAssemblies(s.defs, {id}), other) == if other == id then [] else DefsOf(s.defs, other)
      {
        KeptDefsOf(s.defs, {id}, other);
      }
    }
  }

  // ---- Retiring ----

  /** The items a substrate retirement names: one by its canonical name, or all bound to a source hash. */
  predicate NamesItem(s: ItemStore, objectId: string, id: U64) {
    if ParseItemId(objectId).Some? then id == ParseItemId(objectId).value
    else id in s.bindings && s.bindings[id].hashHex == objectId
  }

  ghost predicate ItemsForgotten(before: ItemStore, after: ItemStore, objectId: string) {
    && KeptUnless(before.cache, after.cache, (id: U64) => NamesItem(before, objectId, id))
    && KeptUnless(before.predictors, after.predictors, (id: U64) => NamesItem(before, objectId, id))
    && KeptUnless(before.bindings, after.bindings, (id: U64) => NamesItem(before, objectId, id))
  }

  ghost predicate TransformForgotten(before: TransformStore, after: TransformStore, objectId: string) {
    && KeptUnless(before.classes, after.classes, (id: U64) => Dec(id) == objectId)
    && KeptUnless(before.materialized, after.materialized, (id: U64) => Dec(id) == objectId)
  }

  ghost predicate SchemaForgotten(before: SchemaStore, after: SchemaStore, objectId: string) {
    && KeptUnless(before.heads, after.heads, (id: U64) => Dec(id) == objectId)
    && KeptUnless(before.payloads, after.payloads, (id: U64) => Dec(id) == objectId)
    && forall def :: def in after.defs <==> def in before.defs && Dec(def.schemaId) != objectId
  }

  ghost predicate HintForgotten(before: seq<EpisodeHint>, after: seq<EpisodeHint>, objectId: string) {
    forall hint :: hint in after <==> hint in before && Dec(hint.contextHash) != objectId
  }

  /** The requests that neither the catalog nor the items kept answer. */
  ghost predicate StillAsked(before: Mem, after: Mem) {
    forall request ::
      request in after.repairs <==>
      request in before.repairs && !IsResolved(before.catalog, after.items.cache.Keys, request)
  }

  /** The stores of the named plane forget the object; every other store is as before. */
  ghost predicate Forgotten(before: Mem, after: Mem, plane: MemoryPlane, objectId: string) {
    && (if plane == AtomSubstratePlane then ItemsForgotten(before.items, after.items, objectId)
        else after.items == before.items)
    && (if plane == AssemblyPlane && ParseLast(objectId).Some? then
          AssemblyForgotten(before.asm, after.asm, ParseLast(objectId).value)
        else after.asm == before.asm)
    && (if plane == TransformPlane then TransformForgotten(before.tx, after.tx, objectId) else after.tx == before.tx)
    && (if plane == SchemaPlane then SchemaForgotten(before.sch, after.sch, objectId) else after.sch == before.sch)
    && (if plane == EpisodePlane then HintForgotten(before.hints, after.hints, objectId)
        else after.hints == before.hints)
    && (if plane == AtomSubstratePlane then StillAsked(before, after) else after.repairs == before.repairs)
    && after.catalog == before.catalog && after.dictionaries == before.dictionaries && after.acks == before.acks
  }

  lemma {:induction false} KeptSchemaDefs(defs: seq<SchemaDef>, ids: set<U64>, def: SchemaDef)
    ensures def in KeepSchemas(defs, ids) <==> def in defs && def.schemaId !in ids
  {
    if defs != [] {
      var prefix, last := defs[..|defs| - 1], defs[|defs| - 1];
      KeptSchemaDefs(prefix, ids, def);
      assert defs == prefix + [last];
    }
  }

  lemma {:induction false} KeptHints(hints: seq<EpisodeHint>, objectId: string, hint: EpisodeHint)
    ensures hint in KeepHints(hints, objectId) <==> hint in hints && Dec(hint.contextHash) != objectId
  {
    hide Dec;
    if hints != [] {
      var prefix, last := hints[..|hints| - 1], hints[|hints| - 1];
      KeptHints(prefix, objectId, hint);
      assert hints == prefix + [last];
    }
  }

  lemma RetiredSchemaIsForgotten(s: SchemaStore, objectId: string)
    ensures SchemaForgotten(s, RetireSchema(s, objectId), objectId)
  {
    hide Dec, KeepSchemas;
    forall def ensures def in RetireSchema(s, objectId).defs <==> def in s.defs && Dec(def.schemaId) != objectId {
      KeptSchemaDefs(s.defs, NamedBare(LoggedIds(s.defs), objectId), def);
    }
  }

  lemma RetiredItemsAreForgotten(m: Mem, objectId: string)
    ensures var after := RetireObject(m, AtomSubstratePlane, objectId);
            ItemsForgotten(m.items, after.items, objectId) && StillAsked(m, after)
  {
    hide ParseItemId, IsResolved, Unresolved;
    var after := RetireObject(m, AtomSubstratePlane, objectId);
    forall request
      ensures request in after.repairs <==>
              request in m.repairs && !IsResolved(m.catalog, after.items.cache.Keys, request)
    {
      UnresolvedAre(m.catalog, after.items.cache.Keys, m.repairs, request);
    }
  }

  lemma RetiredIsForgotten(m: Mem, plane: MemoryPlane, objectId: string)
    ensures Forgotten(m, RetireObject(m, plane, objectId), plane, objectId)
  {
    hide Dec, ItemsNamed, ParseLast, RetireAssembly, RetireSchema, KeepHints, AssemblyForgotten, SchemaForgotten,
      ItemsForgotten, StillAsked, Unresolved;
    match plane
    case AtomSubstratePlane => RetiredItemsAreForgotten(m, objectId);
    case AssemblyPlane => RetiredAssemblyIsForgotten(m.asm, objectId);
    case SchemaPlane => RetiredSchemaIsForgotten(m.sch, objectId);
    case EpisodePlane =>
      forall hint
        ensures hint in KeepHints(m.hints, objectId) <==> hint in m.hints && Dec(hint.contextHash) != objectId
      {
        KeptHints(m.hints, objectId, hint);
      }
    case _ =>
  }

  // ---- Resyncing ----

  /** A store is emptied by a resync of its own plane and of the substrate all others rest on. */
  predicate Emptied(plane: MemoryPlane, owner: MemoryPlane) {
    plane == owner || plane == AtomSubstratePlane
  }

  /** Which stores a resync empties; all others are as before. */
  ghost predicate Resynced(before: Mem, after: Mem, plane: MemoryPlane, resetPredictors: bool) {
    && after.items.cache == (if Emptied(plane, AtomSubstratePlane) then map[] else before.items.cache)
    && after.items.bindings == (if Emptied(plane, AtomSubstratePlane) then map[] else before.items.bindings)
    && after.catalog == (if Emptied(plane, AtomSubstratePlane) then EMPTY_CATALOG else before.catalog)
    && after.dictionaries == (if Emptied(plane, AtomSubstratePlane) then map[] else before.dictionaries)
    && after.asm == (if Emptied(plane, AssemblyPlane) then NO_ASSEMBLIES else before.asm)
    && after.tx == (if Emptied(plane, TransformPlane) then NO_TRANSFORMS else before.tx)
    && after.sch == (if Emptied(plane, SchemaPlane) then NO_SCHEMAS else before.sch)
    && after.hints == (if Emptied(plane, EpisodePlane) then [] else before.hints)
    && after.items.predictors == (if resetPredictors then map[] else before.items.predictors)
    && after.acks == []
    && after.repairs == before.repairs
  }

  /** The table says everything about a resync. */
  lemma ResyncIsTheTable(m: Mem, after: Mem, plane: MemoryPlane, resetPredictors: bool)
    ensures Resynced(m, after, plane, resetPredictors) <==> after == ResyncPlane(m, plane, resetPredictors)
  {
  }

  /** The table that documents the stores has every one of them cleared when the substrate is
      invalidated. That is so if and only if the predictors are reset or were empty and no repair
      request was pending. */
  lemma SubstrateResyncEmptiesAll(m: Mem, resetPredictors: bool)
    ensures ResyncPlane(m, AtomSubstratePlane, resetPredictors) == EMPTY <==>
            (resetPredictors || m.items.predictors == map[]) && m.repairs == []
  {
  }
}
