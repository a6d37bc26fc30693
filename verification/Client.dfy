/** The client state as an object whose stores the records update in place. Each
    store is a record of the maps and logs of one plane. */
module Client {
  import opened Bytes
  import opened Wire
  import opened Ids
  import opened Graph
  import opened Memory
  import opened MemoryInvariant
  import opened DispatchProofs
  import opened MemoryPlanes
  import opened MemoryRuns

  lemma {:induction false} KeepTwice(defs: seq<Assembly>, a: set<U64>, b: set<U64>)
    ensures KeepAssemblies(KeepAssemblies(defs, a), b) == KeepAssemblies(defs, a + b)
  {
    if defs != [] {
      var prefix, last := defs[..|defs| - 1], defs[|defs| - 1];
      KeepTwice(prefix, a, b);
      if last.id !in a {
        var kept := KeepAssemblies(prefix, a);
        assert (kept + [last])[..|kept|] == kept;
      }
    }
  }

  lemma {:induction false} KeepSchemasTwice(defs: seq<SchemaDef>, a: set<U64>, b: set<U64>)
    ensures KeepSchemas(KeepSchemas(defs, a), b) == KeepSchemas(defs, a + b)
  {
    if defs != [] {
      var prefix, last := defs[..|defs| - 1], defs[|defs| - 1];
      KeepSchemasTwice(prefix, a, b);
      if last.schemaId !in a {
        var kept := KeepSchemas(prefix, a);
        assert (kept + [last])[..|kept|] == kept;
      }
    }
  }

  lemma MinusTwice<K, V>(m: map<K, V>, a: set<K>, b: set<K>)
    ensures (m - a) - b == m - (a + b)
  {
  }

  /** Removing ids one at a time removes them all. */
  lemma RemoveAssembliesTwice(s: AssemblyStore, a: set<U64>, b: set<U64>)
    ensures RemoveAssemblies(RemoveAssemblies(s, a), b) == RemoveAssemblies(s, a + b)
  {
    KeepTwice(s.defs, a, b);
    MinusTwice(s.assemblies, a, b);
    MinusTwice(s.sync, a, b);
    assert KeepNames(KeepNames(s.index, a), b) == KeepNames(s.index, a + b);
    hide KeepAssemblies, KeepNames;
  }

  lemma RemoveSchemasTwice(s: SchemaStore, a: set<U64>, b: set<U64>)
    ensures RemoveSchemas(RemoveSchemas(s, a), b) == RemoveSchemas(s, a + b)
  {
    KeepSchemasTwice(s.defs, a, b);
    MinusTwice(s.heads, a, b);
    MinusTwice(s.payloads, a, b);
    hide KeepSchemas;
  }

  lemma RemoveNothing(a: AssemblyStore, s: SchemaStore)
    ensures RemoveAssemblies(a, {}) == a
    ensures RemoveSchemas(s, {}) == s
  {
    KeepAllAssemblies(a.defs, {});
    KeepAllSchemas(s.defs, {});
    MinusExact(a.assemblies, {});
    MinusExact(a.sync, {});
    MinusExact(s.heads, {});
    MinusExact(s.payloads, {});
    assert KeepNames(a.index, {}) == a.index;
  }

  lemma {:induction false} EnqueueAllAppend(acks: seq<Ack>, a: seq<Ack>, b: seq<Ack>)
    ensures EnqueueAll(acks, a + b) == EnqueueAll(EnqueueAll(acks, a), b)
    decreases |a|
  {
    hide EnqueueAck;
    if a == [] {
      assert a + b == b;
    } else {
      EnqueueAllAppend(EnqueueAck(acks, a[0]), a[1..], b);
      assert (a + b)[1..] == a[1..] + b;
    }
  }

  lemma IdsOfPrefix(defs: seq<Assembly>, i: nat)
    requires i < |defs|
    ensures AssemblyIds(defs[..i + 1]) == AssemblyIds(defs[..i]) + {defs[i].id}
  {
    assert forall k :: 0 <= k < i ==> defs[..i + 1][k] == defs[..i][k];
    assert defs[..i + 1][i] == defs[i];
  }

  lemma SchemaIdsOfPrefix(defs: seq<SchemaDef>, i: nat)
    requires i < |defs|
    ensures SchemaIds(defs[..i + 1]) == SchemaIds(defs[..i]) + {defs[i].schemaId}
  {
    assert forall k :: 0 <= k < i ==> defs[..i + 1][k] == defs[..i][k];
    assert defs[..i + 1][i] == defs[i];
  }

  lemma DictionaryIdsOfPrefix(defs: seq<Dictionary>, i: nat)
    requires i < |defs|
    ensures DictionaryIds(defs[..i + 1]) == DictionaryIds(defs[..i]) + {defs[i].id}
  {
    assert forall k :: 0 <= k < i ==> defs[..i + 1][k] == defs[..i][k];
    assert defs[..i + 1][i] == defs[i];
  }

  // ---- The retain and collect loops ----

  method RetainAssemblies(defs: seq<Assembly>, id: U64) returns (kept: seq<Assembly>)
    ensures kept == KeepAssemblies(defs, {id})
  {
    kept := [];
    for i := 0 to |defs|
      invariant kept == KeepAssemblies(defs[..i], {id})
    {
      assert defs[..i + 1][..i] == defs[..i];
      if defs[i].id != id {
        kept := kept + [defs[i]];
      }
    }
    assert defs[..|defs|] == defs;
  }

  method RetainSchemas(defs: seq<SchemaDef>, id: U64) returns (kept: seq<SchemaDef>)
    ensures kept == KeepSchemas(defs, {id})
  {
    kept := [];
    for i := 0 to |defs|
      invariant kept == KeepSchemas(defs[..i], {id})
    {
      assert defs[..i + 1][..i] == defs[..i];
      if defs[i].schemaId != id {
        kept := kept + [defs[i]];
      }
    }
    assert defs[..|defs|] == defs;
  }

  method RetainSchemasUnnamed(defs: seq<SchemaDef>, objectId: string) returns (kept: seq<SchemaDef>)
    ensures kept == KeepSchemas(defs, NamedBare(LoggedIds(defs), objectId))
  {
    hide Dec;
    kept := [];
    for i := 0 to |defs|
      invariant kept == KeepSchemas(defs[..i], NamedBare(LoggedIds(defs), objectId))
    {
      assert defs[..i + 1][..i] == defs[..i];
      assert defs[i].schemaId in LoggedIds(defs);
      if Dec(defs[i].schemaId) != objectId {
        kept := kept + [defs[i]];
      }
    }
    assert defs[..|defs|] == defs;
  }

  method RetainHints(hints: seq<EpisodeHint>, objectId: string) returns (kept: seq<EpisodeHint>)
    ensures kept == KeepHints(hints, objectId)
  {
    hide Dec;
    kept := [];
    for i := 0 to |hints|
      invariant kept == KeepHints(hints[..i], objectId)
    {
      assert hints[..i + 1][..i] == hints[..i];
      if Dec(hints[i].contextHash) != objectId {
        kept := kept + [hints[i]];
      }
    }
    assert hints[..|hints|] == hints;
  }

  method RetainUnresolved(catalog: Catalog, cache: map<U64, Data>, requests: seq<RepairRequest>)
    returns (kept: seq<RepairRequest>)
    ensures kept == Unresolved(catalog, cache.Keys, requests)
  {
    hide IsResolved;
    kept := [];
    for i := 0 to |requests|
      invariant kept == Unresolved(catalog, cache.Keys, requests[..i])
    {
      assert requests[..i + 1][..i] == requests[..i];
      if !IsResolved(catalog, cache.Keys, requests[i]) {
        kept := kept + [requests[i]];
      }
    }
    assert requests[..|requests|] == requests;
  }

  /** Visits the entries in any order. */
  method RetainUnnamed<V>(m: map<U64, V>, objectId: string) returns (kept: map<U64, V>)
    ensures kept == m - NamedBare(m.Keys, objectId)
  {
    hide Dec;
    kept := m;
    var todo := m.Keys;
    while todo != {}
      invariant todo <= m.Keys
      invariant kept == m - NamedBare(m.Keys - todo, objectId)
      decreases |todo|
    {
      var id :| id in todo;
      todo := todo - {id};
      if Dec(id) == objectId {
        kept := kept - {id};
      }
    }
    assert m.Keys - {} == m.Keys;
  }

  method RetainNames(index: map<string, U64>, id: U64) returns (kept: map<string, U64>)
    ensures kept == KeepNames(index, {id})
  {
    kept := index;
    var todo := index.Keys;
    while todo != {}
      invariant todo <= index.Keys
      invariant kept == map name | name in index && (name in todo || index[name] != id) :: index[name]
      decreases |todo|
    {
      var name :| name in todo;
      todo := todo - {name};
      if index[name] == id {
        kept := kept - {name};
      }
    }
  }

  /** The items bound to a source hash, in any order. */
  method BoundTo(bindings: map<U64, SourceDescriptor>, hashHex: string) returns (ids: seq<U64>)
    ensures Listed(ids) == set id | id in bindings && bindings[id].hashHex == hashHex
  {
    ids := [];
    var todo := bindings.Keys;
    while todo != {}
      invariant todo <= bindings.Keys
      invariant forall id :: id in ids <==> id in bindings && id !in todo && bindings[id].hashHex == hashHex
      decreases |todo|
    {
      var id :| id in todo;
      todo := todo - {id};
      if bindings[id].hashHex == hashHex {
        ids := ids + [id];
      }
    }
  }

  function Listed(ids: seq<U64>): set<U64> {
    set id | id in ids
  }

  lemma RemoveItemsTwice(s: ItemStore, a: set<U64>, b: set<U64>)
    ensures RemoveItems(RemoveItems(s, a), b) == RemoveItems(s, a + b)
  {
    MinusTwice(s.cache, a, b);
    MinusTwice(s.predictors, a, b);
    MinusTwice(s.bindings, a, b);
  }

  lemma RemoveNoItems(s: ItemStore)
    ensures RemoveItems(s, {}) == s
  {
    MinusExact(s.cache, {});
    MinusExact(s.predictors, {});
    MinusExact(s.bindings, {});
  }

  // ---- What the methods keep ----

  lemma InstallStaysAgreed(env: Env, s: AssemblyStore, a: Assembly)
    ensures AssembliesAgree(env, s) && InstallAssembly(env, s, a).Some? ==>
            AssembliesAgree(env, InstallAssembly(env, s, a).value)
  {
    hide AssembliesAgree, InstallAssembly;
    if AssembliesAgree(env, s) && InstallAssembly(env, s, a).Some? {
      InstallKeeps(env, s, a);
    }
  }

  lemma RetireStaysAgreed(env: Env, s: AssemblyStore, objectId: string)
    ensures AssembliesAgree(env, s) ==> AssembliesAgree(env, RetireAssembly(s, objectId))
  {
    hide AssembliesAgree, RetireAssembly;
    if AssembliesAgree(env, s) {
      RetireKeeps(env, s, objectId);
    }
  }

  lemma RetireStaysValid(env: Env, m: Mem, plane: MemoryPlane, objectId: string)
    ensures Inv(env, m) ==> Inv(env, RetireObject(m, plane, objectId))
  {
    hide Inv, RetireObject;
    if Inv(env, m) {
      RetireObjectKeepsInv(env, m, plane, objectId);
    }
  }

  lemma ResyncStaysValid(env: Env, m: Mem, plane: MemoryPlane, resetPredictors: bool)
    ensures Inv(env, m) ==> Inv(env, ResyncPlane(m, plane, resetPredictors))
  {
    hide Inv, ResyncPlane;
    if Inv(env, m) {
      ResyncKeepsInv(env, m, plane, resetPredictors);
    }
  }

  lemma InstanceStaysValid(env: Env, m: Mem, item: U64, classId: U64, instance: nat)
    ensures Inv(env, m) ==> Inv(env, Apply(env, m, InstanceOf(item, classId, instance)).mem)
  {
    hide Inv, Apply;
    if Inv(env, m) {
      ApplyKeepsInv(env, m, InstanceOf(item, classId, instance));
    }
  }

  /** apply_trace: stop at the first record that fails. */
  function ApplyUntilError(env: Env, m: Mem, inputs: seq<Input>): Applied
    decreases |inputs|
  {
    if inputs == [] then Applied(m, true)
    else
      var r := Apply(env, m, inputs[0]);
      if r.ok then ApplyUntilError(env, r.mem, inputs[1..]) else r
  }

  /** The state after records applied one after the other, whatever each of them answers. */
  function AfterRecords(env: Env, m: Mem, inputs: seq<Input>): Mem {
    if inputs == [] then m
    else Apply(env, AfterRecords(env, m, inputs[..|inputs| - 1]), inputs[|inputs| - 1]).mem
  }

  /** The record with this number applies, after all before it. */
  ghost predicate AppliesAt(env: Env, m: Mem, inputs: seq<Input>, i: nat)
    requires i < |inputs|
  {
    Apply(env, AfterRecords(env, m, inputs[..i]), inputs[i]).ok
  }

  lemma {:induction false} AfterFirst(env: Env, m: Mem, inputs: seq<Input>)
    requires inputs != []
    ensures AfterRecords(env, m, inputs) == AfterRecords(env, Apply(env, m, inputs[0]).mem, inputs[1..])
  {
    hide Apply;
    if |inputs| > 1 {
      AfterFirst(env, m, inputs[..|inputs| - 1]);
      assert inputs[..|inputs| - 1][1..] == inputs[1..][..|inputs| - 2];
    } else {
      assert inputs[..0] == [] && inputs[1..] == [];
    }
  }

  /** A trace stops at its first record that does not apply, which leaves what it left; without one the
      trace applies as a whole. */
  lemma {:induction false} TraceStopsAtFailure(env: Env, m: Mem, inputs: seq<Input>, n: nat)
    requires n <= |inputs| && forall i :: 0 <= i < n ==> AppliesAt(env, m, inputs, i)
    requires n < |inputs| ==> !AppliesAt(env, m, inputs, n)
    ensures ApplyUntilError(env, m, inputs) ==
            if n < |inputs| then Applied(AfterRecords(env, m, inputs[..n + 1]), false)
            else Applied(AfterRecords(env, m, inputs), true)
    decreases |inputs|
  {
    hide Apply;
    if inputs != [] {
      var next, rest := Apply(env, m, inputs[0]).mem, inputs[1..];
      assert inputs[..0] == [];
      forall i | 0 <= i < |rest| ensures AppliesAt(env, next, rest, i) <==> AppliesAt(env, m, inputs, i + 1) {
        AfterFirst(env, m, inputs[..i + 1]);
        assert inputs[..i + 1][1..] == rest[..i] && rest[i] == inputs[i + 1];
      }
      AfterFirst(env, m, inputs);
      if n > 0 {
        assert AppliesAt(env, m, inputs, 0);
        TraceStopsAtFailure(env, next, rest, n - 1);
        if n < |inputs| {
          AfterFirst(env, m, inputs[..n + 1]);
          assert inputs[..n + 1][1..] == rest[..n];
        }
      } else {
        assert inputs[..1][..0] == [] && inputs[..1][0] == inputs[0];
      }
    }
  }

  class ClientState {
    const env: Env
    var items: ItemStore
    var catalog: Catalog
    var asm: AssemblyStore
    var tx: TransformStore
    var sch: SchemaStore
    var dictionaries: map<U64, Dictionary>
    var hints: seq<EpisodeHint>
    var acks: seq<Ack>
    var repairs: seq<RepairRequest>

    /** The stores as a value. */
    function Snapshot(): Mem
      reads this
    {
      Mem(items, catalog, asm, tx, sch, dictionaries, hints, acks, repairs)
    }

    ghost predicate Valid()
      reads this
    {
      Inv(env, Snapshot())
    }

    constructor (env: Env)
      ensures this.env == env && Snapshot() == EMPTY && Valid()
    {
      this.env := env;
      items, catalog, asm, tx, sch := NO_ITEMS, EMPTY_CATALOG, NO_ASSEMBLIES, NO_TRANSFORMS, NO_SCHEMAS;
      dictionaries, hints, acks, repairs := map[], [], [], [];
      new;
      EmptyInv(env);
      hide Inv;
    }

    method EnqueueMemoryAck(ack: Ack)
      modifies this`acks
      ensures acks == EnqueueAck(old(acks), ack)
    {
      for i := 0 to |acks|
        invariant acks == old(acks) && ack !in acks[..i]
      {
        if acks[i] == ack {
          return;
        }
        assert acks[..i + 1] == acks[..i] + [acks[i]];
      }
      assert acks[..|acks|] == acks;
      acks := acks + [ack];
    }

    method EnqueueRepairRequest(request: RepairRequest)
      modifies this`repairs
      ensures repairs == EnqueueRepair(old(repairs), request)
    {
      for i := 0 to |repairs|
        invariant repairs == old(repairs) && request !in repairs[..i]
      {
        if repairs[i] == request {
          return;
        }
        assert repairs[..i + 1] == repairs[..i] + [repairs[i]];
      }
      assert repairs[..|repairs|] == repairs;
      repairs := repairs + [request];
    }

    /** All pending acks, oldest first; none stays pending. */
    method TakePendingMemoryAcks() returns (taken: seq<Ack>)
      modifies this`acks
      ensures taken == old(acks) && Snapshot() == Step(env, old(Snapshot()), TakeAcks)
    {
      taken := acks;
      acks := [];
    }

    /** The oldest pending ack. */
    method PopNextMemoryAck() returns (next: Option<Ack>)
      modifies this`acks
      ensures Snapshot() == Step(env, old(Snapshot()), PopAck)
      ensures next.None? ==> old(acks) == [] && acks == []
      ensures next.Some? ==> old(acks) == [next.value] + acks
    {
      if acks == [] {
        return None;
      }
      next := Some(acks[0]);
      acks := acks[1..];
    }

    method TakePendingRepairRequests() returns (taken: seq<RepairRequest>)
      modifies this`repairs
      ensures taken == old(repairs) && Snapshot() == Step(env, old(Snapshot()), TakeRepairs)
    {
      taken := repairs;
      repairs := [];
    }

    /** The oldest pending repair request. */
    method PopNextRepairRequest() returns (next: Option<RepairRequest>)
      modifies this`repairs
      ensures Snapshot() == Step(env, old(Snapshot()), PopRepair)
      ensures next.None? ==> old(repairs) == [] && repairs == []
      ensures next.Some? ==> old(repairs) == [next.value] + repairs
    {
      if repairs == [] {
        return None;
      }
      next := Some(repairs[0]);
      repairs := repairs[1..];
    }

    /** Exactly the requests answered by the catalog or the cache are dropped. */
    method PruneResolvedRepairRequests()
      modifies this`repairs
      ensures Snapshot() == Prune(old(Snapshot()))
      ensures forall request ::
                request in repairs <==>
                request in old(repairs) && !IsResolved(catalog, items.cache.Keys, request)
    {
      hide Unresolved, IsResolved;
      forall request
        ensures request in Unresolved(catalog, items.cache.Keys, repairs) <==>
                request in repairs && !IsResolved(catalog, items.cache.Keys, request)
      {
        UnresolvedAre(catalog, items.cache.Keys, repairs, request);
      }
      repairs := RetainUnresolved(catalog, items.cache, repairs);
    }

    /** Enqueue a list of acks, one after the other. */
    method EnqueueAcks(more: seq<Ack>)
      modifies this`acks
      ensures acks == EnqueueAll(old(acks), more)
    {
      hide EnqueueAck;
      for i := 0 to |more|
        invariant EnqueueAll(acks, more[i..]) == EnqueueAll(old(acks), more)
      {
        assert more[i..][0] == more[i] && more[i..][1..] == more[i + 1..];
        EnqueueMemoryAck(more[i]);
      }
    }

    method InstallAssemblyPayload(a: Assembly) returns (ok: bool)
      modifies this`asm
      ensures var r := InstallAssembly(env, old(asm), a);
              ok == r.Some? && asm == if ok then r.value else old(asm)
      ensures old(AssembliesAgree(env, asm)) ==> AssembliesAgree(env, asm)
    {
      InstallStaysAgreed(env, asm, a);
      hide SignatureOf, AssemblyName, AssembliesAgree;
      if env.planLen(a) != a.bodyLen {
        return false;
      }
      asm := asm.(index := asm.index[AssemblyName(a.id) := a.id]);
      asm := asm.(sync := asm.sync[a.id := SignatureOf(env, a)]);
      asm := asm.(assemblies := asm.assemblies[a.id := a]);
      asm := asm.(cached := asm.cached[AssemblyName(a.id) := a]);
      asm := asm.(defs := asm.defs + [a]);
      return true;
    }

    method InstallSchemaPayload(def: SchemaDef)
      modifies this`sch
      ensures sch == InstallSchema(old(sch), def)
    {
      sch := sch.(heads := sch.heads[def.schemaId := HeadOf(def)]);
      sch := sch.(payloads := sch.payloads[def.schemaId := def]);
      sch := sch.(defs := sch.defs + [def]);
    }

    /** The id after the last colon leaves the four durable stores; an unreadable name changes nothing. */
    method RetireAssemblyObject(objectId: string)
      modifies this`asm
      ensures asm == RetireAssembly(old(asm), objectId)
      ensures ParseLast(objectId).None? ==> asm == old(asm)
      ensures ParseLast(objectId).Some? ==> AssemblyForgotten(old(asm), asm, ParseLast(objectId).value)
      ensures old(AssembliesAgree(env, asm)) ==> AssembliesAgree(env, asm)
    {
      RetiredAssemblyIsForgotten(asm, objectId);
      RetireStaysAgreed(env, asm, objectId);
      hide KeepAssemblies, AssemblyName, ParseLast, AssemblyForgotten, AssembliesAgree;
      var id := ParseLast(objectId);
      if id.None? {
        return;
      }
      asm := asm.(assemblies := asm.assemblies - {id.value});
      asm := asm.(index := asm.index - {AssemblyName(id.value)});
      asm := asm.(sync := asm.sync - {id.value});
      var defs := RetainAssemblies(asm.defs, id.value);
      asm := asm.(defs := defs);
    }

    method RetireItems(objectId: string)
      modifies this`items
      ensures items == RemoveItems(old(items), ItemsNamed(old(items), objectId))
    {
      hide ParseItemId;
      var item := ParseItemId(objectId);
      if item.Some? {
        items := items.(cache := items.cache - {item.value});
        items := items.(predictors := items.predictors - {item.value});
        items := items.(bindings := items.bindings - {item.value});
        return;
      }
      var retired := BoundTo(items.bindings, objectId);
      ghost var before := items;
      ghost var gone: set<U64> := {};
      RemoveNoItems(before);
      for i := 0 to |retired|
        invariant gone == Listed(retired[..i]) && items == RemoveItems(before, gone)
      {
        assert retired[..i + 1] == retired[..i] + [retired[i]];
        RemoveItemsTwice(before, gone, {retired[i]});
        items := items.(cache := items.cache - {retired[i]});
        items := items.(predictors := items.predictors - {retired[i]});
        items := items.(bindings := items.bindings - {retired[i]});
        gone := gone + {retired[i]};
      }
      assert retired[..|retired|] == retired;
    }

    /** The plane's stores forget the object, and nothing else changes. */
    method RetireMemoryObject(plane: MemoryPlane, objectId: string)
      modifies this
      ensures Snapshot() == RetireObject(old(Snapshot()), plane, objectId)
      ensures Forgotten(old(Snapshot()), Snapshot(), plane, objectId)
      ensures old(Valid()) ==> Valid()
    {
      RetiredIsForgotten(Snapshot(), plane, objectId);
      RetireStaysValid(env, Snapshot(), plane, objectId);
      hide KeepHints, ItemsNamed, RetireAssembly, KeepSchemas, NamedBare, LoggedIds, AssemblyForgotten, Forgotten,
        Inv, AssembliesAgree, ParseLast;
      match plane
      case AtomSubstratePlane =>
        RetireItems(objectId);
        PruneResolvedRepairRequests();
      case AssemblyPlane => RetireAssemblyObject(objectId);
      case TransformPlane =>
        var classes := RetainUnnamed(tx.classes, objectId);
        tx := tx.(classes := classes);
        var materialized := RetainUnnamed(tx.materialized, objectId);
        tx := tx.(materialized := materialized);
      case EpisodePlane => hints := RetainHints(hints, objectId);
      case SchemaPlane =>
        var heads := RetainUnnamed(sch.heads, objectId);
        sch := sch.(heads := heads);
        var payloads := RetainUnnamed(sch.payloads, objectId);
        sch := sch.(payloads := payloads);
        var defs := RetainSchemasUnnamed(sch.defs, objectId);
        sch := sch.(defs := defs);
      case ControllerPlane =>
    }

    /** Exactly the plane's own stores and, for the substrate, all that rest on it are emptied. */
    method Resync(plane: MemoryPlane, resetPredictors: bool)
      modifies this
      ensures Snapshot() == ResyncPlane(old(Snapshot()), plane, resetPredictors)
      ensures Resynced(old(Snapshot()), Snapshot(), plane, resetPredictors)
      ensures old(Valid()) ==> Valid()
    {
      ResyncIsTheTable(Snapshot(), ResyncPlane(Snapshot(), plane, resetPredictors), plane, resetPredictors);
      ResyncStaysValid(env, Snapshot(), plane, resetPredictors);
      hide Resynced, Inv;
      match plane {
        case AtomSubstratePlane =>
          items := items.(cache := map[], bindings := map[]);
          catalog, dictionaries := EMPTY_CATALOG, map[];
          asm, tx, sch, hints := NO_ASSEMBLIES, NO_TRANSFORMS, NO_SCHEMAS, [];
        case AssemblyPlane => asm := NO_ASSEMBLIES;
        case TransformPlane => tx := NO_TRANSFORMS;
        case EpisodePlane => hints := [];
        case SchemaPlane => sch := NO_SCHEMAS;
        case ControllerPlane =>
      }
      if resetPredictors {
        items := items.(predictors := map[]);
      }
      acks := [];
    }

    /** Cache, promote and describe the bytes of an item. */
    method MaterializeItem(input: Input, item: U64, bytes: Data, promote: bool)
      modifies this`items, this`catalog
      ensures Snapshot() == Materialize(env, old(Snapshot()), input, item, bytes, promote)
    {
      hide Promote;
      var p := env.describe(Snapshot(), input, item, bytes);
      items := items.(cache := items.cache[item := bytes]);
      if promote {
        catalog := Promote(env, catalog, p.kind, bytes);
      }
      items := items.(predictors := items.predictors[item := p]);
    }

    // ---- The predictive dispatch ----

    /** The assembly loop: install until one is refused. */
    method StageInlineAssemblies(defs: seq<Assembly>) returns (n: nat)
      modifies this`asm
      ensures n == Installable(env, defs)
      ensures asm == StageAssemblies(env, old(asm), defs[..n])
    {
      n := 0;
      assert defs[0..] == defs;
      while n < |defs|
        invariant n <= |defs|
        invariant Installable(env, defs) == n + Installable(env, defs[n..])
        invariant asm == StageAssemblies(env, old(asm), defs[..n])
      {
        assert defs[n..][0] == defs[n] && defs[n..][1..] == defs[n + 1..];
        assert defs[..n + 1][..n] == defs[..n];
        var ok := InstallAssemblyPayload(defs[n]);
        if !ok {
          return;
        }
        n := n + 1;
      }
    }

    method StageInlineSchemas(defs: seq<SchemaDef>)
      modifies this`sch
      ensures sch == StageSchemas(old(sch), defs)
    {
      hide InstallSchema;
      for i := 0 to |defs|
        invariant sch == StageSchemas(old(sch), defs[..i])
      {
        assert defs[..i + 1][..i] == defs[..i];
        InstallSchemaPayload(defs[i]);
      }
      assert defs[..|defs|] == defs;
    }

    method StageInlineDictionaries(defs: seq<Dictionary>)
      modifies this`dictionaries
      ensures dictionaries == StageDictionaries(old(dictionaries), defs)
    {
      for i := 0 to |defs|
        invariant dictionaries == StageDictionaries(old(dictionaries), defs[..i])
      {
        assert defs[..i + 1][..i] == defs[..i];
        dictionaries := dictionaries[defs[i].id := defs[i]];
      }
      assert defs[..|defs|] == defs;
    }

    method StageInlineHints(more: seq<EpisodeHint>)
      modifies this`hints
      ensures hints == old(hints) + more
    {
      for i := 0 to |more|
        invariant hints == old(hints) + more[..i]
      {
        assert more[..i + 1] == more[..i] + [more[i]];
        hints := hints + [more[i]];
      }
      assert more[..|more|] == more;
    }

    method StageInline(p: Payload) returns (staged: Staged)
      modifies this
      ensures staged == Stage(env, old(Snapshot()), p)
      ensures Snapshot() == staged.mem
    {
      hide StageAssemblies, StageSchemas, StageDictionaries, Installable;
      var n := StageInlineAssemblies(p.assemblies);
      if n < |p.assemblies| {
        return Staged(Snapshot(), p.assemblies[..n], [], [], [], false);
      }
      StageInlineSchemas(p.schemas);
      StageInlineDictionaries(p.dictionaries);
      StageInlineHints(p.hints);
      return Staged(Snapshot(), p.assemblies, p.schemas, p.dictionaries, p.hints, true);
    }

    method RemoveStagedAssemblies(defs: seq<Assembly>)
      modifies this`asm
      ensures asm == RemoveAssemblies(old(asm), AssemblyIds(defs))
    {
      ghost var before := asm;
      RemoveNothing(before, sch);
      assert AssemblyIds(defs[..0]) == {};
      for i := 0 to |defs|
        invariant asm == RemoveAssemblies(before, AssemblyIds(defs[..i]))
      {
        var id := defs[i].id;
        IdsOfPrefix(defs, i);
        RemoveAssembliesTwice(before, AssemblyIds(defs[..i]), {id});
        ghost var here := asm;
        hide KeepAssemblies, AssemblyIds, KeepNames;
        asm := asm.(assemblies := asm.assemblies - {id});
        var kept := RetainAssemblies(asm.defs, id);
        asm := asm.(defs := kept);
        var index := RetainNames(asm.index, id);
        asm := asm.(index := index);
        asm := asm.(sync := asm.sync - {id});
        assert asm == RemoveAssemblies(here, {id});
      }
      assert defs[..|defs|] == defs;
    }

    method RemoveStagedSchemas(defs: seq<SchemaDef>)
      modifies this`sch
      ensures sch == RemoveSchemas(old(sch), SchemaIds(defs))
    {
      ghost var before := sch;
      RemoveNothing(asm, before);
      assert SchemaIds(defs[..0]) == {};
      for i := 0 to |defs|
        invariant sch == RemoveSchemas(before, SchemaIds(defs[..i]))
      {
        var id := defs[i].schemaId;
        SchemaIdsOfPrefix(defs, i);
        RemoveSchemasTwice(before, SchemaIds(defs[..i]), {id});
        ghost var here := sch;
        hide KeepSchemas, SchemaIds;
        sch := sch.(heads := sch.heads - {id});
        sch := sch.(payloads := sch.payloads - {id});
        var kept := RetainSchemas(sch.defs, id);
        sch := sch.(defs := kept);
        assert sch == RemoveSchemas(here, {id});
      }
      assert defs[..|defs|] == defs;
    }

    method RemoveStagedDictionaries(defs: seq<Dictionary>)
      modifies this`dictionaries
      ensures dictionaries == old(dictionaries) - DictionaryIds(defs)
    {
      assert DictionaryIds(defs[..0]) == {};
      for i := 0 to |defs|
        invariant dictionaries == old(dictionaries) - DictionaryIds(defs[..i])
      {
        DictionaryIdsOfPrefix(defs, i);
        MinusTwice(old(dictionaries), DictionaryIds(defs[..i]), {defs[i].id});
        dictionaries := dictionaries - {defs[i].id};
      }
      assert defs[..|defs|] == defs;
    }

    method RollBack(staged: Staged)
      requires Snapshot() == staged.mem
      modifies this
      ensures Snapshot() == Rollback(staged)
    {
      hide RemoveAssemblies, RemoveSchemas, AssemblyIds, SchemaIds, DictionaryIds;
      RemoveStagedAssemblies(staged.assemblies);
      RemoveStagedSchemas(staged.schemas);
      RemoveStagedDictionaries(staged.dictionaries);
      if |staged.hints| > 0 && |hints| >= |staged.hints| {
        hints := hints[..|hints| - |staged.hints|];
      }
    }

    /** The first unavailable dependency decides; the route only runs without one. */
    method DispatchPayload(p: Payload) returns (bytes: Option<Data>)
      ensures bytes == DispatchBody(env, Snapshot(), p)
    {
      hide CheckStaged, RevisionsOf;
      if p.family == DirectState {
        var direct := env.directAssembly(Snapshot(), p);
        if direct.Some? {
          return direct;
        }
      }
      for i := 0 to |p.closure|
        invariant forall k :: 0 <= k < i ==> CheckStaged(Snapshot(), p.closure[k], RevisionsOf(p)) == Available
      {
        if CheckStaged(Snapshot(), p.closure[i], RevisionsOf(p)) != Available {
          return None;
        }
      }
      return env.execute(Snapshot(), p);
    }

    method ApplyPredictiveDispatchRecord(recordType: RecordType, item: U64, seqNo: nat, p: Payload) returns (ok: bool)
      modifies this
      ensures var r := ApplyDispatch(env, old(Snapshot()), recordType, item, seqNo, p);
              Snapshot() == r.mem && ok == r.ok
    {
      hide Stage, Rollback, DispatchBody, Materialize, EnqueueAll, AssemblyAcks, SchemaAcks, DictionaryAcks;
      if recordType != p.family.DispatchRecordType() {
        return false;
      }
      var staged := StageInline(p);
      var bytes: Option<Data> := None;
      if staged.complete {
        bytes := DispatchPayload(p);
      }
      if bytes.None? {
        RollBack(staged);
        return false;
      }
      MaterializeItem(Dispatch(recordType, item, seqNo, p), item, bytes.value, true);
      var a := AssemblyAcks(p.assemblies, recordType, seqNo);
      var s := SchemaAcks(p.schemas, recordType, seqNo);
      var d := DictionaryAcks(p.dictionaries, recordType, seqNo);
      EnqueueAllAppend(acks, a + s, d);
      EnqueueAllAppend(acks, a, s);
      EnqueueAcks(a);
      EnqueueAcks(s);
      EnqueueAcks(d);
      return true;
    }

    // ---- Any record, any trace ----

    method ApplyBatch(batch: seq<(U64, Data)>)
      modifies this`items
      ensures items == old(items).(cache := CacheAll(old(items).cache, batch))
    {
      for i := 0 to |batch|
        invariant items == old(items).(cache := items.cache)
        invariant CacheAll(items.cache, batch[i..]) == CacheAll(old(items).cache, batch)
      {
        assert batch[i..][0] == batch[i] && batch[i..][1..] == batch[i + 1..];
        items := items.(cache := items.cache[batch[i].0 := batch[i].1]);
      }
    }

    method ApplyTransformInstance(item: U64, classId: U64, instance: nat) returns (ok: bool)
      modifies this
      ensures var r := Apply(env, old(Snapshot()), InstanceOf(item, classId, instance));
              Snapshot() == r.mem && ok == r.ok
      ensures old(Valid()) ==> Valid()
      ensures ok ==> classId in tx.materialized && items.cache == old(items.cache)[item := tx.materialized[classId]]
      ensures !ok ==> Snapshot() == old(Snapshot())
    {
      InstanceStaysValid(env, Snapshot(), item, classId, instance);
      hide Inv;
      if classId !in tx.classes {
        return false;
      }
      var bytes := env.applyTransform(catalog, tx.classes[classId], instance);
      if bytes.None? {
        return false;
      }
      tx := tx.(materialized := tx.materialized[classId := bytes.value]);
      MaterializeItem(InstanceOf(item, classId, instance), item, bytes.value, false);
      return true;
    }

    /** Exact data, batches, evictions and invalidations. */
    method ApplyDataRecord(input: Input) returns (ok: bool)
      requires input.ExactData? || input.BatchData? || input.DropItem?
      modifies this
      ensures var r := Apply(env, old(Snapshot()), input);
              Snapshot() == r.mem && ok == r.ok
    {
      hide Materialize, CacheAll, Unresolved, IsResolved, ApplyDispatch;
      match input
      case ExactData(item, raw) =>
        var bytes := env.decodeData(Snapshot(), item, raw);
        if bytes.None? {
          return false;
        }
        MaterializeItem(input, item, bytes.value, true);
        PruneResolvedRepairRequests();
        return true;
      case DropItem(item) =>
        items := ItemStore(items.cache - {item}, items.predictors - {item}, items.bindings - {item});
        PruneResolvedRepairRequests();
        return true;
      case BatchData(batch) =>
        ApplyBatch(batch);
        return true;
    }

    method ApplyRepairRecord(input: Input) returns (ok: bool)
      requires input.RepairAsked? || input.CatalogRepair?
      modifies this
      ensures var r := Apply(env, old(Snapshot()), input);
              Snapshot() == r.mem && ok == r.ok
    {
      hide Unresolved, IsResolved, ApplyDispatch;
      match input
      case RepairAsked(request) =>
        EnqueueRepairRequest(request);
        return true;
      case CatalogRepair(sync) =>
        var synced := env.applySync(catalog, sync);
        if synced.None? {
          return false;
        }
        catalog := synced.value;
        PruneResolvedRepairRequests();
        return true;
    }

    /** Definitions, hints, source bindings, and records that change nothing. */
    method ApplyPlainRecord(input: Input) returns (ok: bool)
      requires input.Undecodable? || input.Control? || input.SourceMetaFor? || input.DefineAssembly? ||
               input.DefineTransform? || input.DefineSchema? || input.Hint? || input.Replay?
      modifies this
      ensures var r := Apply(env, old(Snapshot()), input);
              Snapshot() == r.mem && ok == r.ok
    {
      hide ApplyDispatch, InstallAssembly, InstallSchema, EnqueueAck, ReplayAck, AssembliesAgree;
      match input
      case Undecodable => return false;
      case Control => return true;
      case SourceMetaFor(item, descriptor) =>
        items := items.(bindings := items.bindings[item := descriptor]);
        return true;
      case DefineAssembly(a) => ok := InstallAssemblyPayload(a);
      case DefineTransform(c) =>
        tx := tx.(classes := tx.classes[c.id := c]);
        return true;
      case DefineSchema(def) =>
        InstallSchemaPayload(def);
        return true;
      case Hint(hint) =>
        hints := hints + [hint];
        return true;
      case Replay(seqNo, hint) =>
        EnqueueMemoryAck(ReplayAck(seqNo, hint));
        hints := hints + [hint];
        return true;
    }

    /** Acks the retirement, then retires. */
    method ApplyMemoryRetireRecord(seqNo: nat, plane: MemoryPlane, kind: ObjectKind, objectId: string)
      modifies this
      ensures Snapshot() == Apply(env, old(Snapshot()), Retire(seqNo, plane, kind, objectId)).mem
    {
      hide RetireObject, EnqueueAck, Forgotten, Inv;
      EnqueueMemoryAck(Ack(plane, kind, objectId, MemoryRetire, seqNo));
      RetireMemoryObject(plane, objectId);
    }

    /** An empty resync payload. */
    method ClearAllPlanes()
      modifies this
      ensures Snapshot() == EMPTY.(repairs := old(repairs))
    {
      items, catalog, dictionaries := NO_ITEMS, EMPTY_CATALOG, map[];
      asm, tx, sch, hints, acks := NO_ASSEMBLIES, NO_TRANSFORMS, NO_SCHEMAS, [], [];
    }

    method ApplyResyncRecord(input: Input)
      requires input.FullResync? || input.PlaneResync?
      modifies this
      ensures Snapshot() == Apply(env, old(Snapshot()), input).mem
    {
      hide ResyncPlane, Resynced, Inv;
      match input
      case FullResync => ClearAllPlanes();
      case PlaneResync(plane, resetPredictors) => Resync(plane, resetPredictors);
    }

    /** Only confirm and correct records are dispatched. */
    method RouteDispatch(input: Input) returns (ok: bool)
      requires input.Dispatch?
      modifies this
      ensures var r := Apply(env, old(Snapshot()), input);
              Snapshot() == r.mem && ok == r.ok
    {
      hide ApplyDispatch;
      if input.recordType != PredictiveConfirm && input.recordType != PredictiveCorrect {
        return false;
      }
      ok := ApplyPredictiveDispatchRecord(input.recordType, input.item, input.seqNo, input.payload);
    }

    lemma AlwaysApplied(m: Mem, input: Input)
      requires input.Retire? || input.FullResync? || input.PlaneResync?
      ensures Apply(env, m, input).ok
    {
    }

    method ApplyRecord(input: Input) returns (ok: bool)
      requires Valid()
      modifies this
      ensures var r := Apply(env, old(Snapshot()), input);
              Snapshot() == r.mem && ok == r.ok
      ensures Valid()
    {
      ApplyKeepsInv(env, Snapshot(), input);
      hide Inv, Apply;
      match input
      case ExactData(_, _) => ok := ApplyDataRecord(input);
      case BatchData(_) => ok := ApplyDataRecord(input);
      case DropItem(_) => ok := ApplyDataRecord(input);
      case RepairAsked(_) => ok := ApplyRepairRecord(input);
      case CatalogRepair(_) => ok := ApplyRepairRecord(input);
      case Dispatch(_, _, _, _) => ok := RouteDispatch(input);
      case InstanceOf(item, classId, instance) => ok := ApplyTransformInstance(item, classId, instance);
      case Retire(seqNo, plane, kind, objectId) =>
        AlwaysApplied(Snapshot(), input);
        ApplyMemoryRetireRecord(seqNo, plane, kind, objectId);
        return true;
      case FullResync =>
        AlwaysApplied(Snapshot(), input);
        ApplyResyncRecord(input);
        return true;
      case PlaneResync(_, _) =>
        AlwaysApplied(Snapshot(), input);
        ApplyResyncRecord(input);
        return true;
      case _ => ok := ApplyPlainRecord(input);
    }

    /** A trace stops at its first failing record. */
    method ApplyTrace(inputs: seq<Input>) returns (ok: bool)
      requires Valid()
      modifies this
      ensures Valid()
      ensures var r := ApplyUntilError(env, old(Snapshot()), inputs);
              Snapshot() == r.mem && ok == r.ok
    {
      hide Inv, Apply;
      for i := 0 to |inputs|
        invariant Valid()
        invariant ApplyUntilError(env, Snapshot(), inputs[i..]) == ApplyUntilError(env, old(Snapshot()), inputs)
      {
        assert inputs[i..][0] == inputs[i] && inputs[i..][1..] == inputs[i + 1..];
        ok := ApplyRecord(inputs[i]);
        if !ok {
          return;
        }
      }
      return true;
    }
  }
}
