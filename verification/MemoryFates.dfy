/** What each record does to each definition and each cached item, and so where the
    contents of the stores come from over a whole run. */
module MemoryFates {
  import opened Bytes
  import opened Wire
  import opened Ids
  import opened Graph
  import opened Memory
  import opened MemoryInvariant
  import opened DispatchProofs
  import opened MemoryRuns

  datatype Fate<T> = Kept | Given(value: T) | Gone

  function After<T>(before: Option<T>, fate: Fate<T>): Option<T> {
    match fate
    case Kept => before
    case Given(value) => Some(value)
    case Gone => None
  }

  /** The record is a dispatch that gets as far as staging. */
  predicate Staging(input: Input) {
    && input.Dispatch?
    && IsPredictive(input.recordType)
    && input.recordType == input.payload.family.DispatchRecordType()
  }

  /** What is under an id after a run: the last record that touched the id decides. */
  function History<T>(env: Env, events: seq<Event>, fate: (Mem, Input) -> Fate<T>): Option<T> {
    if events == [] then None
    else
      var before, last := events[..|events| - 1], events[|events| - 1];
      var earlier := History(env, before, fate);
      if last.Arrives? then After(earlier, fate(Run(env, before), last.input)) else earlier
  }

  /** A store whose content every record changes as its fate says is its own history. */
  lemma {:induction false} StoreIsItsHistory<T>(env: Env, events: seq<Event>, look: Mem -> Option<T>,
          fate: (Mem, Input) -> Fate<T>)
    requires look(EMPTY) == None
    requires forall m, input :: Inv(env, m) ==> look(Apply(env, m, input).mem) == After(look(m), fate(m, input))
    requires forall m: Mem, acks :: look(m.(acks := acks)) == look(m)
    requires forall m: Mem, repairs :: look(m.(repairs := repairs)) == look(m)
    ensures look(Run(env, events)) == History(env, events, fate)
  {
    hide Apply, Inv;
    if events != [] {
      var before, last := events[..|events| - 1], events[|events| - 1];
      StoreIsItsHistory(env, before, look, fate);
      RunKeepsInv(env, before);
    }
  }

  lemma NotStaged(env: Env, m: Mem, input: Input)
    requires input.Dispatch? && !Staging(input)
    ensures Apply(env, m, input) == Applied(m, false)
  {
  }

  // ---- Assemblies ----

  /** A definition or a successful dispatch gives an id its last definition; retiring, resyncing
      and a failed dispatch that had staged the id take it away. */
  function AssemblyFate(env: Env, m: Mem, input: Input, id: U64): Fate<Assembly> {
    match input
    case DefineAssembly(a) => if a.id == id && env.planLen(a) == a.bodyLen then Given(a) else Kept
    case Dispatch(_, _, _, p) =>
      if !Staging(input) then Kept
      else if Apply(env, m, input).ok then
        if id in LastAssemblies(p.assemblies) then Given(LastAssemblies(p.assemblies)[id]) else Kept
      else if id in AssemblyIds(p.assemblies[..Installable(env, p.assemblies)]) then Gone else Kept
    case Retire(_, plane, _, objectId) =>
      if plane == AssemblyPlane && ParseLast(objectId) == Some(id) then Gone else Kept
    case FullResync => Gone
    case PlaneResync(plane, _) => if plane == AtomSubstratePlane || plane == AssemblyPlane then Gone else Kept
    case _ => Kept
  }

  lemma {:induction false} StagedAssembly(env: Env, s: AssemblyStore, defs: seq<Assembly>, id: U64)
    requires forall i :: 0 <= i < |defs| ==> env.planLen(defs[i]) == defs[i].bodyLen
    ensures Lookup(StageAssemblies(env, s, defs).assemblies, id) ==
            if id in LastAssemblies(defs) then Some(LastAssemblies(defs)[id]) else Lookup(s.assemblies, id)
  {
    hide AssemblyName, SignatureOf;
    if defs != [] {
      StagedAssembly(env, s, defs[..|defs| - 1], id);
    }
  }

  lemma CompleteInstallsAll(env: Env, m: Mem, p: Payload)
    requires Stage(env, m, p).complete
    ensures forall i :: 0 <= i < |p.assemblies| ==> env.planLen(p.assemblies[i]) == p.assemblies[i].bodyLen
    ensures Installable(env, p.assemblies) == |p.assemblies| && p.assemblies[..|p.assemblies|] == p.assemblies
  {
    forall i | 0 <= i < |p.assemblies| ensures env.planLen(p.assemblies[i]) == p.assemblies[i].bodyLen {
      InstallableAll(env, p.assemblies, i);
    }
  }

  /** What a dispatch that succeeds leaves in the three stores of definitions ... */
  lemma CommitLeaves(env: Env, m: Mem, input: Input)
    requires Staging(input) && Apply(env, m, input).ok
    ensures var s, r, p := Stage(env, m, input.payload), Apply(env, m, input).mem, input.payload;
            && s.complete
            && r.asm.assemblies == StageAssemblies(env, m.asm, p.assemblies).assemblies
            && r.sch.payloads == StageSchemas(m.sch, p.schemas).payloads
            && r.dictionaries == StageDictionaries(m.dictionaries, p.dictionaries)
  {
    hide Stage, Rollback, DispatchBody, EnqueueAll, DispatchAcks, Promote, StageAssemblies, StageSchemas,
      StageDictionaries, Installable;
    StageShape(env, m, input.payload);
    CompleteListsAll(env, m, input.payload);
  }

  lemma CompleteListsAll(env: Env, m: Mem, p: Payload)
    requires Stage(env, m, p).complete
    ensures var s := Stage(env, m, p);
            && s.assemblies == p.assemblies && s.schemas == p.schemas && s.dictionaries == p.dictionaries
            && s.hints == p.hints
  {
    hide Installable, StageAssemblies, StageSchemas, StageDictionaries;
  }

  /** ... and what one that fails leaves there. */
  lemma FailureLeaves(env: Env, m: Mem, input: Input)
    requires Inv(env, m) && Staging(input) && !Apply(env, m, input).ok
    ensures var s, r := Stage(env, m, input.payload), Apply(env, m, input).mem;
            && r.asm.assemblies == m.asm.assemblies - AssemblyIds(s.assemblies)
            && r.sch.payloads == m.sch.payloads - SchemaIds(s.schemas)
            && r.dictionaries == m.dictionaries - DictionaryIds(s.dictionaries)
  {
    hide Inv, Stage, ApplyDispatch, KeepAssemblies, KeepSchemas, KeepNames, Fresh, AssemblyIds, SchemaIds,
      DictionaryIds;
    var Dispatch(recordType, item, seqNo, p) := input;
    FailedDispatchRestores(env, m, recordType, item, seqNo, p);
  }

  lemma StagedLists(env: Env, m: Mem, p: Payload)
    ensures var s, n := Stage(env, m, p), Installable(env, p.assemblies);
            && s.assemblies == p.assemblies[..n]
            && s.schemas == (if n == |p.assemblies| then p.schemas else [])
            && s.dictionaries == (if n == |p.assemblies| then p.dictionaries else [])
  {
    hide Installable, StageAssemblies, StageSchemas, StageDictionaries;
    assert p.assemblies[..|p.assemblies|] == p.assemblies;
  }

  lemma AssemblyAfterDispatch(env: Env, m: Mem, input: Input, id: U64)
    requires Inv(env, m) && Staging(input)
    ensures Lookup(Apply(env, m, input).mem.asm.assemblies, id) ==
            After(Lookup(m.asm.assemblies, id), AssemblyFate(env, m, input, id))
  {
    hide Inv, Apply, Stage, StageAssemblies, StageSchemas, StageDictionaries, Installable, AssemblyIds, SchemaIds,
      DictionaryIds, LastAssemblies;
    var p := input.payload;
    StagedLists(env, m, p);
    if Apply(env, m, input).ok {
      CommitLeaves(env, m, input);
      CompleteInstallsAll(env, m, p);
      StagedAssembly(env, m.asm, p.assemblies, id);
    } else {
      FailureLeaves(env, m, input);
    }
  }

  lemma AssemblyAfterOther(env: Env, m: Mem, input: Input, id: U64)
    requires !Staging(input)
    ensures Lookup(Apply(env, m, input).mem.asm.assemblies, id) ==
            After(Lookup(m.asm.assemblies, id), AssemblyFate(env, m, input, id))
  {
    hide ApplyDispatch, KeepAssemblies, ParseLast, AssemblyName, SignatureOf, RetireSchema, RetireTransform,
      KeepHints, ItemsNamed, EnqueueAck, ReplayAck, InstallSchema, CacheAll, Promote, LastAssemblies, AssemblyIds,
      Installable;
    if input.Dispatch? {
      NotStaged(env, m, input);
    }
  }

  lemma AssemblyFollowsFate(env: Env, m: Mem, input: Input, id: U64)
    requires Inv(env, m)
    ensures Lookup(Apply(env, m, input).mem.asm.assemblies, id) ==
            After(Lookup(m.asm.assemblies, id), AssemblyFate(env, m, input, id))
  {
    hide Inv, Apply, AssemblyFate;
    if Staging(input) {
      AssemblyAfterDispatch(env, m, input, id);
    } else {
      AssemblyAfterOther(env, m, input, id);
    }
  }

  lemma AssembliesAreTheirHistory(env: Env, events: seq<Event>, id: U64)
    ensures Lookup(Run(env, events).asm.assemblies, id) == History(env, events, (m: Mem,
        input: Input) => AssemblyFate(env, m, input, id))
  {
    hide Apply, AssemblyFate, Inv;
    forall m, input | Inv(env, m)
      ensures Lookup(Apply(env, m, input).mem.asm.assemblies, id) ==
              After(Lookup(m.asm.assemblies, id), AssemblyFate(env, m, input, id))
    {
      AssemblyFollowsFate(env, m, input, id);
    }
    StoreIsItsHistory(env, events, (m: Mem) => Lookup(m.asm.assemblies, id), (m: Mem,
        input: Input) => AssemblyFate(env, m, input, id));
  }

  // ---- Schemas ----

  function SchemaFate(env: Env, m: Mem, input: Input, id: U64): Fate<SchemaDef> {
    match input
    case DefineSchema(def) => if def.schemaId == id then Given(def) else Kept
    case Dispatch(_, _, _, p) =>
      if !Staging(input) then Kept
      else if Apply(env, m, input).ok then
        if id in LastSchemas(p.schemas) then Given(LastSchemas(p.schemas)[id]) else Kept
      else if Installable(env, p.assemblies) == |p.assemblies| && id in SchemaIds(p.schemas) then Gone else Kept
    case Retire(_, plane, _, objectId) => if plane == SchemaPlane && objectId == Dec(id) then Gone else Kept
    case FullResync => Gone
    case PlaneResync(plane, _) => if plane == AtomSubstratePlane || plane == SchemaPlane then Gone else Kept
    case _ => Kept
  }

  lemma {:induction false} StagedSchema(s: SchemaStore, defs: seq<SchemaDef>, id: U64)
    ensures Lookup(StageSchemas(s, defs).payloads, id) ==
            if id in LastSchemas(defs) then Some(LastSchemas(defs)[id]) else Lookup(s.payloads, id)
  {
    if defs != [] {
      StagedSchema(s, defs[..|defs| - 1], id);
    }
  }

  lemma SchemaAfterDispatch(env: Env, m: Mem, input: Input, id: U64)
    requires Inv(env, m) && Staging(input)
    ensures Lookup(Apply(env, m, input).mem.sch.payloads, id) ==
            After(Lookup(m.sch.payloads, id), SchemaFate(env, m, input, id))
  {
    assert id !in SchemaIds([]);
    hide Inv, Apply, Stage, StageAssemblies, StageSchemas, StageDictionaries, Installable, AssemblyIds, SchemaIds,
      DictionaryIds, LastSchemas;
    if Apply(env, m, input).ok {
      CommitLeaves(env, m, input);
    } else {
      FailureLeaves(env, m, input);
    }
    StagedLists(env, m, input.payload);
    StagedSchema(m.sch, input.payload.schemas, id);
  }

  lemma SchemaAfterOther(env: Env, m: Mem, input: Input, id: U64)
    requires !Staging(input)
    ensures Lookup(Apply(env, m, input).mem.sch.payloads, id) ==
            After(Lookup(m.sch.payloads, id), SchemaFate(env, m, input, id))
  {
    hide ApplyDispatch, KeepSchemas, Dec, LoggedIds, RetireAssembly, RetireTransform, KeepHints, InstallAssembly,
      ItemsNamed, EnqueueAck, ReplayAck, CacheAll, Promote, LastSchemas, SchemaIds, Installable;
    if input.Dispatch? {
      NotStaged(env, m, input);
    }
  }

  lemma SchemaFollowsFate(env: Env, m: Mem, input: Input, id: U64)
    requires Inv(env, m)
    ensures Lookup(Apply(env, m, input).mem.sch.payloads, id) ==
            After(Lookup(m.sch.payloads, id), SchemaFate(env, m, input, id))
  {
    hide Inv, Apply, SchemaFate;
    if Staging(input) {
      SchemaAfterDispatch(env, m, input, id);
    } else {
      SchemaAfterOther(env, m, input, id);
    }
  }

  lemma SchemasAreTheirHistory(env: Env, events: seq<Event>, id: U64)
    ensures Lookup(Run(env, events).sch.payloads, id) == History(env, events, (m: Mem,
        input: Input) => SchemaFate(env, m, input, id))
  {
    hide Apply, SchemaFate, Inv;
    forall m, input | Inv(env, m)
      ensures Lookup(Apply(env, m, input).mem.sch.payloads, id) ==
              After(Lookup(m.sch.payloads, id), SchemaFate(env, m, input, id))
    {
      SchemaFollowsFate(env, m, input, id);
    }
    StoreIsItsHistory(env, events, (m: Mem) => Lookup(m.sch.payloads, id),
        (m: Mem, input: Input) => SchemaFate(env, m, input, id));
  }

  // ---- Dictionaries ----

  function LastDictionaries(defs: seq<Dictionary>): map<U64, Dictionary> {
    if defs == [] then map[] else LastDictionaries(defs[..|defs| - 1])[defs[|defs| - 1].id := defs[|defs| - 1]]
  }

  /** Only a dispatch brings dictionaries, and no retirement takes one away. */
  function DictionaryFate(env: Env, m: Mem, input: Input, id: U64): Fate<Dictionary> {
    match input
    case Dispatch(_, _, _, p) =>
      if !Staging(input) then Kept
      else if Apply(env, m, input).ok then
        if id in LastDictionaries(p.dictionaries) then Given(LastDictionaries(p.dictionaries)[id]) else Kept
      else if Installable(env, p.assemblies) == |p.assemblies| && id in DictionaryIds(p.dictionaries) then Gone
      else Kept
    case FullResync => Gone
    case PlaneResync(plane, _) => if plane == AtomSubstratePlane then Gone else Kept
    case _ => Kept
  }

  lemma {:induction false} StagedDictionary(s: map<U64, Dictionary>, defs: seq<Dictionary>, id: U64)
    ensures Lookup(StageDictionaries(s, defs), id) ==
            if id in LastDictionaries(defs) then Some(LastDictionaries(defs)[id]) else Lookup(s, id)
  {
    if defs != [] {
      StagedDictionary(s, defs[..|defs| - 1], id);
    }
  }

  lemma DictionaryAfterDispatch(env: Env, m: Mem, input: Input, id: U64)
    requires Inv(env, m) && Staging(input)
    ensures Lookup(Apply(env, m, input).mem.dictionaries, id) ==
            After(Lookup(m.dictionaries, id), DictionaryFate(env, m, input, id))
  {
    assert id !in DictionaryIds([]);
    hide Inv, Apply, Stage, StageAssemblies, StageSchemas, StageDictionaries, Installable, AssemblyIds, SchemaIds,
      DictionaryIds, LastDictionaries;
    if Apply(env, m, input).ok {
      CommitLeaves(env, m, input);
    } else {
      FailureLeaves(env, m, input);
    }
    StagedLists(env, m, input.payload);
    StagedDictionary(m.dictionaries, input.payload.dictionaries, id);
  }

  lemma DictionaryAfterOther(env: Env, m: Mem, input: Input, id: U64)
    requires !Staging(input)
    ensures Lookup(Apply(env, m, input).mem.dictionaries, id) ==
            After(Lookup(m.dictionaries, id), DictionaryFate(env, m, input, id))
  {
    hide ApplyDispatch, RetireAssembly, RetireSchema, RetireTransform, KeepHints, InstallAssembly, InstallSchema,
      ItemsNamed, EnqueueAck, ReplayAck, CacheAll, Promote, LastDictionaries, DictionaryIds, Installable;
    if input.Dispatch? {
      NotStaged(env, m, input);
    }
  }

  lemma DictionaryFollowsFate(env: Env, m: Mem, input: Input, id: U64)
    requires Inv(env, m)
    ensures Lookup(Apply(env, m, input).mem.dictionaries, id) ==
            After(Lookup(m.dictionaries, id), DictionaryFate(env, m, input, id))
  {
    hide Inv, Apply, DictionaryFate;
    if Staging(input) {
      DictionaryAfterDispatch(env, m, input, id);
    } else {
      DictionaryAfterOther(env, m, input, id);
    }
  }

  lemma DictionariesAreTheirHistory(env: Env, events: seq<Event>, id: U64)
    ensures Lookup(Run(env, events).dictionaries, id) == History(env, events, (m: Mem,
        input: Input) => DictionaryFate(env, m, input, id))
  {
    hide Apply, DictionaryFate, Inv;
    forall m, input | Inv(env, m)
      ensures Lookup(Apply(env, m, input).mem.dictionaries, id) ==
              After(Lookup(m.dictionaries, id), DictionaryFate(env, m, input, id))
    {
      DictionaryFollowsFate(env, m, input, id);
    }
    StoreIsItsHistory(env, events, (m: Mem) => Lookup(m.dictionaries, id), (m: Mem,
        input: Input) => DictionaryFate(env, m, input, id));
  }

  // ---- Transforms ----

  function ClassFate(input: Input, id: U64): Fate<TransformClass> {
    match input
    case DefineTransform(c) => if c.id == id then Given(c) else Kept
    case _ => TransformGone(input, id)
  }

  /** Only a transform record materializes, and only under an installed class. */
  function MaterializedFate(env: Env, m: Mem, input: Input, id: U64): Fate<Data> {
    match input
    case InstanceOf(_, classId, instance) =>
      if classId !in m.tx.classes then Kept
      else GivenIf(classId, id, env.applyTransform(m.catalog, m.tx.classes[classId], instance))
    case _ => TransformGone(input, id)
  }

  function TransformGone<T>(input: Input, id: U64): Fate<T> {
    match input
    case Retire(_, plane, _, objectId) => if plane == TransformPlane && objectId == Dec(id) then Gone else Kept
    case FullResync => Gone
    case PlaneResync(plane, _) => if plane == AtomSubstratePlane || plane == TransformPlane then Gone else Kept
    case _ => Kept
  }

  function GivenIf(key: U64, id: U64, bytes: Option<Data>): Fate<Data> {
    if key == id && bytes.Some? then Given(bytes.value) else Kept
  }

  lemma DispatchLeavesTransforms(env: Env, m: Mem, input: Input)
    requires input.Dispatch?
    ensures Apply(env, m, input).mem.tx == m.tx
  {
    hide Installable, StageAssemblies, StageSchemas, StageDictionaries, RemoveAssemblies, RemoveSchemas, AssemblyIds,
      SchemaIds, DictionaryIds, DispatchBody, EnqueueAll, DispatchAcks, Promote;
  }

  lemma TransformsFollowFate(env: Env, m: Mem, input: Input, id: U64)
    ensures Lookup(Apply(env, m, input).mem.tx.classes, id) == After(Lookup(m.tx.classes, id), ClassFate(input, id))
    ensures Lookup(Apply(env, m, input).mem.tx.materialized, id) ==
            After(Lookup(m.tx.materialized, id), MaterializedFate(env, m, input, id))
  {
    hide ApplyDispatch, RetireAssembly, RetireSchema, KeepHints, InstallAssembly, InstallSchema, ItemsNamed,
      EnqueueAck, ReplayAck, CacheAll, Promote, Dec;
    if input.Dispatch? {
      DispatchLeavesTransforms(env, m, input);
    }
  }

  lemma TransformsAreTheirHistory(env: Env, events: seq<Event>, id: U64)
    ensures Lookup(Run(env, events).tx.classes, id) ==
            History(env, events, (m: Mem, input: Input) => ClassFate(input, id))
    ensures Lookup(Run(env, events).tx.materialized, id) ==
            History(env, events, (m: Mem, input: Input) => MaterializedFate(env, m, input, id))
  {
    hide Apply, ClassFate, MaterializedFate, Inv;
    forall m, input
      ensures Lookup(Apply(env, m, input).mem.tx.classes, id) == After(Lookup(m.tx.classes, id), ClassFate(input, id))
      ensures Lookup(Apply(env, m, input).mem.tx.materialized, id) ==
              After(Lookup(m.tx.materialized, id), MaterializedFate(env, m, input, id))
    {
      TransformsFollowFate(env, m, input, id);
    }
    StoreIsItsHistory(env, events, (m: Mem) => Lookup(m.tx.classes, id),
        (m: Mem, input: Input) => ClassFate(input, id));
    StoreIsItsHistory(env, events, (m: Mem) => Lookup(m.tx.materialized, id),
                      (m: Mem, input: Input) => MaterializedFate(env, m, input, id));
  }

  // ---- Cached items ----

  function LastItem(items: seq<(U64, Data)>, id: U64): Option<Data> {
    if items == [] then None
    else if items[|items| - 1].0 == id then Some(items[|items| - 1].1)
    else LastItem(items[..|items| - 1], id)
  }

  /** The bytes cached for an item are those of the last record that reconstructed it. */
  function ItemFate(env: Env, m: Mem, input: Input, id: U64): Fate<Data> {
    match input
    case ExactData(item, raw) => GivenIf(item, id, env.decodeData(m, item, raw))
    case DropItem(item) => if item == id then Gone else Kept
    case BatchData(items) => if LastItem(items, id).Some? then Given(LastItem(items, id).value) else Kept
    case InstanceOf(item, classId, instance) =>
      if classId !in m.tx.classes then Kept
      else GivenIf(item, id, env.applyTransform(m.catalog, m.tx.classes[classId], instance))
    case Dispatch(_, item, _, p) =>
      if Staging(input) && Apply(env, m, input).ok then GivenIf(item, id, env.execute(Stage(env, m, p).mem, p))
      else Kept
    case Retire(_, plane, _, objectId) =>
      if plane == AtomSubstratePlane &&
         (if ParseItemId(objectId).Some? then ParseItemId(objectId).value == id
          else id in m.items.bindings && m.items.bindings[id].hashHex == objectId)
      then Gone else Kept
    case FullResync => Gone
    case PlaneResync(plane, _) => if plane == AtomSubstratePlane then Gone else Kept
    case _ => Kept
  }

  lemma {:induction false} CacheAllIsLast(cache: map<U64, Data>, items: seq<(U64, Data)>, id: U64)
    ensures Lookup(CacheAll(cache, items), id) ==
            if LastItem(items, id).Some? then LastItem(items, id) else Lookup(cache, id)
    decreases |items|
  {
    if items != [] {
      CacheAllIsLast(cache[items[0].0 := items[0].1], items[1..], id);
      LastItemFromFront(items, id);
    }
  }

  lemma {:induction false} LastItemFromFront(items: seq<(U64, Data)>, id: U64)
    requires items != []
    ensures LastItem(items, id) ==
            if LastItem(items[1..], id).Some? then LastItem(items[1..], id)
            else if items[0].0 == id then Some(items[0].1) else None
  {
    if |items| > 1 {
      LastItemFromFront(items[..|items| - 1], id);
      assert items[..|items| - 1][1..] == items[1..][..|items| - 2];
    } else {
      assert items[..0] == [] && items[1..] == [];
    }
  }

  lemma ItemAfterDispatch(env: Env, m: Mem, input: Input, id: U64)
    requires Inv(env, m) && input.Dispatch?
    ensures Lookup(Apply(env, m, input).mem.items.cache, id) ==
            After(Lookup(m.items.cache, id), ItemFate(env, m, input, id))
  {
    var Dispatch(recordType, item, seqNo, p) := input;
    if Staging(input) {
      StageShape(env, m, p);
      if Apply(env, m, input).ok {
        DispatchedClosureHeld(env, m, recordType, item, seqNo, p);
      }
    }
    hide Inv, Stage, DispatchBody, EnqueueAll, DispatchAcks, Promote, RemoveAssemblies, RemoveSchemas, Check;
  }

  lemma ItemAfterOther(env: Env, m: Mem, input: Input, id: U64)
    requires !input.Dispatch?
    ensures Lookup(Apply(env, m, input).mem.items.cache, id) ==
            After(Lookup(m.items.cache, id), ItemFate(env, m, input, id))
  {
    hide ApplyDispatch, RetireAssembly, RetireSchema, RetireTransform, KeepHints, InstallAssembly, InstallSchema,
      ParseItemId, EnqueueAck, ReplayAck, CacheAll, Promote, LastItem, Stage;
    if input.BatchData? {
      CacheAllIsLast(m.items.cache, input.items, id);
    }
  }

  lemma ItemFollowsFate(env: Env, m: Mem, input: Input, id: U64)
    requires Inv(env, m)
    ensures Lookup(Apply(env, m, input).mem.items.cache, id) ==
            After(Lookup(m.items.cache, id), ItemFate(env, m, input, id))
  {
    hide Inv, Apply, ItemFate;
    if input.Dispatch? {
      ItemAfterDispatch(env, m, input, id);
    } else {
      ItemAfterOther(env, m, input, id);
    }
  }

  lemma ItemsAreTheirHistory(env: Env, events: seq<Event>, id: U64)
    ensures Lookup(Run(env, events).items.cache, id) ==
            History(env, events, (m: Mem, input: Input) => ItemFate(env, m, input, id))
  {
    hide Apply, ItemFate, Inv;
    forall m, input | Inv(env, m)
      ensures Lookup(Apply(env, m, input).mem.items.cache, id) ==
              After(Lookup(m.items.cache, id), ItemFate(env, m, input, id))
    {
      ItemFollowsFate(env, m, input, id);
    }
    StoreIsItsHistory(env, events, (m: Mem) => Lookup(m.items.cache, id),
        (m: Mem, input: Input) => ItemFate(env, m, input, id));
  }

  // ---- Repair requests ----

  /** The record ends with a pruning. */
  predicate Prunes(env: Env, m: Mem, input: Input) {
    && Apply(env, m, input).ok
    && (input.ExactData? || input.DropItem? || input.CatalogRepair? ||
        (input.Retire? && input.plane == AtomSubstratePlane))
  }

  /** A request is pending after a record if it was pending before or is what the record asks, and
      no pruning found it answered. */
  lemma RepairFollowsFate(env: Env, m: Mem, input: Input, request: RepairRequest)
    ensures var after := Apply(env, m, input).mem;
            request in after.repairs <==>
            (request in m.repairs || input == RepairAsked(request)) &&
            !(Prunes(env, m, input) && IsResolved(after.catalog, after.items.cache.Keys, request))
  {
    if input.Dispatch? {
      DispatchLeavesRepairs(env, m, input);
    } else if Prunes(env, m, input) {
      PruningDecides(env, m, input, request);
    } else {
      OtherRepairs(env, m, input);
    }
    hide Apply, IsResolved;
  }

  lemma DispatchLeavesRepairs(env: Env, m: Mem, input: Input)
    requires input.Dispatch?
    ensures Apply(env, m, input).mem.repairs == m.repairs
  {
    hide Installable, StageAssemblies, StageSchemas, StageDictionaries, RemoveAssemblies, RemoveSchemas, AssemblyIds,
      SchemaIds, DictionaryIds, DispatchBody, EnqueueAll, DispatchAcks, Promote;
  }

  lemma PruningDecides(env: Env, m: Mem, input: Input, request: RepairRequest)
    requires Prunes(env, m, input)
    ensures var after := Apply(env, m, input).mem;
            request in after.repairs <==>
            request in m.repairs && !IsResolved(after.catalog, after.items.cache.Keys, request)
  {
    hide Unresolved, IsResolved, RemoveItems, ItemsNamed, Promote, EnqueueAck;
    var after := Apply(env, m, input).mem;
    UnresolvedAre(after.catalog, after.items.cache.Keys, m.repairs, request);
  }

  lemma OtherRepairs(env: Env, m: Mem, input: Input)
    requires !input.Dispatch? && !Prunes(env, m, input)
    ensures Apply(env, m, input).mem.repairs ==
            if input.RepairAsked? then EnqueueRepair(m.repairs, input.request) else m.repairs
  {
    hide ApplyDispatch, RetireAssembly, RetireSchema, RetireTransform, KeepHints, InstallAssembly, InstallSchema,
      ItemsNamed, EnqueueAck, ReplayAck, CacheAll, Promote, EnqueueRepair, Unresolved;
  }

  // ---- Whether what an ack names is still installed ----

  function FateAt<T>(env: Env, events: seq<Event>, j: nat, fate: (Mem, Input) -> Fate<T>): Fate<T>
    requires j < |events|
  {
    if events[j].Arrives? then fate(Run(env, events[..j]), events[j].input) else Kept
  }

  /** After event `i` a record took the entry away, and none gave it back since. */
  ghost predicate LostSince<T>(env: Env, events: seq<Event>, i: nat, fate: (Mem, Input) -> Fate<T>) {
    exists j :: i < j < |events| && FateAt(env, events, j, fate).Gone? &&
                forall k :: j < k < |events| ==> !FateAt(env, events, k, fate).Given?
  }

  /** An entry that was there after event `i` is there at the end unless it was lost since. */
  lemma {:induction false} ThereUnlessLost<T>(env: Env, events: seq<Event>, i: nat, fate: (Mem, Input) -> Fate<T>)
    requires i < |events| && History(env, events[..i + 1], fate).Some?
    ensures History(env, events, fate).Some? <==> !LostSince(env, events, i, fate)
    decreases |events|
  {
    hide Run;
    var n := |events| - 1;
    if i == n {
      assert events[..i + 1] == events;
    } else {
      var before := events[..n];
      assert before[..i + 1] == events[..i + 1];
      ThereUnlessLost(env, before, i, fate);
      forall j | 0 <= j < n ensures FateAt(env, before, j, fate) == FateAt(env, events, j, fate) {
        assert before[..j] == events[..j];
      }
      LostSnoc(env, events, i, fate);
    }
  }

  /** Only the last event can change whether the entry is lost. */
  lemma LostSnoc<T>(env: Env, events: seq<Event>, i: nat, fate: (Mem, Input) -> Fate<T>)
    requires i < |events| - 1
    requires var before := events[..|events| - 1];
             forall j :: 0 <= j < |before| ==> FateAt(env, before, j, fate) == FateAt(env, events, j, fate)
    ensures LostSince(env, events, i, fate) <==>
            match FateAt(env, events, |events| - 1, fate)
            case Kept => LostSince(env, events[..|events| - 1], i, fate)
            case Given(_) => false
            case Gone => true
  {
    hide FateAt;
    var n, before := |events| - 1, events[..|events| - 1];
    if LostSince(env, before, i, fate) && FateAt(env, events, n, fate).Kept? {
      var j :| i < j < |before| && FateAt(env, before, j, fate).Gone? &&
               forall k :: j < k < |before| ==> !FateAt(env, before, k, fate).Given?;
      assert FateAt(env, events, j, fate).Gone?;
      forall k | j < k < |events| ensures !FateAt(env, events, k, fate).Given? {
        assert k < n ==> FateAt(env, before, k, fate) == FateAt(env, events, k, fate);
      }
    }
    if LostSince(env, events, i, fate) && FateAt(env, events, n, fate).Kept? {
      var j :| i < j < |events| && FateAt(env, events, j, fate).Gone? &&
               forall k :: j < k < |events| ==> !FateAt(env, events, k, fate).Given?;
      assert FateAt(env, before, j, fate).Gone?;
      forall k | j < k < |before| ensures !FateAt(env, before, k, fate).Given? {
        assert FateAt(env, before, k, fate) == FateAt(env, events, k, fate);
      }
    }
  }

  /** What a produced ack names is installed at the end of the run if and only if no retirement,
      resync or failed dispatch that staged it came since, without a new definition after it. */
  lemma AckedAssemblyInstalledExactly(env: Env, events: seq<Event>, i: nat, ack: Ack, id: U64)
    requires i < |events| && Produced(env, events, i, ack)
    requires ack.kind == AssemblyObject && ack.objectId == AssemblyName(id)
    ensures Installed(Run(env, events), ack) <==>
            !LostSince(env, events, i, (m: Mem, input: Input) => AssemblyFate(env, m, input, id))
  {
    hide Apply, Run, DispatchAcks, AssemblyFate, Check, LostSince, History, AssemblyName;
    var fate := (m: Mem, input: Input) => AssemblyFate(env, m, input, id);
    InstalledByName(Run(env, events), id);
    InstalledByName(Run(env, events[..i + 1]), id);
    AssembliesAreTheirHistory(env, events, id);
    AssembliesAreTheirHistory(env, events[..i + 1], id);
    ThereUnlessLost(env, events, i, fate);
  }

  lemma AckedSchemaInstalledExactly(env: Env, events: seq<Event>, i: nat, ack: Ack, id: U64)
    requires i < |events| && Produced(env, events, i, ack)
    requires ack.kind == SchemaObject && ack.objectId == Name("schema:", id)
    ensures Installed(Run(env, events), ack) <==>
            !LostSince(env, events, i, (m: Mem, input: Input) => SchemaFate(env, m, input, id))
  {
    hide Apply, Run, DispatchAcks, SchemaFate, Check, LostSince, History, Name;
    var fate := (m: Mem, input: Input) => SchemaFate(env, m, input, id);
    InstalledByName(Run(env, events), id);
    InstalledByName(Run(env, events[..i + 1]), id);
    SchemasAreTheirHistory(env, events, id);
    SchemasAreTheirHistory(env, events[..i + 1], id);
    ThereUnlessLost(env, events, i, fate);
  }

  lemma AckedDictionaryInstalledExactly(env: Env, events: seq<Event>, i: nat, ack: Ack, id: U64)
    requires i < |events| && Produced(env, events, i, ack)
    requires ack.kind == DictionaryObject && ack.objectId == Name("dictionary:", id)
    ensures Installed(Run(env, events), ack) <==>
            !LostSince(env, events, i, (m: Mem, input: Input) => DictionaryFate(env, m, input, id))
  {
    hide Apply, Run, DispatchAcks, DictionaryFate, Check, LostSince, History, Name;
    var fate := (m: Mem, input: Input) => DictionaryFate(env, m, input, id);
    InstalledByName(Run(env, events), id);
    InstalledByName(Run(env, events[..i + 1]), id);
    DictionariesAreTheirHistory(env, events, id);
    DictionariesAreTheirHistory(env, events[..i + 1], id);
    ThereUnlessLost(env, events, i, fate);
  }

  // ---- An ack that outlives its object ----

  /** One assembly sent inline, with nothing it depends on. */
  function Send(a: Assembly): Payload {
    Payload(ExactAtom, [a], [], [], [], [], 0)
  }

  function AckOf(a: Assembly): Ack {
    Ack(AssemblyPlane, AssemblyObject, AssemblyName(a.id), PredictiveConfirm, 0)
  }

  lemma SendIsAcked(env: Env, a: Assembly)
    requires env.planLen(a) == a.bodyLen
    requires env.execute(Stage(env, EMPTY, Send(a)).mem, Send(a)).Some?
    ensures var r := ApplyDispatch(env, EMPTY, PredictiveConfirm, 0, 0, Send(a));
            r.ok && AckOf(a) in r.mem.acks && Inv(env, r.mem)
  {
    var p := Send(a);
    assert Installable(env, [a][1..]) == 0 && Installable(env, [a]) == 1;
    assert Stage(env, EMPTY, p).complete && DispatchBody(env, Stage(env, EMPTY, p).mem, p).Some?;
    EmptyInv(env);
    DispatchKeepsInv(env, EMPTY, PredictiveConfirm, 0, 0, p);
    var acks := AssemblyAcks([a], PredictiveConfirm, 0);
    assert acks[0] == AckOf(a) && DispatchAcks(p, PredictiveConfirm, 0) == acks + [] + [];
    DispatchAcksOnly(env, EMPTY, PredictiveConfirm, 0, 0, p, AckOf(a));
    hide Stage, DispatchBody, Inv, EnqueueAll, DispatchAcks, AssemblyName;
  }

  /** Sent once, acked, and sent again in a dispatch that fails: the ack is still pending, and what
      it names is gone. */
  lemma AckOutlivesItsObject(env: Env, a: Assembly)
    requires env.planLen(a) == a.bodyLen
    requires env.execute(Stage(env, EMPTY, Send(a)).mem, Send(a)).Some?
    ensures var m := Run(env, [Arrives(Dispatch(PredictiveConfirm, 0, 0, Send(a))),
                               Arrives(Dispatch(PredictiveConfirm, 0, 1, Resend(a)))]);
            AckOf(a) in m.acks && !Installed(m, AckOf(a))
  {
    hide Stage, Inv, ApplyDispatch, DispatchAcks, AssemblyIds, AssemblyName, Check, Run;
    var first := Dispatch(PredictiveConfirm, 0, 0, Send(a));
    var second := Dispatch(PredictiveConfirm, 0, 1, Resend(a));
    TwoEvents(env, Arrives(first), Arrives(second));
    SendIsAcked(env, a);
    var m := ApplyDispatch(env, EMPTY, PredictiveConfirm, 0, 0, Send(a)).mem;
    ResendFails(env, m, 1, a);
    DispatchAcksOnly(env, m, PredictiveConfirm, 0, 1, Resend(a), AckOf(a));
    FailedDispatchErases(env, m, PredictiveConfirm, 0, 1, Resend(a), a.id);
    InstalledByName(ApplyDispatch(env, m, PredictiveConfirm, 0, 1, Resend(a)).mem, a.id);
  }
}
