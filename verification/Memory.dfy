/** The client's memory planes as a value: the stores, what each record does to
    them, and the invariant every record keeps. */
module Memory {
  import opened Bytes
  import opened Wire
  import opened Ids
  import opened Graph

  // ---- What the stores hold ----

  datatype MemoryPlane =
    | AtomSubstratePlane | AssemblyPlane | TransformPlane | EpisodePlane | SchemaPlane | ControllerPlane

  datatype ObjectKind =
    | AtomFragmentObject | ExactBlockObject | ExactBundleObject | ExactRangeObject | ResidualBufferObject
    | ExactStateObject | SourceDescriptorObject | SparseCueObject | AssemblyObject | TransformObject
    | SchemaObject | EpisodeHintObject | ReplayHintObject | DictionaryObject | PredictiveObject

  datatype Signature = Signature(revision: nat, bodyShapeHash: nat, dependencyFingerprint: nat, outputLen: nat)

  datatype Assembly = Assembly(id: U64, revision: nat, dependencies: nat, body: nat, bodyLen: nat)

  datatype Dictionary = Dictionary(id: U64, revision: nat, tokens: nat)

  datatype TransformClass = TransformClass(id: U64, program: nat)

  datatype EpisodeHint = EpisodeHint(contextHash: U64, candidates: seq<nat>)

  datatype SourceDescriptor = SourceDescriptor(kind: nat, hashHex: string)

  datatype Predictor = Predictor(kind: nat, cue: nat)

  datatype Catalog = Catalog(blocks: map<U64, Data>, bundles: set<U64>)

  /** Why material is asked for again; `detail` is a comma-separated text. */
  datatype RepairCause =
    | MissingBasis
    | CatalogVersionMismatch(local: nat, required: nat)
    | UnsupportedStateReference(detail: string)

  datatype RepairRequest = RepairRequest(
    catalogVersion: nat,
    missingBlocks: seq<U64>,
    missingBundles: seq<U64>,
    cause: RepairCause)

  /** The part of a schema definition kept beside the payload. */
  datatype SchemaHead = SchemaHead(id: U64, revision: nat, outputLen: nat)

  datatype Ack = Ack(plane: MemoryPlane, kind: ObjectKind, objectId: string, recordType: RecordType, seqNo: nat)

  datatype Dependency = Dependency(kind: ObjectKind, objectId: string, requiredRevision: nat)

  // The stores, one record of maps and logs for each plane.

  datatype ItemStore = ItemStore(
    cache: map<U64, Data>,
    predictors: map<U64, Predictor>,
    bindings: map<U64, SourceDescriptor>)

  datatype AssemblyStore = AssemblyStore(
    assemblies: map<U64, Assembly>,
    defs: seq<Assembly>,
    index: map<string, U64>,
    sync: map<U64, Signature>,
    cached: map<string, Assembly>)

  datatype TransformStore = TransformStore(classes: map<U64, TransformClass>, materialized: map<U64, Data>)

  datatype SchemaStore = SchemaStore(heads: map<U64, SchemaHead>, payloads: map<U64, SchemaDef>, defs: seq<SchemaDef>)

  datatype Mem = Mem(
    items: ItemStore,
    catalog: Catalog,
    asm: AssemblyStore,
    tx: TransformStore,
    sch: SchemaStore,
    dictionaries: map<U64, Dictionary>,
    hints: seq<EpisodeHint>,
    acks: seq<Ack>,
    repairs: seq<RepairRequest>)

  const NO_ITEMS := ItemStore(map[], map[], map[])
  const EMPTY_CATALOG := Catalog(map[], {})
  const NO_ASSEMBLIES := AssemblyStore(map[], [], map[], map[], map[])
  const NO_TRANSFORMS := TransformStore(map[], map[])
  const NO_SCHEMAS := SchemaStore(map[], map[], [])

  const EMPTY := Mem(NO_ITEMS, EMPTY_CATALOG, NO_ASSEMBLIES, NO_TRANSFORMS, NO_SCHEMAS, map[], [], [], [])

  // ---- Records, with their payloads decoded ----

  /** DirectState travels in ExactState records, which never reach the dispatcher. */
  datatype RouteFamily = DirectState | ExactAtom | Hybrid
  {
    function DispatchRecordType(): RecordType {
      match this
      case DirectState => RecordType.ExactState
      case ExactAtom => PredictiveConfirm
      case Hybrid => PredictiveCorrect
    }
  }

  datatype Payload = Payload(
    family: RouteFamily,
    assemblies: seq<Assembly>,
    schemas: seq<SchemaDef>,
    dictionaries: seq<Dictionary>,
    hints: seq<EpisodeHint>,
    closure: seq<Dependency>,
    route: nat)

  datatype Input =
    | Undecodable                                            // fails validation or decoding
    | Control                                                // Rekey, Close, MemoryAck
    | ExactData(item: U64, raw: nat)
    | DropItem(item: U64)                                    // evict or invalidate
    | BatchData(items: seq<(U64, Data)>)
    | SourceMetaFor(item: U64, descriptor: SourceDescriptor)
    | RepairAsked(request: RepairRequest)
    | CatalogRepair(sync: nat)
    | Dispatch(recordType: RecordType, item: U64, seqNo: nat, payload: Payload)
    | InstanceOf(item: U64, classId: U64, instance: nat)
    | DefineAssembly(assembly: Assembly)
    | DefineTransform(class_: TransformClass)
    | DefineSchema(def: SchemaDef)
    | Hint(hint: EpisodeHint)
    | Replay(seqNo: nat, hint: EpisodeHint)
    | Retire(seqNo: nat, plane: MemoryPlane, kind: ObjectKind, objectId: string)
    | FullResync
    | PlaneResync(plane: MemoryPlane, resetPredictors: bool)

  /** The computations of other crates the records rely on: any functions at all. */
  datatype Env = Env(
    planLen: Assembly -> nat,
    shapeHash: nat -> nat,
    fingerprint: nat -> nat,
    directAssembly: (Mem, Payload) -> Option<Data>,
    execute: (Mem, Payload) -> Option<Data>,
    applyTransform: (Catalog, TransformClass, nat) -> Option<Data>,
    decodeData: (Mem, U64, nat) -> Option<Data>,
    describe: (Mem, Input, U64, Data) -> Predictor,
    blockId: (nat, Data) -> U64,
    insertBlock: (Catalog, nat, Data) -> Catalog,
    applySync: (Catalog, nat) -> Option<Catalog>)

  function SignatureOf(env: Env, a: Assembly): Signature {
    Signature(a.revision, env.shapeHash(a.body), env.fingerprint(a.dependencies), a.bodyLen)
  }

  function HeadOf(def: SchemaDef): SchemaHead {
    SchemaHead(def.schemaId, def.revision, def.outputLen)
  }

  function AssemblyName(id: U64): string {
    Name("assembly:", id)
  }

  function Lookup<T>(m: map<U64, T>, id: U64): Option<T> {
    if id in m then Some(m[id]) else None
  }

  // ---- Installing and retiring ----

  function InstallAssembly(env: Env, s: AssemblyStore, a: Assembly): Option<AssemblyStore> {
    if env.planLen(a) != a.bodyLen then None
    else
      Some(AssemblyStore(
        s.assemblies[a.id := a],
        s.defs + [a],
        s.index[AssemblyName(a.id) := a.id],
        s.sync[a.id := SignatureOf(env, a)],
        s.cached[AssemblyName(a.id) := a]))
  }

  function InstallSchema(s: SchemaStore, def: SchemaDef): SchemaStore {
    SchemaStore(s.heads[def.schemaId := HeadOf(def)], s.payloads[def.schemaId := def], s.defs + [def])
  }

  function KeepAssemblies(defs: seq<Assembly>, ids: set<U64>): seq<Assembly> {
    if defs == [] then []
    else
      var kept := KeepAssemblies(defs[..|defs| - 1], ids);
      if defs[|defs| - 1].id in ids then kept else kept + [defs[|defs| - 1]]
  }

  function KeepSchemas(defs: seq<SchemaDef>, ids: set<U64>): seq<SchemaDef> {
    if defs == [] then []
    else
      var kept := KeepSchemas(defs[..|defs| - 1], ids);
      if defs[|defs| - 1].schemaId in ids then kept else kept + [defs[|defs| - 1]]
  }

  function KeepNames(index: map<string, U64>, ids: set<U64>): map<string, U64> {
    map name | name in index && index[name] !in ids :: index[name]
  }

  /** The source cache is not cleaned. */
  function RemoveAssemblies(s: AssemblyStore, ids: set<U64>): AssemblyStore {
    AssemblyStore(s.assemblies - ids, KeepAssemblies(s.defs, ids), KeepNames(s.index, ids), s.sync - ids, s.cached)
  }

  function RemoveSchemas(s: SchemaStore, ids: set<U64>): SchemaStore {
    SchemaStore(s.heads - ids, s.payloads - ids, KeepSchemas(s.defs, ids))
  }

  /** Retiring looks the index entry up by name instead of by id. */
  function RetireAssembly(s: AssemblyStore, objectId: string): AssemblyStore {
    var id := ParseLast(objectId);
    if id.None? then s
    else
      AssemblyStore(
        s.assemblies - {id.value},
        KeepAssemblies(s.defs, {id.value}),
        s.index - {AssemblyName(id.value)},
        s.sync - {id.value},
        s.cached)
  }

  // ---- Repair requests ----

  /** The text up to the first ", ", and the text after it. */
  function CutAtComma(s: string): (cut: (string, Option<string>))
    ensures cut.1.Some? ==> |cut.1.value| < |s|
  {
    if s == [] then ([], None)
    else if ", " <= s then ([], Some(s[2..]))
    else
      var (first, rest) := CutAtComma(s[1..]);
      ([s[0]] + first, rest)
  }

  function SplitAtCommas(s: string): seq<string>
    decreases |s|
  {
    var (first, rest) := CutAtComma(s);
    if rest.None? then [first] else [first] + SplitAtCommas(rest.value)
  }

  /** The part names an item whose state is still missing. */
  predicate StillMissing(cache: set<U64>, part: string) {
    var item := ParseName(part, "missing prior state ");
    item.Some? && item.value !in cache
  }

  predicate IsResolved(catalog: Catalog, cache: set<U64>, request: RepairRequest) {
    match request.cause
    case MissingBasis => Supplied(catalog, request)
    case CatalogVersionMismatch(_, _) => Supplied(catalog, request)
    case UnsupportedStateReference(detail) =>
      var parts := SplitAtCommas(detail);
      forall i :: 0 <= i < |parts| ==> !StillMissing(cache, parts[i])
  }

  predicate Supplied(catalog: Catalog, request: RepairRequest) {
    && (forall i :: 0 <= i < |request.missingBlocks| ==> request.missingBlocks[i] in catalog.blocks)
    && (forall i :: 0 <= i < |request.missingBundles| ==> request.missingBundles[i] in catalog.bundles)
  }

  function Unresolved(catalog: Catalog, cache: set<U64>, requests: seq<RepairRequest>): seq<RepairRequest> {
    if requests == [] then []
    else
      var kept := Unresolved(catalog, cache, requests[..|requests| - 1]);
      if IsResolved(catalog, cache, requests[|requests| - 1]) then kept else kept + [requests[|requests| - 1]]
  }

  /** Drop the requests that the catalog or the cache answers by now. */
  function Prune(m: Mem): Mem {
    m.(repairs := Unresolved(m.catalog, m.items.cache.Keys, m.repairs))
  }

  function EnqueueRepair(requests: seq<RepairRequest>, request: RepairRequest): seq<RepairRequest> {
    if request in requests then requests else requests + [request]
  }

  // ---- Retiring ----

  /** Only ids whose bare decimal form is the object id. */
  function NamedBare(keys: set<U64>, objectId: string): set<U64> {
    set id | id in keys && Dec(id) == objectId
  }

  function LoggedIds(defs: seq<SchemaDef>): set<U64> {
    set i | 0 <= i < |defs| :: defs[i].schemaId
  }

  function RetireSchema(s: SchemaStore, objectId: string): SchemaStore {
    SchemaStore(
      s.heads - NamedBare(s.heads.Keys, objectId),
      s.payloads - NamedBare(s.payloads.Keys, objectId),
      KeepSchemas(s.defs, NamedBare(LoggedIds(s.defs), objectId)))
  }

  function RetireTransform(s: TransformStore, objectId: string): TransformStore {
    TransformStore(
      s.classes - NamedBare(s.classes.Keys, objectId),
      s.materialized - NamedBare(s.materialized.Keys, objectId))
  }

  /** Any canonical prefix is taken for an item id, whatever it names. */
  function ParseItemId(objectId: string): Option<U64> {
    if "block:" <= objectId then ParseName(objectId, "block:")
    else if "bundle:" <= objectId then ParseName(objectId, "bundle:")
    else if "assembly:" <= objectId then ParseName(objectId, "assembly:")
    else if "schema:" <= objectId then ParseName(objectId, "schema:")
    else if "transform:" <= objectId then ParseName(objectId, "transform:")
    else if "dictionary:" <= objectId then ParseName(objectId, "dictionary:")
    else None
  }

  function RemoveItems(s: ItemStore, ids: set<U64>): ItemStore {
    ItemStore(s.cache - ids, s.predictors - ids, s.bindings - ids)
  }

  /** One item by name, or every item bound to a source with that hash. */
  function ItemsNamed(s: ItemStore, objectId: string): set<U64> {
    var item := ParseItemId(objectId);
    if item.Some? then {item.value} else set id | id in s.bindings && s.bindings[id].hashHex == objectId
  }

  function KeepHints(hints: seq<EpisodeHint>, objectId: string): seq<EpisodeHint> {
    if hints == [] then []
    else
      var kept := KeepHints(hints[..|hints| - 1], objectId);
      if Dec(hints[|hints| - 1].contextHash) == objectId then kept else kept + [hints[|hints| - 1]]
  }

  function RetireObject(m: Mem, plane: MemoryPlane, objectId: string): Mem {
    match plane
    case AtomSubstratePlane => Prune(m.(items := RemoveItems(m.items, ItemsNamed(m.items, objectId))))
    case AssemblyPlane => m.(asm := RetireAssembly(m.asm, objectId))
    case TransformPlane => m.(tx := RetireTransform(m.tx, objectId))
    case EpisodePlane => m.(hints := KeepHints(m.hints, objectId))
    case SchemaPlane => m.(sch := RetireSchema(m.sch, objectId))
    case ControllerPlane => m
  }

  /** Invalidating the substrate clears every plane built on it; predictors go only
      on request, acks always. */
  function ResyncPlane(m: Mem, plane: MemoryPlane, resetPredictors: bool): Mem {
    var cleared := match plane
      case AtomSubstratePlane =>
        Mem(ItemStore(map[], m.items.predictors, map[]), EMPTY_CATALOG, NO_ASSEMBLIES, NO_TRANSFORMS, NO_SCHEMAS,
            map[], [], m.acks, m.repairs)
    case AssemblyPlane => m.(asm := NO_ASSEMBLIES)
      case TransformPlane => m.(tx := NO_TRANSFORMS)
      case EpisodePlane => m.(hints := [])
      case SchemaPlane => m.(sch := NO_SCHEMAS)
      case ControllerPlane => m;
    cleared.(items := if resetPredictors then cleared.items.(predictors := map[]) else cleared.items, acks := [])
  }

  function EnqueueAck(acks: seq<Ack>, ack: Ack): seq<Ack> {
    if ack in acks then acks else acks + [ack]
  }

  function EnqueueAll(acks: seq<Ack>, more: seq<Ack>): seq<Ack>
    decreases |more|
  {
    if more == [] then acks else EnqueueAll(EnqueueAck(acks, more[0]), more[1..])
  }

  function Promote(env: Env, catalog: Catalog, kind: nat, bytes: Data): Catalog {
    if env.blockId(kind, bytes) in catalog.blocks then catalog else env.insertBlock(catalog, kind, bytes)
  }

  /** Cache the bytes of an item, describe them, and promote them to the catalog. */
  function Materialize(env: Env, m: Mem, input: Input, item: U64, bytes: Data, promote: bool): Mem {
    var p := env.describe(m, input, item, bytes);
    m.(items := m.items.(cache := m.items.cache[item := bytes], predictors := m.items.predictors[item := p]),
       catalog := if promote then Promote(env, m.catalog, p.kind, bytes) else m.catalog)
  }

  // ---- Dependencies ----

  datatype Availability = Available | MissingObject | WrongRevision(actual: nat, required: nat) | MalformedIdentity

  function AtLeast(actual: nat, required: nat): Availability {
    if actual >= required then Available else WrongRevision(actual, required)
  }

  function Present(here: bool): Availability {
    if here then Available else MissingObject
  }

  function HintNamed(hints: seq<EpisodeHint>, objectId: string): bool {
    exists i :: 0 <= i < |hints| && Dec(hints[i].contextHash) == objectId
  }

  function Holds(id: Option<U64>, keys: set<U64>): Availability {
    Present(id.Some? && id.value in keys)
  }

  /** The check against the durable stores. */
  function Check(m: Mem, d: Dependency): Availability {
    match d.kind
    case AssemblyObject =>
      var id := ParseName(d.objectId, "assembly:");
      if id.None? then MalformedIdentity
      else if d.requiredRevision == 0 then Present(id.value in m.asm.assemblies)
      else if id.value !in m.asm.sync then MissingObject
      else AtLeast(m.asm.sync[id.value].revision, d.requiredRevision)
    case SchemaObject =>
      var id := ParseName(d.objectId, "schema:");
      if id.None? then MalformedIdentity
      else if d.requiredRevision == 0 then Present(id.value in m.sch.payloads)
      else if id.value !in m.sch.payloads then MissingObject
      else AtLeast(m.sch.payloads[id.value].revision, d.requiredRevision)
    case TransformObject =>
      var id := ParseName(d.objectId, "transform:");
      if id.None? then MalformedIdentity
      else if d.requiredRevision == 0 then Present(id.value in m.tx.materialized)
      else Present(id.value in m.tx.classes)
    case DictionaryObject =>
      var id := ParseName(d.objectId, "dictionary:");
      if id.None? then MalformedIdentity
      else if d.requiredRevision == 0 then Present(id.value in m.dictionaries)
      else if id.value !in m.dictionaries then MissingObject
      else AtLeast(m.dictionaries[id.value].revision, d.requiredRevision)
    case ExactStateObject | AtomFragmentObject | PredictiveObject | SourceDescriptorObject | ResidualBufferObject =>
      Holds(ParseName(d.objectId, "item:"), m.items.cache.Keys)
    case ExactBlockObject => Holds(ParseName(d.objectId, "block:"), m.catalog.blocks.Keys)
    case ExactBundleObject => Holds(ParseName(d.objectId, "bundle:"), m.catalog.bundles)
    case ExactRangeObject => Holds(ParseName(d.objectId, "range:"), m.catalog.blocks.Keys)
    case EpisodeHintObject | ReplayHintObject => Present(HintNamed(m.hints, d.objectId))
    case SparseCueObject =>
      var id := ParseItemId(d.objectId);
      if id.Some? then
        Present(id.value in m.items.predictors || id.value in m.items.bindings || id.value in m.items.cache)
      else Present(HintNamed(m.hints, d.objectId))
  }

  /** Revisions of the inline definitions of one dispatch, last one wins. */
  datatype StagedRevisions = StagedRevisions(assemblies: map<U64, nat>, schemas: map<U64, nat>,
      dictionaries: map<U64, nat>)

  /** The check that asks the staged revisions first. */
  function CheckStaged(m: Mem, d: Dependency, staged: StagedRevisions): Availability {
    match d.kind
    case AssemblyObject =>
      var id := ParseName(d.objectId, "assembly:");
      if id.None? then MalformedIdentity
      else if id.value in staged.assemblies then AtLeast(staged.assemblies[id.value], d.requiredRevision)
      else Check(m, d)
    case SchemaObject =>
      var id := ParseName(d.objectId, "schema:");
      if id.None? then MalformedIdentity
      else if id.value in staged.schemas then AtLeast(staged.schemas[id.value], d.requiredRevision)
      else Check(m, d)
    case DictionaryObject =>
      var id := ParseName(d.objectId, "dictionary:");
      if id.None? then MalformedIdentity
      else if id.value in staged.dictionaries then AtLeast(staged.dictionaries[id.value], d.requiredRevision)
      else Check(m, d)
    case _ => Check(m, d)
  }

  function AssemblyRevisions(defs: seq<Assembly>): map<U64, nat> {
    if defs == [] then map[]
    else AssemblyRevisions(defs[..|defs| - 1])[defs[|defs| - 1].id := defs[|defs| - 1].revision]
  }

  function SchemaRevisions(defs: seq<SchemaDef>): map<U64, nat> {
    if defs == [] then map[]
    else SchemaRevisions(defs[..|defs| - 1])[defs[|defs| - 1].schemaId := defs[|defs| - 1].revision]
  }

  function DictionaryRevisions(defs: seq<Dictionary>): map<U64, nat> {
    if defs == [] then map[]
    else DictionaryRevisions(defs[..|defs| - 1])[defs[|defs| - 1].id := defs[|defs| - 1].revision]
  }

  function RevisionsOf(p: Payload): StagedRevisions {
    StagedRevisions(AssemblyRevisions(p.assemblies), SchemaRevisions(p.schemas), DictionaryRevisions(p.dictionaries))
  }

  // ---- The predictive dispatch: stage, execute, then commit or roll back ----

  /** How many inline assemblies install before the first refused one. */
  function Installable(env: Env, defs: seq<Assembly>): (n: nat)
    ensures n <= |defs|
  {
    if defs == [] || env.planLen(defs[0]) != defs[0].bodyLen then 0 else 1 + Installable(env, defs[1..])
  }

  function StageAssemblies(env: Env, s: AssemblyStore, defs: seq<Assembly>): AssemblyStore {
    if defs == [] then s
    else
      var before := StageAssemblies(env, s, defs[..|defs| - 1]);
      var after := InstallAssembly(env, before, defs[|defs| - 1]);
      if after.Some? then after.value else before
  }

  function StageSchemas(s: SchemaStore, defs: seq<SchemaDef>): SchemaStore {
    if defs == [] then s else InstallSchema(StageSchemas(s, defs[..|defs| - 1]), defs[|defs| - 1])
  }

  function StageDictionaries(s: map<U64, Dictionary>, defs: seq<Dictionary>): map<U64, Dictionary> {
    if defs == [] then s else StageDictionaries(s, defs[..|defs| - 1])[defs[|defs| - 1].id := defs[|defs| - 1]]
  }

  /** What the staging loops get done: all of it, or the assemblies before a refused one. */
  datatype Staged = Staged(mem: Mem, assemblies: seq<Assembly>, schemas: seq<SchemaDef>,
      dictionaries: seq<Dictionary>, hints: seq<EpisodeHint>, complete: bool)

  function Stage(env: Env, m: Mem, p: Payload): Staged {
    var n := Installable(env, p.assemblies);
    var first := m.(asm := StageAssemblies(env, m.asm, p.assemblies[..n]));
    if n < |p.assemblies| then Staged(first, p.assemblies[..n], [], [], [], false)
    else
      Staged(first.(sch := StageSchemas(m.sch, p.schemas),
                    dictionaries := StageDictionaries(m.dictionaries, p.dictionaries),
                    hints := m.hints + p.hints),
             p.assemblies, p.schemas, p.dictionaries, p.hints, true)
  }

  function AssemblyIds(defs: seq<Assembly>): set<U64> {
    set i | 0 <= i < |defs| :: defs[i].id
  }

  function SchemaIds(defs: seq<SchemaDef>): set<U64> {
    set i | 0 <= i < |defs| :: defs[i].schemaId
  }

  function DictionaryIds(defs: seq<Dictionary>): set<U64> {
    set i | 0 <= i < |defs| :: defs[i].id
  }

  function Rollback(s: Staged): Mem {
    var m := s.mem;
    m.(asm := RemoveAssemblies(m.asm, AssemblyIds(s.assemblies)),
       sch := RemoveSchemas(m.sch, SchemaIds(s.schemas)),
       dictionaries := m.dictionaries - DictionaryIds(s.dictionaries),
       hints := if 0 < |s.hints| <= |m.hints| then m.hints[..|m.hints| - |s.hints|] else m.hints)
  }

  function DispatchBody(env: Env, m: Mem, p: Payload): Option<Data> {
    if p.family == DirectState && env.directAssembly(m, p).Some? then env.directAssembly(m, p)
    else if exists i :: 0 <= i < |p.closure| && CheckStaged(m, p.closure[i], RevisionsOf(p)) != Available then None
    else env.execute(m, p)
  }

  function AssemblyAcks(defs: seq<Assembly>, recordType: RecordType, seqNo: nat): seq<Ack> {
    seq(|defs|, i requires 0 <= i < |defs| =>
      Ack(AssemblyPlane, AssemblyObject, AssemblyName(defs[i].id), recordType, seqNo))
  }

  function SchemaAcks(defs: seq<SchemaDef>, recordType: RecordType, seqNo: nat): seq<Ack> {
    seq(|defs|, i requires 0 <= i < |defs| =>
      Ack(SchemaPlane, SchemaObject, Name("schema:", defs[i].schemaId), recordType, seqNo))
  }

  function DictionaryAcks(defs: seq<Dictionary>, recordType: RecordType, seqNo: nat): seq<Ack> {
    seq(|defs|, i requires 0 <= i < |defs| =>
      Ack(AtomSubstratePlane, DictionaryObject, Name("dictionary:", defs[i].id), recordType, seqNo))
  }

  function DispatchAcks(p: Payload, recordType: RecordType, seqNo: nat): seq<Ack> {
    AssemblyAcks(p.assemblies, recordType, seqNo) + SchemaAcks(p.schemas, recordType, seqNo)
    + DictionaryAcks(p.dictionaries, recordType, seqNo)
  }

  /** A step's new state, and whether the record was applied. */
  datatype Applied = Applied(mem: Mem, ok: bool)

  function ApplyDispatch(env: Env, m: Mem, recordType: RecordType, item: U64, seqNo: nat, p: Payload): Applied {
    if recordType != p.family.DispatchRecordType() then Applied(m, false)
    else
      var s := Stage(env, m, p);
      var bytes := if s.complete then DispatchBody(env, s.mem, p) else None;
      if bytes.None? then Applied(Rollback(s), false)
      else
        var done := Materialize(env, s.mem, Dispatch(recordType, item, seqNo, p), item, bytes.value, true);
        Applied(done.(acks := EnqueueAll(done.acks, DispatchAcks(p, recordType, seqNo))), true)
  }

  // ---- One record ----

  function CacheAll(cache: map<U64, Data>, items: seq<(U64, Data)>): map<U64, Data>
    decreases |items|
  {
    if items == [] then cache else CacheAll(cache[items[0].0 := items[0].1], items[1..])
  }

  function Apply(env: Env, m: Mem, input: Input): Applied {
    match input
    case Undecodable => Applied(m, false)
    case Control => Applied(m, true)
    case ExactData(item, raw) =>
      var bytes := env.decodeData(m, item, raw);
      if bytes.None? then Applied(m, false)
      else Applied(Prune(Materialize(env, m, input, item, bytes.value, true)), true)
    case DropItem(item) => Applied(Prune(m.(items := RemoveItems(m.items, {item}))), true)
    case BatchData(items) => Applied(m.(items := m.items.(cache := CacheAll(m.items.cache, items))), true)
    case SourceMetaFor(item, descriptor) =>
      Applied(m.(items := m.items.(bindings := m.items.bindings[item := descriptor])), true)
    case RepairAsked(request) => Applied(m.(repairs := EnqueueRepair(m.repairs, request)), true)
    case CatalogRepair(sync) =>
      var catalog := env.applySync(m.catalog, sync);
      if catalog.None? then Applied(m, false) else Applied(Prune(m.(catalog := catalog.value)), true)
    case Dispatch(recordType, item, seqNo, p) =>
      if recordType != PredictiveConfirm && recordType != PredictiveCorrect then Applied(m, false)
      else ApplyDispatch(env, m, recordType, item, seqNo, p)
    case InstanceOf(item, classId, instance) =>
      if classId !in m.tx.classes then Applied(m, false)
      else
        var bytes := env.applyTransform(m.catalog, m.tx.classes[classId], instance);
        if bytes.None? then Applied(m, false)
        else
          var stored := m.(tx := m.tx.(materialized := m.tx.materialized[classId := bytes.value]));
          Applied(Materialize(env, stored, input, item, bytes.value, false), true)
    case DefineAssembly(a) =>
      var installed := InstallAssembly(env, m.asm, a);
      if installed.None? then Applied(m, false) else Applied(m.(asm := installed.value), true)
    case DefineTransform(c) => Applied(m.(tx := m.tx.(classes := m.tx.classes[c.id := c])), true)
    case DefineSchema(def) => Applied(m.(sch := InstallSchema(m.sch, def)), true)
    case Hint(hint) => Applied(m.(hints := m.hints + [hint]), true)
    case Replay(seqNo, hint) =>
      Applied(m.(acks := EnqueueAck(m.acks, ReplayAck(seqNo, hint)), hints := m.hints + [hint]), true)
    case Retire(seqNo, plane, kind, objectId) =>
      var acked := m.(acks := EnqueueAck(m.acks, Ack(plane, kind, objectId, MemoryRetire, seqNo)));
      Applied(RetireObject(acked, plane, objectId), true)
    case FullResync => Applied(EMPTY.(repairs := m.repairs), true)
    case PlaneResync(plane, resetPredictors) => Applied(ResyncPlane(m, plane, resetPredictors), true)
  }

  function ReplayAck(seqNo: nat, hint: EpisodeHint): Ack {
    Ack(EpisodePlane, ReplayHintObject, Name("replay:", hint.contextHash), ReplayHint, seqNo)
  }
}
