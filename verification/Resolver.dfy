/** Reconstruction of schema outputs: the graph interpreter with its node stack,
    and the recursive schema resolver with its shared set of active schemas. */
module Resolver {
  import opened Bytes
  import opened Wire
  import opened Graph

  datatype PrgError =
    | NodeCountMismatch | MissingRoot | DepthExceeded | MissingNode | CycleDetected
    | MissingReference | MissingDependency | MissingChild | InvalidPatchRange
    | NodeOutputLenMismatch | OutputLenMismatch

  datatype Result<+T> = Ok(value: T) | Err(error: PrgError)

  /** Everything a graph may refer to besides schemas, as the client state holds it. */
  datatype Leaves = Leaves(
    substrate: nat -> Option<Data>,
    assembly: nat -> Option<Data>,
    transform: nat -> Option<Data>,
    episode: nat -> Option<Data>)

  datatype PrgGraph = PrgGraph(root: nat, depthCap: Byte, outputLen: nat, nodes: seq<PrgNode>)

  type Store = map<nat, SchemaDef>

  function GraphOf(def: SchemaDef): PrgGraph {
    var nodes := MergeEdges(def.nodeTable, def.edgeTable);
    PrgGraph(RootOf(nodes, def.edgeTable), def.decodeMaxDepth, def.outputLen, nodes)
  }

  /** The node count is a 16-bit field capped at 65535, so larger graphs never validate. */
  function Validate(g: PrgGraph): Result<()> {
    if |g.nodes| > 0xFFFF then Err(NodeCountMismatch)
    else if g.nodes == [] || IndexOf(g.nodes, g.root).None? then Err(MissingRoot)
    else Ok(())
  }

  // ---- One node, given the outputs of the children it asks for ----

  function FromReference(reference: Option<nat>, resolve: nat -> Option<Data>): Result<Data> {
    if reference.None? then Err(MissingReference)
    else
      var bytes := resolve(reference.value);
      if bytes.None? then Err(MissingDependency) else Ok(bytes.value)
  }

  /** The children a node executes, in order. */
  function Needed(node: PrgNode): (r: Result<seq<nat>>) {
    match node.kind
    case Concat | Commit | Guard | Branch | Permute => Ok(node.childIds)
    case Repeat | Patch =>
      if node.childIds == [] then Err(MissingChild) else Ok([node.childIds[0]])
    case Select =>
      var ix := if node.selectIndex.Some? then node.selectIndex.value else 0;
      if ix < |node.childIds| then Ok([node.childIds[ix]]) else Err(MissingChild)
    case _ => Ok([])
  }

  function Join(parts: seq<Data>): Data {
    if parts == [] then [] else parts[0] + Join(parts[1..])
  }

  function RepeatData(bytes: Data, times: nat): Data {
    if times == 0 then [] else bytes + RepeatData(bytes, times - 1)
  }

  function Arrange(parts: seq<Data>, permutation: seq<nat>): Result<Data> {
    if permutation == [] then Ok([])
    else if permutation[0] >= |parts| then Err(MissingChild)
    else
      var rest := Arrange(parts, permutation[1..]);
      if rest.Err? then rest else Ok(parts[permutation[0]] + rest.value)
  }

  function PatchData(bytes: Data, literal: Data, offset: nat, removeLen: nat): Result<Data> {
    if offset + removeLen <= |bytes| then Ok(bytes[..offset] + literal + bytes[offset + removeLen..])
    else Err(InvalidPatchRange)
  }

  function OrZero(v: Option<nat>): nat {
    if v.Some? then v.value else 0
  }

  function Combine(leaves: Leaves, node: PrgNode, parts: seq<Data>): Result<Data> {
    match node.kind
    case Literal | SlotFill => Ok(node.literal)
    case AtomRef | RangeRef | BundleRef => FromReference(node.substrateRef, leaves.substrate)
    case AssemblyRef | Expand => FromReference(node.assemblyRef, leaves.assembly)
    case TransformRef => FromReference(node.transformRef, leaves.transform)
    case EpisodeRef => FromReference(node.episodeRef, leaves.episode)
    case Concat | Commit | Guard | Branch | Select => Ok(Join(parts))
    case Repeat => Ok(RepeatData(Join(parts), OrZero(node.repeatCount)))
    case Permute => Arrange(parts, node.permutation)
    case Patch => PatchData(Join(parts), node.literal, OrZero(node.patchOffset), OrZero(node.patchRemoveLen))
    case SchemaRef | Noop => Ok([])
  }

  /** A declared output length of 0 is not checked. */
  function CheckNode(node: PrgNode, bytes: Data): Result<Data> {
    if node.outputLen != 0 && |bytes| != node.outputLen then Err(NodeOutputLenMismatch) else Ok(bytes)
  }

  function CheckGraph(g: PrgGraph, bytes: Data): Result<Data> {
    if |bytes| != g.outputLen then Err(OutputLenMismatch) else Ok(bytes)
  }

  function NextDepth(depth: Byte): Byte {
    if depth == 255 then 255 else depth + 1
  }

  // ---- The interpreter and the resolver, with their two sets threaded through ----

  /** A result with the node stack and the active schemas it leaves behind. */
  datatype Run<+T> = Run(result: Result<T>, stack: set<nat>, active: set<nat>)

  function NodeIds(g: PrgGraph): set<nat> {
    set i | 0 <= i < |g.nodes| :: g.nodes[i].nodeId
  }

  lemma SmallerWithout(all: set<nat>, used: set<nat>, x: nat)
    requires x in all && x !in used
    ensures |all - (used + {x})| < |all - used|
  {
    assert all - (used + {x}) == (all - used) - {x};
  }

  function ExecNode(store: Store, leaves: Leaves, g: PrgGraph, id: nat, depth: Byte, stack: set<nat>, active: set<nat>)
    : (run: Run<Data>)
    ensures run.result.Ok? ==> run.stack == stack && run.active == active
    ensures run.active * store.Keys == active * store.Keys
    decreases |store.Keys - active|, |NodeIds(g) - stack|, 0
  {
    var at := IndexOf(g.nodes, id);
    if depth > g.depthCap then Run(Err(DepthExceeded), stack, active)
    else if at.None? then Run(Err(MissingNode), stack, active)
    else if id in stack then Run(Err(CycleDetected), stack, active)
    else
      var node := g.nodes[at.value];
      assert id in NodeIds(g);
      SmallerWithout(NodeIds(g), stack, id);
      var entered := stack + {id};
      if node.kind == SchemaRef then
        if node.schemaRef.None? then Run(Err(MissingReference), entered, active)
        else
          var nested := ResolveInner(store, leaves, node.schemaRef.value, active);
          if nested.result.Err? then Run(Err(MissingDependency), entered, nested.active)
          else Run(CheckNode(node, nested.result.value), entered - {id}, nested.active)
      else
        var needed := Needed(node);
        if needed.Err? then Run(Err(needed.error), entered, active)
        else
          var parts := ExecChildren(store, leaves, g, needed.value, NextDepth(depth), entered, active);
          if parts.result.Err? then Run(Err(parts.result.error), parts.stack, parts.active)
          else
            var bytes := Combine(leaves, node, parts.result.value);
            if bytes.Err? then Run(bytes, parts.stack, parts.active)
            else Run(CheckNode(node, bytes.value), parts.stack - {id}, parts.active)
  }

  function ExecChildren(store: Store, leaves: Leaves, g: PrgGraph, ids: seq<nat>, depth: Byte, stack: set<nat>,
          active: set<nat>)
    : (run: Run<seq<Data>>)
    ensures run.result.Ok? ==> run.stack == stack && run.active == active
    ensures run.active * store.Keys == active * store.Keys
    decreases |store.Keys - active|, |NodeIds(g) - stack|, 1 + |ids|
  {
    if ids == [] then Run(Ok([]), stack, active)
    else
      var first := ExecNode(store, leaves, g, ids[0], depth, stack, active);
      if first.result.Err? then Run(Err(first.result.error), first.stack, first.active)
      else
        var rest := ExecChildren(store, leaves, g, ids[1..], depth, first.stack, first.active);
        if rest.result.Err? then rest
        else Run(Ok([first.result.value] + rest.result.value), rest.stack, rest.active)
  }

  /** Resolve one schema. A schema already active is a cycle; a missing schema
      returns early and stays in the set, which holds it without being installed. */
  function ResolveInner(store: Store, leaves: Leaves, id: nat, active: set<nat>): (run: Run<Data>)
    ensures run.stack == {}
    ensures run.result.Ok? ==> run.active == active
    ensures run.active * store.Keys == active * store.Keys
    decreases |store.Keys - active|, 0, 0
  {
    if id in active then Run(Err(CycleDetected), {}, active)
    else if id !in store then Run(Err(MissingDependency), {}, active + {id})
    else
      SmallerWithout(store.Keys, active, id);
      var g := GraphOf(store[id]);
      var valid := Validate(g);
      if valid.Err? then Run(Err(valid.error), {}, active)
      else
        var run := ExecNode(store, leaves, g, g.root, 0, {}, active + {id});
        assert (run.active - {id}) * store.Keys == ((active + {id}) * store.Keys) - {id} == active * store.Keys;
        Run(if run.result.Err? then run.result else CheckGraph(g, run.result.value), {}, run.active - {id})
  }

  function Resolve(store: Store, leaves: Leaves, id: nat): Option<Data> {
    var run := ResolveInner(store, leaves, id, {});
    if run.result.Ok? then Some(run.result.value) else None
  }

  // ---- The set-free meaning: plain recursion, cut off only by fuel ----

  function MeanNode(store: Store, leaves: Leaves, g: PrgGraph, id: nat, depth: Byte, fuel: nat): Option<Data>
    decreases fuel, 0
  {
    var at := IndexOf(g.nodes, id);
    if fuel == 0 || depth > g.depthCap || at.None? then None
    else
      var node := g.nodes[at.value];
      if node.kind == SchemaRef then
        if node.schemaRef.None? then None
        else
          var nested := MeanSchema(store, leaves, node.schemaRef.value, fuel - 1);
          if nested.None? then None else Success(CheckNode(node, nested.value))
      else
        var needed := Needed(node);
        if needed.Err? then None
        else
          var parts := MeanChildren(store, leaves, g, needed.value, NextDepth(depth), fuel - 1);
          if parts.None? then None
          else
            var bytes := Combine(leaves, node, parts.value);
            if bytes.Err? then None else Success(CheckNode(node, bytes.value))
  }

  function Success(r: Result<Data>): Option<Data> {
    if r.Ok? then Some(r.value) else None
  }

  function MeanChildren(store: Store, leaves: Leaves, g: PrgGraph, ids: seq<nat>, depth: Byte,
          fuel: nat): Option<seq<Data>>
    decreases fuel, 1 + |ids|
  {
    if ids == [] then Some([])
    else
      var first := MeanNode(store, leaves, g, ids[0], depth, fuel);
      var rest := MeanChildren(store, leaves, g, ids[1..], depth, fuel);
      if first.None? || rest.None? then None else Some([first.value] + rest.value)
  }

  function MeanSchema(store: Store, leaves: Leaves, id: nat, fuel: nat): Option<Data>
    decreases fuel, 0
  {
    if fuel == 0 || id !in store then None
    else
      var g := GraphOf(store[id]);
      if Validate(g).Err? then None
      else
        var bytes := MeanNode(store, leaves, g, g.root, 0, fuel - 1);
        if bytes.None? then None else Success(CheckGraph(g, bytes.value))
  }

  lemma {:induction false} MeanNodeMono(store: Store, leaves: Leaves, g: PrgGraph, id: nat, depth: Byte, fuel: nat)
    requires MeanNode(store, leaves, g, id, depth, fuel).Some?
    ensures MeanNode(store, leaves, g, id, depth, fuel + 1) == MeanNode(store, leaves, g, id, depth, fuel)
    decreases fuel, 0
  {
    var node := g.nodes[IndexOf(g.nodes, id).value];
    if node.kind == SchemaRef {
      MeanSchemaMono(store, leaves, node.schemaRef.value, fuel - 1);
    } else {
      MeanChildrenMono(store, leaves, g, Needed(node).value, NextDepth(depth), fuel - 1);
    }
  }

  lemma {:induction false} MeanChildrenMono(store: Store, leaves: Leaves, g: PrgGraph, ids: seq<nat>, depth: Byte,
          fuel: nat)
    requires MeanChildren(store, leaves, g, ids, depth, fuel).Some?
    ensures MeanChildren(store, leaves, g, ids, depth, fuel + 1) == MeanChildren(store, leaves, g, ids, depth, fuel)
    decreases fuel, 1 + |ids|
  {
    if ids != [] {
      MeanNodeMono(store, leaves, g, ids[0], depth, fuel);
      MeanChildrenMono(store, leaves, g, ids[1..], depth, fuel);
    }
  }

  lemma {:induction false} MeanSchemaMono(store: Store, leaves: Leaves, id: nat, fuel: nat)
    requires MeanSchema(store, leaves, id, fuel).Some?
    ensures MeanSchema(store, leaves, id, fuel + 1) == MeanSchema(store, leaves, id, fuel)
    decreases fuel, 0
  {
    var g := GraphOf(store[id]);
    MeanNodeMono(store, leaves, g, g.root, 0, fuel - 1);
  }

  /** What evaluates at some depth evaluates to the same at any smaller depth. */
  lemma {:induction false} MeanNodeShallower(store: Store, leaves: Leaves, g: PrgGraph, id: nat, deep: Byte,
          shallow: Byte, fuel: nat)
    requires shallow <= deep && MeanNode(store, leaves, g, id, deep, fuel).Some?
    ensures MeanNode(store, leaves, g, id, shallow, fuel) == MeanNode(store, leaves, g, id, deep, fuel)
    decreases fuel, 0
  {
    var node := g.nodes[IndexOf(g.nodes, id).value];
    if node.kind != SchemaRef {
      MeanChildrenShallower(store, leaves, g, Needed(node).value, NextDepth(deep), NextDepth(shallow), fuel - 1);
    }
  }

  lemma {:induction false} MeanChildrenShallower(store: Store, leaves: Leaves, g: PrgGraph, ids: seq<nat>, deep: Byte,
          shallow: Byte, fuel: nat)
    requires shallow <= deep && MeanChildren(store, leaves, g, ids, deep, fuel).Some?
    ensures MeanChildren(store, leaves, g, ids, shallow, fuel) == MeanChildren(store, leaves, g, ids, deep, fuel)
    decreases fuel, 1 + |ids|
  {
    if ids != [] {
      MeanNodeShallower(store, leaves, g, ids[0], deep, shallow, fuel);
      MeanChildrenShallower(store, leaves, g, ids[1..], deep, shallow, fuel);
    }
  }

  // ---- The two cycle guards change no outcome ----

  /** No node on the stack and no active schema has a meaning within the fuel. */
  ghost predicate Guarded(store: Store, leaves: Leaves, g: PrgGraph, depth: Byte, stack: set<nat>, active: set<nat>,
          fuel: nat) {
    && (forall s :: s in stack ==> MeanNode(store, leaves, g, s, depth, fuel).None?)
    && ActiveGuarded(store, leaves, active, fuel)
  }

  ghost predicate ActiveGuarded(store: Store, leaves: Leaves, active: set<nat>, fuel: nat) {
    forall a :: a in active ==> MeanSchema(store, leaves, a, fuel).None?
  }

  lemma ActiveGuardedLess(store: Store, leaves: Leaves, active: set<nat>, fuel: nat)
    requires fuel > 0 && ActiveGuarded(store, leaves, active, fuel)
    ensures ActiveGuarded(store, leaves, active, fuel - 1)
  {
    forall a | a in active ensures MeanSchema(store, leaves, a, fuel - 1).None? {
      if MeanSchema(store, leaves, a, fuel - 1).Some? {
        MeanSchemaMono(store, leaves, a, fuel - 1);
      }
    }
  }

  /** Less fuel and more depth give even fewer meanings. */
  lemma GuardedDeeper(store: Store, leaves: Leaves, g: PrgGraph, depth: Byte, deeper: Byte, stack: set<nat>,
          active: set<nat>, fuel: nat)
    requires fuel > 0 && depth <= deeper && Guarded(store, leaves, g, depth, stack, active, fuel)
    ensures Guarded(store, leaves, g, deeper, stack, active, fuel - 1)
  {
    ActiveGuardedLess(store, leaves, active, fuel);
    forall s | s in stack ensures MeanNode(store, leaves, g, s, deeper, fuel - 1).None? {
      if MeanNode(store, leaves, g, s, deeper, fuel - 1).Some? {
        MeanNodeShallower(store, leaves, g, s, deeper, depth, fuel - 1);
        MeanNodeMono(store, leaves, g, s, depth, fuel - 1);
      }
    }
  }

  /** A node with a meaning is executed to that meaning. */
  lemma {:induction false} NodeFollowsMeaning(store: Store, leaves: Leaves, g: PrgGraph, id: nat, depth: Byte,
          stack: set<nat>, active: set<nat>, fuel: nat)
    requires MeanNode(store, leaves, g, id, depth, fuel).Some?
    requires Guarded(store, leaves, g, depth, stack, active, fuel)
    ensures ExecNode(store, leaves, g, id, depth, stack, active).result ==
            Ok(MeanNode(store, leaves, g, id, depth, fuel).value)
    decreases fuel, 0
  {
    if MeanNode(store, leaves, g, id, depth, fuel - 1).Some? {
      GuardedDeeper(store, leaves, g, depth, depth, stack, active, fuel);
      MeanNodeMono(store, leaves, g, id, depth, fuel - 1);
      NodeFollowsMeaning(store, leaves, g, id, depth, stack, active, fuel - 1);
    } else {
      var node := g.nodes[IndexOf(g.nodes, id).value];
      GuardedDeeper(store, leaves, g, depth, NextDepth(depth), stack, active, fuel);
      if node.kind == SchemaRef {
        SchemaFollowsMeaning(store, leaves, node.schemaRef.value, active, fuel - 1);
      } else {
        if MeanNode(store, leaves, g, id, NextDepth(depth), fuel - 1).Some? {
          MeanNodeShallower(store, leaves, g, id, NextDepth(depth), depth, fuel - 1);
        }
        ChildrenFollowMeaning(store, leaves, g, Needed(node).value, NextDepth(depth), stack + {id}, active, fuel - 1);
      }
    }
  }

  lemma {:induction false} ChildrenFollowMeaning(store: Store, leaves: Leaves, g: PrgGraph, ids: seq<nat>, depth: Byte,
          stack: set<nat>, active: set<nat>, fuel: nat)
    requires MeanChildren(store, leaves, g, ids, depth, fuel).Some?
    requires Guarded(store, leaves, g, depth, stack, active, fuel)
    ensures ExecChildren(store, leaves, g, ids, depth, stack, active).result ==
            Ok(MeanChildren(store, leaves, g, ids, depth, fuel).value)
    decreases fuel, 1 + |ids|
  {
    if ids != [] {
      NodeFollowsMeaning(store, leaves, g, ids[0], depth, stack, active, fuel);
      ChildrenFollowMeaning(store, leaves, g, ids[1..], depth, stack, active, fuel);
    }
  }

  lemma {:induction false} SchemaFollowsMeaning(store: Store, leaves: Leaves, id: nat, active: set<nat>, fuel: nat)
    requires MeanSchema(store, leaves, id, fuel).Some?
    requires ActiveGuarded(store, leaves, active, fuel)
    ensures ResolveInner(store, leaves, id, active).result == Ok(MeanSchema(store, leaves, id, fuel).value)
    decreases fuel, 0
  {
    ActiveGuardedLess(store, leaves, active, fuel);
    if MeanSchema(store, leaves, id, fuel - 1).Some? {
      MeanSchemaMono(store, leaves, id, fuel - 1);
      SchemaFollowsMeaning(store, leaves, id, active, fuel - 1);
    } else {
      var g := GraphOf(store[id]);
      NodeFollowsMeaning(store, leaves, g, g.root, 0, {}, active + {id}, fuel - 1);
    }
  }

  lemma {:induction false} MeanNodeAtLeast(store: Store, leaves: Leaves, g: PrgGraph, id: nat, depth: Byte, fuel: nat,
          more: nat)
    requires fuel <= more && MeanNode(store, leaves, g, id, depth, fuel).Some?
    ensures MeanNode(store, leaves, g, id, depth, more) == MeanNode(store, leaves, g, id, depth, fuel)
    decreases more - fuel
  {
    if fuel < more {
      MeanNodeMono(store, leaves, g, id, depth, fuel);
      MeanNodeAtLeast(store, leaves, g, id, depth, fuel + 1, more);
    }
  }

  lemma {:induction false} MeanChildrenAtLeast(store: Store, leaves: Leaves, g: PrgGraph, ids: seq<nat>, depth: Byte,
          fuel: nat, more: nat)
    requires fuel <= more && MeanChildren(store, leaves, g, ids, depth, fuel).Some?
    ensures MeanChildren(store, leaves, g, ids, depth, more) == MeanChildren(store, leaves, g, ids, depth, fuel)
    decreases more - fuel
  {
    if fuel < more {
      MeanChildrenMono(store, leaves, g, ids, depth, fuel);
      MeanChildrenAtLeast(store, leaves, g, ids, depth, fuel + 1, more);
    }
  }

  /** What a successful execution of a node rests on. */
  lemma NodeParts(store: Store, leaves: Leaves, g: PrgGraph, id: nat, depth: Byte, stack: set<nat>, active: set<nat>)
    requires ExecNode(store, leaves, g, id, depth, stack, active).result.Ok?
    ensures IndexOf(g.nodes, id).Some? && id in NodeIds(g) && id !in stack && depth <= g.depthCap
    ensures var node := g.nodes[IndexOf(g.nodes, id).value];
            if node.kind == SchemaRef then
              node.schemaRef.Some? && ResolveInner(store, leaves, node.schemaRef.value, active).result.Ok?
            else
              Needed(node).Ok? &&
              ExecChildren(store, leaves, g, Needed(node).value, NextDepth(depth), stack + {id}, active).result.Ok?
  {
    hide ExecChildren, ResolveInner, Combine, CheckNode, Needed, NextDepth;
  }

  lemma NodeFromSchema(store: Store, leaves: Leaves, g: PrgGraph, id: nat, depth: Byte, stack: set<nat>,
          active: set<nat>, schemaId: nat, fuel: nat)
    requires ExecNode(store, leaves, g, id, depth, stack, active).result.Ok?
    requires IndexOf(g.nodes, id).Some?
    requires var node := g.nodes[IndexOf(g.nodes, id).value];
             node.kind == SchemaRef && node.schemaRef == Some(schemaId)
    requires ResolveInner(store, leaves, schemaId, active).result.Ok?
    requires MeanSchema(store, leaves, schemaId, fuel) ==
             Some(ResolveInner(store, leaves, schemaId, active).result.value)
    ensures MeanNode(store, leaves, g, id, depth, fuel + 1) ==
            Some(ExecNode(store, leaves, g, id, depth, stack, active).result.value)
  {
    hide ExecChildren, MeanChildren, ResolveInner, MeanSchema, Combine, CheckNode, Needed, NextDepth;
  }

  lemma NodeFromChildren(store: Store, leaves: Leaves, g: PrgGraph, id: nat, depth: Byte, stack: set<nat>,
          active: set<nat>, fuel: nat)
    requires ExecNode(store, leaves, g, id, depth, stack, active).result.Ok?
    requires IndexOf(g.nodes, id).Some?
    requires var node := g.nodes[IndexOf(g.nodes, id).value];
             && node.kind != SchemaRef && Needed(node).Ok?
             && var ids := Needed(node).value;
                var parts := ExecChildren(store, leaves, g, ids, NextDepth(depth), stack + {id}, active).result;
                parts.Ok? && MeanChildren(store, leaves, g, Needed(node).value, NextDepth(depth), fuel) ==
                    Some(parts.value)
    ensures MeanNode(store, leaves, g, id, depth, fuel + 1) ==
            Some(ExecNode(store, leaves, g, id, depth, stack, active).result.value)
  {
    hide ExecChildren, MeanChildren, ResolveInner, MeanSchema, Combine, CheckNode, Needed, NextDepth;
  }

  /** A node that executes has the output as its meaning, for some fuel. */
  lemma {:induction false} NodeHasMeaning(store: Store, leaves: Leaves, g: PrgGraph, id: nat, depth: Byte,
          stack: set<nat>, active: set<nat>)
    returns (fuel: nat)
    requires ExecNode(store, leaves, g, id, depth, stack, active).result.Ok?
    ensures MeanNode(store, leaves, g, id, depth, fuel) ==
            Some(ExecNode(store, leaves, g, id, depth, stack, active).result.value)
    decreases |store.Keys - active|, |NodeIds(g) - stack|, 0
  {
    hide ExecNode, MeanNode, ExecChildren, MeanChildren, ResolveInner, MeanSchema, Combine, CheckNode, Needed, NodeIds;
    NodeParts(store, leaves, g, id, depth, stack, active);
    var node := g.nodes[IndexOf(g.nodes, id).value];
    SmallerWithout(NodeIds(g), stack, id);
    if node.kind == SchemaRef {
      fuel := SchemaHasMeaning(store, leaves, node.schemaRef.value, active);
      NodeFromSchema(store, leaves, g, id, depth, stack, active, node.schemaRef.value, fuel);
    } else {
      fuel := ChildrenHaveMeaning(store, leaves, g, Needed(node).value, NextDepth(depth), stack + {id}, active);
      NodeFromChildren(store, leaves, g, id, depth, stack, active, fuel);
    }
    fuel := fuel + 1;
  }

  lemma {:induction false} ChildrenHaveMeaning(store: Store, leaves: Leaves, g: PrgGraph, ids: seq<nat>, depth: Byte,
          stack: set<nat>, active: set<nat>)
    returns (fuel: nat)
    requires ExecChildren(store, leaves, g, ids, depth, stack, active).result.Ok?
    ensures MeanChildren(store, leaves, g, ids, depth, fuel) ==
            Some(ExecChildren(store, leaves, g, ids, depth, stack, active).result.value)
    decreases |store.Keys - active|, |NodeIds(g) - stack|, 1 + |ids|
  {
    fuel := 0;
    if ids != [] {
      var one := NodeHasMeaning(store, leaves, g, ids[0], depth, stack, active);
      var rest := ChildrenHaveMeaning(store, leaves, g, ids[1..], depth, stack, active);
      fuel := one + rest;
      MeanNodeAtLeast(store, leaves, g, ids[0], depth, one, fuel);
      MeanChildrenAtLeast(store, leaves, g, ids[1..], depth, rest, fuel);
    }
  }

  lemma {:induction false} SchemaHasMeaning(store: Store, leaves: Leaves, id: nat, active: set<nat>) returns (fuel: nat)
    requires ResolveInner(store, leaves, id, active).result.Ok?
    ensures MeanSchema(store, leaves, id, fuel) == Some(ResolveInner(store, leaves, id, active).result.value)
    decreases |store.Keys - active|, 0, 0
  {
    hide ExecNode, MeanNode, GraphOf, CheckGraph, Validate;
    SmallerWithout(store.Keys, active, id);
    var g := GraphOf(store[id]);
    fuel := NodeHasMeaning(store, leaves, g, g.root, 0, {}, active + {id});
    fuel := fuel + 1;
  }

  /** The resolver returns exactly the set-free meaning: neither the active set nor
      the node stack ever rejects a schema that plain recursion could finish (shared
      sub-schemas included), and together they cut off every recursion that could not. */
  lemma ResolveIsMeaning(store: Store, leaves: Leaves, id: nat, bytes: Data)
    ensures Resolve(store, leaves, id) == Some(bytes) <==>
            exists fuel :: MeanSchema(store, leaves, id, fuel) == Some(bytes)
  {
    if Resolve(store, leaves, id) == Some(bytes) {
      var fuel := SchemaHasMeaning(store, leaves, id, {});
    }
    if fuel :| MeanSchema(store, leaves, id, fuel) == Some(bytes) {
      SchemaFollowsMeaning(store, leaves, id, {}, fuel);
    }
  }

  // ---- Which calls of the resolver a run makes ----

  /** One call of the resolver: the schema, and the active set it finds. */
  datatype Call = Call(id: nat, active: set<nat>)

  /** The calls a run makes, in order, failing run or not. */
  function NodeCalls(store: Store, leaves: Leaves, g: PrgGraph, id: nat, depth: Byte, stack: set<nat>, active: set<nat>)
    : seq<Call>
    decreases |store.Keys - active|, |NodeIds(g) - stack|, 0
  {
    var at := IndexOf(g.nodes, id);
    if depth > g.depthCap || at.None? || id in stack then []
    else
      var node := g.nodes[at.value];
      assert id in NodeIds(g);
      SmallerWithout(NodeIds(g), stack, id);
      if node.kind == SchemaRef then
        if node.schemaRef.None? then [] else SchemaCalls(store, leaves, node.schemaRef.value, active)
      else if Needed(node).Err? then []
      else ChildCalls(store, leaves, g, Needed(node).value, NextDepth(depth), stack + {id}, active)
  }

  function ChildCalls(store: Store, leaves: Leaves, g: PrgGraph, ids: seq<nat>, depth: Byte, stack: set<nat>,
          active: set<nat>): seq<Call>
    decreases |store.Keys - active|, |NodeIds(g) - stack|, 1 + |ids|
  {
    if ids == [] then []
    else
      var first := ExecNode(store, leaves, g, ids[0], depth, stack, active);
      NodeCalls(store, leaves, g, ids[0], depth, stack, active) +
      if first.result.Err? then [] else ChildCalls(store, leaves, g, ids[1..], depth, first.stack, first.active)
  }

  function SchemaCalls(store: Store, leaves: Leaves, id: nat, active: set<nat>): seq<Call>
    decreases |store.Keys - active|, 0, 0
  {
    [Call(id, active)] +
    if id in active || id !in store || Validate(GraphOf(store[id])).Err? then []
    else
      SmallerWithout(store.Keys, active, id);
      NodeCalls(store, leaves, GraphOf(store[id]), GraphOf(store[id]).root, 0, {}, active + {id})
  }

  // ---- The interpreter and the resolver as they run: one node stack per graph, one active set for all ----

  class IdSet {
    var ids: set<nat>

    constructor ()
      ensures ids == {}
    {
      ids := {};
    }

    /** As BTreeSet::insert: says whether the id is new. */
    method Insert(id: nat) returns (isNew: bool)
      modifies this
      ensures isNew == (id !in old(ids)) && ids == old(ids) + {id}
    {
      isNew := id !in ids;
      ids := ids + {id};
    }

    method Remove(id: nat)
      modifies this
      ensures ids == old(ids) - {id}
    {
      ids := ids - {id};
    }
  }

  /** One node, on the graph's stack; a schema reference goes on with the shared active set. */
  method ExecutePrgNode(store: Store, leaves: Leaves, g: PrgGraph, id: nat, depth: Byte, stack: IdSet, active: IdSet)
    returns (result: Result<Data>, ghost calls: seq<Call>)
    requires stack != active
    modifies stack, active
    ensures var run := ExecNode(store, leaves, g, id, depth, old(stack.ids), old(active.ids));
            result == run.result && stack.ids == run.stack && active.ids == run.active
    ensures calls == NodeCalls(store, leaves, g, id, depth, old(stack.ids), old(active.ids))
    decreases |store.Keys - active.ids|, |NodeIds(g) - stack.ids|, 0
  {
    hide ExecChildren, ResolveInner, ChildCalls, SchemaCalls, Combine, Needed, NodeIds;
    calls := [];
    if depth > g.depthCap {
      return Err(DepthExceeded), calls;
    }
    var at := FindNode(g.nodes, id);
    if at.None? {
      return Err(MissingNode), calls;
    }
    var node := g.nodes[at.value];
    NodeIsListed(g, id);
    ghost var before := stack.ids;
    var isNew := stack.Insert(id);
    if !isNew {
      assert before + {id} == before;
      return Err(CycleDetected), calls;
    }
    SmallerWithout(NodeIds(g), before, id);
    var bytes: Data;
    if node.kind == SchemaRef {
      if node.schemaRef.None? {
        return Err(MissingReference), calls;
      }
      var nested;
      nested, calls := ResolveSchemaOutputInner(store, leaves, node.schemaRef.value, active);
      if nested.Err? {
        return Err(MissingDependency), calls;
      }
      bytes := nested.value;
    } else {
      var needed := Needed(node);
      if needed.Err? {
        return Err(needed.error), calls;
      }
      var parts;
      parts, calls := ExecuteChildren(store, leaves, g, needed.value, NextDepth(depth), stack, active);
      if parts.Err? {
        return Err(parts.error), calls;
      }
      var combined := CombineParts(leaves, node, parts.value);
      if combined.Err? {
        return combined, calls;
      }
      bytes := combined.value;
    }
    stack.Remove(id);
    if node.outputLen != 0 && |bytes| != node.outputLen {
      return Err(NodeOutputLenMismatch), calls;
    }
    return Ok(bytes), calls;
  }

  // The loops that append what the children yielded.

  method JoinParts(parts: seq<Data>) returns (out: Data)
    ensures out == Join(parts)
  {
    out := [];
    for i := 0 to |parts|
      invariant out + Join(parts[i..]) == Join(parts)
    {
      assert parts[i..][0] == parts[i] && parts[i..][1..] == parts[i + 1..];
      assert (out + parts[i]) + Join(parts[i + 1..]) == out + (parts[i] + Join(parts[i + 1..]));
      out := out + parts[i];
    }
    assert parts[|parts|..] == [] && out + [] == out;
  }

  method RepeatBytes(bytes: Data, times: nat) returns (out: Data)
    ensures out == RepeatData(bytes, times)
  {
    out := [];
    for i := 0 to times
      invariant out + RepeatData(bytes, times - i) == RepeatData(bytes, times)
    {
      var rest := RepeatData(bytes, times - i - 1);
      assert (out + bytes) + rest == out + (bytes + rest);
      out := out + bytes;
    }
    assert out + [] == out;
  }

  /** What is arranged so far, in front of the rest if the rest is in range. */
  function ArrangedBefore(out: Data, rest: Result<Data>): Result<Data> {
    if rest.Err? then rest else Ok(out + rest.value)
  }

  method ArrangeParts(parts: seq<Data>, permutation: seq<nat>) returns (result: Result<Data>)
    ensures result == Arrange(parts, permutation)
  {
    var out: Data := [];
    ghost var all := Arrange(parts, permutation);
    assert permutation[0..] == permutation && (all.Ok? ==> [] + all.value == all.value);
    for i := 0 to |permutation|
      invariant ArrangedBefore(out, Arrange(parts, permutation[i..])) == Arrange(parts, permutation)
    {
      var later := permutation[i + 1..];
      assert permutation[i..][0] == permutation[i] && permutation[i..][1..] == later;
      if permutation[i] >= |parts| {
        return Err(MissingChild);
      }
      ghost var rest := Arrange(parts, later);
      assert rest.Ok? ==> (out + parts[permutation[i]]) + rest.value == out + (parts[permutation[i]] + rest.value);
      out := out + parts[permutation[i]];
    }
    assert permutation[|permutation|..] == [] && out + [] == out;
    return Ok(out);
  }

  method CombineParts(leaves: Leaves, node: PrgNode, parts: seq<Data>) returns (result: Result<Data>)
    ensures result == Combine(leaves, node, parts)
  {
    hide Join, RepeatData, Arrange;
    match node.kind
    case Concat | Commit | Guard | Branch | Select =>
      var out := JoinParts(parts);
      return Ok(out);
    case Repeat =>
      var child := JoinParts(parts);
      var out := RepeatBytes(child, OrZero(node.repeatCount));
      return Ok(out);
    case Permute => result := ArrangeParts(parts, node.permutation);
    case Patch =>
      var child := JoinParts(parts);
      result := PatchData(child, node.literal, OrZero(node.patchOffset), OrZero(node.patchRemoveLen));
    case _ => result := Combine(leaves, node, []);
  }

  lemma NodeIsListed(g: PrgGraph, id: nat)
    requires IndexOf(g.nodes, id).Some?
    ensures id in NodeIds(g)
  {
  }

  /** A run whose first parts are known. */
  ghost function After(parts: seq<Data>, rest: Run<seq<Data>>): (all: Run<seq<Data>>)
    ensures parts == [] ==> all == rest
    ensures rest.result == Ok([]) ==> all == rest.(result := Ok(parts))
    ensures rest.result.Err? ==> all == rest
  {
    if rest.result.Err? then rest
    else
      assert parts == [] ==> parts + rest.result.value == rest.result.value;
      assert rest.result.value == [] ==> parts + rest.result.value == parts;
      rest.(result := Ok(parts + rest.result.value))
  }

  lemma AfterOne(parts: seq<Data>, part: Data, rest: Run<seq<Data>>)
    ensures After(parts, After([part], rest)) == After(parts + [part], rest)
  {
    if rest.result.Ok? {
      assert parts + ([part] + rest.result.value) == (parts + [part]) + rest.result.value;
    }
  }

  /** The first `i` children were executed: their outputs and the calls made. */
  ghost predicate Underway(store: Store, leaves: Leaves, g: PrgGraph, ids: seq<nat>, i: nat, depth: Byte,
          stack: set<nat>, active: set<nat>, parts: seq<Data>, calls: seq<Call>)
  {
    && i <= |ids|
    && ExecChildren(store, leaves, g, ids, depth, stack, active) ==
         After(parts, ExecChildren(store, leaves, g, ids[i..], depth, stack, active))
    && ChildCalls(store, leaves, g, ids, depth, stack, active) ==
         calls + ChildCalls(store, leaves, g, ids[i..], depth, stack, active)
  }

  lemma UnderwayStart(store: Store, leaves: Leaves, g: PrgGraph, ids: seq<nat>, depth: Byte, stack: set<nat>,
          active: set<nat>)
    ensures Underway(store, leaves, g, ids, 0, depth, stack, active, [], [])
  {
    hide ExecChildren, ChildCalls;
    assert ids[0..] == ids;
    assert [] + ChildCalls(store, leaves, g, ids, depth, stack, active) ==
           ChildCalls(store, leaves, g, ids, depth, stack, active);
  }

  lemma UnderwayEnd(store: Store, leaves: Leaves, g: PrgGraph, ids: seq<nat>, depth: Byte, stack: set<nat>,
          active: set<nat>, parts: seq<Data>, calls: seq<Call>)
    requires Underway(store, leaves, g, ids, |ids|, depth, stack, active, parts, calls)
    ensures ExecChildren(store, leaves, g, ids, depth, stack, active) == Run(Ok(parts), stack, active)
    ensures ChildCalls(store, leaves, g, ids, depth, stack, active) == calls
  {
    assert ids[|ids|..] == [] && calls + [] == calls;
  }

  /** One more child: on with the next one, or out with its error. */
  lemma UnderwayStep(store: Store, leaves: Leaves, g: PrgGraph, ids: seq<nat>, i: nat, depth: Byte, stack: set<nat>,
          active: set<nat>, parts: seq<Data>, calls: seq<Call>)
    requires i < |ids| && Underway(store, leaves, g, ids, i, depth, stack, active, parts, calls)
    ensures var first := ExecNode(store, leaves, g, ids[i], depth, stack, active);
            var more := calls + NodeCalls(store, leaves, g, ids[i], depth, stack, active);
            if first.result.Ok? then
              Underway(store, leaves, g, ids, i + 1, depth, stack, active, parts + [first.result.value], more)
            else
              && ExecChildren(store, leaves, g, ids, depth, stack, active) ==
                   Run(Err(first.result.error), first.stack, first.active)
              && ChildCalls(store, leaves, g, ids, depth, stack, active) == more
  {
    hide ExecNode, NodeCalls, After;
    assert ids[i..][0] == ids[i] && ids[i..][1..] == ids[i + 1..];
    var first := ExecNode(store, leaves, g, ids[i], depth, stack, active);
    var made := NodeCalls(store, leaves, g, ids[i], depth, stack, active);
    var rest := ExecChildren(store, leaves, g, ids[i + 1..], depth, stack, active);
    var restCalls := if first.result.Ok? then ChildCalls(store, leaves, g, ids[i + 1..], depth, stack, active) else [];
    CallsRegroup(calls, made, restCalls);
    if first.result.Ok? {
      AfterOne(parts, first.result.value, rest);
      OneBefore(first.result.value, rest);
    }
  }

  lemma OneBefore(part: Data, rest: Run<seq<Data>>)
    ensures After([part], rest) ==
            if rest.result.Err? then rest else Run(Ok([part] + rest.result.value), rest.stack, rest.active)
  {
  }

  lemma CallsRegroup(a: seq<Call>, b: seq<Call>, c: seq<Call>)
    ensures a + (b + c) == (a + b) + c
    ensures c == [] ==> a + (b + c) == a + b
  {
  }

  /** The loop over the children of a node. */
  method ExecuteChildren(store: Store, leaves: Leaves, g: PrgGraph, ids: seq<nat>, depth: Byte, stack: IdSet,
          active: IdSet)
    returns (result: Result<seq<Data>>, ghost calls: seq<Call>)
    requires stack != active
    modifies stack, active
    ensures var run := ExecChildren(store, leaves, g, ids, depth, old(stack.ids), old(active.ids));
            result == run.result && stack.ids == run.stack && active.ids == run.active
    ensures calls == ChildCalls(store, leaves, g, ids, depth, old(stack.ids), old(active.ids))
    decreases |store.Keys - active.ids|, |NodeIds(g) - stack.ids|, 1 + |ids|
  {
    hide ExecNode, ExecChildren, NodeCalls, ChildCalls, NodeIds, Underway;
    var parts: seq<Data> := [];
    calls := [];
    ghost var nodes, schemas := stack.ids, active.ids;
    UnderwayStart(store, leaves, g, ids, depth, nodes, schemas);
    for i := 0 to |ids|
      invariant stack.ids == nodes && active.ids == schemas
      invariant Underway(store, leaves, g, ids, i, depth, nodes, schemas, parts, calls)
    {
      UnderwayStep(store, leaves, g, ids, i, depth, nodes, schemas, parts, calls);
      var child;
      ghost var made;
      child, made := ExecutePrgNode(store, leaves, g, ids[i], depth, stack, active);
      calls := calls + made;
      if child.Err? {
        return Err(child.error), calls;
      }
      parts := parts + [child.value];
    }
    UnderwayEnd(store, leaves, g, ids, depth, nodes, schemas, parts, calls);
    return Ok(parts), calls;
  }

  /** A validated graph, on a stack of its own and the caller's active set: whatever the exit, the
      installed schemas in that set are as before, and a result has the declared length. */
  method ExecutePrg(store: Store, leaves: Leaves, g: PrgGraph, active: IdSet)
    returns (result: Result<Data>, ghost calls: seq<Call>)
    modifies active
    ensures active.ids * store.Keys == old(active.ids) * store.Keys
    ensures result.Ok? ==> active.ids == old(active.ids) && |result.value| == g.outputLen && Validate(g).Ok?
    ensures Validate(g).Err? ==> result == Err(Validate(g).error) && active.ids == old(active.ids)
    ensures Validate(g).Ok? ==>
              var run := ExecNode(store, leaves, g, g.root, 0, {}, old(active.ids));
              active.ids == run.active &&
                  result == if run.result.Err? then run.result else CheckGraph(g, run.result.value)
    ensures calls == if Validate(g).Err? then [] else NodeCalls(store, leaves, g, g.root, 0, {}, old(active.ids))
    decreases |store.Keys - active.ids|, |NodeIds(g)|, 1
  {
    hide ExecNode, NodeCalls, NodeIds, Validate;
    var valid := Validate(g);
    if valid.Err? {
      return Err(valid.error), [];
    }
    var stack := new IdSet();
    assert NodeIds(g) - {} == NodeIds(g);
    var out;
    out, calls := ExecutePrgNode(store, leaves, g, g.root, 0, stack, active);
    if out.Err? {
      return out, calls;
    }
    if |out.value| != g.outputLen {
      return Err(OutputLenMismatch), calls;
    }
    return out, calls;
  }

  /** Whatever happens, the installed schemas in the shared set are those from
      before the call; after a success the set is exactly as before. */
  method ResolveSchemaOutputInner(store: Store, leaves: Leaves, id: nat, active: IdSet)
    returns (result: Result<Data>, ghost calls: seq<Call>)
    modifies active
    ensures var run := ResolveInner(store, leaves, id, old(active.ids));
            result == run.result && active.ids == run.active
    ensures active.ids * store.Keys == old(active.ids) * store.Keys
    ensures result.Ok? ==> active.ids == old(active.ids)
    ensures calls == SchemaCalls(store, leaves, id, old(active.ids))
    decreases |store.Keys - active.ids|, 0, 0
  {
    hide ExecNode, NodeCalls, Validate, NodeIds;
    ghost var before := active.ids;
    calls := [Call(id, before)];
    var isNew := active.Insert(id);
    if !isNew {
      assert before + {id} == before;
      return Err(CycleDetected), calls;
    }
    if id !in store {
      return Err(MissingDependency), calls;
    }
    SmallerWithout(store.Keys, before, id);
    var def := store[id];
    var nodes := MergeEdgeTable(def.nodeTable, def.edgeTable);
    var root := ChooseRoot(nodes, def.edgeTable);
    var g := PrgGraph(root, def.decodeMaxDepth, def.outputLen, nodes);
    assert g == GraphOf(def);
    ghost var nested;
    result, nested := ExecutePrg(store, leaves, g, active);
    calls := calls + nested;
    assert (before + {id}) - {id} == before;
    active.Remove(id);
  }

  method ResolveSchemaOutput(store: Store, leaves: Leaves, id: nat) returns (output: Option<Data>)
    ensures output == Resolve(store, leaves, id)
  {
    var active := new IdSet();
    var result;
    ghost var calls;
    result, calls := ResolveSchemaOutputInner(store, leaves, id, active);
    return if result.Ok? then Some(result.value) else None;
  }

  // ---- Consequences ----

  /** Store `b` holds every definition of `a`, and perhaps more. */
  ghost predicate Agrees(a: Store, b: Store) {
    forall id :: id in a ==> id in b && a[id] == b[id]
  }

  lemma {:induction false} MeanSchemaExtends(a: Store, b: Store, leaves: Leaves, id: nat, fuel: nat)
    requires Agrees(a, b) && MeanSchema(a, leaves, id, fuel).Some?
    ensures MeanSchema(b, leaves, id, fuel) == MeanSchema(a, leaves, id, fuel)
    decreases fuel, 0
  {
    var g := GraphOf(a[id]);
    MeanNodeExtends(a, b, leaves, g, g.root, 0, fuel - 1);
  }

  lemma {:induction false} MeanNodeExtends(a: Store, b: Store, leaves: Leaves, g: PrgGraph, id: nat, depth: Byte,
          fuel: nat)
    requires Agrees(a, b) && MeanNode(a, leaves, g, id, depth, fuel).Some?
    ensures MeanNode(b, leaves, g, id, depth, fuel) == MeanNode(a, leaves, g, id, depth, fuel)
    decreases fuel, 0
  {
    var node := g.nodes[IndexOf(g.nodes, id).value];
    if node.kind == SchemaRef {
      MeanSchemaExtends(a, b, leaves, node.schemaRef.value, fuel - 1);
    } else {
      MeanChildrenExtends(a, b, leaves, g, Needed(node).value, NextDepth(depth), fuel - 1);
    }
  }

  lemma {:induction false} MeanChildrenExtends(a: Store, b: Store, leaves: Leaves, g: PrgGraph, ids: seq<nat>,
          depth: Byte, fuel: nat)
    requires Agrees(a, b) && MeanChildren(a, leaves, g, ids, depth, fuel).Some?
    ensures MeanChildren(b, leaves, g, ids, depth, fuel) == MeanChildren(a, leaves, g, ids, depth, fuel)
    decreases fuel, 1 + |ids|
  {
    if ids != [] {
      MeanNodeExtends(a, b, leaves, g, ids[0], depth, fuel);
      MeanChildrenExtends(a, b, leaves, g, ids[1..], depth, fuel);
    }
  }

  /** Installing further schemas never changes an output that already resolved. */
  lemma ResolveSurvivesInstalls(a: Store, b: Store, leaves: Leaves, id: nat)
    requires Agrees(a, b) && Resolve(a, leaves, id).Some?
    ensures Resolve(b, leaves, id) == Resolve(a, leaves, id)
  {
    var fuel := SchemaHasMeaning(a, leaves, id, {});
    MeanSchemaExtends(a, b, leaves, id, fuel);
    SchemaFollowsMeaning(b, leaves, id, {}, fuel);
  }
}
