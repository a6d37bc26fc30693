/** Why a schema does not resolve: the chains of schemas a resolution follows, what the shared
    active set holds along them, and the exact condition for failure. */
module ResolverFailures {
  import opened Bytes
  import opened Wire
  import opened Graph
  import opened Resolver

  // ---- Which schemas a schema asks for ----

  /** Executing node `a` executes node `b`. */
  predicate Executes(g: PrgGraph, a: nat, b: nat) {
    var at := IndexOf(g.nodes, a);
    && at.Some? && g.nodes[at.value].kind != SchemaRef
    && Needed(g.nodes[at.value]).Ok? && b in Needed(g.nodes[at.value]).value
  }

  ghost predicate NodePath(g: PrgGraph, path: seq<nat>) {
    path != [] && forall k :: 0 < k < |path| ==> Executes(g, path[k - 1], path[k])
  }

  predicate NamesSchema(g: PrgGraph, id: nat, schema: nat) {
    var at := IndexOf(g.nodes, id);
    at.Some? && g.nodes[at.value].kind == SchemaRef && g.nodes[at.value].schemaRef == Some(schema)
  }

  /** A path of executed nodes leads from the root of schema `a` to a reference to schema `b`. */
  ghost predicate Asks(store: Store, a: nat, b: nat) {
    && a in store
    && exists path :: NodePath(GraphOf(store[a]), path) && path[0] == GraphOf(store[a]).root &&
                      NamesSchema(GraphOf(store[a]), path[|path| - 1], b)
  }

  /** Each schema of the chain asks for the next one. */
  ghost predicate Chain(store: Store, ids: seq<nat>) {
    ids != [] && forall k :: 0 < k < |ids| ==> Asks(store, ids[k - 1], ids[k])
  }

  predicate EndsMissing(store: Store, ids: seq<nat>) {
    ids != [] && ids[|ids| - 1] !in store
  }

  /** The last schema of the chain stands on it before. */
  predicate Closes(ids: seq<nat>) {
    ids != [] && ids[|ids| - 1] in ids[..|ids| - 1]
  }

  // ---- A missing schema or a cycle on a chain makes resolution fail ----

  lemma {:induction false} MeanSchemaAtLeast(store: Store, leaves: Leaves, id: nat, fuel: nat, more: nat)
    requires fuel <= more && MeanSchema(store, leaves, id, fuel).Some?
    ensures MeanSchema(store, leaves, id, more) == MeanSchema(store, leaves, id, fuel)
    decreases more - fuel
  {
    hide MeanSchema;
    if fuel < more {
      MeanSchemaMono(store, leaves, id, fuel);
      MeanSchemaAtLeast(store, leaves, id, fuel + 1, more);
    }
  }

  lemma {:induction false} ChildHasMeaning(store: Store, leaves: Leaves, g: PrgGraph, ids: seq<nat>, depth: Byte,
          fuel: nat, id: nat)
    requires id in ids && MeanChildren(store, leaves, g, ids, depth, fuel).Some?
    ensures MeanNode(store, leaves, g, id, depth, fuel).Some?
  {
    if id != ids[0] {
      ChildHasMeaning(store, leaves, g, ids[1..], depth, fuel, id);
    }
  }

  /** What a node with a meaning asks for has a meaning with less fuel. */
  lemma {:induction false} PathHasMeaning(store: Store, leaves: Leaves, g: PrgGraph, path: seq<nat>, depth: Byte,
          fuel: nat, schema: nat)
    requires NodePath(g, path) && NamesSchema(g, path[|path| - 1], schema)
    requires MeanNode(store, leaves, g, path[0], depth, fuel).Some?
    ensures fuel > 0 && MeanSchema(store, leaves, schema, fuel - 1).Some?
    decreases fuel
  {
    hide MeanChildren, MeanSchema, GraphOf;
    if |path| > 1 {
      assert Executes(g, path[0], path[1]);
      var needed := Needed(g.nodes[IndexOf(g.nodes, path[0]).value]).value;
      ChildHasMeaning(store, leaves, g, needed, NextDepth(depth), fuel - 1, path[1]);
      PathHasMeaning(store, leaves, g, path[1..], NextDepth(depth), fuel - 1, schema);
      MeanSchemaAtLeast(store, leaves, schema, fuel - 2, fuel - 1);
    }
  }

  lemma AskedHasMeaning(store: Store, leaves: Leaves, a: nat, b: nat, fuel: nat)
    requires Asks(store, a, b) && MeanSchema(store, leaves, a, fuel).Some?
    ensures fuel > 0 && MeanSchema(store, leaves, b, fuel - 1).Some?
  {
    hide MeanNode, GraphOf, Executes, NamesSchema, Validate, CheckGraph;
    var g := GraphOf(store[a]);
    var path :| NodePath(g, path) && path[0] == g.root && NamesSchema(g, path[|path| - 1], b);
    PathHasMeaning(store, leaves, g, path, 0, fuel - 1, b);
    hide MeanSchema;
    MeanSchemaAtLeast(store, leaves, b, fuel - 2, fuel - 1);
  }

  /** The last schema of a chain has a meaning if the first has, with less fuel if it is further on. */
  lemma {:induction false} ChainHasMeaning(store: Store, leaves: Leaves, ids: seq<nat>, fuel: nat)
    requires Chain(store, ids) && MeanSchema(store, leaves, ids[0], fuel).Some?
    ensures |ids| > 1 ==> fuel > 0 && MeanSchema(store, leaves, ids[|ids| - 1], fuel - 1).Some?
    ensures MeanSchema(store, leaves, ids[|ids| - 1], fuel).Some?
    decreases |ids|
  {
    hide MeanSchema, Asks;
    if |ids| > 1 {
      AskedHasMeaning(store, leaves, ids[0], ids[1], fuel);
      ChainHasMeaning(store, leaves, ids[1..], fuel - 1);
      MeanSchemaAtLeast(store, leaves, ids[|ids| - 1], fuel - 1, fuel);
    }
  }

  /** Nothing on a loop has a meaning, whatever the fuel. */
  lemma {:induction false} LoopHasNoMeaning(store: Store, leaves: Leaves, loop: seq<nat>, fuel: nat)
    requires Chain(store, loop) && |loop| > 1 && loop[0] == loop[|loop| - 1]
    ensures MeanSchema(store, leaves, loop[0], fuel).None?
  {
    hide MeanSchema, Chain;
    if MeanSchema(store, leaves, loop[0], fuel).Some? {
      ChainHasMeaning(store, leaves, loop, fuel);
      LoopHasNoMeaning(store, leaves, loop, fuel - 1);
    }
  }

  lemma BadChainHasNoMeaning(store: Store, leaves: Leaves, ids: seq<nat>, fuel: nat)
    requires Chain(store, ids) && (EndsMissing(store, ids) || Closes(ids))
    ensures MeanSchema(store, leaves, ids[0], fuel).None?
  {
    hide MeanNode, GraphOf, Validate, CheckGraph, Asks;
    if MeanSchema(store, leaves, ids[0], fuel).Some? {
      ChainHasMeaning(store, leaves, ids, fuel);
      assert Closes(ids);
      ClosingChainHasLoop(store, leaves, ids, fuel);
    }
  }

  lemma ClosingChainHasLoop(store: Store, leaves: Leaves, ids: seq<nat>, fuel: nat)
    requires Chain(store, ids) && Closes(ids)
    ensures MeanSchema(store, leaves, ids[|ids| - 1], fuel).None?
  {
    hide MeanSchema, Asks;
    var i :| 0 <= i < |ids| - 1 && ids[..|ids| - 1][i] == ids[|ids| - 1];
    var loop := ids[i..];
    assert forall k :: 0 <= k < |loop| ==> loop[k] == ids[i + k];
    LoopHasNoMeaning(store, leaves, loop, fuel);
  }

  /** A chain that ends at a schema that is not installed, or comes back to one of its schemas,
      makes the schema it starts from fail. */
  lemma BadChainFails(store: Store, leaves: Leaves, ids: seq<nat>)
    requires Chain(store, ids) && (EndsMissing(store, ids) || Closes(ids))
    ensures Resolve(store, leaves, ids[0]).None?
  {
    hide Resolve, MeanSchema, Asks, EndsMissing, Closes;
    if Resolve(store, leaves, ids[0]).Some? {
      var bytes := Resolve(store, leaves, ids[0]).value;
      ResolveIsMeaning(store, leaves, ids[0], bytes);
      var fuel: nat :| MeanSchema(store, leaves, ids[0], fuel) == Some(bytes);
      BadChainHasNoMeaning(store, leaves, ids, fuel);
    }
  }

  /** A schema fails with any schema it asks for. */
  lemma FailureSpreads(store: Store, leaves: Leaves, a: nat, b: nat)
    requires Asks(store, a, b) && Resolve(store, leaves, b).None?
    ensures Resolve(store, leaves, a).None?
  {
    hide Resolve, MeanSchema, Asks;
    if Resolve(store, leaves, a).Some? {
      var bytes := Resolve(store, leaves, a).value;
      ResolveIsMeaning(store, leaves, a, bytes);
      var fuel: nat :| MeanSchema(store, leaves, a, fuel) == Some(bytes);
      AskedHasMeaning(store, leaves, a, b, fuel);
      ResolveIsMeaning(store, leaves, b, MeanSchema(store, leaves, b, fuel - 1).value);
    }
  }

  // ---- What the active set holds at every call of the resolver ----

  function Elements(ids: seq<nat>): set<nat> {
    set id | id in ids
  }

  lemma ElementsSplit(ids: seq<nat>)
    requires ids != []
    ensures Elements(ids) == Elements(ids[..|ids| - 1]) + {ids[|ids| - 1]}
    ensures Closes(ids) <==> ids[|ids| - 1] in Elements(ids[..|ids| - 1])
  {
    assert ids == ids[..|ids| - 1] + [ids[|ids| - 1]];
  }

  /** A chain that continues `from` ends at the called schema, and the active set is what stands before it. */
  ghost predicate FoundBy(store: Store, from: seq<nat>, call: Call, chain: seq<nat>) {
    && Chain(store, chain) && from <= chain
    && chain[|chain| - 1] == call.id
    && call.active == Elements(chain[..|chain| - 1])
  }

  /** Where a run stands: `here` is the last schema of the chain, `g` its graph, and a path of
      executed nodes leads from the root to the node at hand. */
  ghost predicate Standing(store: Store, chain: seq<nat>, here: nat, g: PrgGraph, path: seq<nat>) {
    && Chain(store, chain) && chain[|chain| - 1] == here
    && here in store && g == GraphOf(store[here])
    && NodePath(g, path) && path[0] == g.root
  }

  lemma ChainGrows(store: Store, chain: seq<nat>, b: nat)
    requires Chain(store, chain) && Asks(store, chain[|chain| - 1], b)
    ensures Chain(store, chain + [b])
    ensures (chain + [b])[..|chain|] == chain
  {
    hide Asks;
    var longer := chain + [b];
    forall k | 0 < k < |longer| ensures Asks(store, longer[k - 1], longer[k]) {
      if k < |chain| {
        assert longer[k - 1] == chain[k - 1] && longer[k] == chain[k];
      }
    }
  }

  lemma StandingAsks(store: Store, chain: seq<nat>, here: nat, g: PrgGraph, path: seq<nat>, b: nat)
    requires Standing(store, chain, here, g, path) && NamesSchema(g, path[|path| - 1], b)
    ensures Chain(store, chain) && chain[|chain| - 1] == here && Asks(store, here, b)
  {
    hide Chain, NodePath, NamesSchema, GraphOf;
    PathNotEmpty(g, path);
    ChainNotEmpty(store, chain);
  }

  lemma PathNotEmpty(g: PrgGraph, path: seq<nat>)
    requires NodePath(g, path)
    ensures path != []
  {
  }

  lemma ChainNotEmpty(store: Store, chain: seq<nat>)
    requires Chain(store, chain)
    ensures chain != []
  {
  }

  lemma StepAlong(g: PrgGraph, path: seq<nat>, id: nat)
    requires NodePath(g, path) && Executes(g, path[|path| - 1], id)
    ensures NodePath(g, path + [id]) && (path + [id])[..|path|] == path
  {
    hide Executes;
    var longer := path + [id];
    forall k | 0 < k < |longer| ensures Executes(g, longer[k - 1], longer[k]) {
      if k < |path| {
        assert longer[k - 1] == path[k - 1] && longer[k] == path[k];
      }
    }
  }

  lemma StandingStep(store: Store, chain: seq<nat>, here: nat, g: PrgGraph, path: seq<nat>, id: nat)
    requires Standing(store, chain, here, g, path) && Executes(g, path[|path| - 1], id)
    ensures Standing(store, chain, here, g, path + [id])
  {
    hide Executes, GraphOf, Chain;
    StepAlong(g, path, id);
  }

  lemma StandingEnds(store: Store, chain: seq<nat>, here: nat, g: PrgGraph, path: seq<nat>)
    requires Standing(store, chain, here, g, path)
    ensures chain != [] && path != [] && chain[|chain| - 1] == here && here in store
  {
  }

  /** What the calls of one node come from. */
  lemma NodeCallsFrom(store: Store, leaves: Leaves, g: PrgGraph, id: nat, depth: Byte, stack: set<nat>,
          active: set<nat>)
    requires NodeCalls(store, leaves, g, id, depth, stack, active) != []
    ensures IndexOf(g.nodes, id).Some? && id in NodeIds(g) && id !in stack
    ensures var node := g.nodes[IndexOf(g.nodes, id).value];
            if node.kind == SchemaRef then
              node.schemaRef.Some? && NamesSchema(g, id, node.schemaRef.value) &&
              NodeCalls(store, leaves, g, id, depth, stack, active) ==
                  SchemaCalls(store, leaves, node.schemaRef.value, active)
            else
              Needed(node).Ok? && (forall child :: child in Needed(node).value ==> Executes(g, id, child)) &&
              NodeCalls(store, leaves, g, id, depth, stack, active) ==
                ChildCalls(store, leaves, g, Needed(node).value, NextDepth(depth), stack + {id}, active)
  {
    hide SchemaCalls, ChildCalls, Needed;
  }

  lemma {:induction false} NodeCallsFollowChains(store: Store, leaves: Leaves, chain: seq<nat>, here: nat, g: PrgGraph,
          path: seq<nat>, depth: Byte, stack: set<nat>, call: Call)
    returns (found: seq<nat>)
    requires Standing(store, chain, here, g, path)
    requires call in NodeCalls(store, leaves, g, path[|path| - 1], depth, stack, Elements(chain))
    ensures FoundBy(store, chain, call, found)
    decreases |store.Keys - Elements(chain)|, |NodeIds(g) - stack|, 0
  {
    hide Standing, NodeCalls, ChildCalls, SchemaCalls, NodeIds, Needed, NamesSchema, Executes, Elements;
    StandingEnds(store, chain, here, g, path);
    var id := path[|path| - 1];
    NodeCallsFrom(store, leaves, g, id, depth, stack, Elements(chain));
    var node := g.nodes[IndexOf(g.nodes, id).value];
    SmallerWithout(NodeIds(g), stack, id);
    if node.kind == SchemaRef {
      var b := node.schemaRef.value;
      StandingAsks(store, chain, here, g, path, b);
      ChainGrows(store, chain, b);
      found := SchemaCallsFollowChains(store, leaves, chain + [b], call);
      FoundFurther(store, chain, b, call, found);
    } else {
      found := ChildCallsFollowChains(store, leaves, chain, here, g, path, Needed(node).value, NextDepth(depth),
                                      stack + {id}, call);
    }
  }

  lemma FoundFurther(store: Store, chain: seq<nat>, b: nat, call: Call, found: seq<nat>)
    requires FoundBy(store, chain + [b], call, found)
    ensures FoundBy(store, chain, call, found)
  {
    hide Chain;
  }

  lemma {:induction false} ChildCallsFollowChains(store: Store, leaves: Leaves, chain: seq<nat>, here: nat,
          g: PrgGraph, path: seq<nat>, ids: seq<nat>, depth: Byte, stack: set<nat>, call: Call)
    returns (found: seq<nat>)
    requires Standing(store, chain, here, g, path)
    requires forall id :: id in ids ==> Executes(g, path[|path| - 1], id)
    requires call in ChildCalls(store, leaves, g, ids, depth, stack, Elements(chain))
    ensures FoundBy(store, chain, call, found)
    decreases |store.Keys - Elements(chain)|, |NodeIds(g) - stack|, 1 + |ids|
  {
    hide Standing, NodeCalls, ExecNode, NodeIds, Executes, Elements;
    StandingEnds(store, chain, here, g, path);
    assert ids[0] in ids && forall id :: id in ids[1..] ==> id in ids;
    if call in NodeCalls(store, leaves, g, ids[0], depth, stack, Elements(chain)) {
      StandingStep(store, chain, here, g, path, ids[0]);
      found := NodeCallsFollowChains(store, leaves, chain, here, g, path + [ids[0]], depth, stack, call);
    } else {
      found := ChildCallsFollowChains(store, leaves, chain, here, g, path, ids[1..], depth, stack, call);
    }
  }

  lemma SchemaCallsFrom(store: Store, leaves: Leaves, id: nat, active: set<nat>, call: Call)
    requires call in SchemaCalls(store, leaves, id, active)
    ensures call == Call(id, active) ||
            (id !in active && id in store &&
             call in NodeCalls(store, leaves, GraphOf(store[id]), GraphOf(store[id]).root, 0, {}, active + {id}))
  {
    hide NodeCalls, GraphOf, Validate;
  }

  lemma StandingStart(store: Store, chain: seq<nat>)
    requires Chain(store, chain) && chain[|chain| - 1] in store
    ensures var g := GraphOf(store[chain[|chain| - 1]]); Standing(store, chain, chain[|chain| - 1], g, [g.root])
  {
    hide Asks, Executes, GraphOf;
  }

  lemma {:induction false} SchemaCallsFollowChains(store: Store, leaves: Leaves, chain: seq<nat>, call: Call)
    returns (found: seq<nat>)
    requires Chain(store, chain)
    requires call in SchemaCalls(store, leaves, chain[|chain| - 1], Elements(chain[..|chain| - 1]))
    ensures FoundBy(store, chain, call, found)
    decreases |store.Keys - Elements(chain[..|chain| - 1])|, 0, 0
  {
    hide GraphOf, Asks, NodeCalls, SchemaCalls, Standing, Elements;
    var id, active := chain[|chain| - 1], Elements(chain[..|chain| - 1]);
    SchemaCallsFrom(store, leaves, id, active, call);
    if call == Call(id, active) {
      found := chain;
    } else {
      StandingStart(store, chain);
      ElementsSplit(chain);
      SmallerWithout(store.Keys, active, id);
      var g := GraphOf(store[id]);
      found := NodeCallsFollowChains(store, leaves, chain, id, g, [g.root], 0, {}, call);
    }
  }

  /** From an empty set, every call of the resolver finds in the set exactly the schemas of a chain
      that leads to it. So the guard rejects a call only where that chain closes, and a call misses
      its schema only where that chain ends at one that is not installed. */
  lemma GuardFiresOnlyOnCycles(store: Store, leaves: Leaves, id: nat, call: Call) returns (chain: seq<nat>)
    requires call in SchemaCalls(store, leaves, id, {})
    ensures Chain(store, chain) && chain[0] == id && chain[|chain| - 1] == call.id
    ensures call.active == Elements(chain[..|chain| - 1])
    ensures call.id in call.active <==> Closes(chain)
    ensures call.id !in store <==> EndsMissing(store, chain)
  {
    hide SchemaCalls, Asks;
    assert [id][..0] == [] && Elements([]) == {};
    chain := SchemaCallsFollowChains(store, leaves, [id], call);
  }

  // ---- One schema on its own, with the outputs of the others written out ----

  /** A definition that holds these bytes as a literal. */
  function Literally(def: SchemaDef, bytes: Data): SchemaDef {
    var node := PrgNode(0, Literal, 0, bytes, None, None, None, None, None, [], None, None, [], None, None);
    def.(outputLen := |bytes|, nodeTable := [node], edgeTable := [], decodeMaxDepth := 0)
  }

  /** Schema `c` as it is, every other schema that resolves as a literal of its output, and no more. */
  function WithOutputs(store: Store, leaves: Leaves, c: nat): Store {
    map b | b in store && (b == c || Resolve(store, leaves, b).Some?) ::
      if b == c then store[b] else Literally(store[b], Resolve(store, leaves, b).value)
  }

  lemma LiteralMeans(store: Store, leaves: Leaves, b: nat, def: SchemaDef, bytes: Data)
    requires b in store && store[b] == Literally(def, bytes)
    ensures MeanSchema(store, leaves, b, 2) == Some(bytes)
  {
    var g := GraphOf(store[b]);
    assert g.nodes == store[b].nodeTable && g.root == 0;
    assert MeanNode(store, leaves, g, 0, 0, 1) == Some(bytes);
  }

  /** An output at some fuel needs at least two steps, and is the output of any other fuel. */
  lemma SameOutput(store: Store, leaves: Leaves, b: nat, x: Data, fuel: nat, y: Data, other: nat)
    requires MeanSchema(store, leaves, b, fuel) == Some(x) && MeanSchema(store, leaves, b, other) == Some(y)
    ensures x == y && fuel >= 2
  {
    if fuel <= other {
      MeanSchemaAtLeast(store, leaves, b, fuel, other);
    } else {
      MeanSchemaAtLeast(store, leaves, b, other, fuel);
    }
  }

  /** The other schema in the written-out store has the output it has in the original one. */
  lemma OtherOutput(store: Store, leaves: Leaves, c: nat, b: nat, fuel: nat)
    requires c in store && b != c && MeanSchema(store, leaves, b, fuel).Some?
    ensures MeanSchema(WithOutputs(store, leaves, c), leaves, b, fuel) == MeanSchema(store, leaves, b, fuel)
  {
    hide MeanSchema, Resolve, Literally;
    var bytes := MeanSchema(store, leaves, b, fuel).value;
    ResolveIsMeaning(store, leaves, b, bytes);
    OnlyInstalledMeans(store, leaves, b, fuel);
    var flat := WithOutputs(store, leaves, c);
    LiteralMeans(flat, leaves, b, store[b], bytes);
    SameOutput(store, leaves, b, bytes, fuel, bytes, fuel);
    MeanSchemaAtLeast(flat, leaves, b, 2, fuel);
  }

  lemma OnlyInstalledMeans(store: Store, leaves: Leaves, b: nat, fuel: nat)
    requires MeanSchema(store, leaves, b, fuel).Some?
    ensures b in store && fuel > 0
  {
  }

  lemma {:induction false} NodeWithOutputs(store: Store, leaves: Leaves, c: nat, g: PrgGraph, id: nat, depth: Byte,
          fuel: nat)
    requires c in store && MeanNode(store, leaves, g, id, depth, fuel).Some?
    ensures MeanNode(WithOutputs(store, leaves, c), leaves, g, id, depth, fuel) ==
            MeanNode(store, leaves, g, id, depth, fuel)
    decreases fuel, 0
  {
    hide MeanSchema, WithOutputs;
    var node := g.nodes[IndexOf(g.nodes, id).value];
    if node.kind == SchemaRef {
      if node.schemaRef.value == c {
        SchemaWithOutputs(store, leaves, c, fuel - 1);
      } else {
        OtherOutput(store, leaves, c, node.schemaRef.value, fuel - 1);
      }
    } else {
      ChildrenWithOutputs(store, leaves, c, g, Needed(node).value, NextDepth(depth), fuel - 1);
    }
  }

  lemma {:induction false} ChildrenWithOutputs(store: Store, leaves: Leaves, c: nat, g: PrgGraph, ids: seq<nat>,
          depth: Byte, fuel: nat)
    requires c in store && MeanChildren(store, leaves, g, ids, depth, fuel).Some?
    ensures MeanChildren(WithOutputs(store, leaves, c), leaves, g, ids, depth, fuel) ==
            MeanChildren(store, leaves, g, ids, depth, fuel)
    decreases fuel, 1 + |ids|
  {
    hide MeanNode, WithOutputs;
    if ids != [] {
      NodeWithOutputs(store, leaves, c, g, ids[0], depth, fuel);
      ChildrenWithOutputs(store, leaves, c, g, ids[1..], depth, fuel);
    }
  }

  lemma {:induction false} SchemaWithOutputs(store: Store, leaves: Leaves, c: nat, fuel: nat)
    requires c in store && MeanSchema(store, leaves, c, fuel).Some?
    ensures MeanSchema(WithOutputs(store, leaves, c), leaves, c, fuel) == MeanSchema(store, leaves, c, fuel)
    decreases fuel, 0
  {
    hide MeanNode, Resolve, Literally, GraphOf;
    var g := GraphOf(store[c]);
    NodeWithOutputs(store, leaves, c, g, g.root, 0, fuel - 1);
  }

  /** And back: an output over written-out schemas is one over the schemas themselves. */
  lemma {:induction false} NodeFromOutputs(store: Store, leaves: Leaves, c: nat, g: PrgGraph, id: nat, depth: Byte,
          fuel: nat)
    returns (enough: nat)
    requires c in store && MeanNode(WithOutputs(store, leaves, c), leaves, g, id, depth, fuel).Some?
    ensures MeanNode(store, leaves, g, id, depth, enough) ==
            MeanNode(WithOutputs(store, leaves, c), leaves, g, id, depth, fuel)
    decreases fuel, 0
  {
    hide MeanSchema, WithOutputs;
    var node := g.nodes[IndexOf(g.nodes, id).value];
    if node.kind == SchemaRef {
      enough := AnyFromOutputs(store, leaves, c, node.schemaRef.value, fuel - 1);
    } else {
      enough := ChildrenFromOutputs(store, leaves, c, g, Needed(node).value, NextDepth(depth), fuel - 1);
    }
    enough := enough + 1;
  }

  lemma {:induction false} ChildrenFromOutputs(store: Store, leaves: Leaves, c: nat, g: PrgGraph, ids: seq<nat>,
          depth: Byte, fuel: nat)
    returns (enough: nat)
    requires c in store && MeanChildren(WithOutputs(store, leaves, c), leaves, g, ids, depth, fuel).Some?
    ensures MeanChildren(store, leaves, g, ids, depth, enough) ==
            MeanChildren(WithOutputs(store, leaves, c), leaves, g, ids, depth, fuel)
    decreases fuel, 1 + |ids|
  {
    hide MeanNode, WithOutputs;
    enough := 0;
    if ids != [] {
      var one := NodeFromOutputs(store, leaves, c, g, ids[0], depth, fuel);
      var rest := ChildrenFromOutputs(store, leaves, c, g, ids[1..], depth, fuel);
      enough := one + rest;
      MeanNodeAtLeast(store, leaves, g, ids[0], depth, one, enough);
      MeanChildrenAtLeast(store, leaves, g, ids[1..], depth, rest, enough);
    }
  }

  lemma {:induction false} AnyFromOutputs(store: Store, leaves: Leaves, c: nat, b: nat, fuel: nat) returns (enough: nat)
    requires c in store && MeanSchema(WithOutputs(store, leaves, c), leaves, b, fuel).Some?
    ensures MeanSchema(store, leaves, b, enough) == MeanSchema(WithOutputs(store, leaves, c), leaves, b, fuel)
    decreases fuel, 0
  {
    hide MeanNode, Resolve, Literally, GraphOf;
    if b == c {
      var g := GraphOf(store[c]);
      enough := NodeFromOutputs(store, leaves, c, g, g.root, 0, fuel - 1);
      enough := enough + 1;
    } else {
      enough := OtherFromOutput(store, leaves, c, b, fuel);
    }
  }

  lemma OtherFromOutput(store: Store, leaves: Leaves, c: nat, b: nat, fuel: nat) returns (enough: nat)
    requires c in store && b != c && MeanSchema(WithOutputs(store, leaves, c), leaves, b, fuel).Some?
    ensures MeanSchema(store, leaves, b, enough) == MeanSchema(WithOutputs(store, leaves, c), leaves, b, fuel)
  {
    hide MeanSchema, Resolve, Literally;
    var flat := WithOutputs(store, leaves, c);
    OnlyInstalledMeans(flat, leaves, b, fuel);
    var bytes := Resolve(store, leaves, b).value;
    LiteralMeans(flat, leaves, b, store[b], bytes);
    SameOutput(flat, leaves, b, MeanSchema(flat, leaves, b, fuel).value, fuel, bytes, 2);
    ResolveIsMeaning(store, leaves, b, bytes);
    enough :| MeanSchema(store, leaves, b, enough) == Some(bytes);
  }

  /** Resolution is compositional: a schema resolves to what its own graph yields when every other
      schema that resolves is replaced by a literal of its output. */
  lemma ResolveByParts(store: Store, leaves: Leaves, c: nat)
    requires c in store
    ensures Resolve(store, leaves, c) == Resolve(WithOutputs(store, leaves, c), leaves, c)
  {
    hide Resolve, MeanSchema, WithOutputs;
    var flat := WithOutputs(store, leaves, c);
    if Resolve(store, leaves, c).Some? {
      var bytes := Resolve(store, leaves, c).value;
      ResolveIsMeaning(store, leaves, c, bytes);
      var fuel: nat :| MeanSchema(store, leaves, c, fuel) == Some(bytes);
      SchemaWithOutputs(store, leaves, c, fuel);
      ResolveIsMeaning(flat, leaves, c, bytes);
    } else if Resolve(flat, leaves, c).Some? {
      var bytes := Resolve(flat, leaves, c).value;
      ResolveIsMeaning(flat, leaves, c, bytes);
      var fuel: nat :| MeanSchema(flat, leaves, c, fuel) == Some(bytes);
      var enough := AnyFromOutputs(store, leaves, c, c, fuel);
      ResolveIsMeaning(store, leaves, c, bytes);
    }
  }

  // ---- Exactly when a node of one graph has no output ----

  /** What a node yields at a depth, executed on its own. */
  function NodeOutput(store: Store, leaves: Leaves, g: PrgGraph, id: nat, depth: Byte): Result<Data> {
    ExecNode(store, leaves, g, id, depth, {}, {}).result
  }

  function ChildOutputs(store: Store, leaves: Leaves, g: PrgGraph, ids: seq<nat>, depth: Byte): Result<seq<Data>> {
    ExecChildren(store, leaves, g, ids, depth, {}, {}).result
  }

  /** The depth `steps` below `depth`; it stops counting at 255. */
  function Below(depth: Byte, steps: nat): Byte {
    if depth + steps > 255 then 255 else depth + steps
  }

  /** The node is there and fails on what it is given: no reference, too few children, children or a
      schema whose outputs it cannot use, or an output of the wrong length. */
  predicate NodeFails(store: Store, leaves: Leaves, g: PrgGraph, id: nat, depth: Byte) {
    var at := IndexOf(g.nodes, id);
    && at.Some?
    && var node := g.nodes[at.value];
       if node.kind == SchemaRef then
         node.schemaRef.None? ||
         var bytes := Resolve(store, leaves, node.schemaRef.value);
         bytes.Some? && CheckNode(node, bytes.value).Err?
       else
         Needed(node).Err? ||
         var parts := ChildOutputs(store, leaves, g, Needed(node).value, NextDepth(depth));
         parts.Ok? && (Combine(leaves, node, parts.value).Err? ||
                       CheckNode(node, Combine(leaves, node, parts.value).value).Err?)
  }

  /** A path of executed nodes from the root that goes too deep, ends at an id without a node, comes
      back to one of its nodes, or ends at a node that fails. */
  ghost predicate Faulty(store: Store, leaves: Leaves, g: PrgGraph, path: seq<nat>) {
    && NodePath(g, path) && path[0] == g.root
    && var id, depth := path[|path| - 1], Below(0, |path| - 1);
       || depth > g.depthCap
       || IndexOf(g.nodes, id).None?
       || Closes(path)
       || NodeFails(store, leaves, g, id, depth)
  }

  lemma NoGuards(store: Store, leaves: Leaves, g: PrgGraph, depth: Byte, fuel: nat)
    ensures Guarded(store, leaves, g, depth, {}, {}, fuel)
  {
  }

  lemma OutputFromMeaning(store: Store, leaves: Leaves, g: PrgGraph, id: nat, depth: Byte, fuel: nat)
    requires MeanNode(store, leaves, g, id, depth, fuel).Some?
    ensures NodeOutput(store, leaves, g, id, depth) == Ok(MeanNode(store, leaves, g, id, depth, fuel).value)
  {
    hide MeanNode, ExecNode, Guarded;
    NoGuards(store, leaves, g, depth, fuel);
    NodeFollowsMeaning(store, leaves, g, id, depth, {}, {}, fuel);
  }

  lemma OutputsFromMeaning(store: Store, leaves: Leaves, g: PrgGraph, ids: seq<nat>, depth: Byte, fuel: nat)
    requires MeanChildren(store, leaves, g, ids, depth, fuel).Some?
    ensures ChildOutputs(store, leaves, g, ids, depth) == Ok(MeanChildren(store, leaves, g, ids, depth, fuel).value)
  {
    hide MeanChildren, ExecChildren, Guarded;
    NoGuards(store, leaves, g, depth, fuel);
    ChildrenFollowMeaning(store, leaves, g, ids, depth, {}, {}, fuel);
  }

  lemma ResolvesTo(store: Store, leaves: Leaves, b: nat, fuel: nat)
    requires MeanSchema(store, leaves, b, fuel).Some?
    ensures Resolve(store, leaves, b) == MeanSchema(store, leaves, b, fuel)
  {
    hide MeanSchema, Resolve;
    var bytes := MeanSchema(store, leaves, b, fuel).value;
    assert MeanSchema(store, leaves, b, fuel) == Some(bytes);
    ResolveIsMeaning(store, leaves, b, bytes);
  }

  /** A node that fails has no meaning. */
  lemma FailingNodeHasNoMeaning(store: Store, leaves: Leaves, g: PrgGraph, id: nat, depth: Byte, fuel: nat)
    requires NodeFails(store, leaves, g, id, depth)
    ensures MeanNode(store, leaves, g, id, depth, fuel).None?
  {
    hide MeanChildren, MeanSchema, Combine, CheckNode, Needed, NextDepth, Resolve, ChildOutputs;
    if MeanNode(store, leaves, g, id, depth, fuel).Some? {
      var node := g.nodes[IndexOf(g.nodes, id).value];
      if node.kind == SchemaRef {
        var b := node.schemaRef.value;
        ResolvesTo(store, leaves, b, fuel - 1);
      } else {
        OutputsFromMeaning(store, leaves, g, Needed(node).value, NextDepth(depth), fuel - 1);
      }
    }
  }

  /** Along a path of executed nodes the fuel goes down and the depth up. */
  lemma {:induction false} PathMeans(store: Store, leaves: Leaves, g: PrgGraph, path: seq<nat>, depth: Byte, fuel: nat)
    requires NodePath(g, path) && MeanNode(store, leaves, g, path[0], depth, fuel).Some?
    ensures fuel >= |path|
    ensures MeanNode(store, leaves, g, path[|path| - 1], Below(depth, |path| - 1), fuel - (|path| - 1)).Some?
    decreases |path|
  {
    hide MeanChildren, MeanSchema, Combine, CheckNode;
    if |path| > 1 {
      assert Executes(g, path[0], path[1]);
      var needed := Needed(g.nodes[IndexOf(g.nodes, path[0]).value]).value;
      ChildHasMeaning(store, leaves, g, needed, NextDepth(depth), fuel - 1, path[1]);
      PathMeans(store, leaves, g, path[1..], NextDepth(depth), fuel - 1);
    }
  }

  lemma {:induction false} NodeLoopHasNoMeaning(store: Store, leaves: Leaves, g: PrgGraph, loop: seq<nat>, depth: Byte,
          fuel: nat)
    requires NodePath(g, loop) && |loop| > 1 && loop[0] == loop[|loop| - 1]
    ensures MeanNode(store, leaves, g, loop[0], depth, fuel).None?
    decreases fuel
  {
    hide MeanNode, Executes;
    if MeanNode(store, leaves, g, loop[0], depth, fuel).Some? {
      PathMeans(store, leaves, g, loop, depth, fuel);
      var less := fuel - (|loop| - 1);
      MeanNodeShallower(store, leaves, g, loop[0], Below(depth, |loop| - 1), depth, less);
      NodeLoopHasNoMeaning(store, leaves, g, loop, depth, less);
    }
  }

  lemma FaultyHasNoMeaning(store: Store, leaves: Leaves, g: PrgGraph, path: seq<nat>, fuel: nat)
    requires Faulty(store, leaves, g, path)
    ensures MeanNode(store, leaves, g, g.root, 0, fuel).None?
  {
    hide MeanNode, Executes, NodeFails;
    if MeanNode(store, leaves, g, g.root, 0, fuel).Some? {
      PathMeans(store, leaves, g, path, 0, fuel);
      var id, depth, left := path[|path| - 1], Below(0, |path| - 1), fuel - (|path| - 1);
      if NodeFails(store, leaves, g, id, depth) {
        FailingNodeHasNoMeaning(store, leaves, g, id, depth, left);
      } else if Closes(path) {
        ClosingPathHasNoMeaning(store, leaves, g, path, fuel);
      } else {
        NodeIsThere(store, leaves, g, id, depth, left);
      }
    }
  }

  lemma NodeIsThere(store: Store, leaves: Leaves, g: PrgGraph, id: nat, depth: Byte, fuel: nat)
    requires MeanNode(store, leaves, g, id, depth, fuel).Some?
    ensures depth <= g.depthCap && IndexOf(g.nodes, id).Some?
  {
  }

  lemma ClosingPathHasNoMeaning(store: Store, leaves: Leaves, g: PrgGraph, path: seq<nat>, fuel: nat)
    requires NodePath(g, path) && Closes(path)
    ensures MeanNode(store, leaves, g, path[0], 0, fuel).None?
  {
    hide MeanNode, Executes;
    if MeanNode(store, leaves, g, path[0], 0, fuel).Some? {
      var i :| 0 <= i < |path| - 1 && path[..|path| - 1][i] == path[|path| - 1];
      PathMeans(store, leaves, g, path[..i + 1], 0, fuel);
      var loop := path[i..];
      assert forall k :: 0 <= k < |loop| ==> loop[k] == path[i + k];
      NodeLoopHasNoMeaning(store, leaves, g, loop, Below(0, i), fuel - i);
    }
  }

  lemma {:induction false} AllOutputs(store: Store, leaves: Leaves, g: PrgGraph, ids: seq<nat>, depth: Byte)
    requires forall id :: id in ids ==> NodeOutput(store, leaves, g, id, depth).Ok?
    ensures ChildOutputs(store, leaves, g, ids, depth).Ok?
  {
    hide ExecNode;
    if ids != [] {
      assert ids[0] in ids && forall id :: id in ids[1..] ==> id in ids;
      AllOutputs(store, leaves, g, ids[1..], depth);
    }
  }

  /** A node whose children all have outputs yields what it makes of them. */
  lemma OutputOfParts(store: Store, leaves: Leaves, g: PrgGraph, id: nat, depth: Byte)
    requires depth <= g.depthCap && IndexOf(g.nodes, id).Some?
    requires var node := g.nodes[IndexOf(g.nodes, id).value];
             && node.kind != SchemaRef && Needed(node).Ok?
             && ChildOutputs(store, leaves, g, Needed(node).value, NextDepth(depth)).Ok?
    requires !NodeFails(store, leaves, g, id, depth)
    ensures NodeOutput(store, leaves, g, id, depth).Ok?
  {
    hide ExecNode, ExecChildren, MeanChildren, MeanSchema, Combine, CheckNode, Needed, NextDepth;
    var node := g.nodes[IndexOf(g.nodes, id).value];
    var fuel := ChildrenHaveMeaning(store, leaves, g, Needed(node).value, NextDepth(depth), {}, {});
    assert MeanNode(store, leaves, g, id, depth, fuel + 1).Some?;
    OutputFromMeaning(store, leaves, g, id, depth, fuel + 1);
  }

  lemma OutputOfReference(store: Store, leaves: Leaves, g: PrgGraph, id: nat, depth: Byte)
    requires depth <= g.depthCap && IndexOf(g.nodes, id).Some?
    requires var node := g.nodes[IndexOf(g.nodes, id).value];
             node.kind == SchemaRef && node.schemaRef.Some? && Resolve(store, leaves, node.schemaRef.value).Some?
    requires !NodeFails(store, leaves, g, id, depth)
    ensures NodeOutput(store, leaves, g, id, depth).Ok?
  {
    hide ResolveInner, CheckNode, ExecChildren, Needed, Combine;
  }

  /** A node without an output leads to a fault, if all schemas the graph asks for resolve. */
  lemma {:induction false} FindFault(store: Store, leaves: Leaves, c: nat, g: PrgGraph, path: seq<nat>)
    returns (fault: seq<nat>)
    requires c in store && g == GraphOf(store[c])
    requires forall b :: Asks(store, c, b) ==> Resolve(store, leaves, b).Some?
    requires NodePath(g, path) && path[0] == g.root && !Closes(path)
    requires NodeOutput(store, leaves, g, path[|path| - 1], Below(0, |path| - 1)).Err?
    ensures Faulty(store, leaves, g, fault)
    decreases |NodeIds(g) - Elements(path[..|path| - 1])|
  {
    hide Executes, NodeOutput, ChildOutputs, NodeFails, Resolve, Needed, GraphOf, Elements, Asks, NodeIds;
    var id, depth := path[|path| - 1], Below(0, |path| - 1);
    fault := path;
    if depth <= g.depthCap && IndexOf(g.nodes, id).Some? && !NodeFails(store, leaves, g, id, depth) {
      var child := NextToBlame(store, leaves, c, g, path);
      fault := path + [child];
      StepAlong(g, path, child);
      ElementsSplit(path);
      ElementsSplit(fault);
      NodeIsListed(g, id);
      SmallerWithout(NodeIds(g), Elements(path[..|path| - 1]), id);
      if !Closes(fault) {
        fault := FindFault(store, leaves, c, g, fault);
      }
    }
  }

  /** The child that has no output, when a node that does not fail by itself has none. */
  lemma NextToBlame(store: Store, leaves: Leaves, c: nat, g: PrgGraph, path: seq<nat>) returns (child: nat)
    requires c in store && g == GraphOf(store[c])
    requires forall b :: Asks(store, c, b) ==> Resolve(store, leaves, b).Some?
    requires NodePath(g, path) && path[0] == g.root
    requires var id, depth := path[|path| - 1], Below(0, |path| - 1);
             && depth <= g.depthCap && IndexOf(g.nodes, id).Some?
             && !NodeFails(store, leaves, g, id, depth)
             && NodeOutput(store, leaves, g, id, depth).Err?
    ensures Executes(g, path[|path| - 1], child)
    ensures NodeOutput(store, leaves, g, child, Below(0, |path|)).Err?
  {
    hide NodePath, NodeOutput, ChildOutputs, Resolve, GraphOf, Combine, CheckNode, Needed;
    PathNotEmpty(g, path);
    var id, depth := path[|path| - 1], Below(0, |path| - 1);
    var node := g.nodes[IndexOf(g.nodes, id).value];
    child := id;
    if node.kind == SchemaRef {
      var b := node.schemaRef.value;
      assert NamesSchema(g, id, b);
      assert Asks(store, c, b);
      OutputOfReference(store, leaves, g, id, depth);
      assert false;
    } else if blamed :| blamed in Needed(node).value && NodeOutput(store, leaves, g, blamed, NextDepth(depth)).Err? {
      child := blamed;
    } else {
      AllOutputs(store, leaves, g, Needed(node).value, NextDepth(depth));
      OutputOfParts(store, leaves, g, id, depth);
      assert false;
    }
  }

  // ---- Exactly when resolution fails ----

  /** The schema's own graph is to blame: it is not a graph with a root, a path of its nodes is
      faulty, or its output does not have the declared length. */
  ghost predicate OwnFault(store: Store, leaves: Leaves, c: nat) {
    && c in store
    && var g := GraphOf(store[c]);
       || Validate(g).Err?
       || (exists path :: Faulty(store, leaves, g, path))
       || (NodeOutput(store, leaves, g, g.root, 0).Ok? &&
           |NodeOutput(store, leaves, g, g.root, 0).value| != g.outputLen)
  }

  /** Why the schema the chain starts from fails. */
  ghost predicate Explains(store: Store, leaves: Leaves, ids: seq<nat>) {
    ids != [] && (EndsMissing(store, ids) || Closes(ids) || OwnFault(store, leaves, ids[|ids| - 1]))
  }

  lemma OwnFaultFails(store: Store, leaves: Leaves, c: nat)
    requires OwnFault(store, leaves, c)
    ensures Resolve(store, leaves, c).None?
  {
    hide Resolve, MeanNode, Faulty, NodeOutput, GraphOf, Validate;
    if Resolve(store, leaves, c).Some? {
      var bytes := Resolve(store, leaves, c).value;
      ResolveIsMeaning(store, leaves, c, bytes);
      var fuel: nat :| MeanSchema(store, leaves, c, fuel) == Some(bytes);
      var g := GraphOf(store[c]);
      OutputFromMeaning(store, leaves, g, g.root, 0, fuel - 1);
      if path :| Faulty(store, leaves, g, path) {
        FaultyHasNoMeaning(store, leaves, g, path, fuel - 1);
      }
    }
  }

  lemma OwnFaultFound(store: Store, leaves: Leaves, c: nat)
    requires c in store && Resolve(store, leaves, c).None?
    requires forall b :: Asks(store, c, b) ==> Resolve(store, leaves, b).Some?
    ensures OwnFault(store, leaves, c)
  {
    hide Resolve, MeanNode, Faulty, ExecNode, GraphOf, Validate, Asks, Executes;
    var g := GraphOf(store[c]);
    if Validate(g).Ok? {
      if NodeOutput(store, leaves, g, g.root, 0).Err? {
        var fault := FindFault(store, leaves, c, g, [g.root]);
      } else {
        var fuel := NodeHasMeaning(store, leaves, g, g.root, 0, {}, {});
        var bytes := NodeOutput(store, leaves, g, g.root, 0).value;
        if |bytes| == g.outputLen {
          assert MeanSchema(store, leaves, c, fuel + 1) == Some(bytes);
          ResolveIsMeaning(store, leaves, c, bytes);
        }
      }
    }
  }

  lemma {:induction false} FailureSpreadsAlong(store: Store, leaves: Leaves, ids: seq<nat>)
    requires Chain(store, ids) && Resolve(store, leaves, ids[|ids| - 1]).None?
    ensures Resolve(store, leaves, ids[0]).None?
  {
    hide Resolve, Asks;
    if |ids| > 1 {
      FailureSpreadsAlong(store, leaves, ids[1..]);
      FailureSpreads(store, leaves, ids[0], ids[1]);
    }
  }

  lemma {:induction false} FindExplanation(store: Store, leaves: Leaves, chain: seq<nat>) returns (ids: seq<nat>)
    requires Chain(store, chain) && !Closes(chain) && Resolve(store, leaves, chain[|chain| - 1]).None?
    ensures Chain(store, ids) && ids[0] == chain[0] && Explains(store, leaves, ids)
    decreases |store.Keys - Elements(chain[..|chain| - 1])|
  {
    hide Resolve, Asks, OwnFault, Elements;
    var last, before := chain[|chain| - 1], chain[..|chain| - 1];
    ElementsSplit(chain);
    ids := chain;
    if last in store {
      if exists b :: Asks(store, last, b) && Resolve(store, leaves, b).None? {
        var b :| Asks(store, last, b) && Resolve(store, leaves, b).None?;
        ChainGrows(store, chain, b);
        ids := chain + [b];
        if !Closes(ids) {
          SmallerWithout(store.Keys, Elements(before), last);
          ids := FindExplanation(store, leaves, ids);
        }
      } else {
        OwnFaultFound(store, leaves, last);
      }
    }
  }

  /** A schema fails to resolve if and only if a chain from it reaches a schema that is not
      installed, comes back to one of its schemas, or reaches one whose own graph is at fault. */
  lemma ResolveFailsExactly(store: Store, leaves: Leaves, id: nat)
    ensures Resolve(store, leaves, id).None? <==>
            exists ids :: Chain(store, ids) && ids[0] == id && Explains(store, leaves, ids)
  {
    hide Resolve, Asks, OwnFault, EndsMissing;
    if Resolve(store, leaves, id).None? {
      var ids := FindExplanation(store, leaves, [id]);
    }
    if ids :| Chain(store, ids) && ids[0] == id && Explains(store, leaves, ids) {
      if EndsMissing(store, ids) || Closes(ids) {
        BadChainFails(store, leaves, ids);
      } else {
        OwnFaultFails(store, leaves, ids[|ids| - 1]);
        FailureSpreadsAlong(store, leaves, ids);
      }
    }
  }
}
