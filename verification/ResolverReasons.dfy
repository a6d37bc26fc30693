/** What a resolution that succeeds has called, and what the error of one that fails says. */
module ResolverReasons {
  import opened Bytes
  import opened Wire
  import opened Graph
  import opened Resolver
  import opened ResolverFailures
  import opened ResolverOutputs

  // ---- Every schema asked for is called ----

  /** What holds of one call holds of the calls it makes. */
  ghost predicate AllIn(few: seq<Call>, many: seq<Call>) {
    forall call :: call in few ==> call in many
  }

  lemma {:induction false} ChildIsCalled(store: Store, leaves: Leaves, g: PrgGraph, ids: seq<nat>, depth: Byte,
          stack: set<nat>, active: set<nat>, id: nat)
    requires id in ids && ExecChildren(store, leaves, g, ids, depth, stack, active).result.Ok?
    ensures ExecNode(store, leaves, g, id, depth, stack, active).result.Ok?
    ensures AllIn(NodeCalls(store, leaves, g, id, depth, stack, active),
                  ChildCalls(store, leaves, g, ids, depth, stack, active))
    decreases |ids|
  {
    hide ExecNode, NodeCalls;
    if id != ids[0] {
      ChildIsCalled(store, leaves, g, ids[1..], depth, stack, active, id);
    }
  }

  lemma {:induction false} PathIsCalled(store: Store, leaves: Leaves, g: PrgGraph, path: seq<nat>, depth: Byte,
          stack: set<nat>, active: set<nat>, schema: nat)
    requires NodePath(g, path) && NamesSchema(g, path[|path| - 1], schema)
    requires ExecNode(store, leaves, g, path[0], depth, stack, active).result.Ok?
    ensures ResolveInner(store, leaves, schema, active).result.Ok?
    ensures AllIn(SchemaCalls(store, leaves, schema, active),
                  NodeCalls(store, leaves, g, path[0], depth, stack, active))
    decreases |path|
  {
    hide ExecNode, ExecChildren, SchemaCalls, ChildCalls, Needed, NextDepth;
    NodeParts(store, leaves, g, path[0], depth, stack, active);
    if |path| > 1 {
      assert Executes(g, path[0], path[1]);
      var ids := Needed(g.nodes[IndexOf(g.nodes, path[0]).value]).value;
      ChildIsCalled(store, leaves, g, ids, NextDepth(depth), stack + {path[0]}, active, path[1]);
      PathIsCalled(store, leaves, g, path[1..], NextDepth(depth), stack + {path[0]}, active, schema);
    }
  }

  lemma ResolvedRoot(store: Store, leaves: Leaves, id: nat, active: set<nat>)
    requires ResolveInner(store, leaves, id, active).result.Ok?
    ensures id in store
    ensures var g := GraphOf(store[id]);
            && ExecNode(store, leaves, g, g.root, 0, {}, active + {id}).result.Ok?
            && SchemaCalls(store, leaves, id, active) ==
                 [Call(id, active)] + NodeCalls(store, leaves, g, g.root, 0, {}, active + {id})
  {
    hide ExecNode, NodeCalls, GraphOf, Validate;
  }

  lemma AskedIsCalled(store: Store, leaves: Leaves, a: nat, b: nat, active: set<nat>)
    requires Asks(store, a, b) && ResolveInner(store, leaves, a, active).result.Ok?
    ensures ResolveInner(store, leaves, b, active + {a}).result.Ok?
    ensures AllIn(SchemaCalls(store, leaves, b, active + {a}), SchemaCalls(store, leaves, a, active))
  {
    hide ResolveInner, SchemaCalls, ExecNode, NodeCalls, GraphOf, Executes, NamesSchema;
    ResolvedRoot(store, leaves, a, active);
    var g := GraphOf(store[a]);
    var path :| NodePath(g, path) && path[0] == g.root && NamesSchema(g, path[|path| - 1], b);
    PathIsCalled(store, leaves, g, path, 0, {}, active + {a}, b);
  }

  /** A schema that resolves has made a call for every schema on every chain from it. */
  lemma {:induction false} ChainIsCalled(store: Store, leaves: Leaves, chain: seq<nat>, active: set<nat>)
    requires Chain(store, chain) && ResolveInner(store, leaves, chain[0], active).result.Ok?
    ensures exists call :: call in SchemaCalls(store, leaves, chain[0], active) && call.id == chain[|chain| - 1]
    decreases |chain|
  {
    hide ResolveInner, Asks;
    if |chain| == 1 {
      assert Call(chain[0], active) in SchemaCalls(store, leaves, chain[0], active);
    } else {
      hide SchemaCalls;
      AskedIsCalled(store, leaves, chain[0], chain[1], active);
      var rest := chain[1..];
      ChainIsCalled(store, leaves, rest, active + {chain[0]});
      var call :| call in SchemaCalls(store, leaves, rest[0], active + {chain[0]}) && call.id == rest[|rest| - 1];
      assert call in SchemaCalls(store, leaves, chain[0], active);
    }
  }

  // ---- What an error of the interpreter says ----

  /** The reference of the node, if it is of a kind that needs one. */
  function ReferenceOf(node: PrgNode): Option<Option<nat>> {
    match node.kind
    case AtomRef | RangeRef | BundleRef => Some(node.substrateRef)
    case AssemblyRef | Expand => Some(node.assemblyRef)
    case TransformRef => Some(node.transformRef)
    case EpisodeRef => Some(node.episodeRef)
    case SchemaRef => Some(node.schemaRef)
    case _ => None
  }

  ghost predicate Supplied(store: Store, leaves: Leaves, node: PrgNode, active: set<nat>) {
    match node.kind
    case SchemaRef => node.schemaRef.Some? && ResolveInner(store, leaves, node.schemaRef.value, active).result.Ok?
    case _ => exists bytes :: Makes(leaves, node, [], bytes)
  }

  /** The error is true of this node, met at this depth behind these nodes. */
  ghost predicate Blames(store: Store, leaves: Leaves, g: PrgGraph, error: PrgError, id: nat, depth: Byte,
          behind: set<nat>, active: set<nat>)
  {
    var at := IndexOf(g.nodes, id);
    match error
    case DepthExceeded => depth > g.depthCap
    case MissingNode => at.None?
    case CycleDetected => id in behind
    case MissingReference => at.Some? && ReferenceOf(g.nodes[at.value]) == Some(None)
    case MissingDependency =>
      at.Some? && ReferenceOf(g.nodes[at.value]).Some? && !Supplied(store, leaves, g.nodes[at.value], active)
    case MissingChild =>
      at.Some? &&
      var node := g.nodes[at.value];
      || (forall ids :: !Takes(node, ids))
      || (node.kind == Permute && exists j :: 0 <= j < |node.permutation| && node.permutation[j] >= |node.childIds|)
    case InvalidPatchRange => at.Some? && g.nodes[at.value].kind == Patch
    case NodeOutputLenMismatch => at.Some? && g.nodes[at.value].outputLen != 0
    case NodeCountMismatch | MissingRoot | OutputLenMismatch => false
  }

  /** The error of a failing execution is true of some node that a path of executed nodes leads to. */
  ghost predicate BlamesOn(store: Store, leaves: Leaves, g: PrgGraph, error: PrgError, path: seq<nat>, depth: Byte,
          stack: set<nat>, active: set<nat>)
  {
    && NodePath(g, path)
    && Blames(store, leaves, g, error, path[|path| - 1], Below(depth, |path| - 1), stack + Elements(path[..|path| - 1]),
              active)
  }

  lemma {:induction false} ChildrenCount(store: Store, leaves: Leaves, g: PrgGraph, ids: seq<nat>, depth: Byte,
          stack: set<nat>, active: set<nat>)
    requires ExecChildren(store, leaves, g, ids, depth, stack, active).result.Ok?
    ensures |ExecChildren(store, leaves, g, ids, depth, stack, active).result.value| == |ids|
    decreases |ids|
  {
    hide ExecNode;
    if ids != [] {
      ChildrenCount(store, leaves, g, ids[1..], depth, stack, active);
    }
  }

  lemma {:induction false} FirstFailure(store: Store, leaves: Leaves, g: PrgGraph, ids: seq<nat>, depth: Byte,
          stack: set<nat>, active: set<nat>)
    returns (id: nat)
    requires ExecChildren(store, leaves, g, ids, depth, stack, active).result.Err?
    ensures id in ids && ExecNode(store, leaves, g, id, depth, stack, active).result ==
                         Err(ExecChildren(store, leaves, g, ids, depth, stack, active).result.error)
    decreases |ids|
  {
    hide ExecNode;
    id := ids[0];
    if ExecNode(store, leaves, g, id, depth, stack, active).result.Ok? {
      id := FirstFailure(store, leaves, g, ids[1..], depth, stack, active);
    }
  }

  /** What a node that combines its parts can complain of. */
  lemma CombineBlames(store: Store, leaves: Leaves, g: PrgGraph, id: nat, depth: Byte, behind: set<nat>,
          active: set<nat>, ids: seq<nat>, parts: seq<Data>)
    requires IndexOf(g.nodes, id).Some?
    requires var node := g.nodes[IndexOf(g.nodes, id).value];
             && node.kind != SchemaRef && Takes(node, ids) && |parts| == |ids|
             && Combine(leaves, node, parts).Err?
    ensures Blames(store, leaves, g, Combine(leaves, g.nodes[IndexOf(g.nodes, id).value], parts).error, id, depth,
                   behind, active)
  {
    hide Join, RepeatData, Arrange, IndexOf, LaidOut, Copies, Patched;
    var node := g.nodes[IndexOf(g.nodes, id).value];
    if node.kind == Permute {
      ArrangeIsJoin(parts, node.permutation);
    }
  }

  /** A node that fails blames itself, or fails with its children. */
  lemma NodeBlames(store: Store, leaves: Leaves, g: PrgGraph, id: nat, depth: Byte, stack: set<nat>, active: set<nat>)
    requires ExecNode(store, leaves, g, id, depth, stack, active).result.Err?
    ensures var error := ExecNode(store, leaves, g, id, depth, stack, active).result.error;
            || Blames(store, leaves, g, error, id, depth, stack, active)
            || (IndexOf(g.nodes, id).Some? && id !in stack &&
                var node := g.nodes[IndexOf(g.nodes, id).value];
                node.kind != SchemaRef && Needed(node).Ok? &&
                ExecChildren(store, leaves, g, Needed(node).value, NextDepth(depth), stack + {id}, active).result ==
                    Err(error))
  {
    hide ExecChildren, ResolveInner, Combine, Needed, NextDepth, Takes, Makes, NodeIds;
    var at := IndexOf(g.nodes, id);
    if depth <= g.depthCap && at.Some? && id !in stack && g.nodes[at.value].kind != SchemaRef {
      var node := g.nodes[at.value];
      if Needed(node).Ok? {
        var ids := Needed(node).value;
        NeededIsTakes(node, ids);
        var parts := ExecChildren(store, leaves, g, ids, NextDepth(depth), stack + {id}, active).result;
        if parts.Ok? {
          ChildrenCount(store, leaves, g, ids, NextDepth(depth), stack + {id}, active);
          if Combine(leaves, node, parts.value).Err? {
            CombineBlames(store, leaves, g, id, depth, stack, active, ids, parts.value);
          }
        }
      } else {
        NeededIsTakes(node, []);
        forall ids ensures !Takes(node, ids) {
          NeededIsTakes(node, ids);
        }
      }
    }
  }

  /** The error a failing execution reports is true of a node that a path of executed nodes leads to. */
  lemma {:induction false} ErrorHasReason(store: Store, leaves: Leaves, g: PrgGraph, id: nat, depth: Byte,
          stack: set<nat>, active: set<nat>)
    returns (path: seq<nat>)
    requires ExecNode(store, leaves, g, id, depth, stack, active).result.Err?
    ensures NodePath(g, path) && path[0] == id
    ensures BlamesOn(store, leaves, g, ExecNode(store, leaves, g, id, depth, stack, active).result.error, path, depth,
                     stack, active)
    decreases |NodeIds(g) - stack|
  {
    hide ExecNode, ExecChildren, Needed, NextDepth, Blames, NodeIds, Elements, Below, IndexOf;
    var error := ExecNode(store, leaves, g, id, depth, stack, active).result.error;
    path := [id];
    NodeBlames(store, leaves, g, id, depth, stack, active);
    if Blames(store, leaves, g, error, id, depth, stack, active) {
      StartsHere(id, depth, stack);
    } else {
      var ids := Needed(g.nodes[IndexOf(g.nodes, id).value]).value;
      NodeIsListed(g, id);
      SmallerWithout(NodeIds(g), stack, id);
      var child := FirstFailure(store, leaves, g, ids, NextDepth(depth), stack + {id}, active);
      var below := ErrorHasReason(store, leaves, g, child, NextDepth(depth), stack + {id}, active);
      assert Executes(g, id, child);
      PathBehind(g, id, below, depth, stack);
      path := [id] + below;
    }
  }

  lemma StartsHere(id: nat, depth: Byte, stack: set<nat>)
    ensures Below(depth, 0) == depth && [id][..0] == [] && stack + Elements([]) == stack
  {
  }

  /** One node before the path: one step less deep, and one node more behind its end. */
  lemma PathBehind(g: PrgGraph, id: nat, below: seq<nat>, depth: Byte, stack: set<nat>)
    requires NodePath(g, below) && Executes(g, id, below[0])
    ensures var path := [id] + below;
            && NodePath(g, path) && path[|path| - 1] == below[|below| - 1]
            && Below(NextDepth(depth), |below| - 1) == Below(depth, |path| - 1)
            && (stack + {id}) + Elements(below[..|below| - 1]) == stack + Elements(path[..|path| - 1])
  {
    hide Executes;
    var path := [id] + below;
    assert path[..|path| - 1] == [id] + below[..|below| - 1];
  }
}
