/** Schema definitions, and the loop that merges their edge table into the
    child lists of their node table. */
module Graph {
  import opened Bytes
  import opened Wire
  import opened Sets

  type Data = seq<Byte>

  datatype PrgNodeKind =
    | Literal | AtomRef | RangeRef | BundleRef | AssemblyRef | TransformRef | EpisodeRef | SchemaRef
    | Concat | Select | Repeat | Permute | Patch | SlotFill | Expand | Guard | Branch | Commit | Noop

  datatype PrgNode = PrgNode(
    nodeId: nat,
    kind: PrgNodeKind,
    outputLen: nat,
    literal: Data,
    substrateRef: Option<nat>,
    assemblyRef: Option<nat>,
    transformRef: Option<nat>,
    episodeRef: Option<nat>,
    schemaRef: Option<nat>,
    childIds: seq<nat>,
    selectIndex: Option<nat>,
    repeatCount: Option<nat>,
    permutation: seq<nat>,
    patchOffset: Option<nat>,
    patchRemoveLen: Option<nat>)

  datatype Edge = Edge(from: nat, to: nat)

  datatype SchemaDef = SchemaDef(
    schemaId: U64,
    revision: nat,
    outputLen: nat,
    nodeTable: seq<PrgNode>,
    edgeTable: seq<Edge>,
    decodeMaxDepth: Byte)

  /** The first node with the id, as `iter().find` returns it. */
  function IndexOf(nodes: seq<PrgNode>, id: nat): (i: Option<nat>)
    ensures i.Some? ==> i.value < |nodes| && nodes[i.value].nodeId == id
                        && forall k :: 0 <= k < i.value ==> nodes[k].nodeId != id
    ensures i.None? ==> forall k :: 0 <= k < |nodes| ==> nodes[k].nodeId != id
  {
    if nodes == [] then None
    else if nodes[0].nodeId == id then Some(0)
    else
      var rest := IndexOf(nodes[1..], id);
      if rest.None? then None else Some(rest.value + 1)
  }

  function MergeEdge(nodes: seq<PrgNode>, edge: Edge): (merged: seq<PrgNode>)
    ensures |merged| == |nodes|
  {
    var i := IndexOf(nodes, edge.from);
    if i.None? || edge.to in nodes[i.value].childIds then nodes
    else nodes[i.value := nodes[i.value].(childIds := nodes[i.value].childIds + [edge.to])]
  }

  function MergeEdges(nodes: seq<PrgNode>, edges: seq<Edge>): (merged: seq<PrgNode>)
    ensures |merged| == |nodes|
    decreases |edges|
  {
    if edges == [] then nodes else MergeEdges(MergeEdge(nodes, edges[0]), edges[1..])
  }

  /** The loop over the edge table. */
  method MergeEdgeTable(nodeTable: seq<PrgNode>, edgeTable: seq<Edge>) returns (nodes: seq<PrgNode>)
    ensures nodes == MergeEdges(nodeTable, edgeTable)
  {
    nodes := nodeTable;
    for e := 0 to |edgeTable|
      invariant MergeEdges(nodes, edgeTable[e..]) == MergeEdges(nodeTable, edgeTable)
    {
      var edge := edgeTable[e];
      assert edgeTable[e..][0] == edge && edgeTable[e..][1..] == edgeTable[e + 1..];
      var at := FindNode(nodes, edge.from);
      if at.Some? {
        var node := nodes[at.value];
        if edge.to !in node.childIds {
          nodes := nodes[at.value := node.(childIds := node.childIds + [edge.to])];
        }
      }
    }
  }

  method FindNode(nodes: seq<PrgNode>, id: nat) returns (at: Option<nat>)
    ensures at == IndexOf(nodes, id)
  {
    for i := 0 to |nodes|
      invariant forall k :: 0 <= k < i ==> nodes[k].nodeId != id
    {
      if nodes[i].nodeId == id {
        return Some(i);
      }
    }
    return None;
  }

  predicate IsTarget(edges: seq<Edge>, id: nat) {
    exists e :: 0 <= e < |edges| && edges[e].to == id
  }

  /** The first node no edge points to; failing that the first node, failing that 0. */
  function RootOf(nodes: seq<PrgNode>, edges: seq<Edge>): nat {
    var free := FirstFree(nodes, edges);
    if free.Some? then free.value else if nodes != [] then nodes[0].nodeId else 0
  }

  function FirstFree(nodes: seq<PrgNode>, edges: seq<Edge>): (id: Option<nat>)
    ensures id.Some? ==> !IsTarget(edges, id.value)
                         && exists i :: 0 <= i < |nodes| && nodes[i].nodeId == id.value
                                        && forall k :: 0 <= k < i ==> IsTarget(edges, nodes[k].nodeId)
    ensures id.None? ==> forall i :: 0 <= i < |nodes| ==> IsTarget(edges, nodes[i].nodeId)
  {
    if nodes == [] then None
    else if !IsTarget(edges, nodes[0].nodeId) then Some(nodes[0].nodeId)
    else
      var rest := FirstFree(nodes[1..], edges);
      assert forall i :: 0 < i < |nodes| ==> nodes[i] == nodes[1..][i - 1];
      rest
  }

  method ChooseRoot(nodes: seq<PrgNode>, edges: seq<Edge>) returns (root: nat)
    ensures root == RootOf(nodes, edges)
  {
    var targets: set<nat> := {};
    for e := 0 to |edges|
      invariant forall id :: id in targets <==> exists k :: 0 <= k < e && edges[k].to == id
    {
      targets := targets + {edges[e].to};
    }
    assert forall id :: id in targets <==> IsTarget(edges, id);
    for i := 0 to |nodes|
      invariant FirstFree(nodes, edges) == FirstFree(nodes[i..], edges)
    {
      assert nodes[i..][0] == nodes[i] && nodes[i..][1..] == nodes[i + 1..];
      if nodes[i].nodeId !in targets {
        return nodes[i].nodeId;
      }
    }
    assert nodes[|nodes|..] == [];
    return if nodes != [] then nodes[0].nodeId else 0;
  }

  // ---- What the merge keeps and what it adds ----

  /** `kids` extends the original list by new, pairwise different ids. */
  predicate ExtendsOnce(original: seq<nat>, kids: seq<nat>) {
    && original <= kids
    && forall j, k :: 0 <= j < k < |kids| && |original| <= k ==> kids[j] != kids[k]
  }

  /** The edge belongs to this node: it is the first one with the edge's source id. */
  predicate Owns(nodes: seq<PrgNode>, i: nat, edge: Edge) {
    IndexOf(nodes, edge.from) == Some(i)
  }

  predicate SameButChildren(a: PrgNode, b: PrgNode) {
    a == b.(childIds := a.childIds)
  }

  lemma IndexOfSameIds(a: seq<PrgNode>, b: seq<PrgNode>, id: nat)
    requires |a| == |b| && forall i :: 0 <= i < |a| ==> a[i].nodeId == b[i].nodeId
    ensures IndexOf(a, id) == IndexOf(b, id)
  {
  }

  lemma MergeEdgeAt(nodes: seq<PrgNode>, edge: Edge, i: nat)
    requires i < |nodes|
    ensures SameButChildren(MergeEdge(nodes, edge)[i], nodes[i])
    ensures MergeEdge(nodes, edge)[i].childIds ==
            if Owns(nodes, i, edge) && edge.to !in nodes[i].childIds then nodes[i].childIds + [edge.to]
            else nodes[i].childIds
  {
  }

  /** Some edge of the table leads from this node to `id`. */
  predicate HasEdgeTo(nodes: seq<PrgNode>, i: nat, edges: seq<Edge>, id: nat) {
    exists e :: 0 <= e < |edges| && Owns(nodes, i, edges[e]) && edges[e].to == id
  }

  /** The merge changes nothing but child lists, appends to each list distinct new
      ids, and a list holds exactly its original ids and the targets of its edges. */
  lemma {:induction false} MergeCharacterised(nodes: seq<PrgNode>, edges: seq<Edge>, i: nat)
    requires i < |nodes|
    ensures SameButChildren(MergeEdges(nodes, edges)[i], nodes[i])
    ensures ExtendsOnce(nodes[i].childIds, MergeEdges(nodes, edges)[i].childIds)
    ensures forall id :: id in MergeEdges(nodes, edges)[i].childIds <==>
                         id in nodes[i].childIds || HasEdgeTo(nodes, i, edges, id)
    decreases |edges|
  {
    if edges != [] {
      var first, rest := edges[0], edges[1..];
      var step := MergeEdge(nodes, first);
      forall k | 0 <= k < |nodes| ensures step[k].nodeId == nodes[k].nodeId {
        MergeEdgeAt(nodes, first, k);
      }
      MergeEdgeAt(nodes, first, i);
      MergeCharacterised(step, rest, i);
      ExtendsOnceTrans(nodes[i].childIds, step[i].childIds, MergeEdges(step, rest)[i].childIds);
      forall id ensures HasEdgeTo(nodes, i, edges, id) <==>
                        (Owns(nodes, i, first) && first.to == id) || HasEdgeTo(step, i, rest, id) {
        EdgeToFirstOrRest(nodes, step, edges, i, id);
      }
    }
  }

  lemma {:induction false} MergeSnoc(nodes: seq<PrgNode>, edges: seq<Edge>, edge: Edge)
    ensures MergeEdges(nodes, edges + [edge]) == MergeEdge(MergeEdges(nodes, edges), edge)
    decreases |edges|
  {
    hide MergeEdge;
    if edges == [] {
      assert (edges + [edge])[1..] == [];
    } else {
      MergeSnoc(MergeEdge(nodes, edges[0]), edges[1..], edge);
      assert (edges + [edge])[1..] == edges[1..] + [edge];
    }
  }

  /** The edges are merged in the order of the table: a later edge only ever appends a child. */
  lemma LastEdgeAppends(nodes: seq<PrgNode>, edges: seq<Edge>, edge: Edge, i: nat)
    requires i < |nodes|
    ensures var kids, more := MergeEdges(nodes, edges)[i].childIds, MergeEdges(nodes, edges + [edge])[i].childIds;
            more == if Owns(nodes, i, edge) && edge.to !in kids then kids + [edge.to] else kids
  {
    hide MergeEdges, MergeEdge;
    var merged := MergeEdges(nodes, edges);
    MergeSnoc(nodes, edges, edge);
    MergeEdgeAt(merged, edge, i);
    forall k | 0 <= k < |nodes| ensures merged[k].nodeId == nodes[k].nodeId {
      MergeCharacterised(nodes, edges, k);
    }
    IndexOfSameIds(merged, nodes, edge.from);
  }

  lemma EdgeToFirstOrRest(nodes: seq<PrgNode>, step: seq<PrgNode>, edges: seq<Edge>, i: nat, id: nat)
    requires edges != [] && |step| == |nodes|
    requires forall k :: 0 <= k < |nodes| ==> step[k].nodeId == nodes[k].nodeId
    ensures HasEdgeTo(nodes, i, edges, id) <==>
            (Owns(nodes, i, edges[0]) && edges[0].to == id) || HasEdgeTo(step, i, edges[1..], id)
  {
    var rest := edges[1..];
    forall e | 0 <= e < |rest|
      ensures rest[e] == edges[e + 1] && (Owns(step, i, rest[e]) <==> Owns(nodes, i, rest[e]))
    {
      IndexOfSameIds(step, nodes, rest[e].from);
    }
    if HasEdgeTo(nodes, i, edges, id) {
      var e :| 0 <= e < |edges| && Owns(nodes, i, edges[e]) && edges[e].to == id;
      assert e > 0 ==> edges[e] == rest[e - 1];
    }
  }

  lemma ExtendsOnceTrans(a: seq<nat>, b: seq<nat>, c: seq<nat>)
    requires ExtendsOnce(a, b) && ExtendsOnce(b, c)
    ensures ExtendsOnce(a, c)
  {
    forall j, k | 0 <= j < k < |c| && |a| <= k ensures c[j] != c[k] {
      if k < |b| {
        assert c[j] == b[j] && c[k] == b[k];
      }
    }
  }

  // ---- Roots and reachability, for tables whose edges form no cycle ----

  /** Consecutive ids are joined by an edge of the table. */
  ghost predicate EdgePath(edges: seq<Edge>, path: seq<nat>) {
    forall k :: 0 < k < |path| ==> Edge(path[k - 1], path[k]) in edges
  }

  ghost predicate EdgesLead(edges: seq<Edge>, from: nat, to: nat) {
    exists path :: |path| > 1 && EdgePath(edges, path) && path[0] == from && path[|path| - 1] == to
  }

  ghost predicate Acyclic(edges: seq<Edge>) {
    forall id :: !EdgesLead(edges, id, id)
  }

  predicate StartsInTable(nodes: seq<PrgNode>, edges: seq<Edge>) {
    forall e :: 0 <= e < |edges| ==> IndexOf(nodes, edges[e].from).Some?
  }

  function Sources(edges: seq<Edge>): set<nat> {
    set e | 0 <= e < |edges| :: edges[e].from
  }

  ghost function Ancestors(edges: seq<Edge>, id: nat): set<nat> {
    set s | s in Sources(edges) && EdgesLead(edges, s, id)
  }

  /** Along an edge an id gains an ancestor: the source of the edge, which is not its own. */
  lemma AncestorsGrow(edges: seq<Edge>, edge: Edge)
    requires Acyclic(edges) && edge in edges
    ensures Ancestors(edges, edge.from) < Ancestors(edges, edge.to)
  {
    var here := [edge.from, edge.to];
    assert EdgePath(edges, here) && here[0] == edge.from && here[|here| - 1] == edge.to;
    var e :| 0 <= e < |edges| && edges[e] == edge;
    assert edge.from in Sources(edges);
    forall s | s in Ancestors(edges, edge.from) ensures s in Ancestors(edges, edge.to) {
      var path :| |path| > 1 && EdgePath(edges, path) && path[0] == s && path[|path| - 1] == edge.from;
      var longer := path + [edge.to];
      assert EdgePath(edges, longer) && longer[0] == s && longer[|longer| - 1] == edge.to;
    }
    assert edge.from in Ancestors(edges, edge.to) && edge.from !in Ancestors(edges, edge.from);
  }

  /** Every edge starts at a table node and climbs in `rank`. */
  ghost predicate Climbs(nodes: seq<PrgNode>, edges: seq<Edge>, rank: nat -> nat) {
    forall e :: 0 <= e < |edges| ==>
      IndexOf(nodes, edges[e].from).Some? && rank(edges[e].from) < rank(edges[e].to)
  }

  ghost predicate ChildOf(nodes: seq<PrgNode>, parent: nat, child: nat) {
    var i := IndexOf(nodes, parent);
    i.Some? && child in nodes[i.value].childIds
  }

  ghost predicate IsPath(nodes: seq<PrgNode>, path: seq<nat>) {
    path != [] && forall k :: 0 < k < |path| ==> ChildOf(nodes, path[k - 1], path[k])
  }

  ghost predicate Reachable(nodes: seq<PrgNode>, from: nat, to: nat) {
    exists path :: IsPath(nodes, path) && path[0] == from && path[|path| - 1] == to
  }

  /** Without a cycle the number of ancestors climbs along every edge. */
  lemma AncestorsClimb(nodes: seq<PrgNode>, edges: seq<Edge>)
    requires Acyclic(edges) && StartsInTable(nodes, edges)
    ensures Climbs(nodes, edges, id => |Ancestors(edges, id)|)
  {
    forall e | 0 <= e < |edges| ensures |Ancestors(edges, edges[e].from)| < |Ancestors(edges, edges[e].to)| {
      AncestorsGrow(edges, edges[e]);
      ProperSubsetSize(Ancestors(edges, edges[e].from), Ancestors(edges, edges[e].to));
    }
  }

  lemma {:induction false} FreeByRank(nodes: seq<PrgNode>, edges: seq<Edge>, rank: nat -> nat, i: nat)
    requires Climbs(nodes, edges, rank) && i < |nodes|
    ensures FirstFree(nodes, edges).Some?
    decreases rank(nodes[i].nodeId)
  {
    if IsTarget(edges, nodes[i].nodeId) {
      var e :| 0 <= e < |edges| && edges[e].to == nodes[i].nodeId;
      FreeByRank(nodes, edges, rank, IndexOf(nodes, edges[e].from).value);
    }
  }

  /** The only table node without a parent is `root`. */
  predicate OnlyFree(nodes: seq<PrgNode>, edges: seq<Edge>, root: nat) {
    forall k :: 0 <= k < |nodes| && !IsTarget(edges, nodes[k].nodeId) ==> nodes[k].nodeId == root
  }

  lemma {:induction false} ReachFromRoot(nodes: seq<PrgNode>, edges: seq<Edge>, rank: nat -> nat, root: nat, i: nat)
    requires Climbs(nodes, edges, rank) && i < |nodes|
    requires OnlyFree(nodes, edges, root)
    ensures Reachable(MergeEdges(nodes, edges), root, nodes[i].nodeId)
    decreases rank(nodes[i].nodeId)
  {
    hide MergeEdges, ChildOf;
    var merged := MergeEdges(nodes, edges);
    var id := nodes[i].nodeId;
    if !IsTarget(edges, id) {
      var here := [root];
      assert IsPath(merged, here) && here[0] == root && here[|here| - 1] == id;
    } else {
      var e :| 0 <= e < |edges| && edges[e].to == id;
      var from := edges[e].from;
      var j := IndexOf(nodes, from).value;
      ReachFromRoot(nodes, edges, rank, root, j);
      MergedChild(nodes, edges, e);
      ReachableStep(merged, root, from, id);
    }
  }

  lemma ReachableStep(nodes: seq<PrgNode>, root: nat, from: nat, id: nat)
    requires Reachable(nodes, root, from) && ChildOf(nodes, from, id)
    ensures Reachable(nodes, root, id)
  {
    hide ChildOf;
    var path :| IsPath(nodes, path) && path[0] == root && path[|path| - 1] == from;
    var longer := path + [id];
    forall k | 0 < k < |longer| ensures ChildOf(nodes, longer[k - 1], longer[k]) {
      if k < |path| {
        assert longer[k] == path[k] && longer[k - 1] == path[k - 1];
      }
    }
    assert IsPath(nodes, longer) && longer[0] == root && longer[|longer| - 1] == id;
  }

  lemma MergedChild(nodes: seq<PrgNode>, edges: seq<Edge>, e: nat)
    requires e < |edges| && IndexOf(nodes, edges[e].from).Some?
    ensures ChildOf(MergeEdges(nodes, edges), edges[e].from, edges[e].to)
  {
    var merged := MergeEdges(nodes, edges);
    var j := IndexOf(nodes, edges[e].from).value;
    forall k | 0 <= k < |nodes| ensures merged[k].nodeId == nodes[k].nodeId {
      MergeCharacterised(nodes, edges, k);
    }
    IndexOfSameIds(merged, nodes, edges[e].from);
    MergeCharacterised(nodes, edges, j);
    assert Owns(nodes, j, edges[e]);
    assert HasEdgeTo(nodes, j, edges, edges[e].to);
  }

  /** With no cycle among the edges some table node has no parent. */
  lemma SomeNodeIsFree(nodes: seq<PrgNode>, edges: seq<Edge>)
    requires nodes != [] && Acyclic(edges) && StartsInTable(nodes, edges)
    ensures FirstFree(nodes, edges).Some?
  {
    AncestorsClimb(nodes, edges);
    FreeByRank(nodes, edges, id => |Ancestors(edges, id)|, 0);
  }

  /** The root is the first node of the table that no edge points to, if there is one, and otherwise
      the first node. */
  lemma RootIsFirstFree(nodes: seq<PrgNode>, edges: seq<Edge>, i: nat)
    requires i < |nodes| && forall k :: 0 <= k < i ==> IsTarget(edges, nodes[k].nodeId)
    ensures !IsTarget(edges, nodes[i].nodeId) ==> RootOf(nodes, edges) == nodes[i].nodeId
    ensures i == |nodes| - 1 && IsTarget(edges, nodes[i].nodeId) ==> RootOf(nodes, edges) == nodes[0].nodeId
  {
    hide IsTarget;
  }

  lemma FreeNodeIsRoot(nodes: seq<PrgNode>, edges: seq<Edge>)
    requires FirstFree(nodes, edges).Some?
    ensures !IsTarget(edges, RootOf(nodes, edges))
  {
    hide FirstFree, IsTarget;
  }

  /** With no cycle among the edges the chosen root has no parent, and when it is
      the only such node the merged graph reaches every table node from it. */
  lemma RootReachesAll(nodes: seq<PrgNode>, edges: seq<Edge>)
    requires nodes != [] && Acyclic(edges) && StartsInTable(nodes, edges)
    ensures !IsTarget(edges, RootOf(nodes, edges))
    ensures OnlyFree(nodes, edges, RootOf(nodes, edges)) ==>
            forall i :: 0 <= i < |nodes| ==>
              Reachable(MergeEdges(nodes, edges), RootOf(nodes, edges), nodes[i].nodeId)
  {
    hide Acyclic, StartsInTable, FirstFree, IsTarget, RootOf, MergeEdges, Reachable, Climbs, Ancestors, OnlyFree;
    SomeNodeIsFree(nodes, edges);
    FreeNodeIsRoot(nodes, edges);
    AncestorsClimb(nodes, edges);
    var root := RootOf(nodes, edges);
    if OnlyFree(nodes, edges, root) {
      forall i | 0 <= i < |nodes| ensures Reachable(MergeEdges(nodes, edges), root, nodes[i].nodeId) {
        ReachFromRoot(nodes, edges, id => |Ancestors(edges, id)|, root, i);
      }
    }
  }
}
