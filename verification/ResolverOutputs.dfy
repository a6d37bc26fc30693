/** What each kind of node outputs, position by position, and what a resolution outputs in
    terms of its parts: the guarded interpreter satisfies equations without guards or fuel. */
module ResolverOutputs {
  import opened Bytes
  import opened Wire
  import opened Graph
  import opened Resolver
  import opened ResolverFailures

  // ---- Parts laid end to end ----

  /** Where part `k` starts: the lengths of the parts before it, added up. */
  function Offset(parts: seq<Data>, k: nat): nat
    requires k <= |parts|
  {
    if k == 0 then 0 else Offset(parts, k - 1) + |parts[k - 1]|
  }

  /** The bytes hold part `k` at its offset, for every `k`, and nothing else. */
  ghost predicate LaidOut(parts: seq<Data>, bytes: Data) {
    && |bytes| == Offset(parts, |parts|)
    && forall k :: 0 <= k < |parts| ==> Holds(bytes, Offset(parts, k), parts[k])
  }

  predicate Holds(bytes: Data, at: nat, part: Data) {
    at + |part| <= |bytes| && bytes[at..at + |part|] == part
  }

  lemma {:induction false} OffsetLater(parts: seq<Data>, k: nat)
    requires parts != [] && k < |parts|
    ensures Offset(parts, k + 1) == |parts[0]| + Offset(parts[1..], k)
  {
    if k > 0 {
      OffsetLater(parts, k - 1);
    }
  }

  lemma HoldsAfter(before: Data, bytes: Data, at: nat, part: Data)
    ensures Holds(before + bytes, |before| + at, part) <==> Holds(bytes, at, part)
  {
    if at + |part| <= |bytes| {
      assert (before + bytes)[|before| + at..|before| + at + |part|] == bytes[at..at + |part|];
    }
  }

  /** The first part comes first, and behind it the rest is laid out. */
  lemma LaidOutFirst(first: Data, rest: seq<Data>, bytes: Data)
    ensures LaidOut([first] + rest, first + bytes) <==> LaidOut(rest, bytes)
  {
    hide Offset, Holds;
    var parts, all := [first] + rest, first + bytes;
    assert parts[1..] == rest;
    OffsetLater(parts, |rest|);
    FirstOffset(parts);
    forall k | 0 <= k < |rest|
      ensures Holds(all, Offset(parts, k + 1), parts[k + 1]) <==> Holds(bytes, Offset(rest, k), rest[k])
    {
      OffsetLater(parts, k);
      HoldsAfter(first, bytes, Offset(rest, k), rest[k]);
    }
    HoldsAtStart(first, bytes);
    if LaidOut(rest, bytes) {
      forall k | 0 <= k < |parts| ensures Holds(all, Offset(parts, k), parts[k]) {
        if k > 0 {
          assert Holds(bytes, Offset(rest, k - 1), rest[k - 1]);
          assert Holds(all, Offset(parts, k - 1 + 1), parts[k - 1 + 1]);
        }
      }
    }
    if LaidOut(parts, all) {
      forall k | 0 <= k < |rest| ensures Holds(bytes, Offset(rest, k), rest[k]) {
        assert Holds(all, Offset(parts, k + 1), parts[k + 1]);
      }
    }
  }

  lemma FirstOffset(parts: seq<Data>)
    ensures Offset(parts, 0) == 0
  {
  }

  lemma HoldsAtStart(first: Data, bytes: Data)
    ensures Holds(first + bytes, 0, first)
  {
  }

  /** Joining lays the parts out in order, and there is only one way to lay them out. */
  lemma {:induction false} JoinIsLaidOut(parts: seq<Data>, bytes: Data)
    ensures Join(parts) == bytes <==> LaidOut(parts, bytes)
  {
    if parts != [] {
      var first, rest := parts[0], parts[1..];
      assert parts == [first] + rest;
      LaidOutFirst(first, rest, Join(rest));
      JoinIsLaidOut(rest, Join(rest));
      if LaidOut(parts, bytes) {
        assert Holds(bytes, Offset(parts, 0), first);
        hide LaidOut;
        assert bytes == first + bytes[|first|..];
        LaidOutFirst(first, rest, bytes[|first|..]);
        JoinIsLaidOut(rest, bytes[|first|..]);
      }
    }
  }

  // ---- Repeating and patching ----

  /** `times` copies of `part`, one after another. */
  predicate Copies(part: Data, times: nat, bytes: Data) {
    && |bytes| == times * |part|
    && forall i :: 0 <= i < |bytes| ==> part != [] && bytes[i] == part[i % |part|]
  }

  lemma {:induction false} RepeatCopies(part: Data, times: nat)
    ensures Copies(part, times, RepeatData(part, times))
  {
    if times > 0 {
      RepeatCopies(part, times - 1);
      OneMoreCopy(part, times - 1, RepeatData(part, times - 1));
    }
  }

  lemma OneMoreCopy(part: Data, times: nat, rest: Data)
    requires Copies(part, times, rest)
    ensures Copies(part, times + 1, part + rest)
  {
    assert (times + 1) * |part| == times * |part| + |part|;
    forall i | 0 <= i < |part + rest| ensures part != [] && (part + rest)[i] == part[i % |part|] {
      if i >= |part| {
        assert (part + rest)[i] == rest[i - |part|];
        ModOneLess(i, |part|);
      }
    }
  }

  lemma ModOneLess(i: nat, n: nat)
    requires 0 < n <= i
    ensures (i - n) % n == i % n
  {
    var q, r := (i - n) / n, (i - n) % n;
    assert i == n * (q + 1) + r;
    QuotientIs(i, n, q + 1, r);
  }

  /** The text before and after the removed range is unchanged and the literal stands between. */
  predicate Patched(text: Data, literal: Data, offset: nat, removed: nat, bytes: Data) {
    && offset + removed <= |text|
    && |bytes| == |text| - removed + |literal|
    && (forall i :: 0 <= i < offset ==> bytes[i] == text[i])
    && (forall i :: 0 <= i < |literal| ==> bytes[offset + i] == literal[i])
    && (forall i :: offset + removed <= i < |text| ==> bytes[i - removed + |literal|] == text[i])
  }

  lemma PatchIsPatched(text: Data, literal: Data, offset: nat, removed: nat, bytes: Data)
    ensures PatchData(text, literal, offset, removed) == Ok(bytes) <==> Patched(text, literal, offset, removed, bytes)
  {
    if Patched(text, literal, offset, removed, bytes) {
      var end := offset + |literal|;
      assert bytes[..offset] == text[..offset];
      assert bytes[offset..end] == literal;
      assert bytes[end..] == text[offset + removed..];
      assert bytes == bytes[..offset] + bytes[offset..end] + bytes[end..];
    }
  }

  // ---- Permuting ----

  predicate Within(permutation: seq<nat>, parts: seq<Data>) {
    forall j :: 0 <= j < |permutation| ==> permutation[j] < |parts|
  }

  function Picked(parts: seq<Data>, permutation: seq<nat>): (picked: seq<Data>)
    requires Within(permutation, parts)
    ensures |picked| == |permutation|
    ensures forall j :: 0 <= j < |permutation| ==> picked[j] == parts[permutation[j]]
  {
    seq(|permutation|, j requires 0 <= j < |permutation| => parts[permutation[j]])
  }

  lemma {:induction false} ArrangeIsJoin(parts: seq<Data>, permutation: seq<nat>)
    ensures Arrange(parts, permutation) ==
            if Within(permutation, parts) then Ok(Join(Picked(parts, permutation))) else Err(MissingChild)
  {
    if permutation != [] {
      ArrangeIsJoin(parts, permutation[1..]);
      if Within(permutation, parts) {
        assert Picked(parts, permutation)[1..] == Picked(parts, permutation[1..]);
      } else if Within(permutation[1..], parts) {
        forall j | 0 < j < |permutation| ensures permutation[j] < |parts| {
          assert permutation[1..][j - 1] == permutation[j];
        }
      }
    }
  }

  // ---- One node ----

  /** An optional number that counts as 0 when absent. */
  predicate Means(v: Option<nat>, n: nat) {
    v == Some(n) || (v == None && n == 0)
  }

  /** The children the node executes. */
  ghost predicate Takes(node: PrgNode, ids: seq<nat>) {
    match node.kind
    case Concat | Commit | Guard | Branch | Permute => ids == node.childIds
    case Repeat | Patch => node.childIds != [] && ids == [node.childIds[0]]
    case Select => exists k: nat :: Means(node.selectIndex, k) && k < |node.childIds| && ids == [node.childIds[k]]
    case Literal | SlotFill | AtomRef | RangeRef | BundleRef | AssemblyRef | Expand | TransformRef | EpisodeRef
       | SchemaRef | Noop => ids == []
  }

  lemma NeededIsTakes(node: PrgNode, ids: seq<nat>)
    ensures Needed(node) == Ok(ids) <==> Takes(node, ids)
    ensures Needed(node).Err? ==> Needed(node).error == MissingChild
  {
    if node.kind == Select {
      var k := if node.selectIndex.Some? then node.selectIndex.value else 0;
      assert Means(node.selectIndex, k);
    }
  }

  ghost predicate Supplies(reference: Option<nat>, resolve: nat -> Option<Data>, bytes: Data) {
    exists r: nat :: reference == Some(r) && resolve(r) == Some(bytes)
  }

  /** What the node makes of its children's outputs, in its parameters and the positions of the bytes. */
  ghost predicate Makes(leaves: Leaves, node: PrgNode, parts: seq<Data>, bytes: Data) {
    match node.kind
    case Literal | SlotFill => bytes == node.literal
    case AtomRef | RangeRef | BundleRef => Supplies(node.substrateRef, leaves.substrate, bytes)
    case AssemblyRef | Expand => Supplies(node.assemblyRef, leaves.assembly, bytes)
    case TransformRef => Supplies(node.transformRef, leaves.transform, bytes)
    case EpisodeRef => Supplies(node.episodeRef, leaves.episode, bytes)
    case Concat | Commit | Guard | Branch => LaidOut(parts, bytes)
    case Select => parts == [bytes]
    case Repeat => exists times: nat :: Means(node.repeatCount, times) && |parts| == 1 && Copies(parts[0], times, bytes)
    case Permute => Within(node.permutation, parts) && LaidOut(Picked(parts, node.permutation), bytes)
    case Patch =>
      exists offset: nat, removed: nat ::
        Means(node.patchOffset, offset) && Means(node.patchRemoveLen, removed) && |parts| == 1 &&
        Patched(parts[0], node.literal, offset, removed, bytes)
    case Noop => bytes == []
    case SchemaRef => false
  }

  lemma JoinOne(part: Data)
    ensures Join([part]) == part
  {
    assert [part][1..] == [];
  }

  lemma RepeatIsCopies(part: Data, times: nat, bytes: Data)
    ensures RepeatData(part, times) == bytes <==> Copies(part, times, bytes)
  {
    RepeatCopies(part, times);
  }

  lemma MeansOne(v: Option<nat>, n: nat)
    ensures Means(v, n) <==> n == OrZero(v)
  {
  }

  /** From outputs of the children it takes, a node makes exactly the described bytes. */
  lemma CombineMakes(leaves: Leaves, node: PrgNode, ids: seq<nat>, parts: seq<Data>, bytes: Data)
    requires node.kind != SchemaRef && Takes(node, ids) && |parts| == |ids|
    ensures Combine(leaves, node, parts) == Ok(bytes) <==> Makes(leaves, node, parts, bytes)
  {
    hide Join, Arrange, RepeatData, PatchData, LaidOut, Copies, Patched, Means, OrZero, Within;
    match node.kind
    case Concat | Commit | Guard | Branch => JoinIsLaidOut(parts, bytes);
    case Select =>
      assert parts == [parts[0]];
      JoinOne(parts[0]);
    case Repeat =>
      assert parts == [parts[0]];
      JoinOne(parts[0]);
      MeansOne(node.repeatCount, OrZero(node.repeatCount));
      forall n: nat ensures Means(node.repeatCount, n) <==> n == OrZero(node.repeatCount) {
        MeansOne(node.repeatCount, n);
      }
      RepeatIsCopies(parts[0], OrZero(node.repeatCount), bytes);
    case Permute =>
      ArrangeIsJoin(parts, node.permutation);
      if Within(node.permutation, parts) {
        JoinIsLaidOut(Picked(parts, node.permutation), bytes);
      }
    case Patch =>
      assert parts == [parts[0]];
      JoinOne(parts[0]);
      forall n: nat ensures Means(node.patchOffset, n) <==> n == OrZero(node.patchOffset) {
        MeansOne(node.patchOffset, n);
      }
      forall n: nat ensures Means(node.patchRemoveLen, n) <==> n == OrZero(node.patchRemoveLen) {
        MeansOne(node.patchRemoveLen, n);
      }
      PatchIsPatched(parts[0], node.literal, OrZero(node.patchOffset), OrZero(node.patchRemoveLen), bytes);
    case _ =>
  }

  // ---- One node in its graph ----

  /** Every node has the given output at that depth. */
  ghost predicate Output(store: Store, leaves: Leaves, g: PrgGraph, ids: seq<nat>, depth: Byte, parts: seq<Data>) {
    && |parts| == |ids|
    && forall k :: 0 <= k < |ids| ==> NodeOutput(store, leaves, g, ids[k], depth) == Ok(parts[k])
  }

  lemma {:induction false} ChildrenOutput(store: Store, leaves: Leaves, g: PrgGraph, ids: seq<nat>, depth: Byte,
          parts: seq<Data>)
    ensures ChildOutputs(store, leaves, g, ids, depth) == Ok(parts) <==> Output(store, leaves, g, ids, depth, parts)
  {
    hide ExecNode;
    if ids != [] {
      var tail := if parts == [] then [] else parts[1..];
      ChildrenOutput(store, leaves, g, ids[1..], depth, tail);
      if Output(store, leaves, g, ids, depth, parts) {
        assert NodeOutput(store, leaves, g, ids[0], depth) == Ok(parts[0]);
        assert Output(store, leaves, g, ids[1..], depth, tail);
        assert parts == [parts[0]] + tail;
      }
    }
  }

  /** The declared length, where 0 declares none. */
  predicate FitsNode(node: PrgNode, bytes: Data) {
    node.outputLen == 0 || |bytes| == node.outputLen
  }

  /** What a node outputs, from the outputs one step below it. */
  ghost predicate Yields(store: Store, leaves: Leaves, g: PrgGraph, node: PrgNode, depth: Byte, bytes: Data) {
    if node.kind == SchemaRef then
      exists b: nat :: node.schemaRef == Some(b) && Resolve(store, leaves, b) == Some(bytes)
    else
      exists ids, parts ::
        Takes(node, ids) && Output(store, leaves, g, ids, Below(depth, 1), parts) && Makes(leaves, node, parts, bytes)
  }

  lemma SchemaNodeYields(store: Store, leaves: Leaves, g: PrgGraph, id: nat, depth: Byte, bytes: Data)
    requires depth <= g.depthCap && IndexOf(g.nodes, id).Some?
    requires g.nodes[IndexOf(g.nodes, id).value].kind == SchemaRef
    ensures var node := g.nodes[IndexOf(g.nodes, id).value];
            NodeOutput(store, leaves, g, id, depth) == Ok(bytes) <==>
            Yields(store, leaves, g, node, depth, bytes) && FitsNode(node, bytes)
  {
    hide ResolveInner, ExecChildren, Needed, Combine;
  }

  lemma CheckFits(node: PrgNode, bytes: Data)
    ensures Success(CheckNode(node, bytes)) == if FitsNode(node, bytes) then Some(bytes) else None
  {
  }

  /** What a node with an output makes of the outputs of its children. */
  lemma OutputAsParts(store: Store, leaves: Leaves, g: PrgGraph, id: nat, depth: Byte, bytes: Data)
    requires NodeOutput(store, leaves, g, id, depth) == Ok(bytes)
    requires IndexOf(g.nodes, id).Some? && g.nodes[IndexOf(g.nodes, id).value].kind != SchemaRef
    ensures var node := g.nodes[IndexOf(g.nodes, id).value];
            && FitsNode(node, bytes) && Needed(node).Ok?
            && var parts := ChildOutputs(store, leaves, g, Needed(node).value, NextDepth(depth));
               parts.Ok? && Combine(leaves, node, parts.value) == Ok(bytes)
  {
    hide ExecNode, ExecChildren, MeanChildren, MeanSchema, Combine, CheckNode, Needed, NextDepth, FitsNode;
    var fuel := NodeHasMeaning(store, leaves, g, id, depth, {}, {});
    var node := g.nodes[IndexOf(g.nodes, id).value];
    var ids, below := Needed(node).value, NextDepth(depth);
    OutputsFromMeaning(store, leaves, g, ids, below, fuel - 1);
    CheckFits(node, Combine(leaves, node, MeanChildren(store, leaves, g, ids, below, fuel - 1).value).value);
  }

  lemma PartsAsOutput(store: Store, leaves: Leaves, g: PrgGraph, id: nat, depth: Byte, parts: seq<Data>, bytes: Data)
    requires depth <= g.depthCap && IndexOf(g.nodes, id).Some?
    requires var node := g.nodes[IndexOf(g.nodes, id).value];
             && node.kind != SchemaRef && Needed(node).Ok? && FitsNode(node, bytes)
             && ChildOutputs(store, leaves, g, Needed(node).value, NextDepth(depth)) == Ok(parts)
             && Combine(leaves, node, parts) == Ok(bytes)
    ensures NodeOutput(store, leaves, g, id, depth) == Ok(bytes)
  {
    hide ExecNode, ExecChildren, MeanChildren, MeanSchema, Combine, CheckNode, Needed, NextDepth;
    var node := g.nodes[IndexOf(g.nodes, id).value];
    CheckFits(node, bytes);
    var fuel := ChildrenHaveMeaning(store, leaves, g, Needed(node).value, NextDepth(depth), {}, {});
    assert MeanNode(store, leaves, g, id, depth, fuel + 1) == Some(bytes);
    OutputFromMeaning(store, leaves, g, id, depth, fuel + 1);
  }

  lemma OneDeeper(depth: Byte)
    ensures NextDepth(depth) == Below(depth, 1)
  {
  }

  lemma ParentNodeYields(store: Store, leaves: Leaves, g: PrgGraph, id: nat, depth: Byte, bytes: Data)
    requires depth <= g.depthCap && IndexOf(g.nodes, id).Some?
    requires g.nodes[IndexOf(g.nodes, id).value].kind != SchemaRef
    ensures var node := g.nodes[IndexOf(g.nodes, id).value];
            NodeOutput(store, leaves, g, id, depth) == Ok(bytes) <==>
            Yields(store, leaves, g, node, depth, bytes) && FitsNode(node, bytes)
  {
    hide NodeOutput, ChildOutputs, Needed, Combine, FitsNode, NextDepth, Below, Takes, Makes, Output, IndexOf;
    OneDeeper(depth);
    var node := g.nodes[IndexOf(g.nodes, id).value];
    if NodeOutput(store, leaves, g, id, depth) == Ok(bytes) {
      OutputAsParts(store, leaves, g, id, depth, bytes);
      var ids := Needed(node).value;
      var parts := ChildOutputs(store, leaves, g, ids, NextDepth(depth)).value;
      NeededIsTakes(node, ids);
      ChildrenOutput(store, leaves, g, ids, NextDepth(depth), parts);
      OutputLength(store, leaves, g, ids, NextDepth(depth), parts);
      CombineMakes(leaves, node, ids, parts, bytes);
    }
    if Yields(store, leaves, g, node, depth, bytes) && FitsNode(node, bytes) {
      var ids, parts :| Takes(node, ids) && Output(store, leaves, g, ids, Below(depth, 1), parts) &&
                        Makes(leaves, node, parts, bytes);
      NeededIsTakes(node, ids);
      ChildrenOutput(store, leaves, g, ids, NextDepth(depth), parts);
      OutputLength(store, leaves, g, ids, NextDepth(depth), parts);
      CombineMakes(leaves, node, ids, parts, bytes);
      PartsAsOutput(store, leaves, g, id, depth, parts, bytes);
    }
  }

  lemma OutputLength(store: Store, leaves: Leaves, g: PrgGraph, ids: seq<nat>, depth: Byte, parts: seq<Data>)
    requires Output(store, leaves, g, ids, depth, parts)
    ensures |parts| == |ids|
  {
  }

  lemma OutputIsThere(store: Store, leaves: Leaves, g: PrgGraph, id: nat, depth: Byte)
    requires NodeOutput(store, leaves, g, id, depth).Ok?
    ensures depth <= g.depthCap && IndexOf(g.nodes, id).Some?
  {
    hide ExecChildren, ResolveInner, Needed, Combine;
  }

  /** The first node of the graph with the id. */
  predicate IsNode(g: PrgGraph, id: nat, node: PrgNode) {
    exists i :: 0 <= i < |g.nodes| && g.nodes[i] == node && node.nodeId == id &&
                forall k :: 0 <= k < i ==> g.nodes[k].nodeId != id
  }

  lemma IsNodeAt(g: PrgGraph, id: nat)
    ensures IndexOf(g.nodes, id).Some? <==> exists node :: IsNode(g, id, node)
    ensures IndexOf(g.nodes, id).Some? ==>
              forall node :: IsNode(g, id, node) <==> node == g.nodes[IndexOf(g.nodes, id).value]
  {
    if IndexOf(g.nodes, id).Some? {
      assert IsNode(g, id, g.nodes[IndexOf(g.nodes, id).value]);
    }
  }

  /** A node has an output exactly if it is not too deep, it is there, what it takes has outputs that it
      can make bytes of, and these have the length declared; and then it has these bytes. */
  lemma NodeOutputExactly(store: Store, leaves: Leaves, g: PrgGraph, id: nat, depth: Byte, bytes: Data)
    ensures NodeOutput(store, leaves, g, id, depth) == Ok(bytes) <==>
            && depth <= g.depthCap
            && exists node ::
                 IsNode(g, id, node) && Yields(store, leaves, g, node, depth, bytes) && FitsNode(node, bytes)
  {
    hide NodeOutput, Yields, FitsNode, IsNode, IndexOf;
    IsNodeAt(g, id);
    if NodeOutput(store, leaves, g, id, depth).Ok? {
      OutputIsThere(store, leaves, g, id, depth);
    }
    if depth <= g.depthCap && IndexOf(g.nodes, id).Some? {
      if g.nodes[IndexOf(g.nodes, id).value].kind == SchemaRef {
        SchemaNodeYields(store, leaves, g, id, depth, bytes);
      } else {
        ParentNodeYields(store, leaves, g, id, depth, bytes);
      }
    }
  }

  // ---- One schema ----

  /** The graph of a definition: its table with the edges merged in, up to 65535 nodes, from the root on. */
  ghost predicate IsGraphOf(def: SchemaDef, g: PrgGraph) {
    && g.nodes == MergeEdges(def.nodeTable, def.edgeTable) && 0 < |g.nodes| <= 0xFFFF
    && g.root == RootOf(g.nodes, def.edgeTable)
    && g.depthCap == def.decodeMaxDepth
    && g.outputLen == def.outputLen
  }

  /** Which graphs are refused before any node is executed, and why. */
  lemma ValidatesExactly(g: PrgGraph)
    ensures Validate(g) == Err(NodeCountMismatch) <==> 0xFFFF < |g.nodes|
    ensures Validate(g) == Err(MissingRoot) <==> |g.nodes| <= 0xFFFF && !exists node :: IsNode(g, g.root, node)
    ensures Validate(g) == Ok(()) <==> |g.nodes| <= 0xFFFF && exists node :: IsNode(g, g.root, node)
  {
    hide IsNode;
    IsNodeAt(g, g.root);
  }

  lemma RootIsNode(nodes: seq<PrgNode>, edges: seq<Edge>)
    requires nodes != []
    ensures IndexOf(nodes, RootOf(nodes, edges)).Some?
  {
  }

  /** A schema resolves to the output of its root, at depth 0 and of the declared length. */
  lemma ResolveExactly(store: Store, leaves: Leaves, c: nat, bytes: Data)
    ensures Resolve(store, leaves, c) == Some(bytes) <==>
            && c in store && |bytes| == store[c].outputLen
            && exists g :: IsGraphOf(store[c], g) && NodeOutput(store, leaves, g, g.root, 0) == Ok(bytes)
  {
    hide Resolve, MeanNode, NodeOutput, MergeEdges, RootOf;
    ResolveIsMeaning(store, leaves, c, bytes);
    if Resolve(store, leaves, c) == Some(bytes) {
      var fuel: nat :| MeanSchema(store, leaves, c, fuel) == Some(bytes);
      var g := GraphOf(store[c]);
      OutputFromMeaning(store, leaves, g, g.root, 0, fuel - 1);
      assert IsGraphOf(store[c], g);
    }
    if g :| && c in store && |bytes| == store[c].outputLen
            && IsGraphOf(store[c], g) && NodeOutput(store, leaves, g, g.root, 0) == Ok(bytes) {
      assert g == GraphOf(store[c]);
      RootIsNode(g.nodes, store[c].edgeTable);
      var fuel := OutputMeans(store, leaves, g, g.root, bytes);
      assert MeanSchema(store, leaves, c, fuel + 1) == Some(bytes);
      ResolvesTo(store, leaves, c, fuel + 1);
    }
  }

  lemma OutputMeans(store: Store, leaves: Leaves, g: PrgGraph, id: nat, bytes: Data) returns (fuel: nat)
    requires NodeOutput(store, leaves, g, id, 0) == Ok(bytes)
    ensures MeanNode(store, leaves, g, id, 0, fuel) == Some(bytes)
  {
    hide ExecNode, MeanNode;
    fuel := NodeHasMeaning(store, leaves, g, id, 0, {}, {});
  }
}
