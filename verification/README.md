# Pulzz: a verified model

Pulzz moves application state between a server and a client as small records. This project
models the parts of it whose correctness does not show from one function at a time, and proves
properties of them for all inputs, all runs and all reachable states.

* **Records, frames and bursts.** `Wire` is the record codec with its header validation, which
  `WireRules` restates as a table, `Framing` the length-prefixed record group with the two decoders
  that read it, `Burst` the greedy batcher as a function of what was pushed, `Senders` the stateful
  batcher with the websocket sender and the spool writer, `SocketRun` a whole websocket run, and
  `Spool` the browser that re-reads the spool in whatever chunks it is delivered. Together they
  carry a sender's run from the first record to the receiver's decoded groups.
* **Client memory planes.** `Memory` states what every kind of record does to the client's
  stores, `Client` is the client state as an object whose methods update those stores in place,
  `MemoryPlanes` says what retiring and resyncing mean store by store, and `MemoryInvariant`,
  `DispatchProofs`, `MemoryRuns` and `MemoryFates` prove what every record and every run keeps, what
  a failed predictive dispatch leaves behind, where pending acks come from, and which record decided
  each store entry. `Dependencies` says when a dependency is met and so when a dispatch succeeds,
  `MemoryEffects` what each record does to the remaining stores and queues. `Ids` is the text form
  of identities.
* **Schema resolution.** `Graph` is the loop that merges a schema's edge table into its nodes,
  `Resolver` the graph interpreter and the recursive resolver with its shared set of active schemas,
  `ResolverFailures` the exact condition for a schema not to resolve, `ResolverOutputs` what every kind
  of node outputs, byte by byte, and so what a schema resolves to, and `ResolverReasons` what a
  resolution calls and what its errors say.
* **Benchmark machinery.** `Reservoir` (Algorithm R), `Corpus` (chunker, corpus writer, corpus
  reader) with `CorpusText` (which windows are chunks, where the rows' texts stand), `Workload`
  (live set with removal by swapping), `Bandit` (UCB1 selector) and `SourceCache` (bounded
  write-through cache).

Computations of other crates (codecs, catalog contents, transforms, route execution) enter as
arbitrary functions: the fields of `Memory.Env`, `Resolver.Leaves` and `Corpus.Host`. Random
draws, storage failures, delivered chunks and emitted frames are parameters.

## What the proofs found

* A bare record is not always decoded to itself. Its bytes can be a valid group of one other
  record, and both receivers then return that record (`BareRecordCanBeMisread`, with the exact
  condition in `BareRecordDecodes`).
* The browser's own fallback loop never accepts a frame that the shared decoder refused
  (`DecodeWebBenchTransportRecords`).
* A failed predictive dispatch restores the modelled stores exactly when none of the inline
  definitions it had staged was installed before (`FailedDispatchRestores`); otherwise it erases the earlier
  definition, because rollback removes by id (`FailedDispatchErases`, `FailedDispatchCanErase`).
  The assembly source cache is never rolled back.
* A schema's install is acked as `schema:<id>`, but a retirement under that name does nothing;
  only the bare digits retire it. An assembly is retired by the acked name (`AckedNameKeepsSchema`,
  `AckedNameRetiresAssembly`). A dictionary's acked name retires the cached item that has its
  number instead (`AckedNameKeepsDictionary`).
* A pending ack can name an object that is no longer installed: a later failed dispatch that resends
  it erases it (`AckOutlivesItsObject`, with the exact condition in `AckedAssemblyInstalledExactly`).
* The direct-state branch of dispatch is never taken by an applied record: that route travels in
  `ExactState` records, which `apply_record` sends elsewhere (`DispatchedClosureHeld`).
* `client/src/lib.rs:1329-1332` says failed dispatches leave no residue in durable stores. The
  code leaves the residue described above; the model follows the code.
* The store table at `client/src/lib.rs:150-172` says a substrate invalidation clears the predictors
  and the repair requests. The code clears the predictors only when the payload asks for it and the
  repair requests never (`SubstrateResyncEmptiesAll`, `PredictorsSurvive`, `RepairsSurvive`).
* `send_frame` counts length prefixes in `wire_bytes`, the spool writer does not
  (`SendFrame`, `WriteSenderBurst`).
* The second `break` of the chunker is unreachable (`SplitTextIntoChunks`).

## Model

| member | source | states |
|---|---|---|
| `Bytes.LittleEndian` | shared_protocol/src/protocol.rs:162-174 | byte i of an encoded integer is its digit of weight 256 to the i |
| `Wire.HeaderLayout` | shared_protocol/src/protocol.rs:162-174 | each header field stands at its fixed offset, little-endian |
| `Wire.HeaderRoundTrip` | shared_protocol/src/protocol.rs:162-205 | decoding an encoded header gives it back |
| `Wire.HeaderBytesRoundTrip` | shared_protocol/src/protocol.rs:176-205 | re-encoding a decoded header gives the same 37 bytes |
| `Wire.RecordRoundTrip` | shared_protocol/src/protocol.rs:207-295 | decoding an encoded record returns it if the record is valid and refuses it otherwise |
| `Wire.RecordBytesRoundTrip` | shared_protocol/src/protocol.rs:256-295 | what decodes is valid and re-encodes to the same bytes, so no two byte strings decode to one record |
| `WireRules.ValidHeaderIsTable` | shared_protocol/src/protocol.rs:800-973 | a header is accepted exactly if it has version 2, only flag bits in use, and follows the table of its type: flags, payload length, item and codec |
| `WireRules.CodesAreNumbered` | shared_protocol/src/protocol.rs:763-797 | record types are numbered from 2 on without 6, 7 and 8, codec modes from 0 on; every other code is refused |
| `Framing.ChunkLoopCharacterised` | server/src/bench.rs:5633-5662 | the chunk loop accepts exactly the encodings of sendable groups and returns the only group with that encoding |
| `Framing.DecodeCharacterised` | shared_protocol/src/transport.rs:182-214 | for every frame and result: the decoder returns the group the frame encodes, else the bare record it is, else nothing |
| `Framing.GroupRoundTrip` | shared_protocol/src/transport.rs:168-214 | encoding a non-empty group and decoding the frame gives the group back |
| `Framing.BareRecordDecodes` | server/src/bench.rs:5659-5664 | a bare record decodes to itself if and only if its bytes are not a packed group; a fifth byte other than the protocol version is enough |
| `Framing.BareRecordCanBeMisread` | server/src/bench.rs:5633-5664 | a concrete valid bare record that decodes to a different record |
| `Framing.DecodeTransportRecords` | server/src/bench.rs:5633-5665 | the cursor loop with its early exits computes the characterised decoder |
| `Framing.DecodeWebBenchTransportRecords` | client/src/web_bench.rs:694-742 | the browser's decoder accepts the same frames with the same records as the server's |
| `Burst.GreedyIsGrouping` | server/src/bench.rs:1366-1392 | the groups of any run concatenate to the pushed frames in order, each a single frame or within the cap |
| `Burst.GreedyIsMinimal` | server/src/bench.rs:1366-1392 | no order-preserving grouping within the cap has fewer groups |
| `Burst.PushAllSnoc` | server/src/bench.rs:1366-1386 | pushing one more frame continues a run, so the groups do not depend on how pushes are interleaved with sending |
| `Burst.RunIsSaturated` | server/src/bench.rs:1369-1385 | no flushed group had room for the first frame of the next one, from any pending buffer |
| `Burst.SaturatedIsMinimal` | server/src/bench.rs:1366-1392 | a saturated grouping is no longer than any grouping of a sequence that ends like it |
| `Burst.PayloadSumCounts` | server/src/bench.rs:6817-6838 | the payload counted for a run is the number of application bytes of its records, control records having none |
| `Senders.BurstAccumulator.constructor` | server/src/bench.rs:1352-1364 | an empty accumulator meets the accounting invariant |
| `Senders.BurstAccumulator.Push` | server/src/bench.rs:1366-1386 | keeps byte counters, burst statistics and peaks equal to sums over the buffered frames and emitted groups; emits the groups of the greedy run |
| `Senders.BurstAccumulator.TakeFlush` | server/src/bench.rs:1411-1423 | the buffer becomes one emitted group and every counter agrees with it |
| `Senders.BurstAccumulator.FlushRemaining` | server/src/bench.rs:1388-1392 | what was buffered becomes the last group, nothing if the buffer was empty |
| `Senders.MaxPayloadIsLargest` | server/src/bench.rs:1411-1423 | no emitted group has a larger payload than the recorded maximum, and one has this payload |
| `Senders.SentPlusBuffered` | server/src/bench.rs:7083-7096 | payload of the groups one frame sends plus payload left in the buffer equals payload buffered before plus the frame's |
| `Senders.PushFrame` | server/src/bench.rs:7074-7097 | true exactly when sent, buffered and new payload reach the target, the buffer is then empty; sent plus buffered payload grows by the frame's payload; one message per flushed group |
| `Senders.PushCloseFrame` | server/src/bench.rs:7099-7112 | the close record goes out with everything buffered, the buffer is empty and every counter accounts for it |
| `Senders.FlushToSocket` | server/src/bench.rs:3545-3554 | nothing stays buffered, and every counter accounts for what was |
| `Senders.FlushBursts` | server/src/bench.rs:7114-7128 | messages and all counters account for every group, in order |
| `Senders.SendFrame` | server/src/bench.rs:7130-7156 | one message holding the group's encoding, nothing for an empty group; wire bytes include the prefixes |
| `Senders.GroupLength` | server/src/bench.rs:6840-6842 | a group's encoding is as long as the transport length the batcher counted for it |
| `Senders.WireSumIsBare` | server/src/bench.rs:5474-5486 | the bytes the spool writer counts are those written less four for every record |
| `Senders.WriteSenderFrame` | server/src/bench.rs:5408-5430 | as PushFrame, with the file growing by the groups and their markers |
| `Senders.WriteSenderCloseFrame` | server/src/bench.rs:5432-5443 | the close record and everything buffered are in the file, the buffer is empty, and every counter accounts for them |
| `Senders.FlushSenderBursts` | server/src/bench.rs:5445-5454 | nothing stays buffered, and every counter accounts for what was |
| `Senders.WriteSenderBurstGroups` | server/src/bench.rs:5456-5472 | the file grows by the groups in order, a zero marker after each if asked; counters match |
| `Senders.WriteSenderBurst` | server/src/bench.rs:5464-5466 | the file grows by the group's encoding; wire bytes exclude the prefixes |
| `Senders.WriteSenderFrameBytes` | server/src/bench.rs:5474-5486 | one length-prefixed record is appended and counted |
| `Spool.ParseStreamSplit` | client/src/web_bench.rs:332-389 | parsing may stop after any prefix and go on from the unread rest with the same result |
| `Spool.ReadPending` | client/src/web_bench.rs:332-387 | the inner loop with its cursor back-off consumes every complete token and leaves the rest unread |
| `Spool.CompactPending` | client/src/web_bench.rs:628-640 | dropping the read bytes changes nothing about what is left to read |
| `Spool.RunWebBenchSender` | client/src/web_bench.rs:316-408 | outcome and messages depend only on the bytes of the stream, not on how they were cut into chunks |
| `Spool.SenderOutcome` | client/src/web_bench.rs:367-395 | completed, truncated and decode failure hold exactly when the stream is whole tokens, whole tokens and an unfinished one, whole tokens and an undecodable frame |
| `Spool.PrintInjective` | client/src/web_bench.rs:333-368 | a stream has at most one decomposition into tokens |
| `Spool.SpoolRoundTrip` | client/src/web_bench.rs:316-408 | for every way of cutting the spool, one message per group, and each message decodes to its group |
| `Spool.SentOfStream` | client/src/web_bench.rs:332-408 | of groups with markers, further records and a rest: each non-empty group whose marker came is sent, the open records only if the stream ends there; a truncated or undecodable rest gives that outcome |
| `Spool.WriteWebBenchSenderSpool` | server/src/bench.rs:5295-5329 | stops at the first frame that reaches the target, overshoots by less than that frame's payload, and writes the greedy groups with the close record alone in the last |
| `Spool.SenderToReceiver` | server/src/bench.rs:5299-5328 | end to end without authentication: the receiver gets back the greedy groups of the frames and then the close record |
| `SocketRun.RunWebsocketSender` | server/src/bench.rs:3387-3554 | the websocket run stops at the first frame that reaches the target, overshoots by less than that frame's payload, and its messages are the encodings of the greedy groups with the close record alone in the last; a target of 0 sends only the close record |
| `SocketRun.SocketToReceiver` | server/src/bench.rs:7130-7156 | those messages decode, one by one, to the greedy groups of the frames and then the close record |
| `Graph.MergeEdgeTable` | client/src/lib.rs:2290-2297 | the edge loop computes the merge described by MergeCharacterised |
| `Graph.MergeCharacterised` | client/src/lib.rs:2290-2297 | node fields and original children stay, added children are new and distinct, and a child list holds exactly the original ids and the targets of its node's edges |
| `Graph.LastEdgeAppends` | client/src/lib.rs:2290-2297 | edges count in table order: one more edge appends its target to its node's children if it is not among them, and changes no other list |
| `Graph.ChooseRoot` | client/src/lib.rs:2298-2307 | the root chosen is the first node no edge points to, else the first node |
| `Graph.RootIsFirstFree` | client/src/lib.rs:2303-2307 | a node no edge points to is the root if every earlier one has a parent; if every node has one, the first node is |
| `Graph.SomeNodeIsFree` | client/src/lib.rs:2303-2306 | if no path of edges leads from an id to itself, and every edge starts at a table node, some node has no parent |
| `Graph.RootReachesAll` | client/src/lib.rs:2290-2307 | under the same condition the chosen root has no parent, and when it is the only such node every table node is reachable from it through the merged child lists |
| `Resolver.ExecNode` | shared_protocol/src/state.rs:1428-1637 | terminates; a success leaves node stack and active schemas as before, any exit leaves the installed schemas among the active ones as before |
| `Resolver.ResolveInner` | client/src/lib.rs:2271-2334 | terminates; every exit, early returns included, restores the installed schemas of the active set |
| `Resolver.NodeFollowsMeaning` | shared_protocol/src/state.rs:1448-1462 | a node that plain recursion can evaluate is never rejected by the cycle guards |
| `Resolver.SchemaHasMeaning` | client/src/lib.rs:2275-2279 | what resolves under the guards has that output by plain recursion |
| `Resolver.ResolveIsMeaning` | client/src/lib.rs:2265-2334 | resolution returns an output if and only if guard-free recursion does, and the same one, shared sub-schemas included |
| `Resolver.ResolveSurvivesInstalls` | client/src/lib.rs:2265-2334 | installing more schemas never changes an output that already resolved |
| `Resolver.ExecutePrgNode` | shared_protocol/src/state.rs:1428-1637 | the recursive interpreter, on a mutable node stack and the shared active set, returns the result of ExecNode, whose outputs NodeOutputExactly describes and whose errors ErrorHasReason does, and leaves both sets as specified |
| `Resolver.ExecuteChildren` | shared_protocol/src/state.rs:1518-1534 | the loop over the children stops at the first failure and else yields all outputs in order |
| `Resolver.ExecutePrg` | shared_protocol/src/state.rs:1391-1426 | on every exit the installed schemas of the caller's active set are as before; a result has the declared length and leaves the set unchanged |
| `Resolver.ResolveSchemaOutputInner` | client/src/lib.rs:2271-2334 | the in-place resolver returns the specified result, restores the shared set, and makes exactly the traced calls |
| `Resolver.ResolveSchemaOutput` | client/src/lib.rs:2265-2269 | the output is that of resolution from an empty active set, which ResolveExactly describes |
| `Resolver.CombineParts` | shared_protocol/src/state.rs:1518-1625 | the loops that append, repeat and arrange what the children yielded compute what CombineMakes describes, stopping at the first index without a part |
| `ResolverOutputs.NeededIsTakes` | shared_protocol/src/state.rs:1518-1617 | which children a node executes: all of them, the first one, the selected one or none, for every kind; a child that is not there is the only fault |
| `ResolverOutputs.CombineMakes` | shared_protocol/src/state.rs:1465-1625 | from its children's outputs a node makes exactly these bytes: the parts end to end at the sums of their earlier lengths, the selected part, copies of the one part, the parts in permuted order at their offsets, the text with one range replaced, or what its own reference supplies |
| `ResolverOutputs.ValidatesExactly` | shared_protocol/src/state.rs:567-585 | a graph is refused before execution exactly if it has more than 65535 nodes or no node with the root's id |
| `ResolverOutputs.NodeOutputExactly` | shared_protocol/src/state.rs:1428-1637 | a node outputs some bytes if and only if it is not too deep, is the first node with its id, makes these bytes from what its children output one step deeper or its schema resolves to, and they have the length it declares |
| `ResolverOutputs.ResolveExactly` | client/src/lib.rs:2271-2334 | a schema resolves to some bytes if and only if it is installed, its merged graph has 1 to 65535 nodes, and the chosen root outputs them at depth 0 in the declared length |
| `ResolverReasons.ChainIsCalled` | client/src/lib.rs:2308-2330 | a schema that resolves has made a call for every schema on every chain from it |
| `ResolverReasons.ErrorHasReason` | shared_protocol/src/state.rs:1448-1637 | the error a failing execution reports is true of a node that a path of executed nodes leads to: too deep, missing, met before on the path, without its reference or what it refers to, without a child it needs, a patch, or with a declared length |
| `ResolverFailures.BadChainFails` | client/src/lib.rs:2276-2289 | if schemas that ask for one another lead from a schema to one that is not installed, or back to one of themselves, it does not resolve |
| `ResolverFailures.GuardFiresOnlyOnCycles` | client/src/lib.rs:2276-2289 | at every call a resolution makes, the active set holds exactly the schemas of a chain that leads to it, so the guard rejects a call only where that chain closes and a schema is missing only where it ends |
| `ResolverFailures.FailureSpreads` | shared_protocol/src/state.rs:1508-1517 | a schema fails with any schema it asks for |
| `ResolverFailures.ResolveByParts` | client/src/lib.rs:2265-2334 | a schema resolves to what its own graph yields when every other schema that resolves is replaced by a literal of its output |
| `ResolverFailures.ResolveFailsExactly` | client/src/lib.rs:2265-2334 | a schema fails if and only if a chain from it reaches a missing schema, closes a cycle, or reaches a schema whose own graph is at fault |
| `ResolverFailures.OwnFaultFound` | shared_protocol/src/state.rs:1404-1425 | if everything a failing schema asks for resolves, its graph has no root, or an output of the wrong length, or a path of executed nodes that goes too deep, ends at a missing node, repeats a node, or ends at a node that fails on the outputs of its children |
| `ResolverFailures.OwnFaultFails` | shared_protocol/src/state.rs:1404-1425 | and any such fault makes the schema fail |
| `Ids.ParseDec` | client/src/lib.rs:1000-1034 | parsing a formatted id gives it back |
| `Ids.DecIsDecimal` | client/src/lib.rs:1842-1845 | formatting writes the digits of the number by place value, without leading zeros |
| `Ids.ParseExactly` | client/src/lib.rs:1000-1034 | a string parses to a number exactly if it is digits of that value, at least one, after at most one plus sign |
| `Ids.ParseNameOfName` | client/src/lib.rs:1000-1014 | parsing a canonical name gives its id back |
| `Ids.NameInjective` | client/src/lib.rs:1842-1845 | different ids have different canonical names |
| `Ids.ParseLastOfName` | client/src/lib.rs:1957-1964 | the part after the last colon identifies the object in both its forms |
| `Ids.LastSegmentIsLast` | client/src/lib.rs:1957-1964 | the last segment is the end of the string behind its last colon |
| `Client.ClientState.constructor` | client/src/lib.rs:219-247 | a new client has empty stores, which agree |
| `Client.ClientState.ApplyRecord` | client/src/lib.rs:421-442 | any record keeps the stores in agreement and moves them as the record functions say |
| `Client.ClientState.ApplyTrace` | client/src/lib.rs:679-687 | a trace stops at the first failing record with the stores still in agreement |
| `Client.TraceStopsAtFailure` | client/src/lib.rs:679-687 | the first record that does not apply ends the trace in the state it leaves; without one the trace applies as a whole |
| `Client.ClientState.ApplyPredictiveDispatchRecord` | client/src/lib.rs:1298-1501 | stage, execute, then commit with acks or roll back, on the stores in place |
| `Client.ClientState.StageInline` | client/src/lib.rs:1370-1396 | the staging loops, stopping at the first refused assembly |
| `Client.ClientState.StageInlineAssemblies` | client/src/lib.rs:1371-1375 | exactly the assemblies before the first refused one are installed |
| `Client.ClientState.DispatchPayload` | client/src/lib.rs:1551-1580 | a dependency that is not met decides before the route runs; DispatchSucceedsExactly says which are met |
| `Dependencies.CheckedIsMet` | client/src/lib.rs:1041-1131 | a dependency is available if and only if the client holds it: an installed assembly, schema or dictionary of at least the required revision; a materialized transform, or with a revision its class; a cached item, block, bundle, the block of a range, a hint, or for a cue an item known in any way |
| `Dependencies.CheckReports` | client/src/lib.rs:1041-1131 | a revision too old is reported with the one held, a name without an id as malformed, exactly then |
| `Dependencies.DispatchSucceedsExactly` | client/src/lib.rs:1298-1580 | a predictive dispatch succeeds if and only if it comes in its family's record type, no inline assembly is refused, every dependency is met by the last inline definition of its id or else by the state before, and the route yields bytes |
| `Client.ClientState.RollBack` | client/src/lib.rs:1446-1466 | removing ids one after another removes the set of staged ids from every store |
| `Client.ClientState.RetireMemoryObject` | client/src/lib.rs:564-616 | the stores of the named plane have no entry left for the object and keep every other entry, no other store changes, and the stores still agree |
| `Client.ClientState.RetireItems` | client/src/lib.rs:566-588 | the item named canonically, or else every item bound to that source hash, leaves cache, predictors and bindings |
| `Client.ClientState.RetireAssemblyObject` | client/src/lib.rs:1956-1971 | none of the four durable stores knows the id after the last colon, the versions, names and logged definitions of every other assembly are as before, and the stores still agree; an unreadable name changes nothing |
| `Client.ClientState.Resync` | client/src/lib.rs:618-677 | store by store: emptied exactly if it belongs to the plane or the plane is the substrate, predictors exactly on request, acks always, everything else as before; the stores still agree |
| `MemoryPlanes.RetiredIsForgotten` | client/src/lib.rs:564-616 | what retiring means for each store: which entries are gone, and that all others are as before |
| `MemoryPlanes.RetiredAssemblyIsForgotten` | client/src/lib.rs:1956-1971 | the same for assemblies, with each other assembly's logged definitions in order |
| `MemoryPlanes.ResyncIsTheTable` | client/src/lib.rs:618-677 | for every modelled store, whether a resync empties it or leaves it as it was |
| `MemoryPlanes.SubstrateResyncEmptiesAll` | client/src/lib.rs:150-172 | the documented table, by which a substrate invalidation clears every store, holds of a substrate resync if and only if the predictors are reset or were empty and no repair request was pending |
| `MemoryRuns.PredictorsSurvive` | client/src/lib.rs:618-677 | a concrete run: an item received, then a substrate resync; its predictor is still there, its cache entry is not |
| `MemoryRuns.RepairsSurvive` | client/src/lib.rs:508-534 | a concrete run: a repair request asked for is still pending after any resync, the empty one included |
| `Client.RetainUnnamed` | client/src/lib.rs:591-595 | visiting the entries in any order, exactly those whose decimal id is the object's name are gone |
| `Client.RetainNames` | client/src/lib.rs:1451-1451 | visiting the names in any order, exactly those of the removed id are gone |
| `Client.ClientState.EnqueueMemoryAck` | client/src/lib.rs:551-562 | an ack already pending is not added again |
| `Client.ClientState.PopNextMemoryAck` | client/src/lib.rs:409-415 | the oldest pending ack leaves the queue, the others stay in their order |
| `Client.ClientState.PopNextRepairRequest` | client/src/lib.rs:389-395 | the same for repair requests |
| `Client.ClientState.EnqueueRepairRequest` | client/src/lib.rs:2336-2344 | a request already pending is not added again |
| `Client.ClientState.PruneResolvedRepairRequests` | client/src/lib.rs:2346-2376 | exactly the requests that the catalog or the cache answers are dropped, and nothing else changes |
| `Client.ClientState.ApplyBatch` | client/src/lib.rs:476-503 | every batch item is cached, the last one of an id wins |
| `MemoryInvariant.InstallKeeps` | client/src/lib.rs:1827-1856 | installing keeps map, log, index, versions and source cache in agreement |
| `MemoryInvariant.RemoveKeeps` | client/src/lib.rs:1446-1452 | so does removing any set of ids |
| `MemoryInvariant.RetireIsRemove` | client/src/lib.rs:1956-1971 | retiring by name equals removing by id while the index agrees |
| `MemoryInvariant.RetireSchemaIsRemove` | client/src/lib.rs:603-610 | a retirement prunes both schema maps and the log alike |
| `MemoryInvariant.DispatchKeepsInv` | client/src/lib.rs:1298-1501 | a dispatch keeps the agreement whether it commits or rolls back |
| `MemoryInvariant.ApplyKeepsInv` | client/src/lib.rs:421-442 | every record keeps it: assemblies and schemas are the last-wins folds of their logs, versions and index describe exactly the installed assemblies, materialized transforms have a class, acks do not repeat |
| `MemoryRuns.RunKeepsInv` | client/src/lib.rs:401-442 | the agreement holds over every run of records and ack removals |
| `MemoryRuns.PendingAcksJustified` | client/src/lib.rs:1433-1501 | every pending ack of a predictive record comes from a dispatch of that type and number that succeeded and left the object installed, after the last resync |
| `MemoryRuns.CommittedAckInstalled` | client/src/lib.rs:1467-1500 | every object a successful dispatch acks is installed when it ends |
| `MemoryFates.AckedAssemblyInstalledExactly` | client/src/lib.rs:1446-1500 | the assembly an ack names is installed at the end of a run if and only if no retirement, resync or failed dispatch that staged it came after the acked dispatch without a new definition after that |
| `MemoryFates.AckedSchemaInstalledExactly` | client/src/lib.rs:1446-1500 | the same for an acked schema |
| `MemoryFates.AckedDictionaryInstalledExactly` | client/src/lib.rs:1446-1500 | the same for an acked dictionary |
| `MemoryFates.ThereUnlessLost` | client/src/lib.rs:421-442 | a store entry present after one event is present at the end exactly unless it was taken away and not given back since |
| `MemoryFates.AckOutlivesItsObject` | client/src/lib.rs:1446-1500 | a concrete run: an assembly acked, then resent in a dispatch that fails; the ack is pending, the assembly is gone |
| `MemoryRuns.DispatchAcksOnly` | client/src/lib.rs:1433-1501 | a failed dispatch changes no ack; a successful one adds exactly its own |
| `MemoryRuns.AckedNameRetiresAssembly` | client/src/lib.rs:1956-1971 | retiring an assembly under its acked name removes it |
| `MemoryRuns.AckedNameKeepsSchema` | client/src/lib.rs:603-610 | retiring a schema under its acked name changes nothing, under its digits removes it |
| `MemoryRuns.AckedNameKeepsDictionary` | client/src/lib.rs:566-588 | retiring a dictionary under its acked name, on the plane it was acked for, removes no dictionary but the item with the same number |
| `DispatchProofs.RollbackIsWithout` | client/src/lib.rs:1446-1466 | rolling back a complete or partial staging, ids repeated or not, equals removing the staged ids from the state before; only the source cache keeps the staged assemblies |
| `DispatchProofs.FailedDispatchRestores` | client/src/lib.rs:1370-1466 | after a failed dispatch item cache, predictors, source bindings, catalog, the assembly, schema and transform stores, dictionaries, installed hints, pending acks and repair requests are all as before if and only if no staged id was installed before; only the assembly source cache is left out of the comparison |
| `DispatchProofs.FailedDispatchErases` | client/src/lib.rs:1446-1452 | a staged assembly is absent after the failure even if it was installed before |
| `DispatchProofs.FailedDispatchCanErase` | client/src/lib.rs:1370-1466 | the concrete case: install, resend in a dispatch that fails, gone |
| `DispatchProofs.StagedCheckAgrees` | client/src/lib.rs:1041-1203 | after staging, the staged and the durable dependency check give the same answer for every dependency |
| `DispatchProofs.DispatchedClosureHeld` | client/src/lib.rs:1551-1580 | a success means the whole closure was available and the executed bytes are cached; the direct-state shortcut was not taken |
| `DispatchProofs.PlanFromBodyInstallsAll` | client/src/lib.rs:1831-1840 | when the install plan has the body's length no assembly is refused |
| `MemoryFates.AssembliesAreTheirHistory` | client/src/lib.rs:421-442 | over every run, the assembly under an id is the one its last defining record gave it, unless a later retirement, resync or failed dispatch took it away |
| `MemoryFates.SchemasAreTheirHistory` | client/src/lib.rs:421-442 | the same for schemas |
| `MemoryFates.DictionariesAreTheirHistory` | client/src/lib.rs:1383-1387 | the same for dictionaries, which only dispatches bring and no retirement removes |
| `MemoryFates.ItemsAreTheirHistory` | client/src/lib.rs:421-442 | the bytes cached for an item are those of the last record that reconstructed it and was not dropped, retired or resynced since |
| `MemoryFates.TransformsAreTheirHistory` | client/src/lib.rs:1981-2007 | the same for transform classes and for materialized transforms |
| `MemoryFates.TransformsFollowFate` | client/src/lib.rs:1981-2055 | one record's effect on a transform class and on a materialized transform: an instance materializes only under an installed class |
| `MemoryFates.RepairFollowsFate` | client/src/lib.rs:2206-2220 | a repair request is pending after a record exactly if it was pending or is what the record asks, and no pruning found it answered |
| `MemoryFates.AssemblyFollowsFate` | client/src/lib.rs:1298-1501 | one record's effect on one assembly id, without reference to staging and rollback |
| `MemoryFates.SchemaFollowsFate` | client/src/lib.rs:1298-1501 | the same for a schema id |
| `MemoryFates.DictionaryFollowsFate` | client/src/lib.rs:1298-1501 | the same for a dictionary id |
| `MemoryFates.ItemFollowsFate` | client/src/lib.rs:745-900 | the same for a cached item |
| `MemoryEffects.CatalogFollowsRecords` | client/src/lib.rs:366-380 | a received item and a successful dispatch ask the catalog for the block of their bytes and their described kind: one that is there stays, another is inserted; otherwise only a repair and a resync change the catalog |
| `MemoryEffects.DescriptionsAreTheirHistory` | client/src/lib.rs:421-442 | over every run the predictor of an item describes the bytes last reconstructed for it and its binding is what the last source record said, unless dropped, retired or reset since |
| `MemoryEffects.AppliesExactly` | client/src/lib.rs:401-442 | for every record whether it applies, in terms of the state it finds |
| `MemoryEffects.FailureChangesNothing` | client/src/lib.rs:401-442 | a record that does not apply changes nothing, unless it is a dispatch that had begun to stage |
| `MemoryEffects.HintsAfter` | client/src/lib.rs:2087-2094 | hints are appended in the order they come, a failed dispatch takes its own back, retirements and resyncs remove them |
| `MemoryEffects.KeptHintsInOrder` | client/src/lib.rs:596-602 | retiring hints keeps the others in their order |
| `MemoryEffects.AcksAfter` | client/src/lib.rs:551-562 | the queue of acks after a record: emptied by a resync, otherwise what was pending in front, behind it exactly the new acks of the record |
| `MemoryEffects.DispatchAcksAt` | client/src/lib.rs:1467-1500 | the acks of a dispatch by position: its assemblies, schemas and dictionaries in order, each with its plane, kind and canonical name |
| `MemoryEffects.RepairsAfter` | client/src/lib.rs:2336-2358 | a new request goes to the end of the queue and once; pruning leaves the unanswered ones in their order, any other record leaves all |
| `MemoryEffects.UnresolvedInOrder` | client/src/lib.rs:2346-2358 | pruning treats every request by itself and keeps the order |
| `MemoryEffects.InstalledDescribed` | client/src/lib.rs:1842-1856 | over every state the stores agree in: revision, shape hash, fingerprint and length kept beside an assembly, and the head kept beside a schema, are those of its definition |
| `MemoryEffects.MissingIsResolved` | client/src/lib.rs:2370-2375 | a request that misses prior states is answered exactly when every item it names is cached |
| `MemoryEffects.BasisIsResolved` | client/src/lib.rs:2360-2369 | any other request is answered exactly when the catalog has every block and every bundle it names |
| `MemoryEffects.MissingWaitsForItem` | client/src/lib.rs:2346-2376 | a pending request for an item's prior state is dropped by the record that receives the item, and kept by every record after which the item is not cached |
| `Reservoir.LatencyReservoir.Record` | server/src/bench.rs:1590-1601 | the slots always hold the values of distinct recorded positions, as Algorithm R chooses them |
| `Reservoir.StepKeepsGood` | server/src/bench.rs:1590-1601 | any draw keeps the slots distinct, filled up to the cap, and from positions already recorded |
| `Reservoir.FillsInOrder` | server/src/bench.rs:1592-1595 | the first recordings fill the slots in order whatever is drawn |
| `Reservoir.DrawSequencesComplete` | server/src/bench.rs:1597-1597 | the enumeration of draws has every possible draw sequence exactly once |
| `Reservoir.KeptShare` | server/src/bench.rs:1597-1600 | a kept position survives in exactly a k/n share of the remaining draw sequences |
| `Reservoir.ArrivalShare` | server/src/bench.rs:1597-1600 | a later position is kept in exactly a cap/n share |
| `Reservoir.ReservoirIsUniform` | server/src/bench.rs:1590-1601 | over all draw sequences every recorded position is kept in exactly a cap/n share |
| `Corpus.Strip` | benchmarks/scripts/fetch_wikitext_103_raw.py:46-54 | the result is a contiguous piece, neither starts nor ends with a space, is empty exactly for blank text, and trimmed text is unchanged |
| `CorpusText.StripLosesSpaces` | benchmarks/scripts/fetch_wikitext_103_raw.py:46-54 | stripping removes spaces at the two ends and nothing else |
| `Corpus.LastWindow` | benchmarks/scripts/fetch_wikitext_103_raw.py:51-62 | exactly the last of the closed-form number of windows ends at the end; neighbours share 128 characters; every window of a multi-window text is longer than that |
| `Corpus.WindowsCover` | benchmarks/scripts/fetch_wikitext_103_raw.py:51-62 | every position of the text lies in a window |
| `Corpus.WindowsRejoin` | benchmarks/scripts/fetch_wikitext_103_raw.py:51-62 | joining the windows without the shared characters gives the text back |
| `Corpus.SplitTextIntoChunks` | benchmarks/scripts/fetch_wikitext_103_raw.py:45-67 | the loop terminates, runs over exactly the closed-form number of windows, never takes its second break, and returns the chunks that ChunksAreLongWindows describes |
| `CorpusText.WindowSlice` | benchmarks/scripts/fetch_wikitext_103_raw.py:53-62 | window i holds the 384 characters from 256 times i on, or what is left |
| `CorpusText.ChunksAreLongWindows` | benchmarks/scripts/fetch_wikitext_103_raw.py:51-67 | the chunks are the stripped windows with 96 characters or more, all of them, in window order and nothing else; without one, the whole text |
| `CorpusText.ChunksRejoin` | benchmarks/scripts/fetch_wikitext_103_raw.py:51-67 | if no window is cut at a space there are as many chunks as the closed form says, and joining them without the 128 shared characters gives the text back |
| `CorpusText.UnspacedRejoins` | benchmarks/scripts/fetch_wikitext_103_raw.py:45-67 | so it is for every text of at least 96 characters without spaces |
| `Corpus.ChunksAreGood` | benchmarks/scripts/fetch_wikitext_103_raw.py:45-67 | every chunk is a trimmed piece of at least 96 characters and at most 384, unless it is the whole text as the only chunk |
| `Corpus.NoChunksExactlyWhenShort` | benchmarks/scripts/fetch_wikitext_103_raw.py:45-50 | a row is skipped exactly when fewer than 96 characters remain after stripping |
| `Corpus.BuildCorpus` | benchmarks/scripts/fetch_wikitext_103_raw.py:120-190 | succeeds exactly when all rows together have enough chunks, and then uses the smallest sufficient prefix of the rows |
| `Corpus.WrittenRecordsAreGood` | benchmarks/scripts/fetch_wikitext_103_raw.py:129-159 | the records written are, one for one, those the manifest announces |
| `CorpusText.RowsWritten` | benchmarks/scripts/fetch_wikitext_103_raw.py:129-159 | every row with 96 characters left has its manifest entry and its records, with path, hashes, length and texts, in row order, and nothing else is written |
| `Corpus.PlaceAt` | server/src/bench.rs:4941-4981 | file i starts at the sum of the earlier chunk counts and its j-th place is (i, j) |
| `Corpus.BuildWikitextInputCorpus` | server/src/bench.rs:4916-5004 | accepts exactly the streams whose records are the announced ones, builds the corpus they describe, and otherwise reports the first fault with its place |
| `Corpus.FaultyIsNotAccepted` | server/src/bench.rs:4917-4998 | a reported fault and acceptance exclude each other |
| `Corpus.WrittenIsAccepted` | server/src/bench.rs:4933-4992 | the reader accepts whatever the script writes |
| `Corpus.ReadCorpusHasLayout` | server/src/bench.rs:4941-4981 | in a corpus the reader returns every chunk stands where its file and number say, and every file's places are filled |
| `Corpus.WriteThenRead` | server/src/bench.rs:4896-5004 | writing and reading fails only for lack of chunks and gives a corpus with that layout |
| `CorpusText.CorpusHoldsRows` | server/src/bench.rs:4941-4981 | the corpus read has every chunk of every used row where its file and number say, under the row's path and hash |
| `CorpusText.ChangedIsRefused` | server/src/bench.rs:4948-4976 | put in place of a record of an accepted stream, another record is accepted exactly if it names the same place and file hash and has the hash of its text |
| `CorpusText.CutOrGrownIsRefused` | server/src/bench.rs:4944-4992 | with records missing or added the stream is refused |
| `Workload.InverseMeansDistinct` | server/src/bench.rs:1245-1247 | inverse positions make the live ids distinct and equal to the indexed ones |
| `Workload.SwapRemoved` | server/src/bench.rs:7549-7549 | exactly the entry at the index is gone |
| `Workload.SwapRemoveKeepsInverse` | server/src/bench.rs:7545-7554 | removal by swapping keeps the index inverse to the list |
| `Workload.RelatedIndex` | server/src/bench.rs:7515-7528 | the next related chunk is in range, in the same file, and the next one there, going round |
| `Workload.RelatedGoesRound` | server/src/bench.rs:7515-7528 | following related chunks takes the file's chunks in order and returns after as many steps as there are |
| `Workload.WholeFileIsRelated` | server/src/bench.rs:7515-7528 | every chunk of the file is reached |
| `Workload.NextIndex` | server/src/bench.rs:7511-7528 | a related step stays in the file at the next chunk, going round; any other step takes the chunk drawn |
| `Workload.SharesOfRolls` | server/src/bench.rs:272-294 | of 100 rolls each locality inserts, revises, evicts and invalidates on fixed numbers of them |
| `Workload.WorkloadGenerator.constructor` | server/src/bench.rs:7439-7450 | a new generator over a well laid out corpus is valid |
| `Workload.WorkloadGenerator.NextEvent` | server/src/bench.rs:7452-7492 | over every run: list, index and items describe one set, inserted ids are fresh, other events name live ids, corpus indices stay in range, and the items are what replaying the events gives; the roll decides the kind |
| `Workload.WorkloadGenerator.InsertEvent` | server/src/bench.rs:7494-7509 | the fresh id joins list, index and items at once |
| `Workload.WorkloadGenerator.NextRelatedCorpusIndex` | server/src/bench.rs:7511-7528 | a hot step stays in the file, any other takes the chunk drawn |
| `Workload.WorkloadGenerator.ChooseItemId` | server/src/bench.rs:7530-7543 | the id chosen is live, and among the first eight when the hot part is used |
| `Workload.WorkloadGenerator.RemoveLiveItem` | server/src/bench.rs:7545-7554 | the id leaves list and index, which stay inverse; an unknown id changes nothing |
| `Workload.LiveWereInserted` | server/src/bench.rs:7452-7509 | live ids were inserted and no id is inserted twice |
| `Bandit.BulkIsSingles` | shared_protocol/src/bandit.rs:44-65 | a bulk record leaves the counters of its single records in any order, saturation included |
| `Bandit.BulkPicksLikeSingles` | shared_protocol/src/bandit.rs:44-94 | and so leads to the same choices |
| `Bandit.RecordingKeepsTotal` | shared_protocol/src/bandit.rs:54-65 | one record keeps summed arm pulls within the total; it makes equal ones differ exactly when an arm counter overflows, and differing ones stay different |
| `Bandit.TotalsEqualUntilOverflow` | shared_protocol/src/bandit.rs:44-65 | over every run from fresh, summed arm pulls never exceed the total and equal it if and only if no record of the run overflowed a counter |
| `Bandit.DifferenceStays` | shared_protocol/src/bandit.rs:44-65 | once sum and total differ they never meet again |
| `Bandit.CountersAreSums` | shared_protocol/src/bandit.rs:44-65 | over every run each counter is the sum of what was recorded for its family, capped at its width |
| `Bandit.TotalIsSum` | shared_protocol/src/bandit.rs:54-65 | and the total is the sum of everything recorded, capped at its width |
| `Bandit.PickIsLastBest` | shared_protocol/src/bandit.rs:85-94 | the pick is the last candidate with the greatest score, and nothing else is |
| `Bandit.ScoreIsShare` | shared_protocol/src/bandit.rs:71-83 | the score of a pulled arm, less the bonus if the total is above 1, times its pulls is its successes |
| `Bandit.FewerSuccessesLose` | shared_protocol/src/bandit.rs:76-94 | of two candidates pulled equally often the one with fewer successes is never picked |
| `Bandit.ShareDecidesEarly` | shared_protocol/src/bandit.rs:77-79 | up to a total of 1 the smaller share of successes is never picked |
| `Bandit.BonusDecidesTies` | shared_protocol/src/bandit.rs:80-94 | between equal shares of successes the smaller bonus is never picked |
| `Bandit.UnpulledIsPicked` | shared_protocol/src/bandit.rs:71-94 | while a candidate was never pulled the last such one is picked |
| `Bandit.FirstRounds` | shared_protocol/src/bandit.rs:44-94 | K rounds from fresh pull K distinct candidates once each, last to first, whatever the outcomes and bonuses |
| `Bandit.Ucb1RouteSelector.RecordOutcome` | shared_protocol/src/bandit.rs:44-52 | keeps counters in range and covered by the total |
| `Bandit.Ucb1RouteSelector.RecordOutcomes` | shared_protocol/src/bandit.rs:54-65 | the same for a bulk record |
| `SourceCache.WebSourceCache.InsertObjectMemory` | client/src/source_cache.rs:286-293 | the entry is in memory, at most one other is dropped and only when full, the bound holds, and the memory is what was put and not dropped since |
| `SourceCache.WebSourceCache.StoreChpmtObject` | client/src/source_cache.rs:125-154 | a store takes effect in memory and backing map together or, when storage fails, nowhere; a stored value is in memory |
| `SourceCache.WebSourceCache.LookupObjectMaterial` | client/src/source_cache.rs:156-169 | over any interleaving and any evictions a lookup with the backing map returns the last value stored, without it exactly what was put into the memory and not dropped since; what it returns is in memory |
| `SourceCache.WebSourceCache.LookupOrMaterialize` | client/src/source_cache.rs:250-284 | a hit returns the last stored value, a miss stores what it returns, and it is a hit exactly if the key was stored, or without the backing map not dropped since; without deduplication nothing is stored; a failing materializer or storage stores nothing |
| `SourceCache.WebSourceCache.Reopen` | client/src/source_cache.rs:430-504 | a cache opened on a database that earlier stores filled starts valid, with an empty memory |
| `SourceCache.StoreKeepsBacks` | client/src/source_cache.rs:407-427 | writing through keeps the backing map equal to the last values stored |

## Left out

- Authenticated sessions, `protect_record`, handshake, compression, dictionary training and delta base versions: the paths modelled are the unauthenticated ones.
- Sockets, files, browser glue, progress reports, sampling, byte categories and original-payload counters: I/O and reporting.
- Overflow of `u64` byte counters, item ids and `u32` revisions; the saturating addition in `benchmark_transport_len` cannot saturate.
- Error values of the decoders are collapsed to None; the resolver, the corpus reader and the dependency checks keep their error kinds.
- `pack_record_groups` in the shared crate: the same greedy scheme over payload lengths, without the minimality that needs positive lengths.
- Stores of one plane are one record value in `Client.ClientState`, so its methods assign plane records, not single maps.
- Route statistics, episode memory and context governor: no modelled store depends on them. A failed dispatch does change them: it records a route outcome and keeps the activations of its inline hints.
- Histories of episode hints and of the catalog: stated record by record, not over whole runs.
- The check of the install plan's length never refuses an assembly in the source, because the plan is computed from the body; the plan length stays arbitrary in the model, so refusals and partial staging are covered.
- The debug-build assertion inside a failed dispatch.
- Episode references that lead to schemas or hints: they restart resolution with a fresh set. An episode leaf is an arbitrary function here.
- ExecutePrgNode: collects the outputs of the children before it appends them, where the source appends each one as it comes; a failing child ends the node either way.
- Stack depth of the recursion in the interpreter.
- WriteWebBenchSenderSpool: the frames a session emits are a parameter, because the session never ends by itself.
- Corpus manifest fingerprint and JSON encoding: written values are read back unchanged.
- The image corpus reader: every file is one chunk, so its layout is immediate.
- ReservoirIsUniform: counts draw sequences; that the generator makes them equally likely is not modelled.
- NextEvent: the hot probability only decides how likely each draw is, so it does not appear; every possible draw is covered.
- UCB1 regret, floating-point rounding, logarithm and square root: a finite score is a real number with an arbitrary bonus.
- Collisions of the storage key hash in the source cache; its sparse index, assemblies and transforms.
- The case timeout of the websocket sender, which flushes and ends a run early.
- Retry loops, datagram reassembly, FFI and bindings.
