# Context router clocks, modelled in Dafny

This project models the causality-tracking core of `context_router.py`:

- the hybrid logical clock `HLC` (a physical nanosecond time plus a logical tie-break counter and the owning node);
- the per-node counter map `EfficientVectorClock`, with its increment, element-wise-maximum merge and batch pruning;
- the `ContextRouter` that owns one of each and accepts or rejects an inbound packet as a whole.

Files:

- `hybrid_clock.dfy` (module `HybridClock`): `HLC.now` and `HLC.update` as pure functions. The time sample `time.monotonic_ns()` is an explicit parameter.
- `vector_clock.dfy` (module `VectorClock`): each vector-clock operation as a function on maps, the lemmas that state what the operation promises, and the class `EfficientVectorClock`. The class mutates its `vector` field in place. Each of its methods is proved to leave exactly the map the matching function describes.
- `context_router.dfy` (module `Router`): parsing of the remote timestamp tuple, the outcome of `ingress_packet` as a function with its lemmas, and the class `ContextRouter`.
- `wrappers.dfy` (module `Wrappers`): `Option` and `Result`. These stand in for Python's exceptions.
- `identifiers.dfy` (module `Identifiers`): the node identifier type. Both clocks use it; neither depends on the other.

Constants follow the source: `MaxSkewNs = 5_000_000_000`, `MaxVectorSize = 25`, and a pruning batch of `int(25 * 0.2) = 5`. The batch is computed in integers as `25 * 20 / 100`.

Behaviour the code has that a reader might not expect. Each item is proved:

- `update` is not monotone in (physical, logical) order; only `physical` is. When the local physical time alone is the maximum, the logical counter resets to 0. Local (2000, 5), remote (1000, 0) and sample 1500 give (2000, 0) (`UpdateNotLexMonotone`). The same happens on the remote side (`UpdateMayPrecedeRemote`). The clock is usually described as lexicographically monotone; the model follows the code, not that description.
- The vector has no hard size cap. Pruning fires only after a merge pushes the size above 25, and it removes at most 5 entries (`MergeMayExceedCap`). `increment` can add the owner as the 26th entry (`IncrementMayExceedCap`).
- Once pruning fires, merging is neither idempotent nor order-independent. A remote node with a positive counter that the first merge prunes is added back by the next merge of the same map (`MergePrunedNodeReturns`). A remote node of B with a positive counter that pruning removes when B is merged before A survives when B is merged after A without pruning (`MergeOrderMatters`). Idempotence and commutation are proved only for merges that do not prune (`MergeResultIdempotent`, `MergeResultCommutes`).
- Python's sort is stable, so the source breaks ties between equal counters by dict insertion order. A Dafny `map` records no order, so `SortedByCounter` breaks ties by node identifier. The pruning lemmas `PruneAlongCount` and `PruneAlongRemovesLowest` hold for every counter-sorted listing. They therefore cover the source's own tie order too.

## Model

| member | source | states |
|---|---|---|
| HybridClock.Now | context_router.py:28-30 | a fresh reading has the sampled physical time, logical 0 and the given node |
| HybridClock.Update | context_router.py:32-42 | fails exactly when the sample and the remote physical time differ by more than MaxSkewNs; on success the node is the local one and the physical time is the maximum of sample, remote and local |
| HybridClock.UpdateTieAdvancesLogical | context_router.py:37-39 | when the new physical time equals both the local and the remote one, logical is max of the two plus 1, so the result is strictly after both readings |
| HybridClock.UpdateOtherwiseResetsLogical | context_router.py:37-41 | in every other successful case logical is 0 |
| HybridClock.SkewTestIgnoresLocal | context_router.py:33-35 | whether update fails does not depend on the local reading |
| HybridClock.UpdateAcceptsWithinSkew | context_router.py:33-37 | a sample within MaxSkewNs of the remote time is always accepted |
| HybridClock.UpdateNotLexMonotone | context_router.py:37-42 | local (2000,5), remote (1000,0), sample 1500 give (2000,0), which is before the local reading |
| HybridClock.UpdateMayPrecedeRemote | context_router.py:37-42 | local (900,0), remote (1000,7), sample 1000 give (1000,0), which is before the remote reading |
| HybridClock.UpdateTieScenario | context_router.py:37-42 | local (1000,0), remote (1000,2), sample 1000 give (1000,3) |
| HybridClock.UpdateSkewScenario | context_router.py:33-35 | a remote time MaxSkewNs + 1 away from the sample is rejected |
| VectorClock.Incremented | context_router.py:49-50 | the owner's counter becomes its old value (0 if absent) plus 1; the owner is added if missing; every other entry is unchanged |
| VectorClock.IncrementThriceScenario | context_router.py:49-50 | three increments of an empty clock give exactly {owner: 3} |
| VectorClock.IncrementMayExceedCap | context_router.py:49-50 | increment does not prune: 25 other entries plus the owner make 26 |
| VectorClock.MaxMerge | context_router.py:52-55 | a node is present after the merge loop iff it was local or its remote counter is positive; no local counter decreases; each counter is at least the remote one and equals the local or the remote one |
| VectorClock.MaxMergeIdempotent | context_router.py:52-55 | merging the same remote map twice equals merging it once |
| VectorClock.MaxMergeCommutes | context_router.py:52-55 | merging A then B equals merging B then A |
| VectorClock.MaxMergeStep | context_router.py:53-55 | one iteration of the merge loop extends the processed part of the remote map by one entry |
| VectorClock.LeastEntry | context_router.py:60 | every non-empty map has an entry that sorts first by counter |
| VectorClock.SortedByCounterListsAll | context_router.py:60 | the sorted items list the map's entries with their counters, each node once, in ascending counter order, and every entry appears |
| VectorClock.PruneAlong | context_router.py:62-67 | the pruning walk only deletes entries, keeps the values of those it keeps, and never deletes the owner |
| VectorClock.PruneAlongCount | context_router.py:62-67 | for any counter-sorted listing, the walk deletes exactly min(budget, number of non-owner nodes listed) entries |
| VectorClock.PruneAlongRemovesLowest | context_router.py:62-67 | for any counter-sorted listing, every deleted counter is at most every surviving listed non-owner counter |
| VectorClock.Pruned | context_router.py:59-67 | one pruning pass keeps the owner and the values of the kept entries, and only deletes |
| VectorClock.PrunedRemovesCount | context_router.py:59-67 | one pass deletes exactly min(5, number of non-owner entries) |
| VectorClock.PrunedRemovesLowest | context_router.py:59-67 | every deleted counter is at most every surviving non-owner counter |
| VectorClock.MergeResult | context_router.py:52-57 | the merged clock is a sub-map of the element-wise maximum with the same values, and keeps the owner whenever the maximum holds it |
| VectorClock.MergeResultPrunesOnlyAboveCap | context_router.py:56-57 | pruning happens only when the merged size exceeds 25, and then exactly one pass |
| VectorClock.MergeResultNeverDecreases | context_router.py:52-57 | no surviving entry decreases, and an owner entry that was present survives |
| VectorClock.MergeResultPruneCount | context_router.py:56-57 | when pruning fires, the size drops by exactly min(5, non-owner count) |
| VectorClock.MergeMayExceedCap | context_router.py:56-57 | a merge that brings the map above 30 entries leaves it above 25 |
| VectorClock.MergeResultIdempotent | context_router.py:52-57 | when pruning does not fire, merging the same map twice equals merging it once |
| VectorClock.MergeResultCommutes | context_router.py:52-57 | when pruning does not fire, merging A then B equals merging B then A |
| VectorClock.MergePrunedNodeReturns | context_router.py:52-57 | a remote node with a positive counter that the first merge pruned is back after merging the same map again, and the second merge then differs from the first unless it prunes too |
| VectorClock.MergeOrderMatters | context_router.py:52-57 | when merging B then A prunes a node of B with a positive counter, and merging A then B does not prune in its second merge, the two orders give different clocks |
| VectorClock.MergeKeepsPositive | context_router.py:52-57 | merging, with or without its pruning pass, keeps every stored counter at least 1 |
| VectorClock.IncrementKeepsPositive | context_router.py:49-50 | incrementing keeps every stored counter at least 1 |
| VectorClock.EfficientVectorClock.constructor | context_router.py:44-47 | a new clock has the given owner and the given starting map (the router passes the empty default) |
| VectorClock.EfficientVectorClock.Increment | context_router.py:49-50 | the new map is Incremented of the old one; if every counter was positive, every counter still is |
| VectorClock.EfficientVectorClock.Merge | context_router.py:52-57 | the new map is MergeResult of the old one and the remote map; if every counter was positive, every counter still is |
| VectorClock.EfficientVectorClock.MergeEntries | context_router.py:53-55 | the for loop of merge leaves MaxMerge of the old map and the remote map; positivity of the counters is kept |
| VectorClock.EfficientVectorClock.Prune | context_router.py:59-67 | the loop over the sorted items with its pruned counter leaves Pruned of the old map; positivity of the counters is kept |
| Router.ParseRemote | context_router.py:81-82 | a parsed reading comes from a three-element tuple of two integers and node text that the UUID parser accepts, with those values |
| Router.ParseFormatted | context_router.py:81-82 | a well-formed tuple parses back to the reading it was built from |
| Router.ParseRejectsWrongArity | context_router.py:81 | a tuple that does not have three elements is rejected |
| Router.IngressOutcome | context_router.py:79-89 | a packet is rejected exactly when the tuple does not parse or update fails |
| Router.IngressAdvances | context_router.py:83-86 | after an accepted packet the owner's counter is strictly larger, the reading still belongs to the node, and physical time has not gone back |
| Router.IngressRejectsSkew | context_router.py:83-89 | a parsed remote time outside the skew tolerance is always rejected |
| Router.IngressSkewScenario | context_router.py:79-89 | local (1000,0), remote (1000 + MaxSkewNs + 1, 0), sample 1000: the packet is refused |
| Router.ContextRouter.constructor | context_router.py:75-77 | the router starts with Now(node, sample) and an empty vector clock owned by the same node |
| Router.ContextRouter.IngressPacket | context_router.py:79-89 | returns true exactly when IngressOutcome accepts. It then sets the reading and vector to that outcome. On rejection both are unchanged. On acceptance the owner's counter has grown |

## Left out

- Time source: `time.monotonic_ns()` is not modelled. `Now` takes the sample, and `Update` and `IngressPacket` take the sample `now`.
- Node identifier generation (`uuid4()`) is not modelled. The router takes its node id in its constructor. Node ids are plain naturals, standing for a UUID's 128-bit value.
- UUID text parsing is a parameter `parseNodeId: string -> Option<NodeId>`. The UUID library is not part of this model.
- Router.ParseRemote: a physical or logical part that is not an integer counts as a parse failure. In the source a text part raises inside `update` (the subtraction at line 34, or the `max` at line 39 on a tie, which compares text with an integer), and a text logical part is dropped silently when no tie occurs. A float part is accepted by the source: `abs`, `max` and `+ 1` all work on floats, so the packet is taken and the reading may hold a float. The model's `Field` type has no floats, so this case cannot be expressed.
- Exceptions from ill-typed `remote_vc` values are not modelled: the model's counters are typed integers, so they cannot arise. In the source such an exception is raised inside `merge` (line 84) after `self.hlc` was already replaced (line 83), and possibly after part of the map was merged. There a `False` result does not always mean the state is unchanged; in the model it does.
- The `logging.error` call, the unused `payload` argument and the `__main__` demonstration are not modelled.
- Floating point in `int(MAX_VECTOR_SIZE * PRUNE_RATIO)` is replaced by integer arithmetic with the same result, 5.
- VectorClock.SortedByCounter: breaks ties between equal counters by node identifier, not by dict insertion order as Python's stable sort does.
- VectorClock.EfficientVectorClock.Merge: its `for` loop is written as the separate method `MergeEntries`. It runs the same steps, in any order of the remote keys, with the same result.
- VectorClock.EfficientVectorClock.Valid: the source accepts any starting map, including counters below 1. Positivity of the counters is therefore promised only conditionally: each method keeps it when it held before.
- Integer width is not modelled: Python integers are unbounded, and so are the model's.
- Concurrency: the source takes no locks and has none.
