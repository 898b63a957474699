# Bucket-tree state: a verified model of `StateImpl`

This project models `StateImpl`, the bucket-tree implementation of the
ledger's hashable state, in Dafny. `StateImpl` holds the working set of one
block. It computes the crypto hash of the whole state after the working set
is applied, caching that hash. It also fills the write batch that persists the
working set. The working set has two parts:

- the **data-nodes delta**: the pending writes and deletes of the block,
  grouped by the data bucket each key hashes to and sorted by composite key;
- the **bucket-tree delta**: the bucket nodes touched while the hash is
  recomputed.

Recomputation has two phases:

- **Leaf phase.** For every affected data bucket, the pending nodes are
  merged with the bucket's persisted nodes in one two-index walk. On an
  equal key the pending node wins, and tombstones are dropped. The bucket's
  hash is written into its parent's child slot.
- **Propagation phase.** Level by level from `LOWEST_LEVEL - 1` up to the
  root at level 0:
  - every touched node is merged with its stored version;
  - its hash goes into its parent's slot;
  - at level 0 the loop stops after merging the root.

The hash of the state is the hash of the root node.

Levels are numbered from the root (level 0, `ROOT_KEY`) down to the data
buckets (`LOWEST_LEVEL`). Both loops over the tree, in `processBucketTreeDelta`
and in `addBucketNodeChangesForPersistence`, run from
`getLowestLevel() - 1` down to 0 (`state_impl.go:144-145` and
`state_impl.go:252-253`).

The model is in twelve modules, one per file:

| file | module | what it holds |
|---|---|---|
| `wrappers.dfy` | `Wrappers` | `Option`, `Result` |
| `byte_order.dfy` | `ByteOrder` | bytes and `bytes.Compare`, with its order lemmas |
| `bucket_keys.dfy` | `BucketKeys` | bucket keys, the fixed tree shape, the parent of a key |
| `data_nodes.dfy` | `DataNodes` | data keys and data nodes (a `None` value is a tombstone), sorted sequences |
| `leaf_merge.dfy` | `LeafMerge` | the net effect of the two-index merge and its properties |
| `hashes.dfy` | `Hashes` | symbolic hashes, bucket nodes, the bucket hash calculator (a class recording what it is fed) |
| `store.dfy` | `Store` | the key-value store as a value, its reads, and the write batch (a class appending `Put`/`Delete` operations) |
| `data_nodes_delta.dfy` | `DataNodesDeltas` | the data-nodes delta and its construction from a mutation batch |
| `tree_delta.dfy` | `TreeDelta` | the bucket-tree delta, child-slot updates, and level-wise propagation as a function |
| `persistence.dfy` | `Persistence` | the operations the persistence methods write, and what the store holds afterwards |
| `state_impl.dfy` | `BucketTreeState` | the `StateImpl` class and the loops of the recomputation, proved against the functions above |
| `lifecycle.dfy` | `BucketTreeLifecycle` | one block driven through prepare, compute, persist and clear, and what the store then reads |

## Behaviour reproduced as written

- `AddChangesForPersistence` (`state_impl.go:221-229`) does nothing without a
  data-nodes delta. When a recomputation is due it runs `ComputeCryptoHash`
  first; if that fails, it returns no error and adds nothing to the batch,
  and the recomputation stays due. Otherwise it adds the data-node changes
  and then the bucket-node changes.
- `processBucketTreeDelta` returns right after merging the first node at
  level 0. This node can only be the root.
- `addBucketNodeChangesForPersistence` writes an unconditional put after the
  conditional delete-or-put. A node marked for deletion is therefore stored
  anyway. `Persistence.PersistEffect` states that every touched node ends up
  stored with its final value, whether or not it is marked for deletion.

## Model

| member | source | states |
|---|---|---|
| BucketTreeState.StateImpl.constructor | openchain/ledger/statemgmt/buckettree/state_impl.go:42-44 | A new state has no working set, no recomputation due, and both hashes nil. |
| BucketTreeState.StateImpl.Initialize | openchain/ledger/statemgmt/buckettree/state_impl.go:48-58 | Fails exactly when the root cannot be read. When a root is stored, its hash becomes both the persisted and the last computed hash. Otherwise both hashes are kept. The working set is untouched. |
| BucketTreeState.StateImpl.Get | openchain/ledger/statemgmt/buckettree/state_impl.go:68-78 | Fails exactly when the key's bucket cannot be read. Otherwise returns the stored value if the key holds one, and none if not. The working set is not consulted. |
| BucketTreeState.StateImpl.PrepareWorkingSet | openchain/ledger/statemgmt/buckettree/state_impl.go:81-91 | An empty batch leaves every field unchanged. Otherwise the data-nodes delta represents the batch exactly, the bucket-tree delta is empty, a recomputation is due, and both hashes are unchanged. |
| BucketTreeState.StateImpl.ClearWorkingSet | openchain/ledger/statemgmt/buckettree/state_impl.go:94-104 | Both deltas are dropped and no recomputation is due. On commit the persisted hash takes the last computed one; on abort the last computed hash falls back to the persisted one. Either way the two hashes end up equal. |
| BucketTreeState.StateImpl.ComputeCryptoHash | openchain/ledger/statemgmt/buckettree/state_impl.go:106-125 | Without a due recomputation it returns the cached hash and changes nothing. With one, a failed read is returned and the recomputation stays due. On success the bucket-tree delta is the full recomputation, the root is in it, the result is the root's hash, that hash is cached, and the flag is cleared. |
| BucketTreeLifecycle.ComputeCryptoHashTwice | openchain/ledger/statemgmt/buckettree/state_impl.go:109-124 | After one successful call, a second call returns the same hash. |
| BucketTreeState.StateImpl.ProcessDataNodeDelta | openchain/ledger/statemgmt/buckettree/state_impl.go:127-141 | Succeeds exactly when no affected bucket fails its range scan. On success the bucket-tree delta is the tree with every affected bucket's overlay hash in its parent's slot. The other fields are unchanged. |
| BucketTreeState.DataPhaseSlots | openchain/ledger/statemgmt/buckettree/state_impl.go:128-139 | After the leaf phase, the parent of every affected bucket is in the tree and holds that bucket's hash. The hash is that of the bucket's pending nodes overlaid on its persisted nodes. Every key stays valid. |
| BucketTreeState.StateImpl.ProcessBucketTreeDelta | openchain/ledger/statemgmt/buckettree/state_impl.go:143-169 | The result is level-wise propagation from `LOWEST_LEVEL - 1` to the root: it fails exactly when propagation fails, and on success the bucket-tree delta is the propagated tree. |
| BucketTreeState.ProcessLevel | openchain/ledger/statemgmt/buckettree/state_impl.go:146-166 | One level of the loop, whatever order the touched nodes come in. A failed read is reported, and at that level propagation fails. Above the root the pass yields the tree the propagation continues from. At level 0 the pass merges the root and stops. |
| TreeDelta.PropagateFailsAt | openchain/ledger/statemgmt/buckettree/state_impl.go:149-153 | A failed read of any touched node of a level fails the propagation. |
| TreeDelta.PropagateFrame | openchain/ledger/statemgmt/buckettree/state_impl.go:145-167 | Propagation from level `l` never changes a node above `l`. A node at `l` keeps every slot it had. No node at level `l` or above is created. |
| TreeDelta.PropagateConsistent | openchain/ledger/statemgmt/buckettree/state_impl.go:154-165 | After propagation, every touched node at levels 1 to `l` has its final hash in its parent's slot. |
| TreeDelta.PropagateValid | openchain/ledger/statemgmt/buckettree/state_impl.go:164-165 | Propagation keeps every key of the tree valid. |
| TreeDelta.PropagateReachesRoot | openchain/ledger/statemgmt/buckettree/state_impl.go:145-160 | If a valid node is touched at or below the starting level, the propagated tree contains the root. |
| TreeDelta.PropagateReadsRoot | openchain/ledger/statemgmt/buckettree/state_impl.go:149-159 | A propagated tree that contains the root read the root from the store without failure. |
| TreeDelta.Propagate | openchain/ledger/statemgmt/buckettree/state_impl.go:143-169 | Reference definition of the propagation from level `l` down to the root. On success no node of the delta is dropped. What its result holds is stated by `TreeDelta.PropagateFrame`, `TreeDelta.PropagateConsistent` and `TreeDelta.PropagateInherits`. |
| TreeDelta.PropagateInherits | openchain/ledger/statemgmt/buckettree/state_impl.go:154-156 | After propagation from level `l`, every node at or below `l` holds the stored hash of each child slot that neither the delta node nor the propagation set: slots the working set never touched are inherited from the stored node. |
| TreeDelta.LevelResult | openchain/ledger/statemgmt/buckettree/state_impl.go:146-166 | Reference definition of one pass of the loop above the root. The pass keeps every node of the delta. |
| TreeDelta.NodeOrEmpty | openchain/ledger/statemgmt/buckettree/state_impl.go:164 | `getOrCreateBucketNode` yields the delta's node when there is one, and otherwise a new node without children. |
| BucketTreeState.RecomputeValid | openchain/ledger/statemgmt/buckettree/state_impl.go:111-118 | A successful recomputation keeps every key valid. |
| BucketTreeState.RecomputeReachesRoot | openchain/ledger/statemgmt/buckettree/state_impl.go:115-119 | A successful recomputation with at least one affected bucket produces a tree that holds the root, so `computeRootNodeCryptoHash` has a node to hash. |
| BucketTreeState.RecomputeConsistent | openchain/ledger/statemgmt/buckettree/state_impl.go:127-169 | The recomputed tree is a Merkle path from every affected data bucket to the root. Each affected bucket's parent holds that bucket's overlay hash, and every touched node from level 1 to `LOWEST_LEVEL - 1` holds its final hash in its parent's slot. |
| BucketTreeState.RecomputeOrderFree | openchain/ledger/statemgmt/buckettree/state_impl.go:128-139 | Two deltas of the same batch recompute to the same result, whatever order they list the affected buckets in. |
| BucketTreeState.DataPhase | openchain/ledger/statemgmt/buckettree/state_impl.go:127-141 | Reference definition of the leaf phase. It succeeds exactly when no affected bucket is failing, and on success it keeps every node of the tree it started from. |
| BucketTreeState.Recompute | openchain/ledger/statemgmt/buckettree/state_impl.go:111-119 | Reference definition of the whole recomputation, the leaf phase followed by propagation from `LOWEST_LEVEL - 1`. It fails whenever an affected bucket is failing, and on success it keeps every node of the tree it started from. What its result holds is stated by `BucketTreeState.RecomputeConsistent` and `BucketTreeState.RecomputeInherits`. |
| BucketTreeState.RecomputeInherits | openchain/ledger/statemgmt/buckettree/state_impl.go:154-156 | Incrementality: after a successful recomputation, every node holds the stored hash of each child slot that is not a data bucket of the batch, not a recomputed node and not already set in the starting tree. |
| BucketTreeState.StateImpl.ComputeRootNodeCryptoHash | openchain/ledger/statemgmt/buckettree/state_impl.go:171-173 | The state's hash is the hash of the root node of the bucket-tree delta. It is nil exactly when the root is marked for deletion. |
| BucketTreeState.ComputeDataNodesCryptoHash | openchain/ledger/statemgmt/buckettree/state_impl.go:175-215 | The calculator is fed exactly the merge of the two inputs, and the result is its hash. With sorted inputs, what is fed is the sorted, tombstone-free overlay of the pending nodes onto the persisted ones. |
| LeafMerge.MergeIsSortedOverlay | openchain/ledger/statemgmt/buckettree/state_impl.go:175-215 | With sorted inputs, the merge is strictly ascending by composite key. It holds exactly the live pending nodes plus the live persisted nodes whose key no pending node carries. |
| LeafMerge.SortedOverlayUnique | openchain/ledger/statemgmt/buckettree/state_impl.go:175-215 | Any sequence that is a sorted overlay of the inputs is the merge, so the reference meaning fixes the hash input. |
| LeafMerge.MergeSorted | openchain/ledger/statemgmt/buckettree/state_impl.go:180-213 | With strictly sorted inputs, the merge output is strictly sorted, so each composite key appears at most once. |
| LeafMerge.MergeContents | openchain/ledger/statemgmt/buckettree/state_impl.go:180-213 | A node is fed if and only if it is a live pending node, or a live persisted node whose composite key no pending node carries. |
| LeafMerge.MergeDrawsFromInputs | openchain/ledger/statemgmt/buckettree/state_impl.go:180-213 | Every fed node is live and comes from one of the two inputs. |
| LeafMerge.PendingWins | openchain/ledger/statemgmt/buckettree/state_impl.go:189-192 | On an equal composite key, the pending node is fed if and only if it is live, and the persisted node is never fed in its place. |
| LeafMerge.MergeDropsTombstones | openchain/ledger/statemgmt/buckettree/state_impl.go:197-199 | No tombstone ever reaches the calculator. |
| LeafMerge.MergeNodesAt | openchain/ledger/statemgmt/buckettree/state_impl.go:183-199 | One step of the walk: the three outcomes of `bytes.Compare` decide which node is examined and which indices advance. |
| LeafMerge.MergeNodesTail | openchain/ledger/statemgmt/buckettree/state_impl.go:202-207 | When the loop ends, one side is used up, and what remains to be fed is the live part of the other side's tail. |
| LeafMerge.Live | openchain/ledger/statemgmt/buckettree/state_impl.go:209-213 | The tail loop feeds exactly the live nodes of the remaining tail. |
| LeafMerge.MergeNodes | openchain/ledger/statemgmt/buckettree/state_impl.go:180-213 | Reference definition of the sequence fed to the calculator, by the same three-way split on `bytes.Compare` as the loop and the live tail of the side left over. It carries no contract of its own: its meaning is stated by `LeafMerge.MergeContents`, `LeafMerge.MergeSorted`, `LeafMerge.MergeDrawsFromInputs` and `LeafMerge.SortedOverlayUnique`. |
| BucketTreeState.StateImpl.AddChangesForPersistence | openchain/ledger/statemgmt/buckettree/state_impl.go:218-233 | Always returns no error. Without a working set, nothing is added and nothing changes. If a due recomputation fails, nothing is added and the recomputation stays due. Otherwise the batch gains the data operations followed by the bucket-node operations of the (recomputed) tree in a level order. |
| BucketTreeState.StateImpl.AddDataNodeChangesForPersistence | openchain/ledger/statemgmt/buckettree/state_impl.go:235-248 | The batch gains, for each affected bucket in order and each of its nodes in key order, a delete for a tombstone and a put of the value otherwise. |
| BucketTreeState.StateImpl.AddBucketNodeChangesForPersistence | openchain/ledger/statemgmt/buckettree/state_impl.go:250-264 | Every touched node above the data level is visited once, level by level from `LOWEST_LEVEL - 1` down to the root. For each node the batch gains a conditional delete-or-put and then an unconditional put. |
| Persistence.DataOp | openchain/ledger/statemgmt/buckettree/state_impl.go:241-245 | The operation for a data node is on that node's key, and it is a delete if and only if the node is a tombstone. |
| Persistence.NodeOpsFor | openchain/ledger/statemgmt/buckettree/state_impl.go:256-261 | A bucket node gets two operations. The first is a delete if the node is marked for deletion and a put otherwise. The second is always a put of the node. |
| Persistence.PersistOpsOnData | openchain/ledger/statemgmt/buckettree/state_impl.go:238-246 | The batch holds exactly one operation on each pending data node's key. |
| Persistence.PersistOpsOnNode | openchain/ledger/statemgmt/buckettree/state_impl.go:253-262 | The batch holds exactly the two operations of each touched bucket node on that node's key, so the last one is a put. |
| Persistence.PersistOpsOnOther | openchain/ledger/statemgmt/buckettree/state_impl.go:235-264 | The batch holds no operation on any key outside the working set. |
| Persistence.PersistEffect | openchain/ledger/statemgmt/buckettree/state_impl.go:235-264 | Once the batch is written, the store has these effects. Each pending data key holds its new value, or is absent after a delete. Every touched bucket node is stored, including one marked for deletion. Every other key is unchanged. |
| Persistence.PersistBatch | openchain/ledger/statemgmt/buckettree/state_impl.go:235-248 | Once the batch is written, every key of the mutation batch holds the value the batch gave it. |
| BucketTreeLifecycle.PersistedReadsBack | openchain/ledger/statemgmt/buckettree/state_impl.go:68-78 | After the persisted changes are written, `Get` of any key of the mutation batch returns the batch's value. |
| BucketTreeLifecycle.PersistedLeavesOthers | openchain/ledger/statemgmt/buckettree/state_impl.go:235-248 | After the persisted changes are written, `Get` of a key outside the mutation batch returns what it returned before. |
| BucketTreeLifecycle.PersistedRoot | openchain/ledger/statemgmt/buckettree/state_impl.go:250-264 | After the persisted changes are written, the stored root is the recomputed root. |
| BucketTreeLifecycle.RecomputedBucketsReadable | openchain/ledger/statemgmt/buckettree/state_impl.go:129-134 | A successful recomputation read every affected bucket without failure. |
| BucketTreeLifecycle.RecomputedRootReadable | openchain/ledger/statemgmt/buckettree/state_impl.go:149-153 | A successful recomputation that reached the root read it without failure. |
| BucketTreeLifecycle.CommitBlock | openchain/ledger/statemgmt/buckettree/state_impl.go:81-125 | One block is prepared, hashed, persisted and cleared. On success: the hash is both hashes of the state, the written store's root hashes to it, every key of the batch reads back its value, and a new state initialized from the written store reports the same hash unless reading the root then fails, which is reported. On failure nothing is written and the state falls back to its persisted hash. |
| BucketTreeLifecycle.PersistComputed | openchain/ledger/statemgmt/buckettree/state_impl.go:230-231 | After a successful computation, persisting and clearing store the computed root and every batch value, and move the computed hash into the persisted hash. A new state initialized from the written store fails exactly when the root's bucket is then failing, and otherwise reports the computed hash. |
| DataNodesDeltas.NewDataNodesDelta | openchain/ledger/statemgmt/buckettree/state_impl.go:87 | The delta holds every entry of the batch exactly once, as a node in the bucket its key names. Each bucket's nodes are strictly sorted by composite key, each affected bucket is listed once, and no bucket is empty. |
| DataNodesDeltas.NonEmptyBatchAffectsBucket | openchain/ledger/statemgmt/buckettree/state_impl.go:83-89 | A non-empty batch affects at least one bucket. |
| DataNodesDeltas.NodesDetermined | openchain/ledger/statemgmt/buckettree/state_impl.go:128-130 | Two deltas of the same batch have the same nodes, and list the same affected buckets, possibly in a different order. |
| Store.FetchBucketNode | openchain/ledger/statemgmt/buckettree/state_impl.go:149-153 | The read fails exactly when the bucket is failing; otherwise it returns the stored node, if any. |
| Store.FetchDataNode | openchain/ledger/statemgmt/buckettree/state_impl.go:70-73 | The read fails exactly when the key's bucket is failing. Otherwise it returns the stored data value under the key, if any. |
| Store.FetchDataNodes | openchain/ledger/statemgmt/buckettree/state_impl.go:131-134 | The scan fails exactly when the bucket is failing; otherwise it returns the bucket's persisted nodes, sorted by composite key. |
| Store.ApplyByLastOp | openchain/ledger/statemgmt/buckettree/state_impl.go:242-261 | After a batch is written, each key holds what the batch's last operation on it left, or its old value if no operation touched it. |
| Store.ApplyConcat | openchain/ledger/statemgmt/buckettree/state_impl.go:230-231 | Writing the data operations and then the bucket-node operations equals writing them as one batch. |
| Store.WriteBatch.PutCF | openchain/ledger/statemgmt/buckettree/state_impl.go:244 | A put is appended to the batch. |
| Store.WriteBatch.DeleteCF | openchain/ledger/statemgmt/buckettree/state_impl.go:242 | A delete is appended to the batch. |
| Hashes.BucketHashCalculator.AddNextNode | openchain/ledger/statemgmt/buckettree/state_impl.go:198 | The node is appended to what the calculator has been fed. |
| Hashes.MergeBucketNode | openchain/ledger/statemgmt/buckettree/state_impl.go:155 | The delta node's slots overlay the stored node's slots. Slots the delta never set are inherited from storage. |
| Hashes.NilSlotIsNoSlot | openchain/ledger/statemgmt/buckettree/state_impl.go:162 | A child slot holding the nil hash and a missing slot give the node the same hash. |
| Hashes.NodeCryptoHash | openchain/ledger/statemgmt/buckettree/state_impl.go:162 | A node's hash is nil exactly when it is marked for deletion, and otherwise a digest of its non-nil slots. |
| Hashes.MarkedForDeletion | openchain/ledger/statemgmt/buckettree/state_impl.go:256 | A node is marked for deletion exactly when every child slot it has holds the nil hash. |
| Hashes.LeafCryptoHash | openchain/ledger/statemgmt/buckettree/state_impl.go:214 | The digest of a sequence of data nodes is nil exactly when the sequence is empty, so a data bucket whose overlay has no live node hashes to nil. |
| Hashes.BucketHashCalculator.ComputeCryptoHash | openchain/ledger/statemgmt/buckettree/state_impl.go:214 | The calculator's digest is nil exactly when it was fed nothing. |
| TreeDelta.SetChild | openchain/ledger/statemgmt/buckettree/state_impl.go:137-138 | Setting a child's hash creates the child's parent if needed, puts the hash in the child's slot, and leaves every other slot of the parent and every other node unchanged. |
| BucketKeys.ParentKey | openchain/ledger/statemgmt/buckettree/state_impl.go:137 | The parent of a bucket is one level up. |
| BucketKeys.ParentKeyValid | openchain/ledger/statemgmt/buckettree/state_impl.go:164 | The parent of a valid non-root bucket is a valid bucket. |
| BucketKeys.OnlyRootAtLevelZero | openchain/ledger/statemgmt/buckettree/state_impl.go:158-159 | The only valid bucket at level 0 is the root, so returning after the first level-0 node loses nothing. |
| ByteOrder.Compare | openchain/ledger/statemgmt/buckettree/state_impl.go:183 | The comparison always yields -1, 0 or 1. |

## Left out

- The store behind `fetchBucketNodeFromDB`, `fetchDataNodeFromDB`, `fetchDataNodesFromDBFor`, `db.GetDBHandle` and the gorocksdb write batch is a value `Db` passed to each reading operation. Its `failing` set of bucket keys stands for I/O errors: a read in a failing bucket fails. The column family, `getEncodedBytes` and `marshal` are replaced by a datatype of store keys and store values.
- The cryptographic digests of `bucketHashCalculator` and `bucketNode.computeCryptoHash` are symbolic. A hash is its ordered input, and the nil hash is `EmptyHash`.
- `initConfig` and `conf` are replaced by the constants `LOWEST_LEVEL` (5) and `MAX_GROUPING_AT_EACH_LEVEL` (10), so `Initialize` takes the store rather than a configuration map.
- `BucketTreeState.StateImpl.Get` takes a data key rather than a chaincode ID and key: `newDataKey` and its hashing of a key into a bucket are not part of this model.
- The files of `bucket_key.go`, `bucket_node.go`, `data_node.go`, `data_nodes_delta.go`, `bucket_tree_delta.go`, `bucket_hash.go` and `db_helper.go` are not part of this model. Their operations are given only the contracts `state_impl.go` relies on:
  - the parent is one level up;
  - the delta lists its nodes per level;
  - merge overlays the delta's slots onto the stored slots;
  - `markedForDeletion` holds when no child slot holds a non-nil hash.
- The iteration order of `getBucketNodesAt` is left open: the loops of `ProcessLevel` and `AddBucketNodeChangesForPersistence` choose any remaining node, and their contracts hold for every order.
- `getAffectedBuckets` is called separately by `processDataNodeDelta` and `addDataNodeChangesForPersistence` (`state_impl.go:128` and `state_impl.go:237`). In the model both walk the one bucket order `d.buckets` that `NewDataNodesDelta` fixes, which is itself left open. `BucketTreeState.RecomputeOrderFree` shows that the recomputed tree does not depend on that order. The order of the data operations in the write batch does depend on it, but no two of them are on the same key (`Persistence.PersistOpsOnData`).
- `BucketTreeState.StateImpl.ProcessDataNodeDelta`: after a failed scan, the only promise about the bucket-tree delta is that its keys are valid, not which slots were already written.
- `BucketTreeState.StateImpl.ProcessBucketTreeDelta`: after a failed read, the only promise about the bucket-tree delta is that its keys are valid, not which nodes were already merged.
- `BucketTreeState.StateImpl.ComputeCryptoHash`: after a failed read, its contract does not say what is left in the bucket-tree delta, for the same reason.
- `PerfHintKeyChanged` (an empty body), `GetStateSnapshotIterator` and `GetRangeScanIterator` (delegation to store iterators), and all logging.
- Concurrency: the source has none in this file, and the model assumes one caller at a time.
