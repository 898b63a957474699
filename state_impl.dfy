/**
 * The bucket-tree implementation of the hashable state: the working set of
 * one block (a data-nodes delta and a bucket-tree delta), the cached crypto
 * hash of the state, its recomputation bottom-up from the changed data
 * buckets to the root, and the write batch that persists the working set.
 */
module BucketTreeState {
  import opened Wrappers
  import opened ByteOrder
  import opened BucketKeys
  import opened DataNodes
  import opened LeafMerge
  import opened Hashes
  import opened Store
  import opened DataNodesDeltas
  import opened TreeDelta
  import opened Persistence

  /**
   * computeDataNodesCryptoHash: a two-index walk over the pending and the
   * persisted nodes of one data bucket, feeding the calculator every live node
   * of the overlay. `fed` is the sequence the calculator received.
   */
  method ComputeDataNodesCryptoHash(bucketKey: BucketKey, updatedNodes: seq<DataNode>, existingNodes: seq<DataNode>)
    returns (h: Hash, ghost fed: seq<DataNode>)
    ensures h == LeafCryptoHash(MergeNodes(updatedNodes, existingNodes))
    ensures fed == MergeNodes(updatedNodes, existingNodes) && h == LeafCryptoHash(fed)
    ensures StrictlySorted(updatedNodes) && StrictlySorted(existingNodes) ==> IsSortedOverlay(fed, updatedNodes, existingNodes)
  {
    var calculator := new BucketHashCalculator(bucketKey);
    var i, j := 0, 0;
    while i < |updatedNodes| && j < |existingNodes|
      invariant 0 <= i <= |updatedNodes| && 0 <= j <= |existingNodes|
      invariant calculator.fed + MergeNodes(updatedNodes[i..], existingNodes[j..]) == MergeNodes(updatedNodes, existingNodes)
      decreases |updatedNodes| - i + |existingNodes| - j
    {
      var updatedNode, existingNode := updatedNodes[i], existingNodes[j];
      MergeNodesAt(updatedNodes, existingNodes, i, j);
      ghost var before, rest := calculator.fed, MergeNodes(updatedNodes[i..], existingNodes[j..]);
      var c := Compare(updatedNode.Key(), existingNode.Key());
      var nextNode: DataNode;
      if c == -1 {
        nextNode := updatedNode;
        i := i + 1;
      } else if c == 0 {
        nextNode := updatedNode;
        i := i + 1;
        j := j + 1;
      } else {
        nextNode := existingNode;
        j := j + 1;
      }
      assert rest == Keep(nextNode) + MergeNodes(updatedNodes[i..], existingNodes[j..]);
      if !nextNode.IsDelete() {
        calculator.AddNextNode(nextNode);
      }
      assert calculator.fed == before + Keep(nextNode);
      ConcatAssoc(before, Keep(nextNode), MergeNodes(updatedNodes[i..], existingNodes[j..]));
    }

    var remainingNodes: seq<DataNode> := [];
    if i < |updatedNodes| {
      remainingNodes := updatedNodes[i..];
    } else if j < |existingNodes| {
      remainingNodes := existingNodes[j..];
    }
    MergeNodesTail(updatedNodes, existingNodes, i, j);
    assert MergeNodes(updatedNodes[i..], existingNodes[j..]) == Live(remainingNodes);

    for k := 0 to |remainingNodes|
      invariant calculator.fed + Live(remainingNodes[k..]) == MergeNodes(updatedNodes, existingNodes)
    {
      LiveAt(remainingNodes, k);
      ghost var before := calculator.fed;
      if !remainingNodes[k].IsDelete() {
        calculator.AddNextNode(remainingNodes[k]);
      }
      assert calculator.fed == before + Keep(remainingNodes[k]);
      ConcatAssoc(before, Keep(remainingNodes[k]), Live(remainingNodes[k + 1..]));
    }
    assert remainingNodes[|remainingNodes|..] == [];
    h := calculator.ComputeCryptoHash();
    fed := calculator.fed;
    if StrictlySorted(updatedNodes) && StrictlySorted(existingNodes) {
      MergeIsSortedOverlay(updatedNodes, existingNodes);
    }
  }

  lemma ConcatAssoc(a: seq<DataNode>, b: seq<DataNode>, c: seq<DataNode>)
    ensures a + (b + c) == (a + b) + c
  {
  }

  lemma ConcatAssocOps(a: seq<WriteOp>, b: seq<WriteOp>, c: seq<WriteOp>)
    ensures a + b + c == a + (b + c)
  {
  }

  /** The crypto hash of an affected data bucket: its pending nodes overlaid on its persisted ones. */
  ghost function BucketHash(d: DataNodesDelta, db: Db, b: BucketKey): Hash
    requires b in d.nodes
  {
    LeafCryptoHash(MergeNodes(d.nodes[b], Listing(db.kv, b)))
  }

  /** The data-bucket hashes of the buckets `bs`. */
  ghost function LeafHashesOf(d: DataNodesDelta, db: Db, bs: seq<BucketKey>): map<BucketKey, Hash> {
    map b | b in bs && b in d.nodes :: BucketHash(d, db, b)
  }

  /**
   * processDataNodeDelta: fails when the range scan of an affected bucket
   * fails; otherwise each affected bucket's hash is written into its parent's slot.
   */
  ghost function DataPhase(d: DataNodesDelta, t: Tree, db: Db): (r: Result<Tree, StoreError>)
    requires WellFormed(d)
    ensures r.Ok? <==> forall b | b in d.nodes :: b !in db.failing
    ensures r.Ok? ==> t.Keys <= r.value.Keys
  {
    if exists b | b in d.buckets :: b in db.failing then Err(ReadFailed)
    else Ok(WithChildHashes(t, LeafHashesOf(d, db, d.buckets)))
  }

  /** The whole recomputation: the data phase, then the propagation from LOWEST_LEVEL - 1 to the root. */
  ghost function Recompute(d: DataNodesDelta, t: Tree, db: Db): (r: Result<Tree, StoreError>)
    requires WellFormed(d)
    ensures (exists b | b in d.nodes :: b in db.failing) ==> r.Err?
    ensures r.Ok? ==> t.Keys <= r.value.Keys
  {
    match DataPhase(d, t, db)
    case Err(e) => Err(e)
    case Ok(t1) => Propagate(t1, db, LOWEST_LEVEL - 1)
  }

  lemma LeafHashesOfEmpty(d: DataNodesDelta, db: Db)
    ensures LeafHashesOf(d, db, []) == map[]
  {
  }

  lemma WithChildHashesEmpty(t: Tree)
    ensures WithChildHashes(t, map[]) == t
  {
    var r := WithChildHashes(t, map[]);
    assert ParentsOf({}) == {};
    forall p | p in r ensures r[p] == t[p] {
      assert SlotsUnder(map[], p) == map[];
      assert t[p].children + map[] == t[p].children;
    }
  }

  lemma LeafHashesOfStep(d: DataNodesDelta, db: Db, bs: seq<BucketKey>, b: BucketKey)
    requires b in d.nodes
    ensures LeafHashesOf(d, db, bs + [b]) == LeafHashesOf(d, db, bs)[b := BucketHash(d, db, b)]
  {
  }

  /** The data phase writes each affected bucket's hash into its parent's slot and keeps the tree valid. */
  lemma DataPhaseSlots(d: DataNodesDelta, t: Tree, db: Db)
    requires WellFormed(d) && ValidTree(t) && DataPhase(d, t, db).Ok?
    ensures var t1 := DataPhase(d, t, db).value;
      && ValidTree(t1)
      && (forall b | b in d.buckets :: ParentKey(b) in t1 && b in t1[ParentKey(b)].children
            && t1[ParentKey(b)].children[b] == BucketHash(d, db, b))
  {
    var hs := LeafHashesOf(d, db, d.buckets);
    var t1 := DataPhase(d, t, db).value;
    forall k | k in t1 ensures ValidKey(k) && k.level < LOWEST_LEVEL {
      if k !in t {
        var c :| c in hs.Keys && ParentKey(c) == k;
        ParentKeyValid(c);
      }
    }
    forall b | b in d.buckets
      ensures ParentKey(b) in t1 && b in t1[ParentKey(b)].children && t1[ParentKey(b)].children[b] == BucketHash(d, db, b)
    {
      var p := ParentKey(b);
      assert b in hs.Keys;
      assert p in ParentsOf(hs.Keys);
      WithChildHashesAt(t, hs, p);
      assert b in SlotsUnder(hs, p);
    }
  }

  /** A successful recomputation keeps every key valid. */
  lemma RecomputeValid(d: DataNodesDelta, t: Tree, db: Db)
    requires WellFormed(d) && ValidTree(t) && Recompute(d, t, db).Ok?
    ensures ValidTree(Recompute(d, t, db).value)
  {
    DataPhaseSlots(d, t, db);
    PropagateValid(DataPhase(d, t, db).value, db, LOWEST_LEVEL - 1);
  }

  /** A successful recomputation over at least one affected bucket reaches the root. */
  lemma RecomputeReachesRoot(d: DataNodesDelta, t: Tree, db: Db)
    requires WellFormed(d) && |d.buckets| > 0 && ValidTree(t) && Recompute(d, t, db).Ok?
    ensures ROOT_KEY in Recompute(d, t, db).value
  {
    var b := d.buckets[0];
    assert b in d.nodes;
    DataPhaseSlots(d, t, db);
    ParentKeyValid(b);
    PropagateReachesRoot(DataPhase(d, t, db).value, db, LOWEST_LEVEL - 1, ParentKey(b));
  }

  /**
   * Incrementality: after a successful recomputation, a node in the tree holds
   * the stored hash of every child slot that neither the starting tree, the
   * batch's data buckets nor the recomputed nodes set.
   */
  lemma RecomputeInherits(d: DataNodesDelta, t: Tree, db: Db)
    requires WellFormed(d) && ValidTree(t) && Recompute(d, t, db).Ok?
    ensures var r := Recompute(d, t, db).value;
      forall k, c | k in r && StoredSlot(db, k, c) && c !in NodeOrEmpty(t, k).children && c !in r && c !in d.nodes ::
        Inherited(r, db, k, c)
  {
    var r := Recompute(d, t, db).value;
    var hs := LeafHashesOf(d, db, d.buckets);
    var t1 := DataPhase(d, t, db).value;
    DataPhaseSlots(d, t, db);
    RecomputeValid(d, t, db);
    PropagateInherits(t1, db, LOWEST_LEVEL - 1);
    forall k, c | k in r && StoredSlot(db, k, c) && c !in NodeOrEmpty(t, k).children && c !in r && c !in d.nodes
      ensures Inherited(r, db, k, c)
    {
      if k in t1 {
        WithChildHashesAt(t, hs, k);
        assert c !in SlotsUnder(hs, k);
      }
      assert c !in NodeOrEmpty(t1, k).children;
    }
  }

  /**
   * The order in which the delta lists its affected buckets is left open:
   * two deltas of the same batch recompute to the same tree, whatever that order.
   */
  lemma RecomputeOrderFree(d1: DataNodesDelta, d2: DataNodesDelta, batch: Batch, t: Tree, db: Db)
    requires Represents(d1, batch) && Represents(d2, batch)
    ensures Recompute(d1, t, db) == Recompute(d2, t, db)
  {
    NodesDetermined(d1, d2, batch);
    assert LeafHashesOf(d1, db, d1.buckets) == LeafHashesOf(d2, db, d2.buckets);
  }

  /**
   * The recomputed tree is a Merkle path from every affected data bucket to
   * the root: the parent of each affected bucket holds that bucket's hash,
   * and every touched node above the data level holds its final hash in its
   * parent's slot.
   */
  lemma RecomputeConsistent(d: DataNodesDelta, t: Tree, db: Db)
    requires WellFormed(d) && ValidTree(t) && Recompute(d, t, db).Ok?
    ensures var r := Recompute(d, t, db).value;
      && (forall b | b in d.buckets :: ParentKey(b) in r && b in r[ParentKey(b)].children
            && r[ParentKey(b)].children[b] == BucketHash(d, db, b))
      && (forall k | k in r && 1 <= k.level < LOWEST_LEVEL :: SlotHolds(r, k))
  {
    var t1 := DataPhase(d, t, db).value;
    var r := Recompute(d, t, db).value;
    DataPhaseSlots(d, t, db);
    PropagateFrame(t1, db, LOWEST_LEVEL - 1);
    PropagateConsistent(t1, db, LOWEST_LEVEL - 1);
    forall b | b in d.buckets
      ensures ParentKey(b) in r && b in r[ParentKey(b)].children && r[ParentKey(b)].children[b] == BucketHash(d, db, b)
    {
      var p := ParentKey(b);
      assert SlotsKept(t1[p], r[p]);
    }
  }

  lemma DataPhaseFails(d: DataNodesDelta, t: Tree, db: Db, b: BucketKey)
    requires WellFormed(d) && b in d.buckets && b in db.failing
    ensures DataPhase(d, t, db) == Err(ReadFailed)
  {
  }

  lemma DataPhaseSucceeds(d: DataNodesDelta, t: Tree, db: Db)
    requires WellFormed(d) && forall k | 0 <= k < |d.buckets| :: d.buckets[k] !in db.failing
    ensures DataPhase(d, t, db) == Ok(WithChildHashes(t, LeafHashesOf(d, db, d.buckets)))
  {
  }

  /** One more affected bucket's hash written into its parent's slot. */
  lemma ChildHashStep(d: DataNodesDelta, db: Db, t0: Tree, bs: seq<BucketKey>, i: nat, h: Hash)
    requires WellFormed(d) && bs == d.buckets && i < |bs| && h == BucketHash(d, db, bs[i])
    requires ValidTree(WithChildHashes(t0, LeafHashesOf(d, db, bs[..i])))
    ensures var t := WithChildHashes(t0, LeafHashesOf(d, db, bs[..i]));
      && WithChildHashes(t0, LeafHashesOf(d, db, bs[..i + 1])) == SetChild(t, bs[i], h)
      && ValidTree(SetChild(t, bs[i], h))
  {
    var b := bs[i];
    assert b in d.nodes;
    var hs := LeafHashesOf(d, db, bs[..i]);
    assert bs[..i + 1] == bs[..i] + [b];
    LeafHashesOfStep(d, db, bs[..i], b);
    assert b !in hs by {
      forall k | 0 <= k < i ensures bs[..i][k] != b {
        assert bs[..i][k] == bs[k];
      }
    }
    WithChildHashesStep(t0, hs, b, h);
    SetChildValid(WithChildHashes(t0, hs), b, h);
  }

  /** Moving one element from the remaining part of `all` to the done part. */
  lemma TakeOne(all: set<BucketKey>, remaining: set<BucketKey>, done: set<BucketKey>, k: BucketKey)
    requires remaining <= all && done == all - remaining && k in remaining
    ensures remaining - {k} <= all && done + {k} == all - (remaining - {k})
  {
  }

  /**
   * One pass of processBucketTreeDelta's level loop over the nodes of `level`
   * in the tree at the start of the pass, in any order: each is merged with
   * its stored version, and unless it is the root its hash is written into its
   * parent's slot. At level 0 the pass stops after its first node.
   */
  method ProcessLevel(tree: Tree, db: Db, level: nat) returns (tree': Tree, err: Option<StoreError>)
    requires ValidTree(tree)
    ensures ValidTree(tree')
    ensures err.Some? ==> err == Some(ReadFailed) && Propagate(tree, db, level).Err?
    ensures err.None? && level > 0 ==> Propagate(tree, db, level) == Propagate(tree', db, level - 1)
    ensures err.None? && level == 0 ==> Propagate(tree, db, 0) == Ok(tree')
  {
    tree' := tree;
    err := None;
    var bucketNodes := LevelKeys(tree, level);
    var remaining := bucketNodes;
    ghost var done: set<BucketKey> := {};
    PartialLevelEmpty(tree, db);
    while remaining != {}
      invariant remaining <= bucketNodes && done == bucketNodes - remaining
      invariant ValidTree(tree')
      invariant level > 0 ==> tree' == PartialLevel(tree, db, done)
      invariant level == 0 ==> tree' == tree && done == {}
      invariant done * db.failing == {}
      decreases remaining
    {
      var bucketKey :| bucketKey in remaining;
      if level > 0 {
        PartialLevelStep(tree, db, level, done, bucketKey);
      }
      var bucketNode := tree'[bucketKey];
      var dbBucketNode := FetchBucketNode(db, bucketKey);
      if dbBucketNode.Err? {
        PropagateFailsAt(tree, db, level, bucketKey);
        return tree', Some(dbBucketNode.error);
      }
      if dbBucketNode.value.Some? {
        bucketNode := MergeBucketNode(bucketNode, dbBucketNode.value.value);
      }
      tree' := tree'[bucketKey := bucketNode];
      if level == 0 {
        PropagateRootPass(tree, db, bucketKey);
        return;
      }
      var cryptoHash := NodeCryptoHash(bucketNode);
      ParentKeyValid(bucketKey);
      tree' := SetChild(tree', bucketKey, cryptoHash);
      TakeOne(bucketNodes, remaining, done, bucketKey);
      remaining := remaining - {bucketKey};
      done := done + {bucketKey};
    }
    if level > 0 {
      PropagateLevelPass(tree, db, level, done);
    } else {
      PropagateNoRoot(tree, db);
    }
  }

  /**
   * What AddChangesForPersistence leaves in a write batch that held `ops0`:
   * the data operations, then the bucket-node operations in some level order.
   */
  ghost predicate PersistedAs(ops: seq<WriteOp>, ops0: seq<WriteOp>, d: DataNodesDelta, t: Tree) {
    exists order :: LevelOrder(t, order) && ops == ops0 + PersistOps(d, t, order)
  }

  /** The inner loop of addDataNodeChangesForPersistence: each node of one bucket, in order, a delete or a put. */
  method AddNodeChangesForPersistence(writeBatch: WriteBatch, dataNodes: seq<DataNode>)
    modifies writeBatch
    ensures writeBatch.ops == old(writeBatch.ops) + NodesOps(dataNodes)
  {
    ghost var pre := writeBatch.ops;
    assert dataNodes[..0] == [];
    for k := 0 to |dataNodes|
      invariant writeBatch.ops == pre + NodesOps(dataNodes[..k])
    {
      var dataNode := dataNodes[k];
      NodesOpsSnoc(pre, dataNodes, k);
      if dataNode.IsDelete() {
        writeBatch.DeleteCF(DataEntry(dataNode.dataKey));
      } else {
        writeBatch.PutCF(DataEntry(dataNode.dataKey), DataValue(dataNode.value.value));
      }
    }
    assert dataNodes[..|dataNodes|] == dataNodes;
  }

  /**
   * StateImpl: the working set of the state between PrepareWorkingSet and
   * ClearWorkingSet, the hash of the persisted state and the last computed
   * hash. The store it reads is passed to each operation that reads it.
   */
  class StateImpl {
    var dataNodesDelta: Option<DataNodesDelta>
    var bucketTreeDelta: Option<Tree>
    var persistedStateHash: Hash
    var lastComputedCryptoHash: Hash
    var recomputeCryptoHash: bool

    /** The two deltas exist together; a pending recomputation has a non-empty working set. */
    ghost predicate Valid()
      reads this
    {
      && (dataNodesDelta.Some? <==> bucketTreeDelta.Some?)
      && (recomputeCryptoHash ==> dataNodesDelta.Some?)
      && (dataNodesDelta.Some? ==> WellFormed(dataNodesDelta.value) && |dataNodesDelta.value.buckets| > 0)
      && (bucketTreeDelta.Some? ==> ValidTree(bucketTreeDelta.value))
    }

    /** NewStateImpl: no working set, both hashes nil. */
    constructor ()
      ensures Valid()
      ensures dataNodesDelta == None && bucketTreeDelta == None && !recomputeCryptoHash
      ensures persistedStateHash == EmptyHash && lastComputedCryptoHash == EmptyHash
    {
      dataNodesDelta := None;
      bucketTreeDelta := None;
      persistedStateHash := EmptyHash;
      lastComputedCryptoHash := EmptyHash;
      recomputeCryptoHash := false;
    }

    /**
     * Initialize: reads the stored root; when there is one, its hash becomes
     * both the persisted and the last computed hash. A failed read is returned.
     */
    method Initialize(db: Db) returns (err: Option<StoreError>)
      requires Valid()
      modifies this
      ensures Valid()
      ensures err.Some? <==> ROOT_KEY in db.failing
      ensures err.Some? ==> err == Some(ReadFailed)
      ensures dataNodesDelta == old(dataNodesDelta) && bucketTreeDelta == old(bucketTreeDelta)
      ensures recomputeCryptoHash == old(recomputeCryptoHash)
      ensures err.None? && StoredNode(db, ROOT_KEY).Some? ==>
        persistedStateHash == NodeCryptoHash(StoredNode(db, ROOT_KEY).value) && lastComputedCryptoHash == persistedStateHash
      ensures err.Some? || StoredNode(db, ROOT_KEY).None? ==>
        persistedStateHash == old(persistedStateHash) && lastComputedCryptoHash == old(lastComputedCryptoHash)
    {
      var rootBucketNode := FetchBucketNode(db, ROOT_KEY);
      if rootBucketNode.Err? {
        return Some(rootBucketNode.error);
      }
      if rootBucketNode.value.Some? {
        persistedStateHash := NodeCryptoHash(rootBucketNode.value.value);
        lastComputedCryptoHash := persistedStateHash;
      }
      return None;
    }

    /** Get: the persisted value of a data key, read from the store; the working set is not consulted. */
    static function Get(db: Db, dk: DataKey): (r: Result<Option<Bytes>, StoreError>)
      ensures r.Err? <==> dk.bucket in db.failing
      ensures r.Ok? ==> (r.value.Some? <==> DataEntry(dk) in db.kv && db.kv[DataEntry(dk)].DataValue?)
      ensures r.Ok? && r.value.Some? ==> db.kv[DataEntry(dk)] == DataValue(r.value.value)
    {
      match FetchDataNode(db, dk)
      case Err(e) => Err(e)
      case Ok(node) => if node.None? then Ok(None) else Ok(node.value.value)
    }

    /**
     * PrepareWorkingSet: an empty batch is ignored; otherwise the batch
     * becomes the data-nodes delta, the bucket-tree delta starts empty and a
     * recomputation is due.
     */
    method PrepareWorkingSet(batch: Batch)
      requires Valid() && forall dk | dk in batch :: ValidDataKey(dk)
      modifies this
      ensures Valid()
      ensures batch == map[] ==> unchanged(this)
      ensures batch != map[] ==>
        && dataNodesDelta.Some? && Represents(dataNodesDelta.value, batch)
        && bucketTreeDelta == Some(map[]) && recomputeCryptoHash
        && persistedStateHash == old(persistedStateHash) && lastComputedCryptoHash == old(lastComputedCryptoHash)
    {
      if batch == map[] {
        return;
      }
      var d := NewDataNodesDelta(batch);
      NonEmptyBatchAffectsBucket(d, batch);
      dataNodesDelta := Some(d);
      bucketTreeDelta := Some(map[]);
      recomputeCryptoHash := true;
    }

    /**
     * ClearWorkingSet: drops the working set; when its changes were
     * persisted the last computed hash becomes the persisted hash, otherwise
     * the computed hash falls back to the persisted one.
     */
    method ClearWorkingSet(changesPersisted: bool)
      modifies this
      ensures Valid()
      ensures dataNodesDelta == None && bucketTreeDelta == None && !recomputeCryptoHash
      ensures changesPersisted ==> persistedStateHash == old(lastComputedCryptoHash) && lastComputedCryptoHash == old(lastComputedCryptoHash)
      ensures !changesPersisted ==> persistedStateHash == old(persistedStateHash) && lastComputedCryptoHash == old(persistedStateHash)
      ensures persistedStateHash == lastComputedCryptoHash
    {
      dataNodesDelta := None;
      bucketTreeDelta := None;
      recomputeCryptoHash := false;
      if changesPersisted {
        persistedStateHash := lastComputedCryptoHash;
      } else {
        lastComputedCryptoHash := persistedStateHash;
      }
    }

    /**
     * processDataNodeDelta: for each affected bucket in order, the range scan
     * of its persisted nodes, the overlay hash, and the hash written into the
     * parent's slot. The first failed scan is returned, the tree left as far
     * as it got.
     */
    method ProcessDataNodeDelta(db: Db) returns (err: Option<StoreError>)
      requires dataNodesDelta.Some? && WellFormed(dataNodesDelta.value)
      requires bucketTreeDelta.Some? && ValidTree(bucketTreeDelta.value)
      modifies this
      ensures dataNodesDelta == old(dataNodesDelta) && recomputeCryptoHash == old(recomputeCryptoHash)
      ensures persistedStateHash == old(persistedStateHash) && lastComputedCryptoHash == old(lastComputedCryptoHash)
      ensures bucketTreeDelta.Some? && ValidTree(bucketTreeDelta.value)
      ensures var phase := DataPhase(old(dataNodesDelta).value, old(bucketTreeDelta).value, db);
        && (err.None? <==> phase.Ok?)
        && (err.Some? ==> err == Some(ReadFailed))
        && (phase.Ok? ==> bucketTreeDelta == Some(phase.value))
    {
      var d := dataNodesDelta.value;
      var tree := bucketTreeDelta.value;
      ghost var t0 := tree;
      var affectedBuckets := d.buckets;
      LeafHashesOfEmpty(d, db);
      WithChildHashesEmpty(t0);
      err := None;
      var i := 0;
      while i < |affectedBuckets|
        invariant 0 <= i <= |affectedBuckets|
        invariant tree == WithChildHashes(t0, LeafHashesOf(d, db, affectedBuckets[..i]))
        invariant ValidTree(tree)
        invariant forall k | 0 <= k < i :: affectedBuckets[k] !in db.failing
        invariant err == None
        modifies {}
      {
        var bucketKey := affectedBuckets[i];
        assert bucketKey in d.nodes;
        var updatedDataNodes := d.nodes[bucketKey];
        var existingDataNodes := FetchDataNodes(db, bucketKey);
        if existingDataNodes.Err? {
          DataPhaseFails(d, t0, db, bucketKey);
          err := Some(existingDataNodes.error);
          break;
        }
        var cryptoHashForBucket;
        ghost var fed;
        cryptoHashForBucket, fed := ComputeDataNodesCryptoHash(bucketKey, updatedDataNodes, existingDataNodes.value);
        ChildHashStep(d, db, t0, affectedBuckets, i, cryptoHashForBucket);
        tree := SetChild(tree, bucketKey, cryptoHashForBucket);
        i := i + 1;
      }
      bucketTreeDelta := Some(tree);
      if err.None? {
        assert affectedBuckets[..i] == affectedBuckets;
        DataPhaseSucceeds(d, t0, db);
      }
    }

    /**
     * processBucketTreeDelta: level by level from LOWEST_LEVEL - 1 up to the
     * root, each touched node is merged with its stored version and its hash
     * written into its parent's slot (ProcessLevel). The first failed read is
     * returned, the tree left as far as it got.
     */
    method ProcessBucketTreeDelta(db: Db) returns (err: Option<StoreError>)
      requires bucketTreeDelta.Some? && ValidTree(bucketTreeDelta.value)
      modifies this
      ensures dataNodesDelta == old(dataNodesDelta) && recomputeCryptoHash == old(recomputeCryptoHash)
      ensures persistedStateHash == old(persistedStateHash) && lastComputedCryptoHash == old(lastComputedCryptoHash)
      ensures bucketTreeDelta.Some? && ValidTree(bucketTreeDelta.value)
      ensures var r := Propagate(old(bucketTreeDelta).value, db, LOWEST_LEVEL - 1);
        && (err.None? <==> r.Ok?)
        && (err.Some? ==> err == Some(ReadFailed))
        && (r.Ok? ==> bucketTreeDelta == Some(r.value))
    {
      var tree := bucketTreeDelta.value;
      ghost var target := Propagate(tree, db, LOWEST_LEVEL - 1);
      err := None;
      var secondLastLevel := LOWEST_LEVEL - 1;
      var level: int := secondLastLevel;
      while level >= 0
        invariant -1 <= level <= secondLastLevel
        invariant ValidTree(tree) && err == None
        invariant level >= 0 ==> Propagate(tree, db, level) == target
        invariant level < 0 ==> target == Ok(tree)
        modifies {}
      {
        tree, err := ProcessLevel(tree, db, level);
        if err.Some? {
          break;
        }
        level := level - 1;
      }
      bucketTreeDelta := Some(tree);
    }

    /** computeRootNodeCryptoHash: the hash of the root node of the bucket-tree delta. */
    function ComputeRootNodeCryptoHash(): (h: Hash)
      reads this
      requires bucketTreeDelta.Some? && ROOT_KEY in bucketTreeDelta.value
      ensures h == EmptyHash <==> MarkedForDeletion(bucketTreeDelta.value[ROOT_KEY])
    {
      NodeCryptoHash(bucketTreeDelta.value[ROOT_KEY])
    }

    /**
     * ComputeCryptoHash: the cached hash unless a recomputation is due;
     * otherwise the data phase, the propagation to the root, and the root's
     * hash, which is cached. A failed read is returned and leaves the
     * recomputation due.
     */
    method ComputeCryptoHash(db: Db) returns (r: Result<Hash, StoreError>)
      requires Valid()
      modifies this
      ensures Valid()
      ensures dataNodesDelta == old(dataNodesDelta) && persistedStateHash == old(persistedStateHash)
      ensures r.Ok? ==> r.value == lastComputedCryptoHash && !recomputeCryptoHash
      ensures !old(recomputeCryptoHash) ==> r == Ok(old(lastComputedCryptoHash)) && unchanged(this)
      ensures old(recomputeCryptoHash) ==>
        var res := Recompute(old(dataNodesDelta).value, old(bucketTreeDelta).value, db);
        && (res.Err? ==> r == Err(ReadFailed) && recomputeCryptoHash && lastComputedCryptoHash == old(lastComputedCryptoHash))
        && (res.Ok? ==> (ROOT_KEY in res.value && bucketTreeDelta == Some(res.value)
              && r == Ok(NodeCryptoHash(res.value[ROOT_KEY]))))
    {
      if recomputeCryptoHash {
        ghost var d, t := dataNodesDelta.value, bucketTreeDelta.value;
        var err := ProcessDataNodeDelta(db);
        if err.Some? {
          return Err(err.value);
        }
        err := ProcessBucketTreeDelta(db);
        if err.Some? {
          return Err(err.value);
        }
        RecomputeReachesRoot(d, t, db);
        lastComputedCryptoHash := ComputeRootNodeCryptoHash();
        recomputeCryptoHash := false;
      }
      return Ok(lastComputedCryptoHash);
    }

    /**
     * AddChangesForPersistence: nothing without a working set; a due
     * recomputation runs first, and when it fails nothing is added and no
     * error is returned. Otherwise the data-node changes, then the bucket-node
     * changes.
     */
    method AddChangesForPersistence(db: Db, writeBatch: WriteBatch) returns (err: Option<StoreError>)
      requires Valid()
      modifies this, writeBatch
      ensures Valid() && err == None
      ensures dataNodesDelta == old(dataNodesDelta) && persistedStateHash == old(persistedStateHash)
      ensures old(dataNodesDelta).None? ==> unchanged(this) && writeBatch.ops == old(writeBatch.ops)
      ensures old(dataNodesDelta).Some? && !old(recomputeCryptoHash) ==>
        bucketTreeDelta == old(bucketTreeDelta) && lastComputedCryptoHash == old(lastComputedCryptoHash) && !recomputeCryptoHash
      ensures old(dataNodesDelta).Some? && old(recomputeCryptoHash) ==>
        var res := Recompute(old(dataNodesDelta).value, old(bucketTreeDelta).value, db);
        && (res.Err? ==> writeBatch.ops == old(writeBatch.ops) && recomputeCryptoHash && lastComputedCryptoHash == old(lastComputedCryptoHash))
        && (res.Ok? ==> (ROOT_KEY in res.value && bucketTreeDelta == Some(res.value)
              && lastComputedCryptoHash == NodeCryptoHash(res.value[ROOT_KEY]) && !recomputeCryptoHash))
      ensures old(dataNodesDelta).Some? && !recomputeCryptoHash ==>
        PersistedAs(writeBatch.ops, old(writeBatch.ops), dataNodesDelta.value, bucketTreeDelta.value)
    {
      if dataNodesDelta.None? {
        return None;
      }
      if recomputeCryptoHash {
        var r := ComputeCryptoHash(db);
        if r.Err? {
          return None;
        }
      }
      ghost var ops0 := writeBatch.ops;
      AddDataNodeChangesForPersistence(writeBatch);
      ghost var order := AddBucketNodeChangesForPersistence(writeBatch);
      ConcatAssocOps(ops0, DataOps(dataNodesDelta.value), TreeOps(bucketTreeDelta.value, order));
      assert LevelOrder(bucketTreeDelta.value, order)
        && writeBatch.ops == ops0 + PersistOps(dataNodesDelta.value, bucketTreeDelta.value, order);
      return None;
    }

    /** addDataNodeChangesForPersistence: for each affected bucket, each pending node, a delete or a put. */
    method AddDataNodeChangesForPersistence(writeBatch: WriteBatch)
      requires dataNodesDelta.Some? && WellFormed(dataNodesDelta.value)
      modifies writeBatch
      ensures writeBatch.ops == old(writeBatch.ops) + DataOps(dataNodesDelta.value)
    {
      var d := dataNodesDelta.value;
      ghost var ops0 := writeBatch.ops;
      var affectedBuckets := d.buckets;
      for i := 0 to |affectedBuckets|
        invariant writeBatch.ops == ops0 + BucketsOps(d.nodes, affectedBuckets[..i])
      {
        var affectedBucket := affectedBuckets[i];
        assert affectedBucket in d.nodes;
        AddNodeChangesForPersistence(writeBatch, d.nodes[affectedBucket]);
        BucketsOpsSnoc(ops0, d.nodes, affectedBuckets, i);
      }
      assert affectedBuckets[..|affectedBuckets|] == affectedBuckets;
    }

    /**
     * addBucketNodeChangesForPersistence: level by level from LOWEST_LEVEL - 1
     * up to the root, for each touched node a delete when it is marked for
     * deletion and a put otherwise, then a put in every case. `order` is the
     * order the nodes were visited in.
     */
    method AddBucketNodeChangesForPersistence(writeBatch: WriteBatch) returns (ghost order: seq<BucketKey>)
      requires bucketTreeDelta.Some?
      modifies writeBatch
      ensures LevelOrder(bucketTreeDelta.value, order)
      ensures writeBatch.ops == old(writeBatch.ops) + TreeOps(bucketTreeDelta.value, order)
    {
      var t := bucketTreeDelta.value;
      ghost var ops0 := writeBatch.ops;
      order := [];
      VisitedStart(t);
      var secondLastLevel := LOWEST_LEVEL - 1;
      var level: int := secondLastLevel;
      while level >= 0
        invariant -1 <= level <= secondLastLevel
        invariant writeBatch.ops == ops0 + TreeOps(t, order)
        invariant VisitedUpTo(t, order, level, {})
      {
        var bucketNodes := LevelKeys(t, level);
        var remaining := bucketNodes;
        ghost var done: set<BucketKey> := {};
        while remaining != {}
          invariant remaining <= bucketNodes && done == bucketNodes - remaining
          invariant writeBatch.ops == ops0 + TreeOps(t, order)
          invariant VisitedUpTo(t, order, level, done)
          decreases remaining
        {
          var bucketKey :| bucketKey in remaining;
          var bucketNode := t[bucketKey];
          TreeOpsSnoc(ops0, t, order, bucketKey);
          if MarkedForDeletion(bucketNode) {
            writeBatch.DeleteCF(NodeEntry(bucketKey));
          } else {
            writeBatch.PutCF(NodeEntry(bucketKey), NodeValue(bucketNode));
          }
          writeBatch.PutCF(NodeEntry(bucketKey), NodeValue(bucketNode));
          VisitedAppend(t, order, level, done, bucketKey);
          order := order + [bucketKey];
          TakeOne(bucketNodes, remaining, done, bucketKey);
          remaining := remaining - {bucketKey};
          done := done + {bucketKey};
        }
        VisitedLevel(t, order, level);
        level := level - 1;
      }
      VisitedAll(t, order);
    }
  }
}
