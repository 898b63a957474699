/**
 * The state as the ledger drives it for one block: a batch is prepared, its
 * hash computed, its changes added to a write batch and the working set
 * cleared. These lemmas say what the store reads after that write batch is
 * applied, and which hash a state initialized from it reports.
 */
module BucketTreeLifecycle {
  import opened Wrappers
  import opened BucketKeys
  import opened DataNodes
  import opened Hashes
  import opened Store
  import opened DataNodesDeltas
  import opened TreeDelta
  import opened Persistence
  import opened BucketTreeState

  /** Every key of the batch reads back, through Get, its new value (None for a delete). */
  lemma PersistedReadsBack(kv: Kv, failing: set<BucketKey>, ops0: seq<WriteOp>, ops: seq<WriteOp>,
                           batch: Batch, d: DataNodesDelta, t: Tree, dk: DataKey)
    requires Represents(d, batch) && PersistedAs(ops, ops0, d, t)
    requires dk in batch && dk.bucket !in failing
    ensures StateImpl.Get(Db(Apply(kv, ops), failing), dk) == Ok(batch[dk])
  {
    var order :| LevelOrder(t, order) && ops == ops0 + PersistOps(d, t, order);
    ApplyConcat(kv, ops0, PersistOps(d, t, order));
    PersistBatch(Apply(kv, ops0), batch, d, t, order);
  }

  /** A data key outside the batch reads as it did before the persisted operations. */
  lemma PersistedLeavesOthers(kv: Kv, failing: set<BucketKey>, ops0: seq<WriteOp>, ops: seq<WriteOp>,
                              batch: Batch, d: DataNodesDelta, t: Tree, dk: DataKey)
    requires Represents(d, batch) && PersistedAs(ops, ops0, d, t) && dk !in batch
    ensures StateImpl.Get(Db(Apply(kv, ops), failing), dk) == StateImpl.Get(Db(Apply(kv, ops0), failing), dk)
  {
    var order :| LevelOrder(t, order) && ops == ops0 + PersistOps(d, t, order);
    ApplyConcat(kv, ops0, PersistOps(d, t, order));
    PersistEffect(Apply(kv, ops0), d, t, order);
    assert Untouched(d, t, DataEntry(dk));
  }

  /** The persisted operations store the tree's root node as the root. */
  lemma PersistedRoot(kv: Kv, failing: set<BucketKey>, ops0: seq<WriteOp>, ops: seq<WriteOp>,
                      d: DataNodesDelta, t: Tree)
    requires WellFormed(d) && PersistedAs(ops, ops0, d, t) && ROOT_KEY in t
    ensures StoredNode(Db(Apply(kv, ops), failing), ROOT_KEY) == Some(t[ROOT_KEY])
  {
    var order :| LevelOrder(t, order) && ops == ops0 + PersistOps(d, t, order);
    ApplyConcat(kv, ops0, PersistOps(d, t, order));
    PersistEffect(Apply(kv, ops0), d, t, order);
  }

  /** A successful recomputation read every affected bucket, so none of them is failing. */
  lemma RecomputedBucketsReadable(d: DataNodesDelta, t: Tree, db: Db, b: BucketKey)
    requires WellFormed(d) && Recompute(d, t, db).Ok? && b in d.nodes
    ensures b !in db.failing
  {
    if b in db.failing {
      DataPhaseFails(d, t, db, b);
    }
  }

  /** After a successful recomputation is persisted, the whole batch reads back. */
  lemma BatchReadsBack(db: Db, ops0: seq<WriteOp>, ops: seq<WriteOp>, batch: Batch, d: DataNodesDelta, t: Tree)
    requires Represents(d, batch) && Recompute(d, map[], db).Ok? && PersistedAs(ops, ops0, d, t)
    ensures forall dk | dk in batch :: StateImpl.Get(Db(Apply(db.kv, ops), db.failing), dk) == Ok(batch[dk])
  {
    forall dk | dk in batch
      ensures StateImpl.Get(Db(Apply(db.kv, ops), db.failing), dk) == Ok(batch[dk])
    {
      RecomputedBucketsReadable(d, map[], db, dk.bucket);
      PersistedReadsBack(db.kv, db.failing, ops0, ops, batch, d, t, dk);
    }
  }

  /** A successful recomputation leaves a root it read from the store, so the root is readable. */
  lemma RecomputedRootReadable(d: DataNodesDelta, t: Tree, db: Db)
    requires WellFormed(d) && Recompute(d, t, db).Ok? && ROOT_KEY in Recompute(d, t, db).value
    ensures ROOT_KEY !in db.failing
  {
    PropagateReadsRoot(DataPhase(d, t, db).value, db, LOWEST_LEVEL - 1);
  }

  /** The cached hash is stable: a second ComputeCryptoHash returns what a successful first one did. */
  method ComputeCryptoHashTwice(s: StateImpl, db: Db) returns (r1: Result<Hash, StoreError>, r2: Result<Hash, StoreError>)
    requires s.Valid()
    modifies s
    ensures s.Valid()
    ensures r1.Ok? ==> r2 == r1
  {
    r1 := s.ComputeCryptoHash(db);
    r2 := s.ComputeCryptoHash(db);
  }

  /**
   * One block: PrepareWorkingSet, ComputeCryptoHash, AddChangesForPersistence
   * into a new write batch, and ClearWorkingSet with the outcome. On success
   * the committed hash is both hashes of the state and the hash of the root
   * the write batch stores, and every key of the batch reads back its new
   * value; on failure nothing is written and the state falls back to its
   * persisted hash. A new state is then initialized from the written store,
   * whose failing buckets at that time are `laterFailing`; unless that read
   * of the root fails, it reports the committed hash.
   */
  method CommitBlock(s: StateImpl, db: Db, batch: Batch, laterFailing: set<BucketKey>)
    returns (r: Result<Hash, StoreError>, writeBatch: WriteBatch, reopened: StateImpl, reopenErr: Option<StoreError>)
    requires s.Valid() && s.dataNodesDelta.None?
    requires batch != map[] && forall dk | dk in batch :: ValidDataKey(dk)
    modifies s
    ensures s.Valid() && s.dataNodesDelta.None? && !s.recomputeCryptoHash
    ensures r.Err? ==> (writeBatch.ops == [] && r == Err(ReadFailed)
      && s.persistedStateHash == old(s.persistedStateHash) && s.lastComputedCryptoHash == old(s.persistedStateHash))
    ensures r.Ok? ==>
      var after := Db(Apply(db.kv, writeBatch.ops), db.failing);
      && s.persistedStateHash == r.value && s.lastComputedCryptoHash == r.value
      && StoredNode(after, ROOT_KEY).Some? && NodeCryptoHash(StoredNode(after, ROOT_KEY).value) == r.value
      && (forall dk | dk in batch :: StateImpl.Get(after, dk) == Ok(batch[dk]))
      && (reopenErr.Some? <==> ROOT_KEY in laterFailing)
      && (reopenErr.None? ==> reopened.persistedStateHash == r.value && reopened.lastComputedCryptoHash == r.value)
  {
    s.PrepareWorkingSet(batch);
    var d := s.dataNodesDelta.value;
    ghost var res := Recompute(d, map[], db);
    r := s.ComputeCryptoHash(db);
    if r.Err? {
      s.ClearWorkingSet(false);
      writeBatch := new WriteBatch();
      reopened := new StateImpl();
      reopenErr := None;
      return;
    }
    assert res.Ok?;
    var t := s.bucketTreeDelta.value;
    writeBatch, reopened, reopenErr := PersistComputed(s, db, batch, d, t, laterFailing);
  }

  /**
   * The second half of CommitBlock: the computed changes go into a new write
   * batch, the working set is cleared as persisted, and a new state is
   * initialized from the store the write batch leaves, with the failing
   * buckets `laterFailing`.
   */
  method PersistComputed(s: StateImpl, db: Db, batch: Batch, d: DataNodesDelta, t: Tree, laterFailing: set<BucketKey>)
    returns (writeBatch: WriteBatch, reopened: StateImpl, reopenErr: Option<StoreError>)
    requires s.Valid() && !s.recomputeCryptoHash && s.dataNodesDelta == Some(d) && s.bucketTreeDelta == Some(t)
    requires Represents(d, batch) && Recompute(d, map[], db).Ok? && ROOT_KEY in t
    requires s.lastComputedCryptoHash == NodeCryptoHash(t[ROOT_KEY])
    modifies s
    ensures s.Valid() && s.dataNodesDelta.None? && !s.recomputeCryptoHash
    ensures s.persistedStateHash == old(s.lastComputedCryptoHash) && s.lastComputedCryptoHash == old(s.lastComputedCryptoHash)
    ensures var after := Db(Apply(db.kv, writeBatch.ops), db.failing);
      && StoredNode(after, ROOT_KEY) == Some(t[ROOT_KEY])
      && (forall dk | dk in batch :: StateImpl.Get(after, dk) == Ok(batch[dk]))
    ensures reopenErr.Some? <==> ROOT_KEY in laterFailing
    ensures reopenErr.None? ==>
      reopened.persistedStateHash == old(s.lastComputedCryptoHash) && reopened.lastComputedCryptoHash == old(s.lastComputedCryptoHash)
  {
    writeBatch := new WriteBatch();
    var err := s.AddChangesForPersistence(db, writeBatch);
    assert s.dataNodesDelta == Some(d) && s.bucketTreeDelta == Some(t) && !s.recomputeCryptoHash;
    assert PersistedAs(writeBatch.ops, [], d, t);
    PersistedRoot(db.kv, db.failing, [], writeBatch.ops, d, t);
    BatchReadsBack(db, [], writeBatch.ops, batch, d, t);
    s.ClearWorkingSet(true);
    reopened := new StateImpl();
    reopenErr := reopened.Initialize(Db(Apply(db.kv, writeBatch.ops), laterFailing));
  }
}
