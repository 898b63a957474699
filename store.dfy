/**
 * The persistent key-value store the state engine reads from and the write
 * batch it fills. Data nodes and bucket nodes share one key space, told apart
 * by the key's kind. Reads of a bucket listed in `failing` fail, which stands
 * for the store's I/O errors.
 */
module Store {
  import opened Wrappers
  import opened ByteOrder
  import opened BucketKeys
  import opened DataNodes
  import opened Hashes

  datatype StoreKey = DataEntry(dataKey: DataKey) | NodeEntry(bucketKey: BucketKey)

  /** A stored value: raw data bytes, or a marshalled bucket node. */
  datatype StoreValue = DataValue(bytes: Bytes) | NodeValue(node: BucketNode)

  type Kv = map<StoreKey, StoreValue>

  datatype Db = Db(kv: Kv, failing: set<BucketKey>)

  datatype StoreError = ReadFailed

  datatype WriteOp = Put(key: StoreKey, value: StoreValue) | Delete(key: StoreKey)

  function Lookup(kv: Kv, key: StoreKey): Option<StoreValue> {
    if key in kv then Some(kv[key]) else None
  }

  function ApplyOp(kv: Kv, op: WriteOp): Kv {
    match op
    case Put(k, v) => kv[k := v]
    case Delete(k) => kv - {k}
  }

  /** The store after writing the batch `ops` in order. */
  function Apply(kv: Kv, ops: seq<WriteOp>): Kv
    decreases |ops|
  {
    if ops == [] then kv else ApplyOp(Apply(kv, ops[..|ops| - 1]), ops[|ops| - 1])
  }

  /** The last operation of `ops` on `key`, if any. */
  function LastOn(ops: seq<WriteOp>, key: StoreKey): Option<WriteOp>
    decreases |ops|
  {
    if ops == [] then None
    else if ops[|ops| - 1].key == key then Some(ops[|ops| - 1])
    else LastOn(ops[..|ops| - 1], key)
  }

  /** What a key holds after an operation, given what it held before. */
  function Effect(last: Option<WriteOp>, before: Option<StoreValue>): Option<StoreValue> {
    match last
    case None => before
    case Some(Put(_, v)) => Some(v)
    case Some(Delete(_)) => None
  }

  /** After a batch is written, a key holds what the batch's last operation on it left there. */
  lemma {:induction false} ApplyByLastOp(kv: Kv, ops: seq<WriteOp>, key: StoreKey)
    ensures Lookup(Apply(kv, ops), key) == Effect(LastOn(ops, key), Lookup(kv, key))
    decreases |ops|
  {
    if ops != [] {
      ApplyByLastOp(kv, ops[..|ops| - 1], key);
    }
  }

  /** Writing two batches one after the other is writing their concatenation. */
  lemma {:induction false} ApplyConcat(kv: Kv, a: seq<WriteOp>, b: seq<WriteOp>)
    ensures Apply(kv, a + b) == Apply(Apply(kv, a), b)
    decreases |b|
  {
    if b == [] {
      assert a + b == a;
    } else {
      assert (a + b)[..|a + b| - 1] == a + b[..|b| - 1];
      ApplyConcat(kv, a, b[..|b| - 1]);
    }
  }

  /** fetchBucketNodeFromDB without the I/O failure: the stored node, if any. */
  function StoredNode(db: Db, k: BucketKey): Option<BucketNode> {
    var key := NodeEntry(k);
    if key in db.kv && db.kv[key].NodeValue? then Some(db.kv[key].node) else None
  }

  /** fetchBucketNodeFromDB. */
  function FetchBucketNode(db: Db, k: BucketKey): (r: Result<Option<BucketNode>, StoreError>)
    ensures r.Err? <==> k in db.failing
    ensures r.Ok? ==> r.value == StoredNode(db, k)
  {
    if k in db.failing then Err(ReadFailed) else Ok(StoredNode(db, k))
  }

  /** fetchDataNodeFromDB: the point lookup of one data key. */
  function FetchDataNode(db: Db, dk: DataKey): (r: Result<Option<DataNode>, StoreError>)
    ensures r.Err? <==> dk.bucket in db.failing
    ensures r.Ok? && r.value.Some? ==> r.value.value.dataKey == dk && !r.value.value.IsDelete()
    ensures r.Ok? ==> (r.value.Some? <==> DataEntry(dk) in db.kv && db.kv[DataEntry(dk)].DataValue?)
  {
    var key := DataEntry(dk);
    if dk.bucket in db.failing then Err(ReadFailed)
    else if key in db.kv && db.kv[key].DataValue? then Ok(Some(DataNode(dk, Some(db.kv[key].bytes))))
    else Ok(None)
  }

  /** `key` stores a data value of bucket `b`. */
  predicate IsDataEntryOf(kv: Kv, key: StoreKey, b: BucketKey) {
    key in kv && key.DataEntry? && key.dataKey.bucket == b && kv[key].DataValue?
  }

  function DataEntriesOf(kv: Kv, b: BucketKey): set<StoreKey> {
    set key | key in kv.Keys && IsDataEntryOf(kv, key, b)
  }

  function NodeOfEntry(kv: Kv, key: StoreKey): DataNode
    requires key in kv && key.DataEntry? && kv[key].DataValue?
  {
    DataNode(key.dataKey, Some(kv[key].bytes))
  }

  /** The data nodes stored for the entries `keys` of bucket `b`. */
  ghost function NodesOfEntries(kv: Kv, keys: set<StoreKey>, b: BucketKey): set<DataNode> {
    set key | key in keys && IsDataEntryOf(kv, key, b) :: NodeOfEntry(kv, key)
  }

  lemma NodesOfEntriesDistinct(kv: Kv, keys: set<StoreKey>, b: BucketKey)
    ensures DistinctKeys(NodesOfEntries(kv, keys, b))
  {
    forall x, y | x in NodesOfEntries(kv, keys, b) && y in NodesOfEntries(kv, keys, b) && x.Key() == y.Key()
      ensures x == y
    {
      var kx :| kx in keys && IsDataEntryOf(kv, kx, b) && x == NodeOfEntry(kv, kx);
      var ky :| ky in keys && IsDataEntryOf(kv, ky, b) && y == NodeOfEntry(kv, ky);
      assert kx == DataEntry(kx.dataKey) && ky == DataEntry(ky.dataKey);
    }
  }

  /** The persisted data nodes of bucket `b`. */
  ghost function PersistedNodes(kv: Kv, b: BucketKey): set<DataNode> {
    NodesOfEntries(kv, DataEntriesOf(kv, b), b)
  }

  /** What fetchDataNodesFromDBFor returns: the persisted nodes of `b`, sorted by composite key. */
  ghost function Listing(kv: Kv, b: BucketKey): (r: seq<DataNode>)
    ensures StrictlySorted(r)
    ensures forall n :: n in r <==> n in PersistedNodes(kv, b)
  {
    NodesOfEntriesDistinct(kv, DataEntriesOf(kv, b), b);
    SortOf(PersistedNodes(kv, b))
  }

  /** fetchDataNodesFromDBFor: the range scan of one data bucket, in composite-key order. */
  method FetchDataNodes(db: Db, b: BucketKey) returns (r: Result<seq<DataNode>, StoreError>)
    ensures b in db.failing ==> r == Err(ReadFailed)
    ensures b !in db.failing ==> r == Ok(Listing(db.kv, b))
  {
    if b in db.failing {
      return Err(ReadFailed);
    }
    var pending := DataEntriesOf(db.kv, b);
    var nodes: seq<DataNode> := [];
    ghost var done: set<StoreKey> := {};
    while pending != {}
      invariant pending <= DataEntriesOf(db.kv, b) && done == DataEntriesOf(db.kv, b) - pending
      invariant StrictlySorted(nodes)
      invariant forall n :: n in nodes <==> n in NodesOfEntries(db.kv, done, b)
      decreases pending
    {
      var key :| key in pending;
      var n := NodeOfEntry(db.kv, key);
      assert !HasKey(nodes, n.Key()) by {
        forall m | m in nodes ensures m.Key() != n.Key() {
          var km :| km in done && IsDataEntryOf(db.kv, km, b) && m == NodeOfEntry(db.kv, km);
          assert km == DataEntry(km.dataKey) && key == DataEntry(key.dataKey);
        }
      }
      nodes := Insert(nodes, n);
      pending := pending - {key};
      done := done + {key};
    }
    SortedUnique(nodes, Listing(db.kv, b));
    r := Ok(nodes);
  }

  /** The write batch that the state engine fills; the caller commits it atomically. */
  class WriteBatch {
    var ops: seq<WriteOp>

    constructor ()
      ensures ops == []
    {
      ops := [];
    }

    method PutCF(key: StoreKey, value: StoreValue)
      modifies this
      ensures ops == old(ops) + [Put(key, value)]
    {
      ops := ops + [Put(key, value)];
    }

    method DeleteCF(key: StoreKey)
      modifies this
      ensures ops == old(ops) + [Delete(key)]
    {
      ops := ops + [Delete(key)];
    }
  }
}
