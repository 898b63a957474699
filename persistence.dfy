/**
 * The write-batch operations AddChangesForPersistence appends, as functions
 * of the data-nodes delta and the bucket-tree delta, and what the batch does
 * to the store once it is written.
 */
module Persistence {
  import opened Wrappers
  import opened ByteOrder
  import opened BucketKeys
  import opened DataNodes
  import opened Hashes
  import opened Store
  import opened DataNodesDeltas
  import opened TreeDelta

  /** The operation written for one pending data node: a delete for a tombstone, otherwise a put. */
  function DataOp(n: DataNode): (op: WriteOp)
    ensures op.key == DataEntry(n.dataKey)
    ensures op.Delete? <==> n.IsDelete()
  {
    if n.IsDelete() then Delete(DataEntry(n.dataKey)) else Put(DataEntry(n.dataKey), DataValue(n.value.value))
  }

  /** The operations for the nodes of one bucket, in their sorted order. */
  function NodesOps(ns: seq<DataNode>): seq<WriteOp>
    decreases |ns|
  {
    if ns == [] then [] else NodesOps(ns[..|ns| - 1]) + [DataOp(ns[|ns| - 1])]
  }

  /** The operations for the buckets `bs`, one bucket after the other. */
  function BucketsOps(nodes: map<BucketKey, seq<DataNode>>, bs: seq<BucketKey>): seq<WriteOp>
    decreases |bs|
  {
    if bs == [] then []
    else
      var b := bs[|bs| - 1];
      BucketsOps(nodes, bs[..|bs| - 1]) + (if b in nodes then NodesOps(nodes[b]) else [])
  }

  /** addDataNodeChangesForPersistence: the affected buckets in order, each bucket's nodes in order. */
  function DataOps(d: DataNodesDelta): seq<WriteOp> {
    BucketsOps(d.nodes, d.buckets)
  }

  /**
   * addBucketNodeChangesForPersistence for one node: a delete when the node
   * is marked for deletion, a put otherwise, then an unconditional put.
   */
  function NodeOpsFor(k: BucketKey, n: BucketNode): (ops: seq<WriteOp>)
    ensures |ops| == 2 && ops[1] == Put(NodeEntry(k), NodeValue(n))
    ensures ops[0] == if MarkedForDeletion(n) then Delete(NodeEntry(k)) else Put(NodeEntry(k), NodeValue(n))
  {
    (if MarkedForDeletion(n) then [Delete(NodeEntry(k))] else [Put(NodeEntry(k), NodeValue(n))])
      + [Put(NodeEntry(k), NodeValue(n))]
  }

  /** The operations for the tree nodes visited in `order`. */
  function TreeOps(t: Tree, order: seq<BucketKey>): seq<WriteOp>
    decreases |order|
  {
    if order == [] then []
    else
      var k := order[|order| - 1];
      TreeOps(t, order[..|order| - 1]) + (if k in t then NodeOpsFor(k, t[k]) else [])
  }

  /**
   * A visiting order of addBucketNodeChangesForPersistence: every touched
   * node above the data level once, level by level from LOWEST_LEVEL - 1 down
   * to the root; the order within a level is the delta's.
   */
  ghost predicate LevelOrder(t: Tree, order: seq<BucketKey>) {
    && (forall i, j | 0 <= i < j < |order| :: order[i] != order[j])
    && (forall k :: k in order <==> k in t && k.level < LOWEST_LEVEL)
    && (forall i, j | 0 <= i < j < |order| :: order[i].level >= order[j].level)
  }

  /**
   * The nodes visited so far by addBucketNodeChangesForPersistence while it
   * is at `level`: every touched node above `level`, then the nodes `done`
   * of `level`, each once, levels never increasing.
   */
  ghost predicate VisitedUpTo(t: Tree, order: seq<BucketKey>, level: int, done: set<BucketKey>) {
    && (forall i, j | 0 <= i < j < |order| :: order[i] != order[j])
    && (forall k :: k in order <==> k in t && (level < k.level < LOWEST_LEVEL || k in done))
    && (forall i, j | 0 <= i < j < |order| :: order[i].level >= order[j].level)
    && (forall i | 0 <= i < |order| :: order[i].level >= level)
  }

  lemma VisitedStart(t: Tree)
    ensures VisitedUpTo(t, [], LOWEST_LEVEL - 1, {})
  {
  }

  lemma VisitedAppend(t: Tree, order: seq<BucketKey>, level: nat, done: set<BucketKey>, k: BucketKey)
    requires VisitedUpTo(t, order, level, done) && k in t && k.level == level && k !in done
    ensures VisitedUpTo(t, order + [k], level, done + {k})
  {
    var r := order + [k];
    assert k !in order;
    forall i, j | 0 <= i < j < |r| ensures r[i] != r[j] && r[i].level >= r[j].level {
      if j == |order| {
        assert r[i] == order[i];
      } else {
        assert r[i] == order[i] && r[j] == order[j];
      }
    }
    forall x ensures x in r <==> x in t && (level < x.level < LOWEST_LEVEL || x in done + {k}) {
      assert x in r <==> x in order || x == k;
    }
    forall i | 0 <= i < |r| ensures r[i].level >= level {
      if i < |order| {
        assert r[i] == order[i];
      }
    }
  }

  lemma VisitedLevel(t: Tree, order: seq<BucketKey>, level: nat)
    requires level < LOWEST_LEVEL
    requires VisitedUpTo(t, order, level, LevelKeys(t, level))
    ensures VisitedUpTo(t, order, level - 1, {})
  {
    forall k ensures k in order <==> k in t && level - 1 < k.level < LOWEST_LEVEL {
      assert k in LevelKeys(t, level) <==> k in t && k.level == level;
    }
  }

  lemma VisitedAll(t: Tree, order: seq<BucketKey>)
    requires VisitedUpTo(t, order, -1, {})
    ensures LevelOrder(t, order)
  {
  }

  /** The batch after the two operations written for one more bucket node. */
  lemma TreeOpsSnoc(ops0: seq<WriteOp>, t: Tree, order: seq<BucketKey>, k: BucketKey)
    requires k in t
    ensures var n := NodeOpsFor(k, t[k]);
      ops0 + TreeOps(t, order + [k]) == ops0 + TreeOps(t, order) + [n[0]] + [n[1]]
  {
    var n := NodeOpsFor(k, t[k]);
    assert (order + [k])[..|order|] == order;
    assert n == [n[0]] + [n[1]];
  }

  /** The batch after the operation written for one more data node of the current bucket. */
  lemma NodesOpsSnoc(pre: seq<WriteOp>, ns: seq<DataNode>, k: nat)
    requires k < |ns|
    ensures pre + NodesOps(ns[..k + 1]) == pre + NodesOps(ns[..k]) + [DataOp(ns[k])]
  {
    assert ns[..k + 1][..k] == ns[..k];
  }

  /** The batch once every node of one more bucket is written. */
  lemma BucketsOpsSnoc(ops0: seq<WriteOp>, nodes: map<BucketKey, seq<DataNode>>, bs: seq<BucketKey>, i: nat)
    requires i < |bs| && bs[i] in nodes
    ensures ops0 + BucketsOps(nodes, bs[..i + 1]) == ops0 + BucketsOps(nodes, bs[..i]) + NodesOps(nodes[bs[i]])
  {
    assert bs[..i + 1][..i] == bs[..i];
    assert nodes[bs[i]][..|nodes[bs[i]]|] == nodes[bs[i]];
  }

  /** The operations of `ops` on `key`, in order. */
  function OpsOn(ops: seq<WriteOp>, key: StoreKey): (r: seq<WriteOp>)
    ensures forall op | op in r :: op in ops && op.key == key
    decreases |ops|
  {
    if ops == [] then []
    else OpsOn(ops[..|ops| - 1], key) + (if ops[|ops| - 1].key == key then [ops[|ops| - 1]] else [])
  }

  lemma {:induction false} OpsOnConcat(a: seq<WriteOp>, b: seq<WriteOp>, key: StoreKey)
    ensures OpsOn(a + b, key) == OpsOn(a, key) + OpsOn(b, key)
    decreases |b|
  {
    if b == [] {
      assert a + b == a;
    } else {
      assert (a + b)[..|a + b| - 1] == a + b[..|b| - 1];
      OpsOnConcat(a, b[..|b| - 1], key);
    }
  }

  /** The last operation on a key is the last of its operations. */
  lemma {:induction false} LastOnIsLastOfOpsOn(ops: seq<WriteOp>, key: StoreKey)
    ensures OpsOn(ops, key) == [] ==> LastOn(ops, key) == None
    ensures OpsOn(ops, key) != [] ==> LastOn(ops, key) == Some(OpsOn(ops, key)[|OpsOn(ops, key)| - 1])
    decreases |ops|
  {
    if ops != [] {
      LastOnIsLastOfOpsOn(ops[..|ops| - 1], key);
    }
  }

  /** No two nodes of the sequence share a data key. */
  predicate DistinctDataKeys(ns: seq<DataNode>) {
    forall i, j | 0 <= i < j < |ns| :: ns[i].dataKey != ns[j].dataKey
  }

  lemma SortedDistinct(ns: seq<DataNode>)
    requires StrictlySorted(ns)
    ensures DistinctDataKeys(ns)
  {
    forall i, j | 0 <= i < j < |ns| ensures ns[i].dataKey != ns[j].dataKey {
      Trichotomy(ns[i].Key(), ns[j].Key());
    }
  }

  lemma {:induction false} NodesOpsOnOther(ns: seq<DataNode>, key: StoreKey)
    requires forall n | n in ns :: DataEntry(n.dataKey) != key
    ensures OpsOn(NodesOps(ns), key) == []
    decreases |ns|
  {
    if ns != [] {
      assert ns[|ns| - 1] in ns;
      assert forall n | n in ns[..|ns| - 1] :: n in ns;
      NodesOpsOnOther(ns[..|ns| - 1], key);
      OpsOnConcat(NodesOps(ns[..|ns| - 1]), [DataOp(ns[|ns| - 1])], key);
    }
  }

  /** A node of a bucket with distinct data keys gets exactly one operation. */
  lemma {:induction false} NodesOpsOnMember(ns: seq<DataNode>, n: DataNode)
    requires DistinctDataKeys(ns) && n in ns
    ensures OpsOn(NodesOps(ns), DataEntry(n.dataKey)) == [DataOp(n)]
    decreases |ns|
  {
    var init, last := ns[..|ns| - 1], ns[|ns| - 1];
    assert ns == init + [last];
    OpsOnConcat(NodesOps(init), [DataOp(last)], DataEntry(n.dataKey));
    if last == n {
      forall m | m in init ensures DataEntry(m.dataKey) != DataEntry(n.dataKey) {
        var i :| 0 <= i < |init| && init[i] == m;
        assert ns[i] == m && ns[|ns| - 1] == n;
      }
      NodesOpsOnOther(init, DataEntry(n.dataKey));
    } else {
      assert n in init;
      var i :| 0 <= i < |init| && init[i] == n;
      assert ns[i] == n;
      assert DistinctDataKeys(init) by {
        forall i, j | 0 <= i < j < |init| ensures init[i].dataKey != init[j].dataKey {
          assert init[i] == ns[i] && init[j] == ns[j];
        }
      }
      NodesOpsOnMember(init, n);
    }
  }

  /** The buckets of `bs` each list their own nodes, sorted. */
  ghost predicate OwnBuckets(nodes: map<BucketKey, seq<DataNode>>, bs: seq<BucketKey>) {
    && (forall i, j | 0 <= i < j < |bs| :: bs[i] != bs[j])
    && (forall b | b in bs && b in nodes :: StrictlySorted(nodes[b]))
    && (forall b | b in bs && b in nodes :: forall n | n in nodes[b] :: n.dataKey.bucket == b)
  }

  lemma OwnBucketsPrefix(nodes: map<BucketKey, seq<DataNode>>, bs: seq<BucketKey>)
    requires OwnBuckets(nodes, bs) && bs != []
    ensures OwnBuckets(nodes, bs[..|bs| - 1])
    ensures bs[|bs| - 1] !in bs[..|bs| - 1]
  {
    var init := bs[..|bs| - 1];
    assert forall b | b in init :: b in bs;
    forall i, j | 0 <= i < j < |init| ensures init[i] != init[j] {
      assert init[i] == bs[i] && init[j] == bs[j];
    }
    forall i | 0 <= i < |init| ensures init[i] != bs[|bs| - 1] {
      assert init[i] == bs[i];
    }
  }

  lemma {:induction false} BucketsOpsOnOther(nodes: map<BucketKey, seq<DataNode>>, bs: seq<BucketKey>, key: StoreKey)
    requires forall b, n | b in bs && b in nodes && n in nodes[b] :: DataEntry(n.dataKey) != key
    ensures OpsOn(BucketsOps(nodes, bs), key) == []
    decreases |bs|
  {
    if bs != [] {
      var init, b := bs[..|bs| - 1], bs[|bs| - 1];
      assert b in bs;
      assert forall x | x in init :: x in bs;
      BucketsOpsOnOther(nodes, init, key);
      var tail := if b in nodes then NodesOps(nodes[b]) else [];
      OpsOnConcat(BucketsOps(nodes, init), tail, key);
      if b in nodes {
        NodesOpsOnOther(nodes[b], key);
      }
    }
  }

  /** A pending node gets exactly one operation among all the buckets' operations. */
  lemma {:induction false} BucketsOpsOnMember(nodes: map<BucketKey, seq<DataNode>>, bs: seq<BucketKey>, b: BucketKey, n: DataNode)
    requires OwnBuckets(nodes, bs) && b in bs && b in nodes && n in nodes[b]
    ensures OpsOn(BucketsOps(nodes, bs), DataEntry(n.dataKey)) == [DataOp(n)]
    decreases |bs|
  {
    var init, last := bs[..|bs| - 1], bs[|bs| - 1];
    OwnBucketsPrefix(nodes, bs);
    var key := DataEntry(n.dataKey);
    var tail := if last in nodes then NodesOps(nodes[last]) else [];
    OpsOnConcat(BucketsOps(nodes, init), tail, key);
    assert n.dataKey.bucket == b;
    if last == b {
      forall x, m | x in init && x in nodes && m in nodes[x] ensures DataEntry(m.dataKey) != key {
        assert x in bs;
        assert m.dataKey.bucket == x;
      }
      BucketsOpsOnOther(nodes, init, key);
      SortedDistinct(nodes[b]);
      NodesOpsOnMember(nodes[b], n);
    } else {
      assert b in init;
      BucketsOpsOnMember(nodes, init, b, n);
      if last in nodes {
        forall m | m in nodes[last] ensures DataEntry(m.dataKey) != key {
          assert m.dataKey.bucket == last;
        }
        NodesOpsOnOther(nodes[last], key);
      }
    }
  }

  lemma {:induction false} TreeOpsOnOther(t: Tree, order: seq<BucketKey>, key: StoreKey)
    requires forall k | k in order :: NodeEntry(k) != key
    ensures OpsOn(TreeOps(t, order), key) == []
    decreases |order|
  {
    if order != [] {
      var init, k := order[..|order| - 1], order[|order| - 1];
      assert k in order;
      assert forall x | x in init :: x in order;
      TreeOpsOnOther(t, init, key);
      var tail := if k in t then NodeOpsFor(k, t[k]) else [];
      OpsOnConcat(TreeOps(t, init), tail, key);
      if k in t {
        assert tail == [tail[0]] + [tail[1]];
        OpsOnConcat([tail[0]], [tail[1]], key);
      }
    }
  }

  /** A touched bucket node gets exactly its two operations. */
  lemma {:induction false} TreeOpsOnMember(t: Tree, order: seq<BucketKey>, k: BucketKey)
    requires (forall i, j | 0 <= i < j < |order| :: order[i] != order[j]) && k in order && k in t
    ensures OpsOn(TreeOps(t, order), NodeEntry(k)) == NodeOpsFor(k, t[k])
    decreases |order|
  {
    var init, last := order[..|order| - 1], order[|order| - 1];
    var key := NodeEntry(k);
    forall i, j | 0 <= i < j < |init| ensures init[i] != init[j] {
      assert init[i] == order[i] && init[j] == order[j];
    }
    var tail := if last in t then NodeOpsFor(last, t[last]) else [];
    OpsOnConcat(TreeOps(t, init), tail, key);
    if last in t {
      assert tail == [tail[0]] + [tail[1]];
      OpsOnConcat([tail[0]], [tail[1]], key);
    }
    if last == k {
      forall x | x in init ensures NodeEntry(x) != key {
        var i :| 0 <= i < |init| && init[i] == x;
        assert order[i] == x;
      }
      TreeOpsOnOther(t, init, key);
    } else {
      assert k in init;
      TreeOpsOnMember(t, init, k);
    }
  }

  /** A key the batch has no operation for: neither a pending data node's nor a touched bucket node's. */
  ghost predicate Untouched(d: DataNodesDelta, t: Tree, key: StoreKey) {
    && (key.DataEntry? ==> key.dataKey.bucket !in d.nodes || forall n | n in d.nodes[key.dataKey.bucket] :: n.dataKey != key.dataKey)
    && (key.NodeEntry? ==> key.bucketKey !in t || key.bucketKey.level >= LOWEST_LEVEL)
  }

  /** The whole persistence batch, given the order in which the touched bucket nodes were visited. */
  function PersistOps(d: DataNodesDelta, t: Tree, order: seq<BucketKey>): seq<WriteOp> {
    DataOps(d) + TreeOps(t, order)
  }

  lemma PersistOpsOnData(d: DataNodesDelta, t: Tree, order: seq<BucketKey>, b: BucketKey, n: DataNode)
    requires WellFormed(d) && b in d.nodes && n in d.nodes[b]
    ensures OpsOn(PersistOps(d, t, order), DataEntry(n.dataKey)) == [DataOp(n)]
  {
    OpsOnConcat(DataOps(d), TreeOps(t, order), DataEntry(n.dataKey));
    BucketsOpsOnMember(d.nodes, d.buckets, b, n);
    TreeOpsOnOther(t, order, DataEntry(n.dataKey));
  }

  lemma PersistOpsOnNode(d: DataNodesDelta, t: Tree, order: seq<BucketKey>, k: BucketKey)
    requires LevelOrder(t, order) && k in t && k.level < LOWEST_LEVEL
    ensures OpsOn(PersistOps(d, t, order), NodeEntry(k)) == NodeOpsFor(k, t[k])
  {
    OpsOnConcat(DataOps(d), TreeOps(t, order), NodeEntry(k));
    BucketsOpsOnOther(d.nodes, d.buckets, NodeEntry(k));
    TreeOpsOnMember(t, order, k);
  }

  lemma PersistOpsOnOther(d: DataNodesDelta, t: Tree, order: seq<BucketKey>, key: StoreKey)
    requires WellFormed(d) && LevelOrder(t, order) && Untouched(d, t, key)
    ensures OpsOn(PersistOps(d, t, order), key) == []
  {
    OpsOnConcat(DataOps(d), TreeOps(t, order), key);
    forall b, n | b in d.buckets && b in d.nodes && n in d.nodes[b] ensures DataEntry(n.dataKey) != key {
      assert n.dataKey.bucket == b;
    }
    BucketsOpsOnOther(d.nodes, d.buckets, key);
    TreeOpsOnOther(t, order, key);
  }

  /** What a sequence of writes leaves at a key depends only on its operations on that key. */
  lemma EffectOfOpsOn(kv: Kv, ops: seq<WriteOp>, key: StoreKey)
    ensures OpsOn(ops, key) == [] ==> Lookup(Apply(kv, ops), key) == Lookup(kv, key)
    ensures OpsOn(ops, key) != [] ==> Lookup(Apply(kv, ops), key) == Effect(Some(OpsOn(ops, key)[|OpsOn(ops, key)| - 1]), Lookup(kv, key))
  {
    ApplyByLastOp(kv, ops, key);
    LastOnIsLastOfOpsOn(ops, key);
  }

  /**
   * Once the batch is written, each pending node's key holds its value (or
   * nothing, for a tombstone), each touched bucket node is stored, even one
   * marked for deletion, since the last operation on it is the unconditional
   * put, and every other key keeps what it held.
   */
  lemma PersistEffect(kv: Kv, d: DataNodesDelta, t: Tree, order: seq<BucketKey>)
    requires WellFormed(d) && LevelOrder(t, order)
    ensures forall b, n | b in d.nodes && n in d.nodes[b] ::
      Lookup(Apply(kv, PersistOps(d, t, order)), DataEntry(n.dataKey)) == if n.IsDelete() then None else Some(DataValue(n.value.value))
    ensures forall k | k in t && k.level < LOWEST_LEVEL ::
      Lookup(Apply(kv, PersistOps(d, t, order)), NodeEntry(k)) == Some(NodeValue(t[k]))
    ensures forall key | Untouched(d, t, key) :: Lookup(Apply(kv, PersistOps(d, t, order)), key) == Lookup(kv, key)
  {
    var ops := PersistOps(d, t, order);
    forall b, n | b in d.nodes && n in d.nodes[b]
      ensures Lookup(Apply(kv, ops), DataEntry(n.dataKey)) == if n.IsDelete() then None else Some(DataValue(n.value.value))
    {
      PersistOpsOnData(d, t, order, b, n);
      EffectOfOpsOn(kv, ops, DataEntry(n.dataKey));
    }
    forall k | k in t && k.level < LOWEST_LEVEL ensures Lookup(Apply(kv, ops), NodeEntry(k)) == Some(NodeValue(t[k])) {
      PersistOpsOnNode(d, t, order, k);
      EffectOfOpsOn(kv, ops, NodeEntry(k));
    }
    forall key | Untouched(d, t, key) ensures Lookup(Apply(kv, ops), key) == Lookup(kv, key) {
      PersistOpsOnOther(d, t, order, key);
      EffectOfOpsOn(kv, ops, key);
    }
  }

  /**
   * End to end: after the batch of a delta built from `batch` is written,
   * each written key holds the batch's value, a deleted key holds nothing.
   */
  lemma PersistBatch(kv: Kv, batch: Batch, d: DataNodesDelta, t: Tree, order: seq<BucketKey>)
    requires Represents(d, batch) && LevelOrder(t, order)
    ensures forall dk | dk in batch ::
      Lookup(Apply(kv, PersistOps(d, t, order)), DataEntry(dk)) == if batch[dk].None? then None else Some(DataValue(batch[dk].value))
  {
    PersistEffect(kv, d, t, order);
    forall dk | dk in batch
      ensures Lookup(Apply(kv, PersistOps(d, t, order)), DataEntry(dk)) == if batch[dk].None? then None else Some(DataValue(batch[dk].value))
    {
      assert DataNode(dk, batch[dk]) in d.nodes[dk.bucket];
    }
  }
}
