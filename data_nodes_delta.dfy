/**
 * The data-nodes delta built from one mutation batch: the pending data nodes
 * grouped by the data bucket their key hashes to, each group sorted by
 * composite key, and the affected buckets in a fixed order.
 */
module DataNodesDeltas {
  import opened Wrappers
  import opened ByteOrder
  import opened BucketKeys
  import opened DataNodes

  /** A mutation batch: the new value of each written data key, None for a delete. */
  type Batch = map<DataKey, Option<Bytes>>

  /** A data key as the key model produces it: it names a valid data bucket. */
  predicate ValidDataKey(dk: DataKey) {
    dk.bucket.level == LOWEST_LEVEL && ValidKey(dk.bucket)
  }

  datatype DataNodesDelta = DataNodesDelta(buckets: seq<BucketKey>, nodes: map<BucketKey, seq<DataNode>>)

  /**
   * getAffectedBuckets lists every bucket of the delta once; each bucket's
   * nodes (getSortedDataNodesFor) belong to it and are strictly sorted.
   */
  ghost predicate WellFormed(d: DataNodesDelta) {
    && (forall i, j | 0 <= i < j < |d.buckets| :: d.buckets[i] != d.buckets[j])
    && (forall b :: b in d.nodes <==> b in d.buckets)
    && (forall b | b in d.nodes :: b.level == LOWEST_LEVEL && ValidKey(b) && StrictlySorted(d.nodes[b]))
    && (forall b | b in d.nodes :: forall n | n in d.nodes[b] :: n.dataKey.bucket == b)
  }

  /** `d` holds exactly the entries of `batch`, each as one node in its bucket, and no empty bucket. */
  ghost predicate Represents(d: DataNodesDelta, batch: Batch) {
    && WellFormed(d)
    && (forall b | b in d.nodes :: d.nodes[b] != [])
    && (forall b | b in d.nodes :: forall n | n in d.nodes[b] :: n.dataKey in batch && batch[n.dataKey] == n.value)
    && (forall dk | dk in batch :: dk.bucket in d.nodes && DataNode(dk, batch[dk]) in d.nodes[dk.bucket])
  }

  /** The delta after the entries `done` of `batch` have been grouped. */
  ghost predicate Grouped(d: DataNodesDelta, batch: Batch, done: set<DataKey>) {
    && WellFormed(d)
    && (forall b | b in d.nodes :: d.nodes[b] != [])
    && (forall b | b in d.nodes :: forall n | n in d.nodes[b] :: n.dataKey in done && n.dataKey in batch && batch[n.dataKey] == n.value)
    && (forall dk | dk in done :: dk.bucket in d.nodes && dk in batch && DataNode(dk, batch[dk]) in d.nodes[dk.bucket])
  }

  /** One entry added to its bucket: a new bucket goes last, an existing group takes it in key order. */
  function AddNode(d: DataNodesDelta, n: DataNode): (r: DataNodesDelta)
    requires n.dataKey.bucket in d.nodes ==> StrictlySorted(d.nodes[n.dataKey.bucket]) && !HasKey(d.nodes[n.dataKey.bucket], n.Key())
    ensures r.nodes.Keys == d.nodes.Keys + {n.dataKey.bucket}
    ensures forall b | b in d.nodes && b != n.dataKey.bucket :: r.nodes[b] == d.nodes[b]
    ensures StrictlySorted(r.nodes[n.dataKey.bucket])
    ensures forall m :: m in r.nodes[n.dataKey.bucket] <==> m == n || (n.dataKey.bucket in d.nodes && m in d.nodes[n.dataKey.bucket])
  {
    var b := n.dataKey.bucket;
    if b in d.nodes then DataNodesDelta(d.buckets, d.nodes[b := Insert(d.nodes[b], n)])
    else DataNodesDelta(d.buckets + [b], d.nodes[b := [n]])
  }

  lemma AddNodeWellFormed(d: DataNodesDelta, n: DataNode)
    requires WellFormed(d) && ValidDataKey(n.dataKey)
    requires n.dataKey.bucket in d.nodes ==> !HasKey(d.nodes[n.dataKey.bucket], n.Key())
    ensures WellFormed(AddNode(d, n))
  {
    var r := AddNode(d, n);
    var b := n.dataKey.bucket;
    if b !in d.nodes {
      forall i, j | 0 <= i < j < |r.buckets| ensures r.buckets[i] != r.buckets[j] {
        if j == |d.buckets| {
          assert r.buckets[i] == d.buckets[i];
        } else {
          assert r.buckets[i] == d.buckets[i] && r.buckets[j] == d.buckets[j];
        }
      }
    }
  }

  lemma AddNodeGrouped(d: DataNodesDelta, batch: Batch, done: set<DataKey>, dk: DataKey)
    requires Grouped(d, batch, done) && dk in batch && dk !in done && ValidDataKey(dk)
    ensures dk.bucket in d.nodes ==> StrictlySorted(d.nodes[dk.bucket]) && !HasKey(d.nodes[dk.bucket], dk.compositeKey)
    ensures Grouped(AddNode(d, DataNode(dk, batch[dk])), batch, done + {dk})
  {
    var n := DataNode(dk, batch[dk]);
    var b := dk.bucket;
    if b in d.nodes {
      forall m | m in d.nodes[b] ensures m.Key() != n.Key() {
        assert m.dataKey in done && m.dataKey.bucket == b;
      }
    }
    AddNodeWellFormed(d, n);
  }

  /** newDataNodesDelta: groups the batch by bucket, sorting each group as it is filled. */
  method NewDataNodesDelta(batch: Batch) returns (d: DataNodesDelta)
    requires forall dk | dk in batch :: ValidDataKey(dk)
    ensures Represents(d, batch)
  {
    var pending := batch.Keys;
    d := DataNodesDelta([], map[]);
    ghost var done: set<DataKey> := {};
    while pending != {}
      invariant pending <= batch.Keys && done == batch.Keys - pending
      invariant Grouped(d, batch, done)
      decreases pending
    {
      var dk :| dk in pending;
      AddNodeGrouped(d, batch, done, dk);
      d := AddNode(d, DataNode(dk, batch[dk]));
      pending := pending - {dk};
      done := done + {dk};
    }
    GroupedAll(d, batch);
  }

  lemma GroupedAll(d: DataNodesDelta, batch: Batch)
    requires Grouped(d, batch, batch.Keys)
    ensures Represents(d, batch)
  {
  }

  /** A non-empty batch affects at least one bucket. */
  lemma NonEmptyBatchAffectsBucket(d: DataNodesDelta, batch: Batch)
    requires Represents(d, batch) && batch != map[]
    ensures |d.buckets| > 0
  {
    var dk :| dk in batch;
    assert dk.bucket in d.buckets;
  }

  /**
   * The nodes of a delta are determined by its batch: two deltas of the same
   * batch differ at most in the order of their affected buckets.
   */
  lemma NodesDetermined(d1: DataNodesDelta, d2: DataNodesDelta, batch: Batch)
    requires Represents(d1, batch) && Represents(d2, batch)
    ensures d1.nodes == d2.nodes
    ensures forall b :: b in d1.buckets <==> b in d2.buckets
  {
    forall b | b in d1.nodes ensures b in d2.nodes {
      var n := d1.nodes[b][0];
      assert n in d1.nodes[b];
    }
    forall b | b in d2.nodes ensures b in d1.nodes {
      var n := d2.nodes[b][0];
      assert n in d2.nodes[b];
    }
    forall b | b in d1.nodes ensures d1.nodes[b] == d2.nodes[b] {
      forall n ensures n in d1.nodes[b] <==> n in d2.nodes[b] {
        if n in d1.nodes[b] {
          assert n == DataNode(n.dataKey, batch[n.dataKey]);
        }
        if n in d2.nodes[b] {
          assert n == DataNode(n.dataKey, batch[n.dataKey]);
        }
      }
      SortedUnique(d1.nodes[b], d2.nodes[b]);
    }
  }
}
