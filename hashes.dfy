/**
 * Crypto hashes of buckets and bucket nodes, kept symbolic: a hash is a
 * deterministic, order-sensitive function of its ordered input, here the input
 * itself. EmptyHash is the nil hash that an empty input produces.
 */
module Hashes {
  import opened BucketKeys
  import opened DataNodes

  datatype Hash =
    | EmptyHash
    | LeafHash(nodes: seq<DataNode>)
    | NodeHash(children: map<BucketKey, Hash>)

  /**
   * A bucket node of the tree: the crypto hash held in the slot of each child
   * bucket. A slot holding EmptyHash is a nil child.
   */
  datatype BucketNode = BucketNode(children: map<BucketKey, Hash>)

  const EMPTY_NODE: BucketNode := BucketNode(map[])

  /** The child slots that hold a non-nil hash. */
  function LiveChildren(n: BucketNode): (live: map<BucketKey, Hash>)
    ensures forall c :: c in live <==> c in n.children && n.children[c] != EmptyHash
    ensures forall c | c in live :: live[c] == n.children[c]
  {
    map c | c in n.children && n.children[c] != EmptyHash :: n.children[c]
  }

  /** A node without any non-nil child is deleted rather than stored. */
  predicate MarkedForDeletion(n: BucketNode)
    ensures MarkedForDeletion(n) <==> forall c | c in n.children :: n.children[c] == EmptyHash
  {
    LiveChildren(n) == map[]
  }

  /** bucketNode.computeCryptoHash: nil when no child is live, otherwise a digest of the live slots. */
  function NodeCryptoHash(n: BucketNode): (h: Hash)
    ensures h == EmptyHash <==> MarkedForDeletion(n)
    ensures h != EmptyHash ==> h == NodeHash(LiveChildren(n))
  {
    if MarkedForDeletion(n) then EmptyHash else NodeHash(LiveChildren(n))
  }

  /** bucketHashCalculator.computeCryptoHash over the nodes fed to it: nil when none was fed. */
  function LeafCryptoHash(nodes: seq<DataNode>): (h: Hash)
    ensures h == EmptyHash <==> nodes == []
  {
    if nodes == [] then EmptyHash else LeafHash(nodes)
  }

  /**
   * mergeBucketNode: the slots the delta node has set overlay the stored
   * node's slots; slots the delta never set are inherited from storage.
   */
  function MergeBucketNode(delta: BucketNode, stored: BucketNode): (r: BucketNode)
    ensures r.children.Keys == delta.children.Keys + stored.children.Keys
    ensures forall c | c in delta.children :: r.children[c] == delta.children[c]
    ensures forall c | c in stored.children && c !in delta.children :: r.children[c] == stored.children[c]
  {
    BucketNode(stored.children + delta.children)
  }

  /** A nil slot and a missing slot hash alike: a deleted bucket counts as one never written. */
  lemma NilSlotIsNoSlot(children: map<BucketKey, Hash>, c: BucketKey)
    ensures NodeCryptoHash(BucketNode(children[c := EmptyHash])) == NodeCryptoHash(BucketNode(children - {c}))
  {
    assert LiveChildren(BucketNode(children[c := EmptyHash])) == LiveChildren(BucketNode(children - {c}));
  }

  /**
   * The hash calculator of one data bucket. It records, in order, the nodes
   * fed to it; its digest is a function of that sequence alone.
   */
  class BucketHashCalculator {
    const bucketKey: BucketKey
    var fed: seq<DataNode>

    constructor (bucketKey: BucketKey)
      ensures this.bucketKey == bucketKey && fed == []
    {
      this.bucketKey := bucketKey;
      fed := [];
    }

    method AddNextNode(n: DataNode)
      modifies this
      ensures fed == old(fed) + [n]
    {
      fed := fed + [n];
    }

    function ComputeCryptoHash(): (h: Hash)
      reads this
      ensures h == EmptyHash <==> fed == []
    {
      LeafCryptoHash(fed)
    }
  }
}
