/**
 * The bucket-tree delta: the bucket nodes touched during one recomputation,
 * keyed by bucket key, and the order-free meaning of the level-by-level
 * propagation that processBucketTreeDelta performs on it.
 */
module TreeDelta {
  import opened Wrappers
  import opened BucketKeys
  import opened Hashes
  import opened Store

  type Tree = map<BucketKey, BucketNode>

  /** Every touched node is a valid bucket above the data level. */
  predicate ValidTree(t: Tree) {
    forall k | k in t :: ValidKey(k) && k.level < LOWEST_LEVEL
  }

  /** getOrCreateBucketNode: the node in the delta, or a fresh node without children. */
  function NodeOrEmpty(t: Tree, p: BucketKey): (n: BucketNode)
    ensures p in t ==> n == t[p]
    ensures p !in t ==> n.children == map[]
  {
    if p in t then t[p] else EMPTY_NODE
  }

  /** getOrCreateBucketNode(parent).setChildCryptoHash(child, h). */
  function SetChild(t: Tree, c: BucketKey, h: Hash): (r: Tree)
    requires c.level > 0
    ensures r.Keys == t.Keys + {ParentKey(c)}
    ensures r[ParentKey(c)].children == NodeOrEmpty(t, ParentKey(c)).children[c := h]
    ensures forall k | k in t && k != ParentKey(c) :: r[k] == t[k]
  {
    t[ParentKey(c) := BucketNode(NodeOrEmpty(t, ParentKey(c)).children[c := h])]
  }

  /** Setting the slot of a valid non-root key keeps the tree valid. */
  lemma SetChildValid(t: Tree, c: BucketKey, h: Hash)
    requires ValidTree(t) && ValidKey(c) && c.level > 0
    ensures ValidTree(SetChild(t, c, h))
  {
    ParentKeyValid(c);
  }

  predicate NonRoot(s: set<BucketKey>) {
    forall c | c in s :: c.level > 0
  }

  function ParentsOf(cs: set<BucketKey>): set<BucketKey>
    requires NonRoot(cs)
  {
    set c | c in cs :: ParentKey(c)
  }

  /** The hashes of `hs` whose child sits under `p`. */
  function SlotsUnder(hs: map<BucketKey, Hash>, p: BucketKey): map<BucketKey, Hash>
    requires NonRoot(hs.Keys)
  {
    map c | c in hs && ParentKey(c) == p :: hs[c]
  }

  /** The tree after each child `c` of `hs` had its hash `hs[c]` written into its parent's slot. */
  function WithChildHashes(t: Tree, hs: map<BucketKey, Hash>): Tree
    requires NonRoot(hs.Keys)
  {
    map p | p in t.Keys + ParentsOf(hs.Keys) :: BucketNode(NodeOrEmpty(t, p).children + SlotsUnder(hs, p))
  }

  lemma ParentsOfStep(cs: set<BucketKey>, c: BucketKey)
    requires NonRoot(cs) && c.level > 0
    ensures ParentsOf(cs + {c}) == ParentsOf(cs) + {ParentKey(c)}
  {
    forall p | p in ParentsOf(cs + {c}) ensures p in ParentsOf(cs) + {ParentKey(c)} {
      var d :| d in cs + {c} && ParentKey(d) == p;
      if d != c {
        assert p in ParentsOf(cs);
      }
    }
  }

  lemma SlotsUnderStep(hs: map<BucketKey, Hash>, c: BucketKey, h: Hash, p: BucketKey)
    requires NonRoot(hs.Keys) && c.level > 0
    ensures SlotsUnder(hs[c := h], p) == if p == ParentKey(c) then SlotsUnder(hs, p)[c := h] else SlotsUnder(hs, p)
  {
  }

  lemma SlotsUnderNonParent(hs: map<BucketKey, Hash>, p: BucketKey)
    requires NonRoot(hs.Keys) && p !in ParentsOf(hs.Keys)
    ensures SlotsUnder(hs, p) == map[]
  {
    forall d | d in hs ensures ParentKey(d) != p {
      assert ParentKey(d) in ParentsOf(hs.Keys);
    }
  }

  lemma WithChildHashesAt(t: Tree, hs: map<BucketKey, Hash>, p: BucketKey)
    requires NonRoot(hs.Keys) && p in t.Keys + ParentsOf(hs.Keys)
    ensures WithChildHashes(t, hs)[p] == BucketNode(NodeOrEmpty(t, p).children + SlotsUnder(hs, p))
  {
  }

  lemma WithChildHashesAfter(t: Tree, hs: map<BucketKey, Hash>, c: BucketKey, h: Hash, p: BucketKey)
    requires NonRoot(hs.Keys) && c.level > 0
    requires p in t.Keys + ParentsOf(hs.Keys) + {ParentKey(c)}
    ensures WithChildHashes(t, hs[c := h])[p] == BucketNode(NodeOrEmpty(t, p).children + SlotsUnder(hs[c := h], p))
  {
    ParentsOfStep(hs.Keys, c);
    assert (hs[c := h]).Keys == hs.Keys + {c};
    WithChildHashesAt(t, hs[c := h], p);
  }

  /** Updating the right operand of a map union updates the union. */
  lemma UnionUpdate<K, V>(a: map<K, V>, b: map<K, V>, c: K, h: V)
    ensures (a + b)[c := h] == a + b[c := h]
  {
  }

  lemma WithChildHashesStepParent(t: Tree, hs: map<BucketKey, Hash>, c: BucketKey, h: Hash)
    requires NonRoot(hs.Keys) && c.level > 0 && c !in hs
    ensures WithChildHashes(t, hs[c := h])[ParentKey(c)] == SetChild(WithChildHashes(t, hs), c, h)[ParentKey(c)]
  {
    var p := ParentKey(c);
    var w := WithChildHashes(t, hs);
    var base := NodeOrEmpty(t, p).children;
    WithChildHashesAfter(t, hs, c, h, p);
    SlotsUnderStep(hs, c, h, p);
    assert NodeOrEmpty(w, p).children == base + SlotsUnder(hs, p) by {
      if p in w {
        WithChildHashesAt(t, hs, p);
      } else {
        SlotsUnderNonParent(hs, p);
      }
    }
    UnionUpdate(base, SlotsUnder(hs, p), c, h);
  }

  lemma WithChildHashesStepOther(t: Tree, hs: map<BucketKey, Hash>, c: BucketKey, h: Hash, p: BucketKey)
    requires NonRoot(hs.Keys) && c.level > 0 && c !in hs
    requires p in t.Keys + ParentsOf(hs.Keys) && p != ParentKey(c)
    ensures WithChildHashes(t, hs[c := h])[p] == SetChild(WithChildHashes(t, hs), c, h)[p]
  {
    WithChildHashesAfter(t, hs, c, h, p);
    SlotsUnderStep(hs, c, h, p);
    WithChildHashesAt(t, hs, p);
  }

  lemma WithChildHashesStepKeys(t: Tree, hs: map<BucketKey, Hash>, c: BucketKey, h: Hash)
    requires NonRoot(hs.Keys) && c.level > 0
    ensures WithChildHashes(t, hs[c := h]).Keys == WithChildHashes(t, hs).Keys + {ParentKey(c)}
  {
    assert (hs[c := h]).Keys == hs.Keys + {c};
    ParentsOfStep(hs.Keys, c);
  }

  /** Writing one more child hash is one more setChildCryptoHash. */
  lemma WithChildHashesStep(t: Tree, hs: map<BucketKey, Hash>, c: BucketKey, h: Hash)
    requires NonRoot(hs.Keys) && c.level > 0 && c !in hs
    ensures WithChildHashes(t, hs[c := h]) == SetChild(WithChildHashes(t, hs), c, h)
  {
    var lhs, rhs := WithChildHashes(t, hs[c := h]), SetChild(WithChildHashes(t, hs), c, h);
    WithChildHashesStepKeys(t, hs, c, h);
    forall p | p in lhs ensures lhs[p] == rhs[p] {
      if p == ParentKey(c) {
        WithChildHashesStepParent(t, hs, c, h);
      } else {
        WithChildHashesStepOther(t, hs, c, h, p);
      }
    }
  }

  lemma WithChildHashesUpdateAt(t: Tree, hs: map<BucketKey, Hash>, k: BucketKey, v: BucketNode, p: BucketKey)
    requires NonRoot(hs.Keys) && k !in ParentsOf(hs.Keys)
    requires p in (t.Keys + {k}) + ParentsOf(hs.Keys)
    ensures WithChildHashes(t[k := v], hs)[p] == WithChildHashes(t, hs)[k := v][p]
  {
    WithChildHashesAt(t[k := v], hs, p);
    if p == k {
      SlotsUnderNonParent(hs, k);
      assert v.children + map[] == v.children;
    } else {
      WithChildHashesAt(t, hs, p);
    }
  }

  /** Replacing a node that is nobody's parent commutes with writing child hashes. */
  lemma WithChildHashesUpdate(t: Tree, hs: map<BucketKey, Hash>, k: BucketKey, v: BucketNode)
    requires NonRoot(hs.Keys) && k !in ParentsOf(hs.Keys)
    ensures WithChildHashes(t[k := v], hs) == WithChildHashes(t, hs)[k := v]
  {
    var lhs, rhs := WithChildHashes(t[k := v], hs), WithChildHashes(t, hs)[k := v];
    assert (t[k := v]).Keys == t.Keys + {k};
    assert lhs.Keys == rhs.Keys;
    forall p | p in lhs ensures lhs[p] == rhs[p] {
      WithChildHashesUpdateAt(t, hs, k, v, p);
    }
  }

  function LevelKeys(t: Tree, l: nat): set<BucketKey> {
    set k | k in t.Keys && k.level == l
  }

  /** A delta node merged with its stored version, when the store holds one. */
  function MergeStored(n: BucketNode, stored: Option<BucketNode>): BucketNode {
    if stored.Some? then MergeBucketNode(n, stored.value) else n
  }

  /** The nodes of `s` merged with their stored versions, the others left as they are. */
  function MergedOn(t: Tree, db: Db, s: set<BucketKey>): Tree {
    map k | k in t :: if k in s then MergeStored(t[k], StoredNode(db, k)) else t[k]
  }

  function HashesOn(m: Tree, s: set<BucketKey>): map<BucketKey, Hash> {
    map k | k in s && k in m :: NodeCryptoHash(m[k])
  }

  /**
   * The effect of processing the nodes `s` of one level, in any order: each
   * is merged with its stored version and its hash written into its parent.
   */
  function PartialLevel(t: Tree, db: Db, s: set<BucketKey>): Tree
    requires NonRoot(s)
  {
    var m := MergedOn(t, db, s);
    WithChildHashes(m, HashesOn(m, s))
  }

  /** One pass of processBucketTreeDelta's loop at a level above the root. */
  function LevelResult(t: Tree, db: Db, l: nat): (r: Tree)
    requires l > 0
    ensures t.Keys <= r.Keys
  {
    PartialLevel(t, db, LevelKeys(t, l))
  }

  /**
   * processBucketTreeDelta from level `l` down: a level whose nodes include a
   * failing read fails; otherwise it is processed and then the level below.
   * At level 0 the root is merged and nothing is propagated further.
   */
  function Propagate(t: Tree, db: Db, l: nat): (r: Result<Tree, StoreError>)
    ensures r.Ok? ==> t.Keys <= r.value.Keys
    decreases l, 1
  {
    if l == 0 then
      if ROOT_KEY !in t then Ok(t)
      else if ROOT_KEY in db.failing then Err(ReadFailed)
      else Ok(t[ROOT_KEY := MergeStored(t[ROOT_KEY], StoredNode(db, ROOT_KEY))])
    else if LevelKeys(t, l) * db.failing != {} then Err(ReadFailed)
    else PropagateBelow(LevelResult(t, db, l), db, l)
  }

  /** The propagation continued below level `l` once that level's pass is done. */
  function PropagateBelow(t1: Tree, db: Db, l: nat): (r: Result<Tree, StoreError>)
    requires l > 0
    ensures r.Ok? ==> t1.Keys <= r.value.Keys
    decreases l, 0
  {
    Propagate(t1, db, l - 1)
  }

  /** A successful propagation from level `l > 0` is its level pass followed by the propagation below. */
  lemma PropagateStep(t: Tree, db: Db, l: nat)
    requires l > 0 && Propagate(t, db, l).Ok?
    ensures Propagate(t, db, l) == Propagate(LevelResult(t, db, l), db, l - 1)
  {
  }

  /** A failed read of any node of the level being processed fails the propagation. */
  lemma PropagateFailsAt(t: Tree, db: Db, l: nat, k: BucketKey)
    requires ValidTree(t) && k in LevelKeys(t, l) && k in db.failing
    ensures Propagate(t, db, l) == Err(ReadFailed)
  {
    if l == 0 {
      OnlyRootAtLevelZero(k);
    } else {
      assert k in LevelKeys(t, l) * db.failing;
    }
  }

  /** At level 0 the one node is the root: it is merged with its stored version and the propagation ends. */
  lemma PropagateRootPass(t: Tree, db: Db, k: BucketKey)
    requires ValidTree(t) && k in LevelKeys(t, 0) && k !in db.failing
    ensures k == ROOT_KEY
    ensures Propagate(t, db, 0) == Ok(t[k := MergeStored(t[k], StoredNode(db, k))])
  {
    OnlyRootAtLevelZero(k);
  }

  /** Without a root in the tree, the root level changes nothing. */
  lemma PropagateNoRoot(t: Tree, db: Db)
    requires LevelKeys(t, 0) == {}
    ensures Propagate(t, db, 0) == Ok(t)
  {
    assert ROOT_KEY !in LevelKeys(t, 0);
  }

  /** A level above the root whose reads all succeed hands its pass on to the level below. */
  lemma PropagateLevelPass(t: Tree, db: Db, l: nat, s: set<BucketKey>)
    requires l > 0 && s == LevelKeys(t, l) && s * db.failing == {}
    ensures Propagate(t, db, l) == Propagate(PartialLevel(t, db, s), db, l - 1)
  {
  }

  lemma PartialLevelEmpty(t: Tree, db: Db)
    ensures PartialLevel(t, db, {}) == t
  {
    var m := MergedOn(t, db, {});
    assert m == t;
    assert HashesOn(m, {}) == map[];
    var r := PartialLevel(t, db, {});
    forall p | p in r ensures r[p] == t[p] {
      assert SlotsUnder(map[], p) == map[];
      assert t[p].children + map[] == t[p].children;
    }
  }

  lemma MergedOnStep(t: Tree, db: Db, s: set<BucketKey>, k: BucketKey)
    requires k in t
    ensures MergedOn(t, db, s + {k}) == MergedOn(t, db, s)[k := MergeStored(t[k], StoredNode(db, k))]
  {
  }

  lemma HashesOnStep(m: Tree, s: set<BucketKey>, k: BucketKey, v: BucketNode)
    requires k in m && k !in s
    ensures HashesOn(m[k := v], s + {k}) == HashesOn(m, s)[k := NodeCryptoHash(v)]
  {
  }

  /** A node of the level being processed receives no child hash during the pass. */
  lemma PartialLevelUntouched(t: Tree, db: Db, l: nat, s: set<BucketKey>, k: BucketKey)
    requires l > 0 && s <= LevelKeys(t, l) && k in LevelKeys(t, l) && k !in s
    ensures k in PartialLevel(t, db, s) && PartialLevel(t, db, s)[k] == t[k]
    ensures k !in ParentsOf(HashesOn(MergedOn(t, db, s), s).Keys)
  {
    var m := MergedOn(t, db, s);
    var hs := HashesOn(m, s);
    assert k !in ParentsOf(hs.Keys);
    SlotsUnderNonParent(hs, k);
    WithChildHashesAt(m, hs, k);
    assert m[k].children + map[] == m[k].children;
  }

  /**
   * Processing one more node `k` of level `l`: the node still holds its value
   * from the start of the level; it is merged, and its hash goes into its parent.
   */
  lemma PartialLevelStep(t: Tree, db: Db, l: nat, s: set<BucketKey>, k: BucketKey)
    requires l > 0 && s <= LevelKeys(t, l) && k in LevelKeys(t, l) && k !in s
    ensures k in PartialLevel(t, db, s) && PartialLevel(t, db, s)[k] == t[k]
    ensures
      var mk := MergeStored(t[k], StoredNode(db, k));
      PartialLevel(t, db, s + {k}) == SetChild(PartialLevel(t, db, s)[k := mk], k, NodeCryptoHash(mk))
  {
    var mk := MergeStored(t[k], StoredNode(db, k));
    var m := MergedOn(t, db, s);
    var hs := HashesOn(m, s);
    PartialLevelUntouched(t, db, l, s, k);
    MergedOnStep(t, db, s, k);
    HashesOnStep(m, s, k, mk);
    WithChildHashesStep(m[k := mk], hs, k, NodeCryptoHash(mk));
    WithChildHashesUpdate(m, hs, k, mk);
  }

  /** A node keeps every slot already set: delta slots win the merge. */
  ghost predicate SlotsKept(a: BucketNode, b: BucketNode) {
    forall c | c in a.children :: c in b.children && b.children[c] == a.children[c]
  }

  /** After a node is finalised, its parent's slot for it holds the node's hash. */
  ghost predicate SlotHolds(t: Tree, k: BucketKey)
    requires k.level > 0
  {
    k in t && ParentKey(k) in t && k in t[ParentKey(k)].children && t[ParentKey(k)].children[k] == NodeCryptoHash(t[k])
  }

  /** The merged nodes and the child hashes of one level pass. */
  function LevelMerged(t: Tree, db: Db, l: nat): Tree {
    MergedOn(t, db, LevelKeys(t, l))
  }

  function LevelHashes(t: Tree, db: Db, l: nat): (hs: map<BucketKey, Hash>)
    ensures hs.Keys == LevelKeys(t, l)
  {
    HashesOn(LevelMerged(t, db, l), LevelKeys(t, l))
  }

  lemma LevelHashesKeys(t: Tree, db: Db, l: nat)
    requires l > 0
    ensures LevelResult(t, db, l) == WithChildHashes(LevelMerged(t, db, l), LevelHashes(t, db, l))
  {
  }

  /** Only nodes one level up receive child hashes in a pass. */
  lemma LevelSlotsOff(t: Tree, db: Db, l: nat, p: BucketKey)
    requires l > 0 && p.level != l - 1
    ensures SlotsUnder(LevelHashes(t, db, l), p) == map[]
  {
    LevelHashesKeys(t, db, l);
    var hs := LevelHashes(t, db, l);
    forall c | c in hs ensures ParentKey(c) != p {
    }
  }

  /** A pass merges the nodes of its level and leaves every node off the level above alone. */
  lemma LevelResultAt(t: Tree, db: Db, l: nat, k: BucketKey)
    requires l > 0 && k in t && k.level != l - 1
    ensures var r := LevelResult(t, db, l);
      k in r && r[k] == if k.level == l then MergeStored(t[k], StoredNode(db, k)) else t[k]
  {
    LevelHashesKeys(t, db, l);
    var m := LevelMerged(t, db, l);
    LevelSlotsOff(t, db, l, k);
    WithChildHashesAt(m, LevelHashes(t, db, l), k);
    assert m[k].children + map[] == m[k].children;
  }

  /** A pass keeps every node and creates nodes only one level up. */
  lemma LevelResultKeys(t: Tree, db: Db, l: nat)
    requires l > 0
    ensures var r := LevelResult(t, db, l);
      && t.Keys <= r.Keys
      && (forall k | k in r :: k in t || k.level == l - 1)
  {
    LevelHashesKeys(t, db, l);
  }

  /** The nodes a pass creates are the parents of its level's nodes. */
  lemma LevelResultParents(t: Tree, db: Db, l: nat)
    requires l > 0
    ensures var r := LevelResult(t, db, l);
      && (forall c | c in LevelKeys(t, l) :: ParentKey(c) in r)
      && (forall k | k in r && k !in t :: exists c :: c in LevelKeys(t, l) && ParentKey(c) == k)
  {
    LevelHashesKeys(t, db, l);
  }

  /** After a pass, each node of its level sits, with its hash, in its parent's slot. */
  lemma LevelResultHolds(t: Tree, db: Db, l: nat, k: BucketKey)
    requires l > 0 && k in LevelResult(t, db, l) && k.level == l
    ensures SlotHolds(LevelResult(t, db, l), k)
  {
    LevelHashesKeys(t, db, l);
    LevelResultKeys(t, db, l);
    LevelResultParents(t, db, l);
    var m := LevelMerged(t, db, l);
    var hs := LevelHashes(t, db, l);
    var p := ParentKey(k);
    assert k in LevelKeys(t, l);
    LevelResultAt(t, db, l, k);
    WithChildHashesAt(m, hs, p);
    assert k in SlotsUnder(hs, p);
  }

  /** A pass creates only valid keys. */
  lemma LevelResultValid(t: Tree, db: Db, l: nat)
    requires l > 0 && ValidTree(t)
    ensures ValidTree(LevelResult(t, db, l))
  {
    var r := LevelResult(t, db, l);
    LevelResultKeys(t, db, l);
    LevelResultParents(t, db, l);
    forall k | k in r ensures ValidKey(k) && k.level < LOWEST_LEVEL {
      if k !in t {
        var c :| c in LevelKeys(t, l) && ParentKey(c) == k;
        ParentKeyValid(c);
      }
    }
  }

  /**
   * Frame of the propagation from level `l`: nodes above `l` are untouched,
   * nodes at `l` keep their set slots, and no node at `l` or above is created.
   */
  lemma {:induction false} PropagateFrame(t: Tree, db: Db, l: nat)
    requires Propagate(t, db, l).Ok?
    ensures var r := Propagate(t, db, l).value;
      && (forall k | k in t && k.level > l :: k in r && r[k] == t[k])
      && (forall k | k in t && k.level == l :: k in r && SlotsKept(t[k], r[k]))
      && (forall k | k in r && k.level >= l :: k in t)
    decreases l
  {
    var r := Propagate(t, db, l).value;
    if l == 0 {
      forall k | k in t && k.level == l ensures k in r && SlotsKept(t[k], r[k]) {
        if k == ROOT_KEY {
          MergeKeepsSlots(t[k], StoredNode(db, k));
        }
      }
    } else {
      var t1 := LevelResult(t, db, l);
      LevelResultKeys(t, db, l);
      PropagateFrame(t1, db, l - 1);
      forall k | k in t && k.level > l ensures k in r && r[k] == t[k] {
        LevelResultAt(t, db, l, k);
      }
      forall k | k in t && k.level == l ensures k in r && SlotsKept(t[k], r[k]) {
        LevelResultAt(t, db, l, k);
        MergeKeepsSlots(t[k], StoredNode(db, k));
      }
    }
  }

  /** The stored version of `k` has a slot for `c`. */
  ghost predicate StoredSlot(db: Db, k: BucketKey, c: BucketKey) {
    StoredNode(db, k).Some? && c in StoredNode(db, k).value.children
  }

  /** Node `k` of `r` holds, for child `c`, the hash its stored version holds. */
  ghost predicate Inherited(r: Tree, db: Db, k: BucketKey, c: BucketKey)
    requires k in r && StoredSlot(db, k, c)
  {
    c in r[k].children && r[k].children[c] == StoredNode(db, k).value.children[c]
  }

  /** Below the level it processes, a pass adds to a node only slots of nodes of the delta. */
  lemma LevelResultChildren(t: Tree, db: Db, l: nat, k: BucketKey)
    requires l > 0 && k.level < l
    ensures forall c | c in NodeOrEmpty(LevelResult(t, db, l), k).children :: c in NodeOrEmpty(t, k).children || c in t
  {
    var r := LevelResult(t, db, l);
    LevelResultKeys(t, db, l);
    if k in r {
      if k.level != l - 1 {
        LevelResultAt(t, db, l, k);
      } else {
        LevelHashesKeys(t, db, l);
        var m := LevelMerged(t, db, l);
        var hs := LevelHashes(t, db, l);
        WithChildHashesAt(m, hs, k);
        assert NodeOrEmpty(m, k) == NodeOrEmpty(t, k);
        assert SlotsUnder(hs, k).Keys <= t.Keys;
      }
    }
  }

  /**
   * Inheritance: after propagating from level `l`, a node at or below `l`
   * holds the stored hash of every child slot that neither the delta node
   * nor the propagation set, as mergeBucketNode leaves it.
   */
  lemma {:induction false} PropagateInherits(t: Tree, db: Db, l: nat)
    requires ValidTree(t) && Propagate(t, db, l).Ok?
    ensures var r := Propagate(t, db, l).value;
      forall k, c | k in r && k.level <= l && StoredSlot(db, k, c) && c !in NodeOrEmpty(t, k).children && c !in r ::
        Inherited(r, db, k, c)
    decreases l
  {
    var r := Propagate(t, db, l).value;
    if l == 0 {
      forall k, c | k in r && k.level <= l && StoredSlot(db, k, c) && c !in NodeOrEmpty(t, k).children && c !in r
        ensures Inherited(r, db, k, c)
      {
        if k in t {
          OnlyRootAtLevelZero(k);
        }
      }
    } else {
      var t1 := LevelResult(t, db, l);
      LevelResultValid(t, db, l);
      LevelResultKeys(t, db, l);
      PropagateFrame(t1, db, l - 1);
      PropagateInherits(t1, db, l - 1);
      forall k, c | k in r && k.level <= l && StoredSlot(db, k, c) && c !in NodeOrEmpty(t, k).children && c !in r
        ensures Inherited(r, db, k, c)
      {
        if k.level == l {
          assert k in t1 && r[k] == t1[k];
          LevelResultAt(t, db, l, k);
        } else {
          LevelResultChildren(t, db, l, k);
          assert c !in NodeOrEmpty(t1, k).children;
        }
      }
    }
  }

  /** Merging with the stored version keeps every slot of the delta node. */
  lemma MergeKeepsSlots(n: BucketNode, stored: Option<BucketNode>)
    ensures SlotsKept(n, MergeStored(n, stored))
  {
  }

  /**
   * Bottom-up consistency: after propagating from level `l`, every touched
   * node at levels 1..l sits, with its final hash, in its parent's slot.
   */
  lemma {:induction false} PropagateConsistent(t: Tree, db: Db, l: nat)
    requires Propagate(t, db, l).Ok?
    ensures var r := Propagate(t, db, l).value;
      forall k | k in r && 1 <= k.level <= l :: SlotHolds(r, k)
    decreases l
  {
    if l > 0 {
      var t1 := LevelResult(t, db, l);
      var r := Propagate(t, db, l).value;
      PropagateFrame(t1, db, l - 1);
      PropagateConsistent(t1, db, l - 1);
      forall k | k in r && k.level == l ensures SlotHolds(r, k) {
        assert k in t1;
        LevelResultHolds(t, db, l, k);
        var p := ParentKey(k);
        assert SlotsKept(t1[p], r[p]);
      }
    }
  }

  /** Propagation keeps every key valid. */
  lemma {:induction false} PropagateValid(t: Tree, db: Db, l: nat)
    requires ValidTree(t) && Propagate(t, db, l).Ok?
    ensures ValidTree(Propagate(t, db, l).value)
    decreases l
  {
    if l > 0 {
      LevelResultValid(t, db, l);
      PropagateValid(LevelResult(t, db, l), db, l - 1);
    }
  }

  /** The ancestor of `k` at level `j`, reached by following parent keys. */
  function AncestorAt(k: BucketKey, j: nat): (a: BucketKey)
    requires j <= k.level
    ensures a.level == j
    decreases k.level - j
  {
    if k.level == j then k else AncestorAt(ParentKey(k), j)
  }

  /** Every valid key descends from the root. */
  lemma {:induction false} AncestorOfValidIsRoot(k: BucketKey)
    requires ValidKey(k)
    ensures AncestorAt(k, 0) == ROOT_KEY
    decreases k.level
  {
    if k.level == 0 {
      OnlyRootAtLevelZero(k);
    } else {
      ParentKeyValid(k);
      AncestorOfValidIsRoot(ParentKey(k));
    }
  }

  /** The node standing for `k` after a pass at level `l`: its parent when `k` is on that level. */
  lemma LevelResultCarries(t: Tree, db: Db, l: nat, k: BucketKey) returns (k1: BucketKey)
    requires l > 0 && k in t && k.level <= l
    ensures k1 in LevelResult(t, db, l) && k1.level <= l - 1 && AncestorAt(k1, 0) == AncestorAt(k, 0)
  {
    if k.level == l {
      k1 := ParentKey(k);
      assert k in LevelKeys(t, l);
      LevelResultParents(t, db, l);
    } else {
      k1 := k;
      LevelResultKeys(t, db, l);
    }
  }

  /** The root pass keeps every node. */
  lemma PropagateRootKeeps(t: Tree, db: Db, a: BucketKey)
    requires a in t && Propagate(t, db, 0).Ok?
    ensures a in Propagate(t, db, 0).value
  {
  }

  /** A touched node at or below level `l` has its level-0 ancestor `a` in the propagated tree. */
  lemma {:induction false} PropagateReachesAncestor(t: Tree, db: Db, l: nat, k: BucketKey, a: BucketKey)
    requires l > 0 && k in t && k.level <= l && AncestorAt(k, 0) == a && Propagate(t, db, l).Ok?
    ensures a in Propagate(t, db, l).value
    decreases l
  {
    var t1 := LevelResult(t, db, l);
    PropagateStep(t, db, l);
    var k1 := LevelResultCarries(t, db, l, k);
    if l == 1 {
      assert k1 == a;
      PropagateRootKeeps(t1, db, a);
    } else {
      PropagateReachesAncestor(t1, db, l - 1, k1, a);
    }
  }

  /** A propagation whose result holds the root has read the root from the store. */
  lemma {:induction false} PropagateReadsRoot(t: Tree, db: Db, l: nat)
    requires Propagate(t, db, l).Ok? && ROOT_KEY in Propagate(t, db, l).value
    ensures ROOT_KEY !in db.failing
    decreases l
  {
    if l > 0 {
      PropagateReadsRoot(LevelResult(t, db, l), db, l - 1);
    }
  }

  /** A touched valid node at or below level `l` makes the propagation reach the root. */
  lemma PropagateReachesRoot(t: Tree, db: Db, l: nat, k: BucketKey)
    requires ValidKey(k) && k in t && k.level <= l && Propagate(t, db, l).Ok?
    ensures ROOT_KEY in Propagate(t, db, l).value
  {
    AncestorOfValidIsRoot(k);
    if l == 0 {
      assert k == ROOT_KEY;
      PropagateRootKeeps(t, db, ROOT_KEY);
    } else {
      PropagateReachesAncestor(t, db, l, k, ROOT_KEY);
    }
  }
}
