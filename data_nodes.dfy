/**
 * Data nodes: one key/value item of the state, addressed by its data key
 * (the data bucket it hashes to and its composite key). A node whose value
 * is None is a tombstone: a pending delete.
 */
module DataNodes {
  import opened Wrappers
  import opened ByteOrder
  import opened BucketKeys

  datatype DataKey = DataKey(bucket: BucketKey, compositeKey: Bytes)

  datatype DataNode = DataNode(dataKey: DataKey, value: Option<Bytes>) {
    predicate IsDelete() {
      value.None?
    }

    function Key(): Bytes {
      dataKey.compositeKey
    }
  }

  /** Ascending by composite key with no key repeated. */
  predicate StrictlySorted(s: seq<DataNode>) {
    forall i, j | 0 <= i < j < |s| :: Less(s[i].Key(), s[j].Key())
  }

  /** Every node of `s` has a composite key above `k`. */
  predicate Above(k: Bytes, s: seq<DataNode>) {
    forall n | n in s :: Less(k, n.Key())
  }

  /** Some node of `s` carries composite key `k`. */
  predicate HasKey(s: seq<DataNode>, k: Bytes) {
    exists n | n in s :: n.Key() == k
  }

  /** No two distinct nodes of the set share a composite key. */
  ghost predicate DistinctKeys(s: set<DataNode>) {
    forall a, b | a in s && b in s && a.Key() == b.Key() :: a == b
  }

  lemma SortedHeadAbove(s: seq<DataNode>)
    requires StrictlySorted(s) && s != []
    ensures Above(s[0].Key(), s[1..])
  {
    forall n | n in s[1..] ensures Less(s[0].Key(), n.Key()) {
      var i :| 0 <= i < |s[1..]| && s[1..][i] == n;
      assert s[i + 1] == n;
    }
  }

  /** A strictly sorted sequence never holds its head again. */
  lemma SortedHeadNotInTail(s: seq<DataNode>)
    requires StrictlySorted(s) && s != []
    ensures s[0] !in s[1..]
  {
    SortedHeadAbove(s);
    Trichotomy(s[0].Key(), s[0].Key());
  }

  lemma AboveTransitive(k: Bytes, x: DataNode, s: seq<DataNode>)
    requires Less(k, x.Key()) && StrictlySorted([x] + s)
    ensures Above(k, [x] + s)
  {
    SortedHeadAbove([x] + s);
    assert ([x] + s)[1..] == s;
    forall n | n in [x] + s ensures Less(k, n.Key()) {
      if n != x {
        LessTransitive(k, x.Key(), n.Key());
      }
    }
  }

  lemma PrependSorted(x: DataNode, s: seq<DataNode>)
    requires StrictlySorted(s) && Above(x.Key(), s)
    ensures StrictlySorted([x] + s)
  {
    var r := [x] + s;
    forall i, j | 0 <= i < j < |r| ensures Less(r[i].Key(), r[j].Key()) {
      if i == 0 {
        assert r[j] == s[j - 1] && r[j] in s;
      } else {
        assert r[i] == s[i - 1] && r[j] == s[j - 1];
      }
    }
  }

  /**
   * Insertion of a node with a fresh composite key into a strictly sorted
   * sequence; the result is strictly sorted and holds exactly one more node.
   */
  function Insert(s: seq<DataNode>, x: DataNode): (r: seq<DataNode>)
    requires StrictlySorted(s) && !HasKey(s, x.Key())
    ensures StrictlySorted(r)
    ensures forall n :: n in r <==> n == x || n in s
    ensures |r| == |s| + 1
  {
    if s == [] then [x]
    else if Less(x.Key(), s[0].Key()) then
      AboveTransitive(x.Key(), s[0], s[1..]);
      assert [s[0]] + s[1..] == s;
      PrependSorted(x, s);
      [x] + s
    else
      assert StrictlySorted(s[1..]) by {
        forall i, j | 0 <= i < j < |s[1..]| ensures Less(s[1..][i].Key(), s[1..][j].Key()) {
          assert s[1..][i] == s[i + 1] && s[1..][j] == s[j + 1];
        }
      }
      assert !HasKey(s[1..], x.Key()) by {
        forall n | n in s[1..] ensures n.Key() != x.Key() {
          assert n in s;
        }
      }
      var rest := Insert(s[1..], x);
      assert Above(s[0].Key(), rest) by {
        SortedHeadAbove(s);
        Trichotomy(x.Key(), s[0].Key());
        assert s[0] in s;
      }
      PrependSorted(s[0], rest);
      assert s == [s[0]] + s[1..];
      [s[0]] + rest
  }

  /** Two strictly sorted sequences with the same members are the same sequence. */
  lemma {:induction false} SortedUnique(r1: seq<DataNode>, r2: seq<DataNode>)
    requires StrictlySorted(r1) && StrictlySorted(r2)
    requires forall n :: n in r1 <==> n in r2
    ensures r1 == r2
  {
    assert r1 == [] <==> r2 == [] by {
      if r1 != [] { assert r1[0] in r1; }
      if r2 != [] { assert r2[0] in r2; }
    }
    if r1 != [] {
      assert r1[0] in r1 && r2 != [] && r2[0] in r2;
      SortedHeadAbove(r1);
      SortedHeadAbove(r2);
      if r1[0] != r2[0] {
        assert r1[0] in r2[1..] by { assert r2 == [r2[0]] + r2[1..]; }
        assert r2[0] in r1[1..] by { assert r1 == [r1[0]] + r1[1..]; }
        Trichotomy(r1[0].Key(), r2[0].Key());
        assert false;
      }
      SortedHeadNotInTail(r1);
      SortedHeadNotInTail(r2);
      assert StrictlySorted(r1[1..]) && StrictlySorted(r2[1..]) by {
        forall i, j | 0 <= i < j < |r1| - 1 ensures Less(r1[1..][i].Key(), r1[1..][j].Key()) {
          assert r1[1..][i] == r1[i + 1] && r1[1..][j] == r1[j + 1];
        }
        forall i, j | 0 <= i < j < |r2| - 1 ensures Less(r2[1..][i].Key(), r2[1..][j].Key()) {
          assert r2[1..][i] == r2[i + 1] && r2[1..][j] == r2[j + 1];
        }
      }
      forall n ensures n in r1[1..] <==> n in r2[1..] {
        assert r1 == [r1[0]] + r1[1..] && r2 == [r2[0]] + r2[1..];
        assert n in r1 <==> n == r1[0] || n in r1[1..];
        assert n in r2 <==> n == r2[0] || n in r2[1..];
      }
      SortedUnique(r1[1..], r2[1..]);
      assert r1 == [r1[0]] + r1[1..] && r2 == [r2[0]] + r2[1..];
    }
  }

  /** The nodes of a finite set with distinct keys, in ascending key order. */
  ghost function SortOf(s: set<DataNode>): (r: seq<DataNode>)
    requires DistinctKeys(s)
    ensures StrictlySorted(r)
    ensures forall n :: n in r <==> n in s
    decreases |s|
  {
    if s == {} then []
    else
      var x :| x in s;
      var rest := SortOf(s - {x});
      assert !HasKey(rest, x.Key());
      Insert(rest, x)
  }
}
