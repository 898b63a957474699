/**
 * The net effect of the two-index merge in computeDataNodesCryptoHash:
 * pending (updated) nodes overlaid onto persisted (existing) nodes, the
 * pending node winning on an equal composite key, tombstones dropped.
 */
module LeafMerge {
  import opened ByteOrder
  import opened DataNodes

  /** What one examined node contributes to the hash input: nothing if it is a tombstone. */
  function Keep(n: DataNode): seq<DataNode> {
    if n.IsDelete() then [] else [n]
  }

  /** The tombstone-free part of `s`, in order. */
  function Live(s: seq<DataNode>): (r: seq<DataNode>)
    ensures forall n :: n in r <==> n in s && !n.IsDelete()
  {
    if s == [] then [] else Keep(s[0]) + Live(s[1..])
  }

  /**
   * The sequence handed to the bucket hash calculator, defined by the same
   * case split on bytes.Compare as the loop: -1 takes the pending node, 0
   * takes the pending node and skips the persisted one, +1 takes the
   * persisted node; once one side is used up the other side's live tail follows.
   */
  function MergeNodes(updated: seq<DataNode>, existing: seq<DataNode>): (r: seq<DataNode>)
    decreases |updated| + |existing|
  {
    if updated == [] then Live(existing)
    else if existing == [] then Live(updated)
    else
      match Compare(updated[0].Key(), existing[0].Key())
      case -1 => Keep(updated[0]) + MergeNodes(updated[1..], existing)
      case 0 => Keep(updated[0]) + MergeNodes(updated[1..], existing[1..])
      case _ => Keep(existing[0]) + MergeNodes(updated, existing[1..])
  }

  /** One step of the two-index walk at positions `i` and `j`. */
  lemma MergeNodesAt(updated: seq<DataNode>, existing: seq<DataNode>, i: nat, j: nat)
    requires i < |updated| && j < |existing|
    ensures var c := Compare(updated[i].Key(), existing[j].Key());
      && (c == -1 ==> MergeNodes(updated[i..], existing[j..]) == Keep(updated[i]) + MergeNodes(updated[i + 1..], existing[j..]))
      && (c == 0 ==> MergeNodes(updated[i..], existing[j..]) == Keep(updated[i]) + MergeNodes(updated[i + 1..], existing[j + 1..]))
      && (c == 1 ==> MergeNodes(updated[i..], existing[j..]) == Keep(existing[j]) + MergeNodes(updated[i..], existing[j + 1..]))
  {
    assert updated[i..][0] == updated[i] && updated[i..][1..] == updated[i + 1..];
    assert existing[j..][0] == existing[j] && existing[j..][1..] == existing[j + 1..];
  }

  /** Once one side is used up, the walk feeds the live tail of the other side. */
  lemma MergeNodesTail(updated: seq<DataNode>, existing: seq<DataNode>, i: nat, j: nat)
    requires i <= |updated| && j <= |existing| && (i == |updated| || j == |existing|)
    ensures MergeNodes(updated[i..], existing[j..]) == Live(if i < |updated| then updated[i..] else existing[j..])
  {
    if i == |updated| {
      assert updated[i..] == [];
    } else {
      assert existing[j..] == [];
    }
  }

  /** Live, one node at a time. */
  lemma LiveAt(s: seq<DataNode>, k: nat)
    requires k < |s|
    ensures Live(s[k..]) == Keep(s[k]) + Live(s[k + 1..])
  {
    assert s[k..][0] == s[k] && s[k..][1..] == s[k + 1..];
  }

  /** The reference meaning of the overlay, node by node. */
  ghost predicate Overlaid(n: DataNode, updated: seq<DataNode>, existing: seq<DataNode>) {
    !n.IsDelete() && (n in updated || (n in existing && !HasKey(updated, n.Key())))
  }

  /**
   * The sorted, tombstone-free overlay of `updated` onto `existing`: strictly
   * ascending by composite key, holding exactly the overlaid nodes.
   */
  ghost predicate IsSortedOverlay(r: seq<DataNode>, updated: seq<DataNode>, existing: seq<DataNode>) {
    StrictlySorted(r) && forall n :: n in r <==> Overlaid(n, updated, existing)
  }

  lemma TailSorted(s: seq<DataNode>)
    requires StrictlySorted(s) && s != []
    ensures StrictlySorted(s[1..])
  {
    forall i, j | 0 <= i < j < |s| - 1 ensures Less(s[1..][i].Key(), s[1..][j].Key()) {
      assert s[1..][i] == s[i + 1] && s[1..][j] == s[j + 1];
    }
  }

  lemma LiveSorted(s: seq<DataNode>)
    requires StrictlySorted(s)
    ensures StrictlySorted(Live(s))
    decreases |s|
  {
    if s != [] {
      TailSorted(s);
      LiveSorted(s[1..]);
      SortedHeadAbove(s);
      if !s[0].IsDelete() {
        PrependSorted(s[0], Live(s[1..]));
      }
    }
  }

  /** Every node fed to the calculator is live and comes from one of the inputs. */
  lemma {:induction false} MergeDrawsFromInputs(updated: seq<DataNode>, existing: seq<DataNode>)
    ensures forall n | n in MergeNodes(updated, existing) :: !n.IsDelete() && (n in updated || n in existing)
    decreases |updated| + |existing|
  {
    if updated != [] && existing != [] {
      var u, e := updated[0], existing[0];
      assert updated == [u] + updated[1..] && existing == [e] + existing[1..];
      match Compare(u.Key(), e.Key())
      case -1 => MergeDrawsFromInputs(updated[1..], existing);
      case 0 => MergeDrawsFromInputs(updated[1..], existing[1..]);
      case _ => MergeDrawsFromInputs(updated, existing[1..]);
    }
  }

  /** With sorted inputs the merge output is strictly ascending by composite key. */
  lemma {:induction false} MergeSorted(updated: seq<DataNode>, existing: seq<DataNode>)
    requires StrictlySorted(updated) && StrictlySorted(existing)
    ensures StrictlySorted(MergeNodes(updated, existing))
    decreases |updated| + |existing|
  {
    if updated == [] {
      LiveSorted(existing);
    } else if existing == [] {
      LiveSorted(updated);
    } else {
      var u, e := updated[0], existing[0];
      TailSorted(updated);
      TailSorted(existing);
      SortedHeadAbove(updated);
      SortedHeadAbove(existing);
      assert updated == [u] + updated[1..] && existing == [e] + existing[1..];
      CompareFlip(u.Key(), e.Key());
      match Compare(u.Key(), e.Key())
      case -1 =>
        var rest := MergeNodes(updated[1..], existing);
        MergeSorted(updated[1..], existing);
        MergeDrawsFromInputs(updated[1..], existing);
        AboveTransitive(u.Key(), e, existing[1..]);
        if !u.IsDelete() {
          PrependSorted(u, rest);
        }
      case 0 =>
        var rest := MergeNodes(updated[1..], existing[1..]);
        MergeSorted(updated[1..], existing[1..]);
        MergeDrawsFromInputs(updated[1..], existing[1..]);
        CompareZero(u.Key(), e.Key());
        if !u.IsDelete() {
          PrependSorted(u, rest);
        }
      case _ =>
        var rest := MergeNodes(updated, existing[1..]);
        MergeSorted(updated, existing[1..]);
        MergeDrawsFromInputs(updated, existing[1..]);
        AboveTransitive(e.Key(), u, updated[1..]);
        if !e.IsDelete() {
          PrependSorted(e, rest);
        }
    }
  }

  lemma NotHasKeyOfAbove(k: Bytes, s: seq<DataNode>)
    requires Above(k, s)
    ensures !HasKey(s, k)
  {
    if HasKey(s, k) {
      var n :| n in s && n.Key() == k;
      Trichotomy(k, k);
    }
  }

  /**
   * The merge feeds exactly the overlaid nodes: every live pending node, and
   * every live persisted node whose composite key no pending node carries.
   */
  lemma {:induction false} MergeContents(updated: seq<DataNode>, existing: seq<DataNode>)
    requires StrictlySorted(updated) && StrictlySorted(existing)
    ensures forall n :: n in MergeNodes(updated, existing) <==> Overlaid(n, updated, existing)
    decreases |updated| + |existing|
  {
    if updated != [] && existing != [] {
      var u, e := updated[0], existing[0];
      var u', e' := updated[1..], existing[1..];
      TailSorted(updated);
      TailSorted(existing);
      SortedHeadAbove(updated);
      SortedHeadAbove(existing);
      assert updated == [u] + u' && existing == [e] + e';
      assert forall n :: n in updated <==> n == u || n in u';
      assert forall n :: n in existing <==> n == e || n in e';
      assert forall k :: HasKey(updated, k) <==> u.Key() == k || HasKey(u', k);
      CompareFlip(u.Key(), e.Key());
      match Compare(u.Key(), e.Key())
      case -1 =>
        MergeContents(u', existing);
        AboveTransitive(u.Key(), e, e');
        forall n | n in existing ensures n.Key() != u.Key() {
          Trichotomy(u.Key(), n.Key());
        }
      case 0 =>
        MergeContents(u', e');
        CompareZero(u.Key(), e.Key());
        SortedHeadNotInTail(existing);
        forall n | n in e' ensures n.Key() != u.Key() {
          Trichotomy(u.Key(), n.Key());
        }
      case _ =>
        MergeContents(updated, e');
        AboveTransitive(e.Key(), u, u');
        NotHasKeyOfAbove(e.Key(), updated);
    }
  }

  /** The merge output is the sorted, tombstone-free overlay. */
  lemma MergeIsSortedOverlay(updated: seq<DataNode>, existing: seq<DataNode>)
    requires StrictlySorted(updated) && StrictlySorted(existing)
    ensures IsSortedOverlay(MergeNodes(updated, existing), updated, existing)
  {
    MergeSorted(updated, existing);
    MergeContents(updated, existing);
  }

  /** The sorted overlay is unique, so any sequence meeting the reference meaning is the merge output. */
  lemma SortedOverlayUnique(r: seq<DataNode>, updated: seq<DataNode>, existing: seq<DataNode>)
    requires StrictlySorted(updated) && StrictlySorted(existing)
    requires IsSortedOverlay(r, updated, existing)
    ensures r == MergeNodes(updated, existing)
  {
    MergeIsSortedOverlay(updated, existing);
    SortedUnique(r, MergeNodes(updated, existing));
  }

  /**
   * On an equal composite key the pending node wins: a live pending node is
   * fed, a pending tombstone feeds nothing, and the persisted node is never fed
   * unless it is the very same node.
   */
  lemma PendingWins(updated: seq<DataNode>, existing: seq<DataNode>, u: DataNode, e: DataNode)
    requires StrictlySorted(updated) && StrictlySorted(existing)
    requires u in updated && e in existing && u.Key() == e.Key()
    ensures u in MergeNodes(updated, existing) <==> !u.IsDelete()
    ensures e in MergeNodes(updated, existing) ==> e == u
  {
    MergeContents(updated, existing);
    if e in MergeNodes(updated, existing) && e != u {
      assert e in updated;
      var i :| 0 <= i < |updated| && updated[i] == u;
      var j :| 0 <= j < |updated| && updated[j] == e;
      if i < j {
        assert Less(u.Key(), e.Key());
      } else if j < i {
        assert Less(e.Key(), u.Key());
      }
      Trichotomy(u.Key(), e.Key());
    }
  }

  /** A tombstone never reaches the calculator: a deleted key contributes nothing, as if never written. */
  lemma MergeDropsTombstones(updated: seq<DataNode>, existing: seq<DataNode>, n: DataNode)
    requires n.IsDelete()
    ensures n !in MergeNodes(updated, existing)
  {
    MergeDrawsFromInputs(updated, existing);
  }
}
