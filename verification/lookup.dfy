/**
 Hash comparison (`compare_hash`) and leaf lookup by text (`find_nodeid`)
 of mtree.h.
 */
module Lookup {
  import opened Hashing
  import opened Layout
  import opened Builder

  /** compare_hash: 1 when the first `HBytes` bytes agree, else 0 at the first differing byte. */
  method CompareHash(h1: seq<byte>, h2: seq<byte>) returns (r: int)
    requires IsHash(h1) && IsHash(h2)
    ensures r == 0 || r == 1
    ensures r == 1 <==> h1[..HBytes] == h2[..HBytes]
  {
    var i := 0;
    while i < HBytes
      invariant 0 <= i <= HBytes
      invariant h1[..i] == h2[..i]
    {
      if h1[i] != h2[i] {
        assert h1[..HBytes][i] != h2[..HBytes][i];
        return 0;
      }
      assert h1[..i + 1] == h1[..i] + [h1[i]];
      assert h2[..i + 1] == h2[..i] + [h2[i]];
      i := i + 1;
    }
    return 1;
  }

  /** What find_nodeid reads: `leafCount` leaves, each with HBytes hash bytes. */
  predicate LeavesHashed(t: Tree) {
    0 <= t.leafCount <= |t.nodes| && forall i :: 0 <= i < t.leafCount ==> |t.nodes[i].hash| == HBytes
  }

  /**
   Reference definition of the lookup: the first leaf at or after `from`
   whose hash is `h`, or -1 when no later leaf has it.
   */
  function FirstLeafWith(t: Tree, h: seq<byte>, from: nat): (k: int)
    requires LeavesHashed(t) && from <= t.leafCount
    ensures k == -1 || from <= k < t.leafCount
    ensures k == -1 <==> forall i :: from <= i < t.leafCount ==> t.nodes[i].hash != h
    ensures k != -1 ==> t.nodes[k].hash == h && forall i :: from <= i < k ==> t.nodes[i].hash != h
    decreases t.leafCount - from
  {
    if from == t.leafCount then -1
    else if t.nodes[from].hash == h then from
    else FirstLeafWith(t, h, from + 1)
  }

  /**
   find_nodeid: hashes the first `length` bytes of `text` and scans the
   leaves in order, answering the stored id of the first leaf with that
   hash, or -1 when none has it. In a tree build_tree made, the stored id of
   leaf k is k.
   */
  method FindNodeId(hs: Hasher, t: Tree, text: seq<byte>, length: nat) returns (nodeId: int)
    requires hs.Valid() && LeavesHashed(t) && length <= |text|
    ensures var k := FirstLeafWith(t, LeafHash(hs, text, length), 0);
      nodeId == if k == -1 then -1 else t.nodes[k].nodeId
    ensures Shaped(t) ==> -1 <= nodeId < t.leafCount
    ensures Shaped(t) && nodeId != -1 ==> t.nodes[nodeId].hash == LeafHash(hs, text, length)
    ensures Shaped(t) ==> (nodeId == -1 <==> forall i :: 0 <= i < t.leafCount ==> t.nodes[i].hash != LeafHash(hs, text, length))
  {
    var h := LeafHash(hs, text, length);
    nodeId := -1;
    var i := 0;
    while i < t.leafCount
      invariant 0 <= i <= t.leafCount
      invariant FirstLeafWith(t, h, 0) == FirstLeafWith(t, h, i)
    {
      var same := CompareHash(h, t.nodes[i].hash);
      if same == 1 {
        assert h == h[..HBytes] && t.nodes[i].hash == t.nodes[i].hash[..HBytes];
        nodeId := t.nodes[i].nodeId;
        if Shaped(t) {
          assert NodeShaped(t.leafCount, i, t.nodes[i]);
        }
        return;
      }
      i := i + 1;
    }
  }

  /**
   When build_tree hashed pairwise-different leaf hashes, looking up leaf
   `i`'s own text finds leaf `i`.
   */
  lemma LookupFindsOwnLeaf(hs: Hasher, t: Tree, hlist: seq<seq<byte>>, length: nat, i: int)
    requires hs.Valid() && Shaped(t) && Inputs(t.leafCount, hlist, length)
    requires forall k :: 0 <= k < t.leafCount ==> t.nodes[k].hash == LeafHash(hs, hlist[k], length)
    requires forall k, m :: 0 <= k < m < t.leafCount ==> LeafHash(hs, hlist[k], length) != LeafHash(hs, hlist[m], length)
    requires 0 <= i < t.leafCount
    ensures FirstLeafWith(t, LeafHash(hs, hlist[i], length), 0) == i
  {
    var h := LeafHash(hs, hlist[i], length);
    assert LeavesHashed(t) by {
      forall k | 0 <= k < t.leafCount ensures |t.nodes[k].hash| == HBytes {
        assert NodeShaped(t.leafCount, k, t.nodes[k]);
      }
    }
    assert t.nodes[i].hash == h;
  }
}
