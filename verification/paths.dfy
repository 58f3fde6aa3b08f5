/**
 Inclusion paths (`find_path`) and root reconstruction
 (`find_root_from_path`) of mtree.h, and the round trip between them.
 */
module Paths {
  import opened Hashing
  import opened Combiner
  import opened Layout
  import opened Builder

  /** The link find_path follows from a non-root node: `prev` when its index is odd, `next` when even. */
  function SiblingLink(t: Tree, c: int): (s: int)
    requires Shaped(t) && 0 <= c < t.nodeCount - 1
    ensures s == SiblingOf(c) && 0 <= s < t.nodeCount - 1
  {
    assert NodeShaped(t.leafCount, c, t.nodes[c]);
    SiblingByParity(t.leafCount, c);
    if c % 2 == 1 then t.nodes[c].prev else t.nodes[c].next
  }

  /** A node without a parent is the root, alone in its layer. */
  lemma AtRoot(t: Tree, c: int)
    requires Shaped(t) && 0 <= c < t.nodeCount && t.nodes[c].parent == -1
    ensures c == t.nodeCount - 1 && LayerSize(t.leafCount, c) == 1
  {
    assert NodeShaped(t.leafCount, c, t.nodes[c]);
    RootLayer(t.leafCount);
  }

  /**
   One step up from a node with a parent: the parent lies above it in the
   next layer, and its two children are the node and its sibling.
   */
  lemma Climb(t: Tree, c: int)
    requires Shaped(t) && 0 <= c < t.nodeCount && t.nodes[c].parent != -1
    ensures c < t.nodeCount - 1
    ensures c < t.nodes[c].parent < t.nodeCount
    ensures t.nodes[c].parent == ParentOf(t.leafCount, c)
    ensures LayerSize(t.leafCount, t.nodes[c].parent) == LayerSize(t.leafCount, c) / 2
    ensures LayerSize(t.leafCount, c) >= 2
    ensures LeftChild(t.leafCount, t.nodes[c].parent) == c - c % 2
    ensures |t.nodes[c].hash| == HBytes && |t.nodes[SiblingOf(c)].hash| == HBytes
  {
    var L := t.leafCount;
    assert NodeShaped(L, c, t.nodes[c]);
    RootLayer(L);
    ParentInNextLayer(L, c);
    SiblingByParity(L, c);
    assert NodeShaped(L, SiblingOf(c), t.nodes[SiblingOf(c)]);
  }

  /** Helper: the part of Climb that the path recursion needs, stated alone to keep those proofs small. */
  lemma ClimbLink(t: Tree, c: int)
    requires Shaped(t) && 0 <= c < t.nodeCount && t.nodes[c].parent != -1
    ensures c < t.nodeCount - 1 && c < t.nodes[c].parent < t.nodeCount
    ensures t.nodes[c].parent == ParentOf(t.leafCount, c)
  {
    Climb(t, c);
  }

  /**
   The path of node `c`: the sibling hashes met while climbing parent links
   from `c` to the root, lowest first. It has one entry per layer above `c`.
   */
  function PathFrom(t: Tree, c: int): (path: seq<seq<byte>>)
    requires Shaped(t) && 0 <= c < t.nodeCount
    ensures |path| == Log2(LayerSize(t.leafCount, c))
    ensures forall k :: 0 <= k < |path| ==> |path[k]| == HBytes
    decreases t.nodeCount - c
  {
    if t.nodes[c].parent == -1 then
      AtRoot(t, c);
      []
    else
      Climb(t, c);
      [t.nodes[SiblingLink(t, c)].hash] + PathFrom(t, t.nodes[c].parent)
  }

  /** The ancestor `k` levels above node `c` (the root stays put). */
  function Ancestor(L: int, c: int, k: nat): (a: int)
    requires IsPow2(L) && 0 <= c < 2 * L - 1
    ensures c <= a < 2 * L - 1
    decreases k
  {
    if k == 0 || c == 2 * L - 2 then c else Ancestor(L, ParentOf(L, c), k - 1)
  }

  /** Fewer steps up than there are layers above `c` stay below the root. */
  lemma {:induction false} AncestorBelowRoot(L: int, c: int, k: nat)
    requires IsPow2(L) && 0 <= c < 2 * L - 1 && k < Log2(LayerSize(L, c))
    ensures Ancestor(L, c, k) < 2 * L - 2
    decreases k
  {
    RootLayer(L);
    if c == 2 * L - 2 {
      assert false;
    } else {
      ParentInNextLayer(L, c);
      if k > 0 {
        AncestorBelowRoot(L, ParentOf(L, c), k - 1);
      }
    }
  }

  /**
   find_path: climbs parent links from `nodeId`, appending at each level the
   hash of the sibling chosen by `node_id % 2`, until the root is reached.
   */
  method FindPath(t: Tree, nodeId: int) returns (path: seq<seq<byte>>)
    requires Shaped(t) && 0 <= nodeId < t.nodeCount
    ensures path == PathFrom(t, nodeId)
    ensures nodeId < t.leafCount ==> |path| == Log2(t.leafCount)
    ensures forall k :: 0 <= k < |path| ==>
      Ancestor(t.leafCount, nodeId, k) < t.nodeCount - 1
      && path[k] == t.nodes[SiblingOf(Ancestor(t.leafCount, nodeId, k))].hash
  {
    var c := nodeId;
    var parent := t.nodes[c].parent;
    path := [];
    while parent != -1
      invariant 0 <= c < t.nodeCount
      invariant parent == t.nodes[c].parent
      invariant path + PathFrom(t, c) == PathFrom(t, nodeId)
      decreases t.nodeCount - c
    {
      ClimbLink(t, c);
      var sibling := if c % 2 == 1 then t.nodes[c].prev else t.nodes[c].next;
      assert sibling == SiblingLink(t, c);
      ghost var rest := PathFrom(t, parent);
      assert PathFrom(t, c) == [t.nodes[sibling].hash] + rest;
      Regroup(path, [t.nodes[sibling].hash], rest);
      c := parent;
      parent := t.nodes[c].parent;
      path := path + [t.nodes[sibling].hash];
    }
    AtRoot(t, c);
    if nodeId < t.leafCount {
      LeafLayer(t.leafCount, nodeId);
    }
    PathSiblings(t, nodeId);
  }

  /** Appending to the collected prefix leaves the whole path unchanged. */
  lemma Regroup<T>(a: seq<T>, b: seq<T>, c: seq<T>)
    ensures a + (b + c) == (a + b) + c
  {
  }

  /** Entry `k` of the path is the hash of the sibling of the ancestor `k` levels up, which is not the root. */
  lemma {:induction false} PathEntry(t: Tree, c: int, k: nat)
    requires Shaped(t) && 0 <= c < t.nodeCount && k < |PathFrom(t, c)|
    ensures Ancestor(t.leafCount, c, k) < t.nodeCount - 1
    ensures PathFrom(t, c)[k] == t.nodes[SiblingOf(Ancestor(t.leafCount, c, k))].hash
    decreases k
  {
    var L := t.leafCount;
    assert t.nodes[c].parent != -1;
    ClimbLink(t, c);
    var p := t.nodes[c].parent;
    assert PathFrom(t, c) == [t.nodes[SiblingOf(c)].hash] + PathFrom(t, p);
    AncestorBelowRoot(L, c, k);
    if k > 0 {
      PathEntry(t, p, k - 1);
      assert Ancestor(L, c, k) == Ancestor(L, p, k - 1);
    }
  }

  /** PathEntry for every entry at once. */
  lemma PathSiblings(t: Tree, c: int)
    requires Shaped(t) && 0 <= c < t.nodeCount
    ensures forall k :: 0 <= k < |PathFrom(t, c)| ==>
      Ancestor(t.leafCount, c, k) < t.nodeCount - 1
      && PathFrom(t, c)[k] == t.nodes[SiblingOf(Ancestor(t.leafCount, c, k))].hash
  {
    forall k | 0 <= k < |PathFrom(t, c)|
      ensures Ancestor(t.leafCount, c, k) < t.nodeCount - 1
        && PathFrom(t, c)[k] == t.nodes[SiblingOf(Ancestor(t.leafCount, c, k))].hash
    {
      PathEntry(t, c, k);
    }
  }

  /**
   find_root_from_path with the empty path handled: folds the combiner over
   the path, the path entry always first and the running hash second. With
   no entries, the node hash is itself the root.
   */
  function FindRootFromPath(hs: Hasher, path: seq<seq<byte>>, nodeHash: seq<byte>): (root: seq<byte>)
    requires hs.Valid() && IsHash(nodeHash)
    requires forall k :: 0 <= k < |path| ==> IsHash(path[k])
    ensures IsHash(root)
    ensures |path| == 0 ==> root == nodeHash
    ensures |path| > 0 ==> |root| == HBytes
    decreases |path|
  {
    if |path| == 0 then nodeHash else FindRootFromPath(hs, path[1..], Combine(hs, path[0], nodeHash))
  }

  /**
   Reconstruction seen from the top: the last path entry is combined last,
   with the root reconstructed from the entries below it. This is the
   loop of find_root_from_path, `md_values[i]` from `path[i]` and
   `md_values[i-1]`.
   */
  lemma {:induction false} FindRootFromPathSnoc(hs: Hasher, path: seq<seq<byte>>, x: seq<byte>, h: seq<byte>)
    requires hs.Valid() && IsHash(h) && IsHash(x)
    requires forall k :: 0 <= k < |path| ==> IsHash(path[k])
    ensures FindRootFromPath(hs, path + [x], h) == Combine(hs, x, FindRootFromPath(hs, path, h))
    decreases |path|
  {
    if |path| == 0 {
      assert ([] + [x])[1..] == [];
    } else {
      assert (path + [x])[1..] == path[1..] + [x];
      FindRootFromPathSnoc(hs, path[1..], x, Combine(hs, path[0], h));
    }
  }

  /** Reconstruction consumes the path front first. */
  lemma FoldStep(hs: Hasher, x: seq<byte>, rest: seq<seq<byte>>, h: seq<byte>)
    requires hs.Valid() && IsHash(x) && IsHash(h)
    requires forall k :: 0 <= k < |rest| ==> IsHash(rest[k])
    ensures FindRootFromPath(hs, [x] + rest, h) == FindRootFromPath(hs, rest, Combine(hs, x, h))
  {
    assert ([x] + rest)[1..] == rest;
  }

  /** An inner node's hash, as HashConsistent states it for one node. */
  lemma ChildHashes(hs: Hasher, t: Tree, p: int)
    requires hs.Valid() && Shaped(t) && HashConsistent(hs, t)
    requires t.leafCount <= p < t.nodeCount
    ensures 0 <= LeftChild(t.leafCount, p) && LeftChild(t.leafCount, p) + 1 < t.nodeCount
    ensures t.nodes[p].hash == Combine(hs, t.nodes[LeftChild(t.leafCount, p)].hash, t.nodes[LeftChild(t.leafCount, p) + 1].hash)
  {
  }

  /** Whichever of the two children `c` is, the parent `p` combines the other one, `s`, first. */
  lemma PairHash(hs: Hasher, nodes: seq<Node>, p: int, l: int, c: int, s: int)
    requires hs.Valid() && 0 <= p < |nodes| && 0 <= l && l + 1 < |nodes|
    requires IsHash(nodes[l].hash) && IsHash(nodes[l + 1].hash)
    requires nodes[p].hash == Combine(hs, nodes[l].hash, nodes[l + 1].hash)
    requires (c == l && s == l + 1) || (c == l + 1 && s == l)
    ensures nodes[p].hash == Combine(hs, nodes[s].hash, nodes[c].hash)
  {
    if c == l {
      CombineSymmetric(hs, nodes[l].hash, nodes[l + 1].hash);
    }
  }

  /** The indices around a non-root node: its parent's left child `l`, and which of `l`, `l+1` it and its sibling are. */
  lemma Family(t: Tree, c: int) returns (l: int)
    requires Shaped(t) && 0 <= c < t.nodeCount && t.nodes[c].parent != -1
    ensures t.leafCount <= t.nodes[c].parent < t.nodeCount
    ensures l == LeftChild(t.leafCount, t.nodes[c].parent) && 0 <= l && l + 1 < t.nodeCount
    ensures (c == l && SiblingOf(c) == l + 1) || (c == l + 1 && SiblingOf(c) == l)
    ensures IsHash(t.nodes[l].hash) && IsHash(t.nodes[l + 1].hash)
  {
    Climb(t, c);
    l := LeftChild(t.leafCount, t.nodes[c].parent);
    ParentInNextLayer(t.leafCount, c);
    assert NodeShaped(t.leafCount, l, t.nodes[l]);
    assert NodeShaped(t.leafCount, l + 1, t.nodes[l + 1]);
  }

  /**
   A parent's hash combines its child's sibling first and the child second:
   construction puts the left child first, so for a left child this is the
   symmetry of the combiner.
   */
  lemma ParentHash(hs: Hasher, t: Tree, c: int)
    requires hs.Valid() && Shaped(t) && HashConsistent(hs, t)
    requires 0 <= c < t.nodeCount && t.nodes[c].parent != -1
    ensures 0 <= SiblingOf(c) < t.nodeCount && 0 <= t.nodes[c].parent < t.nodeCount
    ensures |t.nodes[c].hash| == HBytes && |t.nodes[SiblingOf(c)].hash| == HBytes
    ensures t.nodes[t.nodes[c].parent].hash == Combine(hs, t.nodes[SiblingOf(c)].hash, t.nodes[c].hash)
  {
    var p := t.nodes[c].parent;
    var l := Family(t, c);
    ChildHashes(hs, t, p);
    PairHash(hs, t.nodes, p, l, c, SiblingOf(c));
  }

  /**
   The round trip: reconstructing from any node's own path and own hash
   yields the root hash of a tree whose inner hashes are consistent, as
   build_tree leaves them.
   */
  lemma {:induction false} RootFromPath(hs: Hasher, t: Tree, c: int)
    requires hs.Valid() && Shaped(t) && HashConsistent(hs, t)
    requires 0 <= c < t.nodeCount
    ensures FindRootFromPath(hs, PathFrom(t, c), t.nodes[c].hash) == t.nodes[t.nodeCount - 1].hash
    decreases t.nodeCount - c
  {
    if t.nodes[c].parent == -1 {
      AtRoot(t, c);
    } else {
      Climb(t, c);
      ParentHash(hs, t, c);
      var p := t.nodes[c].parent;
      var hc, hsib := t.nodes[c].hash, t.nodes[SiblingOf(c)].hash;
      assert PathFrom(t, c) == [hsib] + PathFrom(t, p);
      FoldStep(hs, hsib, PathFrom(t, p), hc);
      RootFromPath(hs, t, p);
    }
  }

  /** For every leaf: its path has log2 L entries and reconstructs the tree's root hash. */
  lemma LeafRoundTrip(hs: Hasher, t: Tree, i: int)
    requires hs.Valid() && Shaped(t) && HashConsistent(hs, t)
    requires 0 <= i < t.leafCount
    ensures |PathFrom(t, i)| == Log2(t.leafCount)
    ensures FindRootFromPath(hs, PathFrom(t, i), t.nodes[i].hash) == t.nodes[t.nodeCount - 1].hash
  {
    LeafLayer(t.leafCount, i);
    RootFromPath(hs, t, i);
  }
}
