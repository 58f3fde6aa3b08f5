/**
 The tree of mtree.h (`struct NODE`, `TREE`) and its construction
 (`build_tree`): 2L-1 nodes in one flat array, leaves first, each inner layer
 after the layer it is built from.
 */
module Builder {
  import opened Hashing
  import opened Combiner
  import opened Layout

  /** `struct NODE`: links are node indices, -1 where there is none. */
  datatype Node = Node(nodeId: int, hash: seq<byte>, prev: int, next: int, parent: int)

  /** `TREE`: the counts and the flat node array. */
  datatype Tree = Tree(leafCount: int, nodeCount: int, nodes: seq<Node>)

  /** Node `i` carries the id and links build_tree gives the node at that index. */
  predicate NodeShaped(L: int, i: int, n: Node)
    requires IsPow2(L) && 0 <= i < 2 * L - 1
  {
    && n.nodeId == i
    && n.parent == ParentOf(L, i)
    && n.prev == PrevOf(L, i)
    && n.next == NextOf(L, i)
    && |n.hash| == HBytes
  }

  /** The shape of every tree build_tree produces, whatever its hashes. */
  predicate Shaped(t: Tree) {
    && IsPow2(t.leafCount)
    && t.nodeCount == 2 * t.leafCount - 1
    && |t.nodes| == t.nodeCount
    && forall i :: 0 <= i < |t.nodes| ==> NodeShaped(t.leafCount, i, t.nodes[i])
  }

  /** Every inner node holds the combination of its two children's hashes, left child first. */
  ghost predicate HashConsistent(hs: Hasher, t: Tree)
    requires hs.Valid() && Shaped(t)
  {
    forall p {:trigger LeftChild(t.leafCount, p)} :: t.leafCount <= p < t.nodeCount ==>
      t.nodes[p].hash == Combine(hs, t.nodes[LeftChild(t.leafCount, p)].hash,
                                     t.nodes[LeftChild(t.leafCount, p) + 1].hash)
  }

  /** The freshly allocated node of the init loop; its hash buffer is overwritten before use. */
  function FreshNode(i: int): Node {
    Node(i, seq(HBytes, _ => 0), -1, -1, -1)
  }

  /** What build_tree's caller must supply: a power-of-two leaf count and `length` readable bytes per leaf text. */
  predicate Inputs(leafCount: int, hlist: seq<seq<byte>>, length: nat) {
    && IsPow2(leafCount)
    && |hlist| >= leafCount
    && forall i :: 0 <= i < leafCount ==> length <= |hlist[i]|
  }

  /** Parents: children below `j` point at their parent, the others still hold -1. */
  predicate ParentsUpTo(L: int, a: seq<Node>, j: int)
    requires IsPow2(L) && |a| == 2 * L - 1
  {
    && (forall k :: 0 <= k < j && k < |a| ==> a[k].parent == ParentOf(L, k))
    && (forall k :: j <= k < |a| && 0 <= k ==> a[k].parent == -1)
  }

  /** Links: nodes below `cur` are linked within their layers, the others still hold -1. */
  predicate LinksUpTo(L: int, a: seq<Node>, cur: int)
    requires IsPow2(L) && |a| == 2 * L - 1
  {
    && (forall k :: 0 <= k < |a| ==> a[k].nodeId == k)
    && (forall k :: 0 <= k < cur && k < |a| ==>
          a[k].prev == PrevOf(L, k) && a[k].next == NextOf(L, k) && |a[k].hash| == HBytes)
    && (forall k :: cur <= k < |a| && 0 <= k ==> a[k].prev == -1 && a[k].next == -1)
  }

  /** Hashes: leaves hold their text's hash, inner nodes below `cur` the combination of their children. */
  ghost predicate HashesUpTo(hs: Hasher, L: int, hlist: seq<seq<byte>>, length: nat, a: seq<Node>, cur: int)
    requires hs.Valid() && Inputs(L, hlist, length) && |a| == 2 * L - 1 && L <= cur <= 2 * L - 1
    requires forall k :: 0 <= k < cur ==> |a[k].hash| == HBytes
  {
    && (forall k :: 0 <= k < L ==> a[k].hash == LeafHash(hs, hlist[k], length))
    && (forall p :: L <= p < cur ==>
          a[p].hash == Combine(hs, a[LeftChild(L, p)].hash, a[LeftChild(L, p) + 1].hash))
  }

  /**
   The node array part-way through the inner-node loop: nodes below `cur`
   are complete, children below `j` know their parent, the rest is as the
   init loop left it.
   */
  ghost predicate Filled(hs: Hasher, L: int, hlist: seq<seq<byte>>, length: nat, a: seq<Node>, cur: int, j: int)
    requires hs.Valid() && Inputs(L, hlist, length)
  {
    && |a| == 2 * L - 1
    && L <= cur <= 2 * L - 1
    && 0 <= j <= cur
    && ParentsUpTo(L, a, j)
    && LinksUpTo(L, a, cur)
    && HashesUpTo(hs, L, hlist, length, a, cur)
  }

  /** The init loop and the leaf loop of build_tree. */
  method FillLeaves(hs: Hasher, L: int, hlist: seq<seq<byte>>, length: nat) returns (a: seq<Node>)
    requires hs.Valid() && Inputs(L, hlist, length)
    ensures Filled(hs, L, hlist, length, a, L, 0)
  {
    var nodeCount := 2 * L - 1;
    a := seq(nodeCount, FreshNode);
    var i := 0;
    while i < L
      invariant 0 <= i <= L && |a| == nodeCount
      invariant forall k :: 0 <= k < nodeCount ==> a[k].nodeId == k && a[k].parent == -1
      invariant forall k :: 0 <= k < i ==>
        a[k].prev == PrevOf(L, k) && a[k].next == NextOf(L, k) && a[k].hash == LeafHash(hs, hlist[k], length)
      invariant forall k :: i <= k < nodeCount ==> a[k].prev == -1 && a[k].next == -1
    {
      LeafLayer(L, i);
      var prev := if i == 0 then -1 else a[i - 1].nodeId;
      var next := if i == L - 1 then -1 else a[i + 1].nodeId;
      a := a[i := a[i].(prev := prev, next := next, hash := LeafHash(hs, hlist[i], length))];
      i := i + 1;
    }
  }

  /**
   The links build_tree gives inner node `cur` of the layer of
   `layerNodeCount` nodes starting at `subLen`: none for the root, else -1
   at the ends of the layer and the neighbours' ids elsewhere.
   */
  method InnerLinks(L: int, a: seq<Node>, subLen: int, layerNodeCount: int, cur: int) returns (prev: int, next: int)
    requires IsPow2(L) && |a| == 2 * L - 1
    requires forall k :: 0 <= k < |a| ==> a[k].nodeId == k
    requires IsPow2(layerNodeCount) && 2 * layerNodeCount <= L
    requires subLen == LayerStart(L, layerNodeCount) <= cur < subLen + layerNodeCount
    ensures prev == PrevOf(L, cur) && next == NextOf(L, cur)
  {
    var nodeCount := 2 * L - 1;
    LayerSizeUnique(L, layerNodeCount, cur);
    RootLayer(L);
    prev, next := -1, -1;
    if cur != nodeCount - 1 {
      if cur == subLen {
        prev, next := -1, a[cur + 1].nodeId;
      } else if cur == subLen + layerNodeCount - 1 {
        prev, next := a[cur - 1].nodeId, -1;
      } else {
        prev, next := a[cur - 1].nodeId, a[cur + 1].nodeId;
      }
    }
  }

  /**
   One iteration of build_tree's inner loop: links node `cur` within its
   layer (unless it is the root), makes it the parent of `j` and `j+1`, and
   stores the combination of their hashes in it.
   */
  method JoinChildren(hs: Hasher, L: int, hlist: seq<seq<byte>>, length: nat, a0: seq<Node>,
                      subLen: int, layerNodeCount: int, j: int, cur: int) returns (a: seq<Node>)
    requires hs.Valid() && Inputs(L, hlist, length)
    requires IsPow2(layerNodeCount) && 2 * layerNodeCount <= L
    requires subLen == LayerStart(L, layerNodeCount) <= cur < subLen + layerNodeCount
    requires j == LeftChild(L, cur)
    requires Filled(hs, L, hlist, length, a0, cur, j)
    ensures Filled(hs, L, hlist, length, a, cur + 1, j + 2)
  {
    var prev, next := InnerLinks(L, a0, subLen, layerNodeCount, cur);
    var parentNode := Node(cur, Combine(hs, a0[j].hash, a0[j + 1].hash), prev, next, -1);
    a := a0[j := a0[j].(parent := cur)][j + 1 := a0[j + 1].(parent := cur)][cur := parentNode];
    forall k | 0 <= k < |a| && k != cur
      ensures a[k].prev == a0[k].prev && a[k].next == a0[k].next
      ensures a[k].hash == a0[k].hash && a[k].nodeId == a0[k].nodeId
      ensures k != j && k != j + 1 ==> a[k] == a0[k]
    {
    }
    JoinKeepsParents(L, a0, a, j, cur);
    JoinKeepsLinks(L, a0, a, cur);
    JoinKeepsHashes(hs, L, hlist, length, a0, a, cur);
  }

  lemma JoinKeepsParents(L: int, a0: seq<Node>, a: seq<Node>, j: int, cur: int)
    requires IsPow2(L) && |a0| == |a| == 2 * L - 1
    requires L <= cur < 2 * L - 1 && j == LeftChild(L, cur)
    requires ParentsUpTo(L, a0, j)
    requires forall k :: 0 <= k < |a| && k != j && k != j + 1 && k != cur ==> a[k].parent == a0[k].parent
    requires a[j].parent == cur && a[j + 1].parent == cur && a[cur].parent == -1
    ensures ParentsUpTo(L, a, j + 2)
  {
    assert ParentOf(L, j) == cur && ParentOf(L, j + 1) == cur;
  }

  lemma JoinKeepsLinks(L: int, a0: seq<Node>, a: seq<Node>, cur: int)
    requires IsPow2(L) && |a0| == |a| == 2 * L - 1 && 0 <= cur < 2 * L - 1
    requires LinksUpTo(L, a0, cur)
    requires forall k :: 0 <= k < |a| && k != cur ==>
      a[k].prev == a0[k].prev && a[k].next == a0[k].next && a[k].hash == a0[k].hash && a[k].nodeId == a0[k].nodeId
    requires a[cur].nodeId == cur && a[cur].prev == PrevOf(L, cur) && a[cur].next == NextOf(L, cur)
    requires |a[cur].hash| == HBytes
    ensures LinksUpTo(L, a, cur + 1)
  {
  }

  lemma JoinKeepsHashes(hs: Hasher, L: int, hlist: seq<seq<byte>>, length: nat, a0: seq<Node>, a: seq<Node>, cur: int)
    requires hs.Valid() && Inputs(L, hlist, length)
    requires |a0| == |a| == 2 * L - 1 && L <= cur < 2 * L - 1
    requires forall k :: 0 <= k < cur + 1 ==> |a[k].hash| == HBytes
    requires forall k :: 0 <= k < cur ==> a0[k].hash == a[k].hash
    requires HashesUpTo(hs, L, hlist, length, a0, cur)
    requires a[cur].hash == Combine(hs, a[LeftChild(L, cur)].hash, a[LeftChild(L, cur) + 1].hash)
    ensures HashesUpTo(hs, L, hlist, length, a, cur + 1)
  {
  }

  /**
   One pass of build_tree's inner `while (j < sub_len - 1)` loop: pairs the
   children `j, j+1` of the child layer ending at `subLen` into the layer of
   `layerNodeCount` nodes starting at `subLen`.
   */
  method FillLayer(hs: Hasher, L: int, hlist: seq<seq<byte>>, length: nat, a0: seq<Node>,
                   subLen: int, layerNodeCount: int) returns (a: seq<Node>, j: int, cur: int)
    requires hs.Valid() && Inputs(L, hlist, length)
    requires IsPow2(layerNodeCount) && 2 * layerNodeCount <= L
    requires subLen == LayerStart(L, layerNodeCount)
    requires Filled(hs, L, hlist, length, a0, subLen, LeftChild(L, subLen))
    ensures cur == subLen + layerNodeCount && j == LeftChild(L, cur) && j == subLen
    ensures Filled(hs, L, hlist, length, a, cur, j)
  {
    a, j, cur := a0, LeftChild(L, subLen), subLen;
    while j < subLen - 1
      invariant subLen <= cur <= subLen + layerNodeCount
      invariant j == LeftChild(L, cur)
      invariant Filled(hs, L, hlist, length, a, cur, j)
      decreases subLen - j
    {
      a := JoinChildren(hs, L, hlist, length, a, subLen, layerNodeCount, j, cur);
      j := j + 2;
      cur := cur + 1;
    }
  }

  /**
   build_tree: hashes the first `length` bytes of each leaf text into the
   leaves, links each layer, and fills the inner layers bottom-up with the
   cursors `j` (next child), `in` (next inner node), `sub_len` (end of the
   child layer) and `layer_node_count` (size of the layer being built).
   The source's comment demands a power-of-two leaf count; nothing checks it.
   */
  method BuildTree(hs: Hasher, leafCount: int, hlist: seq<seq<byte>>, length: nat) returns (t: Tree)
    requires hs.Valid()
    requires Inputs(leafCount, hlist, length)
    ensures t.leafCount == leafCount && t.nodeCount == 2 * leafCount - 1
    ensures Shaped(t)
    ensures HashConsistent(hs, t)
    ensures forall i :: 0 <= i < leafCount ==> t.nodes[i].hash == LeafHash(hs, hlist[i], length)
    ensures forall i :: 0 <= i < t.nodeCount ==> (t.nodes[i].parent == -1 <==> i == t.nodeCount - 1)
  {
    var L := leafCount;
    var nodeCount := 2 * L - 1;
    var a := FillLeaves(hs, L, hlist, length);

    var j := 0;
    var layerNodeCount := L / 2;
    var subLen := L;
    var cur := L;
    ghost var childSize := L;
    while cur < nodeCount
      invariant IsPow2(childSize) && childSize <= L
      invariant subLen == LayerStart(L, childSize) + childSize == cur
      invariant j == LeftChild(L, cur)
      invariant layerNodeCount == childSize / 2
      invariant Filled(hs, L, hlist, length, a, cur, j)
      decreases childSize
    {
      a, j, cur := FillLayer(hs, L, hlist, length, a, subLen, layerNodeCount);
      subLen := L + subLen / 2;
      layerNodeCount := layerNodeCount / 2;
      childSize := childSize / 2;
    }

    RootLayer(L);
    t := Tree(L, nodeCount, a);
  }
}
