/**
 Index arithmetic of the flat node array built by build_tree in mtree.h.

 A tree over L leaves (L a power of two) has 2L-1 nodes. Layers are named by
 their size s, a power of two not above L: the layer of size s occupies the
 indices [2L-2s, 2L-s). The leaves are the layer of size L, at [0, L); the
 root is the layer of size 1, the single index 2L-2. In the source's terms,
 layer k (leaves are layer 0) is the layer of size L/2^k.
 */
module Layout {
  import opened Hashing

  predicate IsPow2(x: int)
    decreases if x > 0 then x else 0
  {
    x == 1 || (x >= 2 && x % 2 == 0 && IsPow2(x / 2))
  }

  /** Integer base-2 logarithm of a power of two (the source's `PATH_SIZE`). */
  function Log2(x: int): (k: nat)
    requires IsPow2(x)
    ensures Pow2(k) == x
  {
    if x == 1 then 0 else 1 + Log2(x / 2)
  }

  /** First index of the layer of size `s`. */
  function LayerStart(L: int, s: int): int {
    2 * L - 2 * s
  }

  /** Searches the layers from size `s` downwards for the one holding index `i`. */
  function LayerSizeFrom(L: int, s: int, i: int): (r: int)
    requires IsPow2(L) && IsPow2(s) && s <= L
    requires LayerStart(L, s) <= i < 2 * L - 1
    ensures IsPow2(r) && r <= s
    ensures LayerStart(L, r) <= i < LayerStart(L, r) + r
    decreases s
  {
    if i < LayerStart(L, s) + s then s else LayerSizeFrom(L, s / 2, i)
  }

  /** The size of the layer that node `i` belongs to. */
  function LayerSize(L: int, i: int): (s: int)
    requires IsPow2(L) && 0 <= i < 2 * L - 1
    ensures IsPow2(s) && s <= L
    ensures LayerStart(L, s) <= i < LayerStart(L, s) + s
  {
    LayerSizeFrom(L, L, i)
  }

  /** The parent index build_tree records: -1 for the root, else the next layer's start plus half the position. */
  function ParentOf(L: int, i: int): int
    requires IsPow2(L) && 0 <= i < 2 * L - 1
  {
    if i == 2 * L - 2 then -1 else L + i / 2
  }

  /** The `prev` link build_tree records: -1 at the first node of a layer. */
  function PrevOf(L: int, i: int): int
    requires IsPow2(L) && 0 <= i < 2 * L - 1
  {
    if i == LayerStart(L, LayerSize(L, i)) then -1 else i - 1
  }

  /** The `next` link build_tree records: -1 at the last node of a layer. */
  function NextOf(L: int, i: int): int
    requires IsPow2(L) && 0 <= i < 2 * L - 1
  {
    var s := LayerSize(L, i);
    if i == LayerStart(L, s) + s - 1 then -1 else i + 1
  }

  /** The sibling find_path selects by absolute parity: `prev` for odd, `next` for even. */
  function SiblingOf(i: int): int {
    if i % 2 == 1 then i - 1 else i + 1
  }

  /** The left child of inner node `p`: build_tree's cursor `j` when `in == p`. */
  function LeftChild(L: int, p: int): int {
    2 * (p - L)
  }

  // ---------------------------------------------------------------------
  // Properties

  /** Distinct powers of two are at least a factor of two apart. */
  lemma {:induction false} Pow2Gap(a: int, b: int)
    requires IsPow2(a) && IsPow2(b) && a < b
    ensures 2 * a <= b
  {
    if a != 1 {
      Pow2Gap(a / 2, b / 2);
    }
  }

  /** Layers do not overlap: any layer whose range holds `i` is the layer LayerSize reports. */
  lemma LayerSizeUnique(L: int, s: int, i: int)
    requires IsPow2(L) && IsPow2(s) && s <= L
    requires LayerStart(L, s) <= i < LayerStart(L, s) + s
    ensures LayerSize(L, i) == s
  {
    var r := LayerSize(L, i);
    if r < s {
      Pow2Gap(r, s);
    } else if s < r {
      Pow2Gap(s, r);
    }
  }

  /** The leaves form the layer of size L, with the links the leaf loop of build_tree intends. */
  lemma LeafLayer(L: int, i: int)
    requires IsPow2(L) && 0 <= i < L
    ensures LayerSize(L, i) == L
    ensures PrevOf(L, i) == (if i == 0 then -1 else i - 1)
    ensures NextOf(L, i) == (if i == L - 1 then -1 else i + 1)
  {
    LayerSizeUnique(L, L, i);
  }

  /** The root is alone in its layer, has no parent and no neighbours; it is the only node without a parent. */
  lemma RootLayer(L: int)
    requires IsPow2(L)
    ensures LayerSize(L, 2 * L - 2) == 1
    ensures PrevOf(L, 2 * L - 2) == -1 && NextOf(L, 2 * L - 2) == -1
    ensures forall i :: 0 <= i < 2 * L - 1 ==> (ParentOf(L, i) == -1 <==> i == 2 * L - 2)
  {
    LayerSizeUnique(L, 1, 2 * L - 2);
  }

  /**
   The parent of a non-root node lies in the next layer up, at half the
   child's position within its own layer; every layer starts at an even index.
   */
  lemma ParentInNextLayer(L: int, c: int)
    requires IsPow2(L) && 0 <= c < 2 * L - 2
    ensures LayerSize(L, c) >= 2
    ensures c < ParentOf(L, c) < 2 * L - 1
    ensures LayerSize(L, ParentOf(L, c)) == LayerSize(L, c) / 2
    ensures LayerStart(L, LayerSize(L, c)) % 2 == 0
    ensures ParentOf(L, c) - LayerStart(L, LayerSize(L, c) / 2)
         == (c - LayerStart(L, LayerSize(L, c))) / 2
  {
    var s := LayerSize(L, c);
    LayerSizeUnique(L, s / 2, ParentOf(L, c));
  }

  /**
   find_path's parity rule picks the right sibling: for a non-root node the
   absolute parity equals the parity of its position within its layer; an odd
   node's `prev` and an even node's `next` is its sibling, which lies in the
   same layer and has the same parent.
   */
  lemma SiblingByParity(L: int, c: int)
    requires IsPow2(L) && 0 <= c < 2 * L - 2
    ensures c % 2 == (c - LayerStart(L, LayerSize(L, c))) % 2
    ensures 0 <= SiblingOf(c) < 2 * L - 2
    ensures LayerSize(L, SiblingOf(c)) == LayerSize(L, c)
    ensures ParentOf(L, SiblingOf(c)) == ParentOf(L, c)
    ensures c % 2 == 1 ==> PrevOf(L, c) == SiblingOf(c)
    ensures c % 2 == 0 ==> NextOf(L, c) == SiblingOf(c)
  {
    var s := LayerSize(L, c);
    ParentInNextLayer(L, c);
    assert s % 2 == 0;
    LayerSizeUnique(L, s, SiblingOf(c));
  }
}
