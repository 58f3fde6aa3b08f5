/**
 The parts of mtree.h that misbehave, modelled as the C code writes them,
 next to lemmas that show the misbehaviour. The rest of the model uses the
 corrected definitions: Combiner.ConvertBinary and Combiner.Combine for the
 combiner, Builder.FillLeaves for the leaf links, Paths.FindRootFromPath for
 reconstruction.
 */
module AsWritten {
  import opened Hashing
  import opened Combiner
  import opened Layout
  import opened Paths

  /** The outcome of code that may index outside its buffer: the value, or the first index it reaches outside. */
  datatype Access<T> = Ok(value: T) | OutOfBounds(index: int)

  // ---------------------------------------------------------------------
  // convert_binary

  /**
   convert_binary as written, with the int buffer as a map from the cells
   written to the values stored. Byte `i` bit `j` goes to cell
   HBits - ((HBytes-1-i)*8 + j); the cells written are 1 .. HBits, so cell 0
   keeps whatever the buffer held and cell HBits lies one past the HBits
   cells the caller allocated. Cell p holds position p-1 of the corrected
   bit vector.
   */
  method ConvertBinaryAsWritten(h: seq<byte>) returns (written: map<int, int>)
    requires IsHash(h)
    ensures forall p :: p in written <==> 1 <= p <= HBits
    ensures forall i, j :: 0 <= i < HBytes && 0 <= j < 8 ==>
      HBits - ((HBytes - 1 - i) * 8 + j) in written
      && written[HBits - ((HBytes - 1 - i) * 8 + j)] == Bit(h[i], j)
    ensures forall p :: p in written ==> written[p] == 0 || written[p] == 1
    ensures HBits in written && 0 !in written
    ensures forall p :: 1 <= p <= HBits ==> p in written && written[p] == ConvertBinary(h)[p - 1]
  {
    written := map[];
    var index := 0;
    var i := HBytes - 1;
    while i >= 0
      invariant -1 <= i < HBytes
      invariant index == (HBytes - 1 - i) * 8
      invariant forall p :: p in written <==> HBits - index < p <= HBits
      invariant forall i', j :: i < i' < HBytes && 0 <= j < 8 ==>
        written[HBits - ((HBytes - 1 - i') * 8 + j)] == Bit(h[i'], j)
    {
      var j := 0;
      while j < 8
        invariant 0 <= j <= 8
        invariant index == (HBytes - 1 - i) * 8 + j
        invariant forall p :: p in written <==> HBits - index < p <= HBits
        invariant forall i', j' :: i < i' < HBytes && 0 <= j' < 8 ==>
          written[HBits - ((HBytes - 1 - i') * 8 + j')] == Bit(h[i'], j')
        invariant forall j' :: 0 <= j' < j ==>
          written[HBits - ((HBytes - 1 - i) * 8 + j')] == Bit(h[i], j')
      {
        written := written[HBits - index := Bit(h[i], j)];
        index := index + 1;
        j := j + 1;
      }
      i := i - 1;
    }
    forall p | 1 <= p <= HBits
      ensures written[p] == ConvertBinary(h)[p - 1]
    {
      var i', j' := HBytes - 1 - (HBits - p) / 8, (HBits - p) % 8;
      assert 0 <= i' < HBytes && 0 <= j' < 8;
      assert p == HBits - ((HBytes - 1 - i') * 8 + j');
      assert p - 1 == HBits - 1 - ((HBytes - 1 - i') * 8 + j');
      assert written[p] == Bit(h[i'], j');
    }
  }

  // ---------------------------------------------------------------------
  // get_concat_hash

  /**
   The HBits cells of binary3 as written. Cell 0 of both operand buffers is
   never written, so its XOR is an unknown `junk`; cell k (k >= 1) XORs
   position k-1 of the two bit vectors; position HBits-1, stored past the
   buffers, is never read.
   */
  function XorCellsAsWritten(junk: int, a: seq<byte>, b: seq<byte>): (x: seq<int>)
    requires IsHash(a) && IsHash(b)
    ensures |x| == HBits && x[0] == junk
    ensures forall k :: 1 <= k < HBits ==> (x[k] == 1 <==> ConvertBinary(a)[k - 1] != ConvertBinary(b)[k - 1])
  {
    [junk] + XorVector(a, b)[..HBits - 1]
  }

  /** The XOR loop of get_concat_hash as written: it visits cells 0 .. HBits-1 of the two buffers. */
  method XorLoopAsWritten(junk: int, a: seq<byte>, b: seq<byte>) returns (x: seq<int>)
    requires IsHash(a) && IsHash(b)
    ensures x == XorCellsAsWritten(junk, a, b)
    ensures x[0] == junk
    ensures forall k :: 1 <= k < HBits ==> (x[k] == 1 <==> ConvertBinary(a)[k - 1] != ConvertBinary(b)[k - 1])
  {
    var binary1 := ConvertBinaryAsWritten(a);
    var binary2 := ConvertBinaryAsWritten(b);
    x := [junk];
    var i := 1;
    while i < HBits
      invariant 1 <= i <= HBits && |x| == i && x[0] == junk
      invariant forall k :: 1 <= k < i ==> x[k] == XorVector(a, b)[k - 1]
    {
      x := x + [if binary1[i] == binary2[i] then 0 else 1];
      i := i + 1;
    }
    assert x == XorCellsAsWritten(junk, a, b) by {
      forall k | 1 <= k < HBits ensures x[k] == XorCellsAsWritten(junk, a, b)[k] { }
    }
  }

  /** get_concat_hash as written: SHAKE256 over the serialised cells of binary3. */
  function CombineAsWritten(hs: Hasher, junk: int, a: seq<byte>, b: seq<byte>): (r: seq<byte>)
    requires hs.Valid() && IsHash(a) && IsHash(b)
    ensures |r| == HBytes
  {
    hs.shake(hs.ser(XorCellsAsWritten(junk, a, b)), HBytes)
  }

  /**
   The serialisation that turns the as-written cells into the corrected
   combiner's input: the uninitialised cell goes first and the last
   position is dropped, as the as-written loop does.
   */
  function JunkSer(hs: Hasher, junk: int): (hs': Hasher)
    ensures hs'.shake == hs.shake
    ensures forall v: seq<int> {:trigger hs'.ser(v)} :: |v| != HBits ==> hs'.ser(v) == hs.ser(v)
  {
    Hasher(hs.shake, v => if |v| == HBits then hs.ser([junk] + v[..HBits - 1]) else hs.ser(v))
  }

  /**
   For one value of the uninitialised cell, the combiner as written is the
   corrected combiner over another serialisation; the tree theorems, which
   hold for every serialisation, therefore hold for it too.
   */
  lemma CombineAsWrittenIsCombine(hs: Hasher, junk: int, a: seq<byte>, b: seq<byte>)
    requires hs.Valid() && IsHash(a) && IsHash(b)
    ensures JunkSer(hs, junk).Valid()
    ensures CombineAsWritten(hs, junk, a, b) == Combine(JunkSer(hs, junk), a, b)
  {
  }

  /**
   The combiner as written is symmetric for one value of the uninitialised
   cell; two calls see the same value only if their fresh buffers happen to
   hold it.
   */
  lemma CombineAsWrittenSymmetric(hs: Hasher, junk: int, a: seq<byte>, b: seq<byte>)
    requires hs.Valid() && IsHash(a) && IsHash(b)
    ensures CombineAsWritten(hs, junk, a, b) == CombineAsWritten(hs, junk, b, a)
  {
    XorVectorSymmetric(a, b);
  }

  /**
   The combiner as written never reads bit 0 of the last byte: two operands
   that differ only there give the same parent hash, for every SHAKE256 and
   serialisation.
   */
  lemma LastBitIgnored(hs: Hasher, junk: int, a: seq<byte>, a': seq<byte>, b: seq<byte>)
    requires hs.Valid() && IsHash(a) && IsHash(a') && IsHash(b)
    requires a[..HBytes - 1] == a'[..HBytes - 1] && a[HBytes - 1] / 2 == a'[HBytes - 1] / 2
    ensures CombineAsWritten(hs, junk, a, b) == CombineAsWritten(hs, junk, a', b)
  {
    var u, u' := ConvertBinary(a), ConvertBinary(a');
    forall p | 0 <= p < HBits - 1 ensures u[p] == u'[p] {
      ExpandIndex(a, HBytes, p);
      ExpandIndex(a', HBytes, p);
      if p / 8 < HBytes - 1 {
        assert a[..HBytes - 1][p / 8] == a'[..HBytes - 1][p / 8];
      }
    }
    assert XorVector(a, b)[..HBits - 1] == XorVector(a', b)[..HBits - 1];
  }

  /** The all-zero hash. */
  function ZeroHash(): (h: seq<byte>)
    ensures |h| == HBytes
  {
    seq(HBytes, _ => 0)
  }

  /**
   A concrete collision of the combiner as written: the zero hash and the
   hash whose last byte is 1 combine with the zero hash to the same parent,
   although their XOR vectors differ; the corrected XOR vector tells them apart.
   */
  lemma CombineAsWrittenCollision(hs: Hasher, junk: int)
    requires hs.Valid()
    ensures CombineAsWritten(hs, junk, ZeroHash()[HBytes - 1 := 1], ZeroHash())
         == CombineAsWritten(hs, junk, ZeroHash(), ZeroHash())
    ensures XorVector(ZeroHash()[HBytes - 1 := 1], ZeroHash()) != XorVector(ZeroHash(), ZeroHash())
  {
    var z := ZeroHash();
    var o := z[HBytes - 1 := 1];
    assert o[..HBytes - 1] == z[..HBytes - 1];
    LastBitIgnored(hs, junk, o, z, z);
    assert o[..HBytes] != z[..HBytes] by {
      assert o[..HBytes][HBytes - 1] != z[..HBytes][HBytes - 1];
    }
    XorVectorDeterminesOperand(o, z, z);
  }

  // ---------------------------------------------------------------------
  // The bytes shake256 reads from binary3

  /** Byte `k` (0 .. 3) of the 4-byte little-endian two's-complement form of `x`. */
  function IntByte(x: int, k: nat): (b: byte)
    requires k < 4
  {
    var scale := if k == 0 then 1 else if k == 1 then 0x100 else if k == 2 then 0x1_0000 else 0x100_0000;
    (x % 0x1_0000_0000) / scale % 256
  }

  /**
   The HBits bytes shake256 reads at `(unsigned char*)binary3`, with 4-byte
   little-endian ints: byte m is byte m % 4 of cell m / 4, so only the first
   HBits / 4 cells are read.
   */
  function SerAsWritten(v: seq<int>): (bytes: seq<byte>)
    requires |v| >= HBits / 4
    ensures |bytes| == HBits
    ensures forall c :: 0 <= c < HBits / 4 && (v[c] == 0 || v[c] == 1) ==>
      bytes[4 * c] == v[c] && bytes[4 * c + 1] == 0 && bytes[4 * c + 2] == 0 && bytes[4 * c + 3] == 0
  {
    seq(HBits, m requires 0 <= m < HBits => IntByte(v[m / 4], m % 4))
  }

  /** The serialisation as written depends on the first HBits / 4 cells alone. */
  lemma SerAsWrittenReadsQuarter(u: seq<int>, w: seq<int>)
    requires |u| >= HBits / 4 && |w| >= HBits / 4
    ensures u[..HBits / 4] == w[..HBits / 4] ==> SerAsWritten(u) == SerAsWritten(w)
  {
    if u[..HBits / 4] == w[..HBits / 4] {
      forall m | 0 <= m < HBits ensures SerAsWritten(u)[m] == SerAsWritten(w)[m] {
        assert u[..HBits / 4][m / 4] == w[..HBits / 4][m / 4];
      }
    }
  }

  /** The first HBits / 4 cells of binary3 as written depend on the first four bytes of each operand alone. */
  lemma XorCellsFirstQuarter(junk: int, a: seq<byte>, a': seq<byte>, b: seq<byte>)
    requires IsHash(a) && IsHash(a') && IsHash(b) && a[..4] == a'[..4]
    ensures XorCellsAsWritten(junk, a, b)[..HBits / 4] == XorCellsAsWritten(junk, a', b)[..HBits / 4]
  {
    var u, u' := ConvertBinary(a), ConvertBinary(a');
    forall p | 0 <= p < HBits / 4 - 1 ensures u[p] == u'[p] {
      ExpandIndex(a, HBytes, p);
      ExpandIndex(a', HBytes, p);
      assert a[..4][p / 8] == a'[..4][p / 8];
    }
    var x, x' := XorCellsAsWritten(junk, a, b), XorCellsAsWritten(junk, a', b);
    forall k | 0 <= k < HBits / 4 ensures x[k] == x'[k] {
      if k > 0 {
        assert x[k] == XorVector(a, b)[k - 1];
        assert x'[k] == XorVector(a', b)[k - 1];
      }
    }
  }

  /**
   With that serialisation, the combiner as written reads only the first
   four bytes of each operand: operands equal there give the same parent.
   */
  lemma CombineAsWrittenReadsFourBytes(hs: Hasher, junk: int, a: seq<byte>, a': seq<byte>, b: seq<byte>)
    requires hs.Valid() && IsHash(a) && IsHash(a') && IsHash(b)
    requires forall v :: |v| >= HBits / 4 ==> hs.ser(v) == SerAsWritten(v)
    requires a[..4] == a'[..4]
    ensures CombineAsWritten(hs, junk, a, b) == CombineAsWritten(hs, junk, a', b)
  {
    var x, x' := XorCellsAsWritten(junk, a, b), XorCellsAsWritten(junk, a', b);
    XorCellsFirstQuarter(junk, a, a', b);
    SerAsWrittenReadsQuarter(x, x');
    assert hs.ser(x) == hs.ser(x');
  }

  /**
   Changing byte 4 of an operand, which the partial read never reaches,
   leaves the parent unchanged although the XOR vector changes.
   */
  lemma ByteFourIgnored(hs: Hasher, junk: int, a: seq<byte>, b: seq<byte>, v: byte)
    requires hs.Valid() && IsHash(a) && IsHash(b) && v != a[4]
    requires forall w :: |w| >= HBits / 4 ==> hs.ser(w) == SerAsWritten(w)
    ensures CombineAsWritten(hs, junk, a[4 := v], b) == CombineAsWritten(hs, junk, a, b)
    ensures XorVector(a[4 := v], b) != XorVector(a, b)
  {
    var o := a[4 := v];
    assert o[..4] == a[..4];
    CombineAsWrittenReadsFourBytes(hs, junk, o, a, b);
    assert o[..HBytes] != a[..HBytes] by {
      assert o[..HBytes][4] != a[..HBytes][4];
    }
    XorVectorDeterminesOperand(o, a, b);
  }

  /**
   A concrete collision caused by the partial read alone: the zero hash and
   the hash whose byte 4 is 1 give the same parent, although their XOR
   vectors differ.
   */
  lemma SerAsWrittenCollision(hs: Hasher, junk: int)
    requires hs.Valid()
    requires forall v :: |v| >= HBits / 4 ==> hs.ser(v) == SerAsWritten(v)
    ensures CombineAsWritten(hs, junk, ZeroHash()[4 := 1], ZeroHash())
         == CombineAsWritten(hs, junk, ZeroHash(), ZeroHash())
    ensures XorVector(ZeroHash()[4 := 1], ZeroHash()) != XorVector(ZeroHash(), ZeroHash())
  {
    ByteFourIgnored(hs, junk, ZeroHash(), ZeroHash(), 1);
  }

  /** A serialisation that hands every one of the HBits cells to the hash, one byte per 0/1 cell. */
  function SerAllCells(v: seq<int>): (bytes: seq<byte>)
    requires |v| == HBits && IsBitVector(v)
    ensures |bytes| == HBits
  {
    seq(HBits, k requires 0 <= k < HBits => v[k])
  }

  /**
   With the corrected combiner and a serialisation of all cells, the bytes
   handed to SHAKE256 determine each operand given the other.
   */
  lemma CombineInputSeparates(hs: Hasher, a: seq<byte>, a': seq<byte>, b: seq<byte>)
    requires IsHash(a) && IsHash(a') && IsHash(b)
    requires forall v :: |v| == HBits && IsBitVector(v) ==> hs.ser(v) == SerAllCells(v)
    ensures hs.ser(XorVector(a, b)) == hs.ser(XorVector(a', b)) <==> a[..HBytes] == a'[..HBytes]
  {
    var u, w := XorVector(a, b), XorVector(a', b);
    if hs.ser(u) == hs.ser(w) {
      forall k | 0 <= k < HBits ensures u[k] == w[k] {
        assert SerAllCells(u)[k] == SerAllCells(w)[k];
      }
      assert u == w;
    }
    XorVectorDeterminesOperand(a, a', b);
  }

  // ---------------------------------------------------------------------
  // Leaf links of build_tree

  /**
   The leaf-link branch of build_tree as written, over the 2L-1 nodes: leaf
   0 reads the id of node 1 before the last-leaf test is made, which lies
   outside the array when L == 1. The answer is the (prev, next) pair.
   */
  function LeafLinksAsWritten(L: int, i: int): (r: Access<(int, int)>)
    requires IsPow2(L) && 0 <= i < L
    ensures r.OutOfBounds? <==> L == 1
    ensures r.Ok? ==> r.value == (PrevOf(L, i), NextOf(L, i))
  {
    LeafLayer(L, i);
    var nodeCount := 2 * L - 1;
    if i == 0 then
      if i + 1 < nodeCount then Ok((-1, i + 1)) else OutOfBounds(i + 1)
    else if i == L - 1 then
      Ok((i - 1, -1))
    else
      Ok((i - 1, i + 1))
  }

  /** With two or more leaves the links as written are the intended ones. */
  lemma LeafLinksAsWrittenAgree(L: int, i: int)
    requires IsPow2(L) && L >= 2 && 0 <= i < L
    ensures LeafLinksAsWritten(L, i) == Ok((PrevOf(L, i), NextOf(L, i)))
  {
    LeafLayer(L, i);
  }

  /** With a single leaf, leaf 0 reads node 1 of a one-node array. */
  lemma LeafLinksAsWrittenSingleLeaf()
    ensures IsPow2(1) && LeafLinksAsWritten(1, 0) == OutOfBounds(1)
    ensures PrevOf(1, 0) == -1 && NextOf(1, 0) == -1
  {
    LeafLayer(1, 0);
  }

  // ---------------------------------------------------------------------
  // find_root_from_path

  /**
   find_root_from_path as written: md_values[0] combines path[0] with the
   node hash, md_values[i] combines path[i] with md_values[i-1], and the root
   is md_values[len-1]. With len == 0 the first write already falls outside
   the zero-length md_values.
   */
  method FindRootFromPathAsWritten(hs: Hasher, path: seq<seq<byte>>, nodeHash: seq<byte>, len: int)
    returns (r: Access<seq<byte>>)
    requires hs.Valid() && IsHash(nodeHash) && 0 <= len <= |path|
    requires forall k :: 0 <= k < len ==> IsHash(path[k])
    ensures r.OutOfBounds? <==> len == 0
    ensures len > 0 ==> r == Ok(FindRootFromPath(hs, path[..len], nodeHash))
  {
    if len == 0 {
      return OutOfBounds(0);
    }
    var md := Combine(hs, path[0], nodeHash);
    assert path[..1] == [] + [path[0]];
    FindRootFromPathSnoc(hs, [], path[0], nodeHash);
    var i := 1;
    while i < len
      invariant 1 <= i <= len
      invariant md == FindRootFromPath(hs, path[..i], nodeHash)
    {
      assert path[..i + 1] == path[..i] + [path[i]];
      FindRootFromPathSnoc(hs, path[..i], path[i], nodeHash);
      md := Combine(hs, path[i], md);
      i := i + 1;
    }
    assert md[..HBytes] == md;
    return Ok(md[..HBytes]);
  }
}
