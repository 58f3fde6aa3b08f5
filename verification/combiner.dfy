/**
 The combiner of mtree.h: a hash is expanded into a vector of 0/1 values,
 the two vectors are XORed position by position, and the XOR vector is
 hashed into the parent hash (`convert_binary`, `get_concat_hash`).

 This module holds the corrected combiner, in which the bit vector occupies
 exactly positions 0 .. HBits-1; the combiner as the C code writes it is in
 module AsWritten, together with the lemmas that show where the two differ.
 */
module Combiner {
  import opened Hashing

  /** Bit `j` of a non-negative value: `(b >> j) & 1`, one halving per shift. */
  function Bit(b: int, j: nat): (r: int)
    requires 0 <= b
    ensures r == 0 || r == 1
  {
    if j == 0 then b % 2 else Bit(b / 2, j - 1)
  }

  predicate IsBitVector(v: seq<int>) {
    forall p :: 0 <= p < |v| ==> v[p] == 0 || v[p] == 1
  }

  /** The low `k` bits of `b`, most significant first. */
  function BitsMsb(b: int, k: nat): (v: seq<int>)
    requires 0 <= b
    ensures |v| == k && IsBitVector(v)
  {
    seq(k, q requires 0 <= q < k => Bit(b, k - 1 - q))
  }

  /** The number a sequence of bits spells, most significant first. */
  function Horner(s: seq<int>): (n: nat)
    requires IsBitVector(s)
  {
    if |s| == 0 then 0 else 2 * Horner(s[..|s| - 1]) + s[|s| - 1]
  }

  /** The eight bits of a byte, most significant first. */
  function ByteBits(b: byte): (v: seq<int>)
    ensures |v| == 8
  {
    BitsMsb(b, 8)
  }

  /** The bits of the first `n` bytes of `h`, byte after byte. */
  function Expand(h: seq<byte>, n: nat): (v: seq<int>)
    requires n <= |h|
    ensures |v| == 8 * n
  {
    if n == 0 then [] else Expand(h, n - 1) + ByteBits(h[n - 1])
  }

  /** The `i`-th group of eight in an expansion holds the bits of byte `i`. */
  lemma {:induction false} ExpandBytes(h: seq<byte>, n: nat)
    requires n <= |h|
    ensures forall i :: 0 <= i < n ==> Expand(h, n)[8 * i..8 * i + 8] == ByteBits(h[i])
  {
    if n > 0 {
      ExpandBytes(h, n - 1);
      var prefix := Expand(h, n - 1);
      var v := Expand(h, n);
      assert v == prefix + ByteBits(h[n - 1]);
      forall i | 0 <= i < n
        ensures v[8 * i..8 * i + 8] == ByteBits(h[i])
      {
        if i < n - 1 {
          assert v[8 * i..8 * i + 8] == prefix[8 * i..8 * i + 8];
        } else {
          assert v[8 * i..8 * i + 8] == ByteBits(h[n - 1]);
        }
      }
    }
  }

  /** Position `p` of an expansion is bit `7 - p % 8` of byte `p / 8`. */
  lemma ExpandIndex(h: seq<byte>, n: nat, p: nat)
    requires n <= |h| && p < 8 * n
    ensures Expand(h, n)[p] == Bit(h[p / 8], 7 - p % 8)
  {
    ExpandBytes(h, n);
    var i := p / 8;
    assert Expand(h, n)[8 * i..8 * i + 8][p % 8] == ByteBits(h[i])[p % 8];
  }

  /** Helper for ConvertBinary's contract: the expansion holds only 0/1, and byte `i` bit `j` lands where convert_binary puts it. */
  lemma ConvertBinaryLayout(h: seq<byte>)
    requires IsHash(h)
    ensures IsBitVector(Expand(h, HBytes))
    ensures forall i, j :: 0 <= i < HBytes && 0 <= j < 8 ==>
      Expand(h, HBytes)[HBits - 1 - ((HBytes - 1 - i) * 8 + j)] == Bit(h[i], j)
  {
    var v := Expand(h, HBytes);
    forall p | 0 <= p < HBits ensures v[p] == 0 || v[p] == 1 {
      ExpandIndex(h, HBytes, p);
    }
    forall i, j | 0 <= i < HBytes && 0 <= j < 8
      ensures v[HBits - 1 - ((HBytes - 1 - i) * 8 + j)] == Bit(h[i], j)
    {
      var p := 8 * i + 7 - j;
      ExpandIndex(h, HBytes, p);
      assert p / 8 == i && p % 8 == 7 - j;
    }
  }

  /**
   Expansion of a hash into HBits values of 0/1. Byte `i` bit `j` lands at
   position HBits-1 - ((HBytes-1-i)*8 + j): the last byte's bits come last,
   most significant bit first, so the vector is the hash as a big-endian
   bit string.
   */
  function ConvertBinary(h: seq<byte>): (v: seq<int>)
    requires IsHash(h)
    ensures |v| == HBits
    ensures IsBitVector(v)
    ensures forall i, j :: 0 <= i < HBytes && 0 <= j < 8 ==>
      v[HBits - 1 - ((HBytes - 1 - i) * 8 + j)] == Bit(h[i], j)
  {
    ConvertBinaryLayout(h);
    Expand(h, HBytes)
  }

  /** Eight 0/1 values, most significant first, packed into one byte. */
  function PackByte(v: seq<int>, off: nat): (b: byte)
    requires off + 8 <= |v| && IsBitVector(v[off..off + 8])
  {
    HornerBound(v[off..off + 8]);
    assert Pow2(8) == 256;
    Horner(v[off..off + 8])
  }

  /** Dense packing of a bit vector, eight bits per byte: the inverse of ConvertBinary. */
  function PackBits(v: seq<int>): (h: seq<byte>)
    requires |v| == HBits && IsBitVector(v)
    ensures |h| == HBytes
  {
    seq(HBytes, i requires 0 <= i < HBytes => PackByte(v, 8 * i))
  }

  /** Position-wise exclusive or of two 0/1 vectors (`binary1[i] ^ binary2[i]`). */
  function Xor(u: seq<int>, w: seq<int>): (x: seq<int>)
    requires |u| == |w| && IsBitVector(u) && IsBitVector(w)
    ensures |x| == |u| && IsBitVector(x)
    ensures forall k :: 0 <= k < |u| ==> (x[k] == 1 <==> u[k] != w[k])
  {
    seq(|u|, k requires 0 <= k < |u| => if u[k] == w[k] then 0 else 1)
  }

  /** The vector `binary3` of get_concat_hash, over all HBits positions. */
  function XorVector(a: seq<byte>, b: seq<byte>): (x: seq<int>)
    requires IsHash(a) && IsHash(b)
    ensures |x| == HBits && IsBitVector(x)
    ensures forall k :: 0 <= k < HBits ==> (x[k] == 1 <==> ConvertBinary(a)[k] != ConvertBinary(b)[k])
  {
    Xor(ConvertBinary(a), ConvertBinary(b))
  }

  /** The parent hash of two child hashes. */
  function Combine(hs: Hasher, a: seq<byte>, b: seq<byte>): (r: seq<byte>)
    requires hs.Valid() && IsHash(a) && IsHash(b)
    ensures |r| == HBytes
  {
    hs.shake(hs.ser(XorVector(a, b)), HBytes)
  }

  // ---------------------------------------------------------------------
  // Properties

  /** `k` bits spell a number below 2^k. */
  lemma {:induction false} HornerBound(s: seq<int>)
    requires IsBitVector(s)
    ensures 0 <= Horner(s) < Pow2(|s|)
  {
    if |s| > 0 {
      HornerBound(s[..|s| - 1]);
    }
  }

  /** Reading back the low `k` bits of a number below 2^k gives the number. */
  lemma {:induction false} HornerBitsMsb(b: int, k: nat)
    requires 0 <= b < Pow2(k)
    ensures Horner(BitsMsb(b, k)) == b
  {
    if k > 0 {
      var s := BitsMsb(b, k);
      forall q | 0 <= q < k - 1 ensures s[q] == BitsMsb(b / 2, k - 1)[q] {
        assert s[q] == Bit(b, k - 1 - q) == Bit(b / 2, k - 2 - q);
      }
      assert s[..k - 1] == BitsMsb(b / 2, k - 1);
      assert s[k - 1] == Bit(b, 0) == b % 2;
      HornerBitsMsb(b / 2, k - 1);
    }
  }

  /** The bits of the number a bit sequence spells are that sequence. */
  lemma {:induction false} BitsMsbHorner(s: seq<int>)
    requires IsBitVector(s)
    ensures BitsMsb(Horner(s), |s|) == s
  {
    if |s| > 0 {
      var k := |s|;
      var init := s[..k - 1];
      BitsMsbHorner(init);
      HornerBound(init);
      var x := Horner(s);
      assert x == 2 * Horner(init) + s[k - 1];
      assert x / 2 == Horner(init);
      forall q | 0 <= q < k ensures BitsMsb(x, k)[q] == s[q] {
        if q < k - 1 {
          assert BitsMsb(x, k)[q] == Bit(x, k - 1 - q) == Bit(x / 2, k - 2 - q);
          assert BitsMsb(Horner(init), k - 1)[q] == Bit(Horner(init), k - 2 - q);
          assert init[q] == s[q];
        } else {
          assert BitsMsb(x, k)[q] == Bit(x, 0) == x % 2;
        }
      }
    }
  }

  /** Packing the expansion of a hash gives the hash back: ConvertBinary loses nothing. */
  lemma PackConvertBinary(h: seq<byte>)
    requires IsHash(h)
    ensures PackBits(ConvertBinary(h)) == h[..HBytes]
  {
    var v := ConvertBinary(h);
    ExpandBytes(h, HBytes);
    assert Pow2(8) == 256;
    forall i | 0 <= i < HBytes
      ensures PackBits(v)[i] == h[i]
    {
      assert v[8 * i..8 * i + 8] == BitsMsb(h[i], 8);
      HornerBitsMsb(h[i], 8);
    }
  }

  /** Expanding a packed bit vector gives the vector back. */
  lemma ConvertBinaryPack(v: seq<int>)
    requires |v| == HBits && IsBitVector(v)
    ensures ConvertBinary(PackBits(v)) == v
  {
    var h := PackBits(v);
    ExpandBytes(h, HBytes);
    forall p | 0 <= p < HBits
      ensures ConvertBinary(h)[p] == v[p]
    {
      var i, q := p / 8, p % 8;
      var s := v[8 * i..8 * i + 8];
      BitsMsbHorner(s);
      assert h[i] == PackByte(v, 8 * i) == Horner(s);
      assert ConvertBinary(h)[8 * i..8 * i + 8] == ByteBits(h[i]) == s;
      assert ConvertBinary(h)[8 * i..8 * i + 8][q] == s[q];
    }
  }

  /** ConvertBinary is injective on the HBytes bytes it reads. */
  lemma ConvertBinaryInjective(a: seq<byte>, b: seq<byte>)
    requires IsHash(a) && IsHash(b)
    ensures ConvertBinary(a) == ConvertBinary(b) <==> a[..HBytes] == b[..HBytes]
  {
    if ConvertBinary(a) == ConvertBinary(b) {
      PackConvertBinary(a);
      PackConvertBinary(b);
    }
    if a[..HBytes] == b[..HBytes] {
      forall p | 0 <= p < HBits ensures ConvertBinary(a)[p] == ConvertBinary(b)[p] {
        ExpandIndex(a, HBytes, p);
        ExpandIndex(b, HBytes, p);
        assert a[..HBytes][p / 8] == b[..HBytes][p / 8];
      }
    }
  }

  /** The XOR vector does not depend on the order of the two hashes. */
  lemma XorVectorSymmetric(a: seq<byte>, b: seq<byte>)
    requires IsHash(a) && IsHash(b)
    ensures XorVector(a, b) == XorVector(b, a)
  {
    var x, y := XorVector(a, b), XorVector(b, a);
    forall k | 0 <= k < HBits ensures x[k] == y[k] { }
  }

  /** get_concat_hash is symmetric, whatever SHAKE256 and the serialisation are. */
  lemma CombineSymmetric(hs: Hasher, a: seq<byte>, b: seq<byte>)
    requires hs.Valid() && IsHash(a) && IsHash(b)
    ensures Combine(hs, a, b) == Combine(hs, b, a)
  {
    XorVectorSymmetric(a, b);
  }

  /**
   The XOR vector keeps every bit of each operand: given one operand, it
   determines all HBytes bytes of the other.
   */
  lemma XorVectorDeterminesOperand(a: seq<byte>, a': seq<byte>, b: seq<byte>)
    requires IsHash(a) && IsHash(a') && IsHash(b)
    ensures XorVector(a, b) == XorVector(a', b) <==> a[..HBytes] == a'[..HBytes]
  {
    var u, u', w := ConvertBinary(a), ConvertBinary(a'), ConvertBinary(b);
    if XorVector(a, b) == XorVector(a', b) {
      forall k | 0 <= k < HBits ensures u[k] == u'[k] {
        assert Xor(u, w)[k] == Xor(u', w)[k];
      }
      assert u == u';
    }
    ConvertBinaryInjective(a, a');
  }

  /**
   The combiner sees its operands only through their XOR, so for any
   sibling `s`, node `l` and claimed node `l'` there is a sibling `s'` that
   makes `l'` produce the same parent as `l`: one level of an inclusion
   path can be forged whatever SHAKE256 is.
   */
  lemma ForgedSibling(hs: Hasher, s: seq<byte>, l: seq<byte>, l': seq<byte>)
    requires hs.Valid() && IsHash(s) && IsHash(l) && IsHash(l')
    ensures var s' := PackBits(Xor(Xor(ConvertBinary(s), ConvertBinary(l)), ConvertBinary(l')));
      IsHash(s') && Combine(hs, s', l') == Combine(hs, s, l)
  {
    var v := Xor(Xor(ConvertBinary(s), ConvertBinary(l)), ConvertBinary(l'));
    var s' := PackBits(v);
    ConvertBinaryPack(v);
    var x, y := XorVector(s', l'), XorVector(s, l);
    forall k | 0 <= k < HBits ensures x[k] == y[k] {
      assert ConvertBinary(s')[k] == v[k];
    }
    assert x == y;
  }

  /**
   The input a concatenating combiner hands to the hash: both bit vectors,
   the first operand's before the second's.
   */
  function ConcatInput(a: seq<byte>, b: seq<byte>): (v: seq<int>)
    requires IsHash(a) && IsHash(b)
    ensures |v| == 2 * HBits && IsBitVector(v)
    ensures forall k :: 0 <= k < HBits ==> v[k] == ConvertBinary(a)[k] && v[HBits + k] == ConvertBinary(b)[k]
  {
    ConvertBinary(a) + ConvertBinary(b)
  }

  /** The parent hash as the hash of the concatenation of the two children. */
  function CombineConcat(hs: Hasher, a: seq<byte>, b: seq<byte>): (r: seq<byte>)
    requires hs.Valid() && IsHash(a) && IsHash(b)
    ensures |r| == HBytes
  {
    hs.shake(hs.ser(ConcatInput(a, b)), HBytes)
  }

  /** The concatenated input determines both operands, each in its place. */
  lemma ConcatInputInjective(a: seq<byte>, b: seq<byte>, a': seq<byte>, b': seq<byte>)
    requires IsHash(a) && IsHash(b) && IsHash(a') && IsHash(b')
    ensures ConcatInput(a, b) == ConcatInput(a', b') <==> a[..HBytes] == a'[..HBytes] && b[..HBytes] == b'[..HBytes]
  {
    ConvertBinaryInjective(a, a');
    ConvertBinaryInjective(b, b');
    var u, w := ConcatInput(a, b), ConcatInput(a', b');
    if u == w {
      assert u[..HBits] == ConvertBinary(a) && w[..HBits] == ConvertBinary(a');
      assert u[HBits..] == ConvertBinary(b) && w[HBits..] == ConvertBinary(b');
    }
  }

  /**
   Unlike the XOR, the concatenated input is symmetric only for equal
   operands, so a reconstructor that hashes it must know on which side each
   path entry stands.
   */
  lemma ConcatInputOrdered(a: seq<byte>, b: seq<byte>)
    requires IsHash(a) && IsHash(b)
    ensures ConcatInput(a, b) == ConcatInput(b, a) <==> a[..HBytes] == b[..HBytes]
  {
    ConcatInputInjective(a, b, b, a);
  }
}
