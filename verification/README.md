# Merkle tree of mtree.h, modelled in Dafny

This project models the Merkle-tree core of `mtree.h`. It covers:

- the combiner that makes a parent hash out of two child hashes (`convert_binary`, `get_concat_hash`);
- the builder that lays out `2L-1` nodes in one flat array (`build_tree`);
- the inclusion-path finder and the root reconstructor (`find_path`, `find_root_from_path`);
- the leaf lookup (`find_nodeid`, `compare_hash`).

SHAKE256 stays abstract. It is a `Hasher` value holding two functions:

- `shake(bytes, outlen)` returns `outlen` bytes.
- `ser(cells)` is the byte string handed to SHAKE256 for an int array.

The corrected model assumes nothing about `shake` beyond its output length, and nothing about `ser`. The lemmas about the partial read in `AsWritten` (`CombineAsWrittenReadsFourBytes`, `ByteFourIgnored`, `SerAsWrittenCollision`) fix `ser` to the 4-byte little-endian read `SerAsWritten`, and `CombineInputSeparates` fixes it to the one-byte-per-cell `SerAllCells`; each states this in its requires.

Modules:

- `Hashing` holds the constants (`H_BYTES` = 16, `H_BITS` = 128), the byte type, the hasher and the leaf hash.
- `Combiner` holds the corrected bit expansion, its inverse `PackBits`, the XOR vector and the combiner.
- `Layout` holds the index arithmetic of the flat array. The layer of size `s` occupies `[2L-2s, 2L-s)`. The parent of a non-root node `c` is `L + c/2`. The left child of an inner node `p` is `2(p-L)`.
- `Builder` holds the node and tree records and `build_tree` as a method over a sequence of nodes. Its loops carry invariants on the cursors `j`, `in`, `sub_len` and `layer_node_count`.
- `Paths` holds `find_path`, `find_root_from_path` and the round trip between them.
- `Lookup` holds `compare_hash` and `find_nodeid`.
- `AsWritten` holds the parts of the C code that misbehave, modelled as written, each next to a lemma showing the misbehaviour (see Findings). The rest of the model uses the corrected definitions.

## Model

| member | source | states |
|---|---|---|
| Hashing.LeafHash | mtree.h:140 | a leaf hash is H_BYTES long whatever the text |
| Combiner.ConvertBinary | mtree.h:48-61 | bit `j` of byte `i` lands at position H_BITS-1-((H_BYTES-1-i)*8+j), one below the source's cell H_BITS-index; every entry is 0 or 1 |
| Combiner.ExpandIndex | mtree.h:52-58 | position p of the expansion is bit 7 - p%8 of byte p/8: the vector is the hash read as a big-endian bit string |
| Combiner.PackConvertBinary | mtree.h:48-61 | packing the expansion back into bytes gives the hash: the expansion loses nothing |
| Combiner.ConvertBinaryPack | mtree.h:48-61 | expanding the packing of any 0/1 vector gives the vector back, so the expansion is onto the 0/1 vectors |
| Combiner.ConvertBinaryInjective | mtree.h:48-61 | two hashes expand to the same vector if and only if their H_BYTES bytes agree |
| Combiner.Xor | mtree.h:77-78 | cell k of the XOR is 1 exactly when the operands differ at k |
| Combiner.XorVector | mtree.h:76-78 | `binary3` has H_BITS 0/1 cells, and cell k is 1 exactly when the two hashes' bit vectors differ at k |
| Combiner.Combine | mtree.h:65-84 | get_concat_hash answers an H_BYTES hash for any two hashes |
| Combiner.XorVectorSymmetric | mtree.h:76-78 | the XOR vector `binary3` is unchanged when the two hashes are swapped |
| Combiner.CombineSymmetric | mtree.h:65-84 | get_concat_hash gives the same parent for (a, b) and (b, a) |
| Combiner.ForgedSibling | mtree.h:65-84 | for any sibling s, node l and claimed node l', the sibling PackBits(bits(s) xor bits(l) xor bits(l')) gives l' the same parent as s gives l, whatever SHAKE256 is |
| Combiner.CombineConcat | mtree.h:63-64 | the parent as the hash of the concatenation the comments promise: an H_BYTES hash for any two hashes |
| Combiner.ConcatInputInjective | mtree.h:80-81 | the concatenated input agrees for two pairs if and only if both operands agree, each on its own side |
| Combiner.ConcatInputOrdered | mtree.h:80-81 | the concatenated input is unchanged by swapping the operands if and only if they are equal, so the order of a path entry matters |
| Combiner.XorVectorDeterminesOperand | mtree.h:76-78 | for a fixed second operand, the XOR vectors agree if and only if the first operands agree on H_BYTES bytes |
| Layout.Log2 | mtree.h:28 | PATH_SIZE as an integer logarithm: 2 to the result is the leaf count |
| Layout.LayerSize | mtree.h:145-189 | every node index lies in a layer [2L-2s, 2L-s) whose size s is a power of two not above L |
| Layout.LayerSizeUnique | mtree.h:187-188 | an index inside the layer of size s has layer size s, so the layers `sub_len' = L + sub_len/2` walks through do not overlap |
| Layout.LeafLayer | mtree.h:121-138 | leaves form the layer of size L; leaf i links to i-1 and i+1, with -1 at leaf 0 and leaf L-1 |
| Layout.RootLayer | mtree.h:110-117 | the root 2L-2 is alone in its layer, keeps prev, next and parent at -1, and is the only index whose parent is -1 |
| Layout.ParentInNextLayer | mtree.h:176-177 | a non-root node's parent lies in the next layer up, at the next layer's start plus half the node's position in its own layer; layers start at even indices |
| Layout.SiblingByParity | mtree.h:225-228 | absolute parity equals parity within the layer, so `node_id % 2` picks prev for odd and next for even, and the sibling shares the parent |
| Builder.FillLeaves | mtree.h:110-141 | after the init and leaf loops: ids are indices, leaves hold their text hash and in-layer links (none for a single leaf), all else is -1 |
| Builder.InnerLinks | mtree.h:155-173 | the root test and the three branches give inner node `in` exactly its in-layer prev and next |
| Builder.JoinChildren | mtree.h:153-185 | one pass of the inner loop completes node `in`: children j and j+1 get parent `in`, and `in` gets links and `combine(hash[j], hash[j+1])` |
| Builder.FillLayer | mtree.h:153-188 | the inner loop pairs exactly the child layer and stops with `in` at the end of the new layer and j = sub_len |
| Builder.BuildTree | mtree.h:103-192 | the finished tree is shaped (ids, parents, links as Layout gives them), leaves hold their text hash, every inner node holds the combination of its children, and only the last node has no parent |
| Paths.SiblingLink | mtree.h:225-228 | the link find_path follows from a non-root node is its sibling index |
| Paths.AtRoot | mtree.h:221 | climbing stops exactly at node node_count-1, alone in its layer |
| Paths.Climb | mtree.h:230-231 | following a parent link moves to the next layer up; the parent's left child is the node or its left neighbour |
| Paths.PathFrom | mtree.h:215-237 | a node's path has one H_BYTES entry per layer above it |
| Paths.Ancestor | mtree.h:230 | climbing k parent links never moves to a lower index or leaves the array |
| Paths.AncestorBelowRoot | mtree.h:221-231 | fewer climbs than there are layers above a node stay below the root |
| Paths.FindPath | mtree.h:215-237 | the collected path is the node's path; from a leaf it has log2 L entries; entry k is the hash of the sibling of the level-k ancestor |
| Paths.PathEntry | mtree.h:225-233 | entry k of a path is the hash of the sibling of the ancestor k levels up, which is not the root |
| Paths.PathSiblings | mtree.h:215-237 | PathEntry for all entries at once |
| Paths.FindRootFromPath | mtree.h:242-258 | reconstruction yields an H_BYTES hash, or the node hash itself for an empty path |
| Paths.FindRootFromPathSnoc | mtree.h:251-252 | extending the path by x combines x with the previous result, the path entry first |
| Paths.ParentHash | mtree.h:249-252 | a parent's hash is the combination of the node's sibling first and the node second, by symmetry when the node is the left child |
| Paths.RootFromPath | mtree.h:242-258 | reconstructing from any node's own path and hash yields the root hash of a built tree |
| Paths.LeafRoundTrip | mtree.h:215-258 | for every leaf, find_path gives log2 L entries and find_root_from_path turns them and the leaf hash into the root hash |
| Lookup.CompareHash | mtree.h:88-99 | returns 1 if and only if all H_BYTES bytes agree, otherwise 0 |
| Lookup.FirstLeafWith | mtree.h:268-275 | the first leaf at or after `from` holding the hash, or -1 if and only if no later leaf holds it |
| Lookup.FindNodeId | mtree.h:262-277 | answers the stored id of the first leaf whose hash is the text's hash, or -1; in a built tree the answer lies in [-1, L) and is -1 if and only if no leaf matches |
| Lookup.LookupFindsOwnLeaf | mtree.h:262-277 | with pairwise different leaf hashes, looking up leaf i's text finds leaf i |
| AsWritten.ConvertBinaryAsWritten | mtree.h:48-61 | the cells written are exactly 1 .. H_BITS: cell 0 is never written and cell H_BITS overruns the buffer; cell p holds position p-1 of the corrected vector |
| AsWritten.XorCellsAsWritten | mtree.h:77-78 | cell 0 of `binary3` as written is the uninitialised junk, and cell k > 0 is 1 exactly when the operands differ at corrected position k-1 |
| AsWritten.XorLoopAsWritten | mtree.h:68-78 | cell 0 is the uninitialised junk, and cell k > 0 is 1 exactly when the operands differ at corrected position k-1; the last position is never read |
| AsWritten.CombineAsWritten | mtree.h:65-84 | get_concat_hash as written answers an H_BYTES hash for any two hashes and any value of the uninitialised cell |
| AsWritten.CombineAsWrittenIsCombine | mtree.h:65-84 | for one value of the uninitialised cell, get_concat_hash as written equals the corrected combiner over a valid hasher whose serialisation puts that cell first and drops the last position |
| AsWritten.CombineAsWrittenSymmetric | mtree.h:65-84 | for the same value of the uninitialised cell, the combiner as written is symmetric |
| AsWritten.LastBitIgnored | mtree.h:77-78 | for the same value of the uninitialised cell, operands that differ only in bit 0 of the last byte give the same parent |
| AsWritten.CombineAsWrittenCollision | mtree.h:77-81 | for the same value of the uninitialised cell, the zero hash and the zero hash with last byte 1 give the same parent although their XOR vectors differ |
| AsWritten.SerAsWritten | mtree.h:81 | the 128 bytes shake256 reads, with 4-byte little-endian ints: for a 0/1 cell c among the first H_BITS/4, byte 4c is the cell and bytes 4c+1 .. 4c+3 are zero |
| AsWritten.SerAsWrittenReadsQuarter | mtree.h:81 | cells beyond the first H_BITS/4 never reach the hash |
| AsWritten.XorCellsFirstQuarter | mtree.h:77-78 | the cells that are read depend on the first four bytes of each operand alone |
| AsWritten.CombineAsWrittenReadsFourBytes | mtree.h:81 | with the 4-byte read and the same value of the uninitialised cell, operands equal in their first four bytes give the same parent |
| AsWritten.ByteFourIgnored | mtree.h:81 | with the 4-byte read and the same value of the uninitialised cell, changing byte 4 of an operand leaves the parent unchanged but changes the XOR vector |
| AsWritten.SerAsWrittenCollision | mtree.h:81 | with the 4-byte read and the same value of the uninitialised cell, the zero hash and the zero hash with byte 4 set to 1 give the same parent |
| AsWritten.CombineInputSeparates | mtree.h:76-81 | with every cell serialised, the bytes handed to SHAKE256 agree if and only if the first operands agree |
| AsWritten.LeafLinksAsWritten | mtree.h:124-138 | the leaf-link branches as written fail out of bounds if and only if there is one leaf; otherwise they give the in-layer links |
| AsWritten.LeafLinksAsWrittenAgree | mtree.h:124-138 | with two or more leaves the leaf links as written are the in-layer links |
| AsWritten.LeafLinksAsWrittenSingleLeaf | mtree.h:127 | with one leaf, leaf 0 reads node 1 of a one-node array, where the intended links are both -1 |
| AsWritten.FindRootFromPathAsWritten | mtree.h:242-258 | fails out of bounds if and only if len is 0; otherwise it returns the corrected reconstruction of the first len entries |

## Left out

- The `mtree.c` driver is not part of this model. It covers random seeding, filling the text list, hex printing and console output. As a driver defect only: it aliases `root_hash` to the tree's stored root, so the demo overwrites that root (mtree.c:90-91).
- `print_tree` (mtree.h:196-211) only prints.
- SHAKE256 and Keccak internals (FIPS 202, section 6.2) are a foreign primitive. They are the `shake` field of `Hasher`, and only the output length is assumed.
- Cryptographic guarantees are not modelled: collision resistance cannot be proved about an abstract hash. Tamper detection cannot be proved either, and for this combiner its failure is provable whatever SHAKE256 is: the combiner sees its operands only through their XOR, so one level of an inclusion path can be forged (`Combiner.ForgedSibling`).
- The exact bytes handed to `shake256` for the int array depend on `sizeof(int)` and endianness. The corrected model keeps them abstract as the `ser` field. The finding about the partial read assumes 4-byte little-endian ints (`AsWritten.SerAsWritten`).
- `PATH_SIZE` uses floating-point `log` (mtree.h:28). It is replaced by the integer `Layout.Log2`.
- malloc, free and leaks are not modelled, for example `find_path` overwriting the caller's path buffers with fresh allocations (mtree.h:223) and the unfreed `md_values`.
- Builder.BuildTree: the power-of-two leaf count, a comment at mtree.h:5, is a precondition, as is `length` readable bytes for every leaf text.
- Builder.BuildTree: with a single leaf, the model gives leaf 0 the intended links (-1, -1) instead of the out-of-bounds read at mtree.h:127 (see Findings).
- Paths.FindPath: requires a node index inside the array, which find_path indexes without checking.
- Paths.FindRootFromPath: with an empty path it answers the node hash instead of reading `path[0]` (see Findings).
- Combiner.Combine: XORs all H_BITS positions and hands all of them to the hash, the corrected behaviour (see Findings). Its own contract states only the output length; what it computes is stated by CombineSymmetric, XorVectorDeterminesOperand, ForgedSibling and AsWritten.CombineInputSeparates. Because the tree theorems (`Builder.BuildTree`, `Paths.RootFromPath`, `Paths.LeafRoundTrip`) hold for every serialisation, they also hold for get_concat_hash as written for one value of the uninitialised cell (`AsWritten.CombineAsWrittenIsCombine`). The tree keeps the XOR combiner rather than the concatenating `Combiner.CombineConcat` (see Findings): find_root_from_path puts the path entry first at every level (mtree.h:249-252), which is right only because the XOR is symmetric.
- AsWritten.CombineAsWritten: the uninitialised cell 0 of `binary3` is one `junk` parameter. In the source every call mallocs fresh buffers (mtree.h:68-70), so each call may see a different value. With the 4-byte read that cell reaches SHAKE256, so the source guarantees neither that the same operands give the same parent on two calls nor symmetry across calls. Every as-written lemma holds only for one shared value of that cell.

## Findings

| source | as written | input that shows it | evidently intended | confidence | as-written member | corrected member |
|---|---|---|---|---|---|---|
| mtree.h:56 | `binary[H_BITS-index]` for index 0..127 writes cells 1..128 of a 128-int buffer; cell 0 is never written | any hash: index 0 (byte 15, bit 0) writes `binary[128]` | cells 0..127, byte i bit j at H_BITS-1-index | high, not executed | AsWritten.ConvertBinaryAsWritten | Combiner.ConvertBinary |
| mtree.h:77-78 | the XOR loop covers cells 0..127: it reads the unwritten cell 0 and never reads cell 128, which holds bit 0 of the last byte | a = zero hash with last byte 1, b = zero hash: same parent as (zero, zero), for the same value of the uninitialised cell | the XOR of all 128 bit positions | high, not executed | AsWritten.CombineAsWrittenCollision | Combiner.XorVectorDeterminesOperand |
| mtree.h:63-84 | the comments promise the hash of the concatenation of the two children (lines 64 and 80), but the code hashes their XOR: parents are symmetric (`Combiner.CombineSymmetric`) and one path level can be forged | any s, l, l': the sibling PackBits(bits(s) xor bits(l) xor bits(l')) gives l' the parent of (s, l) | SHAKE256 over the concatenated bit vectors, whose input determines both operands in place; find_root_from_path's fixed path-first order (mtree.h:249-252) is right only for the symmetric XOR (`Paths.ParentHash`), so a concatenating combiner also needs each path entry's side | high, not executed | Combiner.ForgedSibling | Combiner.ConcatInputInjective |
| mtree.h:81 | the int array is hashed as H_BITS = 128 bytes, which is the first 32 of its 128 ints when ints are 4 bytes | a = zero hash with byte 4 set to 1, b = zero hash: same parent as (zero, zero), for the same value of the uninitialised cell | every XOR cell reaches SHAKE256 | medium (depends on sizeof(int)), not executed | AsWritten.SerAsWrittenCollision | AsWritten.CombineInputSeparates |
| mtree.h:127 | leaf 0 reads `merkle_tree[1].node_id` before the last-leaf test | leaf_count = 1: node 1 lies past the one-node array | leaf 0 of a single-leaf tree gets prev = next = -1 | high, not executed | AsWritten.LeafLinksAsWrittenSingleLeaf | Builder.FillLeaves |
| mtree.h:249 | `get_concat_hash(path[0], node_hash, md_values[0])` runs even when len is 0 | len = 0, the path of a single-leaf tree: reads `path[0]` and writes a zero-length array | an empty path reconstructs the node hash itself | high, not executed | AsWritten.FindRootFromPathAsWritten | Paths.FindRootFromPath |
