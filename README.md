# Dictionary and Huffman column codecs of TuCompression, in Dafny

TuCompression compresses database columns, held as `std::vector`s of cells, with two codecs.

**Dictionary encoding.** The distinct values of the column, in ascending order, form the dictionary. Every cell is replaced by a code: its rank in the dictionary, stored in an unsigned integer type.

The repository builds the dictionary four ways:
- through a `std::set` and a hash map from value to rank (`cpp/main.cpp`);
- by sorting and de-duplicating a copy of the column, then ranking through a hash map or through `std::lower_bound` (`cpp_for_review/dictionary_map_vector_test.cpp`);
- by the distance from the set's beginning to the cell found in the set (`cpp/dictionary.cpp`, `cpp/dictionary.hpp`).

The benchmark picks the narrowest code type (8, 16, 32 or 64 bits) that can address every distinct value.

**Huffman encoding.**
1. Count value frequencies.
2. Grow a tree by repeatedly merging two least-frequent nodes of a min-heap.
3. Read a code table off the tree: left is 0, right is 1.

Two variants then use the table:
- `cpp/main.cpp` and `cpp/huffman.hpp` replace every cell by its code, a `std::vector<bool>`.
- `cpp_for_review/huffman.cpp` works with fixed-width codes, `std::bitset<B>`:
  - compression packs as many whole codes as fit into each B-bit block. It tracks the bounds (smallest and largest value) of the current block, but keeps only the last block's pair, and only when the last cell did not start that block;
  - decompression scans each block with a growing mask and emits a value whenever the masked window is a code.

**The model.**
- Columns are sequences. Integer cells stand for every ordered cell type.
- The Huffman tree is a datatype. The code table is a map.
- A `std::bitset<B>` is a sequence of B booleans, most significant position first.
- Loops of the source are methods with loop invariants. Each is proved against a specification function:
  - the dictionary, `DictionaryCodec.Dictionary`;
  - the wrapped ranks, `DictionaryCodec.Codes`;
  - the greedy packing, `HuffmanPacked.Greedy`;
  - the block scan, `HuffmanPacked.Scan`.
- The properties the codecs promise are lemmas about those functions:
  - round trips;
  - injectivity and prefix-freeness of the code tables;
  - wrap-around collisions;
  - tree shape.
- `std::out_of_range` thrown by `bitset::set`/`flip` is the `Err(OutOfRange)` result.
- Heap tie-breaking and hash-map iteration order are unspecified, so the model allows every choice.

Modules, in dependency order:
- `Common`, `Ordered` (sorted sequences, ranks, de-duplication) and `Bitsets`;
- `DictionaryCodec` (shared definitions), `DictionaryMain`, `DictionaryVector`, `DictionaryEncoder` and `DictionarySet`;
- `HuffmanTree`, `HuffmanCodes`, `HuffmanMain`, `HuffmanEncoder` and `HuffmanPacked`.

## Model

| member | source | states |
|---|---|---|
| DictionaryCodec.Dictionary | cpp/main.cpp:69-74 | the dictionary is strictly ascending, holds exactly the column's values, and has one entry per distinct value |
| DictionaryCodec.Codes | cpp/main.cpp:76-88 | one code per cell, each below 2^w (the code type's range) |
| DictionaryCodec.RankIndexes | cpp/main.cpp:78-85 | a cell's rank is a position of the dictionary holding that cell's value |
| DictionaryCodec.RanksIndex | cpp/dictionary.cpp:14-20 | a vector of unwrapped ranks indexes the dictionary at every cell's value |
| DictionaryCodec.CodeIsWrappedPosition | cpp/main.cpp:77-80 | a cell's code is its value's dictionary position reduced modulo 2^w |
| DictionaryCodec.RoundTrip | cpp/main.cpp:67-102 | when the dictionary has at most 2^w entries, every code indexes it and decoding yields the column |
| DictionaryCodec.CodesInRange | cpp/main.cpp:77-80 | whatever the width, every code indexes the dictionary |
| DictionaryCodec.WrapCollides | cpp/main.cpp:77-80 | with more than 2^w distinct values, two cells with different values receive the same code |
| DictionaryCodec.CollectSet | cpp/main.cpp:69-74 | emplacing every cell into the std::set yields exactly the dictionary |
| DictionaryCodec.RankLookup | cpp/main.cpp:76-81 | the hash map's keys are the dictionary's values, and the m-th value maps to m mod 2^w |
| DictionaryCodec.LookUpCells | cpp/main.cpp:83-88 | every cell receives its wrapped rank |
| DictionaryCodec.SelectCodeWidth | cpp/main.cpp:118-191 | the chosen width is the narrowest of 8/16/32/64 whose range bounds the count; there is none exactly when the count exceeds 2^64 |
| DictionaryCodec.SelectedWidthRoundTrips | cpp/main.cpp:124-188 | the width the benchmark picks never wraps a code, so decoding yields the column |
| DictionaryMain.Compress | cpp/main.cpp:67-90 | the result is the dictionary and the wrapped ranks of the column |
| DictionaryMain.Decompress | cpp/main.cpp:93-102 | as written, the returned vector is empty |
| DictionaryMain.DecompressResized | cpp/main.cpp:93-102 | with the vector sized, slot i holds the dictionary entry named by code i |
| DictionaryMain.RoundTripAsWritten | cpp/main.cpp:67-102 | as written, at every code width, the round trip returns nothing, so it loses every non-empty column |
| DictionaryMain.RoundTripResized | cpp/main.cpp:67-102 | with the corrected decompression and a wide enough code type, the column comes back |
| DictionaryMain.CompressForBenchmark | cpp/main.cpp:118-191 | nothing is compressed exactly when there are more than 2^64 distinct values; otherwise the codes use the chosen width and decode back to the column |
| DictionaryVector.Sort | cpp_for_review/dictionary_map_vector_test.cpp:17 | afterwards the array is ascending and a permutation of what it held |
| DictionaryVector.Unique | cpp_for_review/dictionary_map_vector_test.cpp:18 | the kept prefix is the sequence with adjacent duplicates removed |
| DictionaryVector.SortedDistinct | cpp_for_review/dictionary_map_vector_test.cpp:16-19 | copy, sort, unique and erase produce exactly the dictionary |
| DictionaryVector.Compress | cpp_for_review/dictionary_map_vector_test.cpp:14-37 | the result is the dictionary and the wrapped ranks of the column |
| DictionaryVector.LowerBound | cpp_for_review/dictionary_map_vector_test.cpp:50 | the returned position splits the sequence into elements below x and elements not below x |
| DictionaryVector.LessCountSplit | cpp_for_review/dictionary_map_vector_test.cpp:50 | the lower-bound position is the number of smaller dictionary entries, i.e. the rank |
| DictionaryVector.CompressV2 | cpp_for_review/dictionary_map_vector_test.cpp:39-55 | the result is the dictionary and the wrapped ranks of the column |
| DictionaryVector.CompareVariants | cpp_for_review/dictionary_map_vector_test.cpp:14-55 | both compressors return the same pair for every column and width, and it round-trips when the width suffices |
| DictionaryEncoder.FindDistance | cpp/dictionary.hpp:12-13 | the distance from the set's beginning to a member is its position and its rank |
| DictionaryEncoder.EncodeCells | cpp/dictionary.hpp:10-16 | every cell receives its rank converted to the attribute type |
| DictionaryEncoder.Compress | cpp/dictionary.hpp:1-19 | the set is the dictionary, the codes are the wrapped ranks, and every code indexes the set |
| DictionaryEncoder.Decompress | cpp/dictionary.hpp:21-30 | as written, slot 0 receives the entry of the last code and every other slot keeps the default 0 |
| DictionaryEncoder.DecompressFixed | cpp/dictionary.hpp:21-30 | with the index advancing, slot i holds the set entry named by code i |
| DictionaryEncoder.RoundTripAsWritten | cpp/dictionary.hpp:1-30 | as written, the round trip puts the last cell's value in slot 0 and zeros elsewhere |
| DictionaryEncoder.RoundTripFixed | cpp/dictionary.hpp:1-30 | with the corrected decompression and a wide enough type, the column comes back |
| DictionarySet.RankCells | cpp/dictionary.cpp:14-20 | every cell receives its rank in the set |
| DictionarySet.Compress | cpp/dictionary.cpp:6-23 | the set is the dictionary, and every code indexes it at the cell's value (size_t ranks never wrap) |
| DictionarySet.Decompress | cpp/dictionary.cpp:25-33 | as written, slot 0 holds a one-character string made from an attribute-vector entry, and every other slot is empty |
| DictionarySet.RoundTripAsWritten | cpp/dictionary.cpp:6-33 | as written, every slot after the first comes back as the empty string |
| DictionarySet.DecompressFixed | cpp/dictionary.cpp:25-33 | with the index advancing and the set indexed, slot i holds the entry named by code i |
| DictionarySet.RoundTripFixed | cpp/dictionary.cpp:6-33 | with the corrected decompression, the column comes back |
| HuffmanTree.RootFrequency | cpp/main.cpp:214 | an internal node's frequency, summed recursively, makes the root's frequency the total leaf weight |
| HuffmanTree.LeafCount | cpp/main.cpp:266-275 | a tree has one leaf more than it has internal nodes |
| HuffmanTree.PopMin | cpp/main.cpp:269-272 | top/pop takes out a node of least frequency at some index and leaves exactly the other nodes, in order; the rest's leaves, weights and internal-node counts account for it |
| HuffmanTree.MergeStep | cpp/main.cpp:269-274 | the new heap is the old one without a least node and then a least node of the remainder, plus the internal node joining them (first popped on the left) whose frequency is their sum; leaves and weights are kept, and one internal node is added |
| HuffmanTree.BuildTree | cpp/main.cpp:266-275 | the loop ends with one well-formed tree holding exactly the heap's leaves and weights, after n - 1 merges, and every heap on the way is a Huffman merge of the one before |
| HuffmanTree.CountFrequencies | cpp/main.cpp:252-257 | each value of the column maps to its number of occurrences, and no other key exists |
| HuffmanTree.MakeLeaves | cpp/main.cpp:259-264 | one leaf per map entry, weighted by its frequency |
| HuffmanTree.ColumnTree | cpp/main.cpp:252-275 | the tree's leaves are the column's distinct values, each once, weighted by their counts, and the root's frequency is the column length |
| HuffmanTree.TreeDepth | cpp/tree_test.cpp:46-57 | the as-written depth never falls below the depth it starts from (the identical function is cpp_for_review/huffman.cpp:60-71); how it relates to the height is TreeDepthBounds |
| HuffmanTree.TreeDepthBounds | cpp/tree_test.cpp:46-57 | as written, the reported depth lies between the height and twice the height |
| HuffmanTree.TreeDepthOvercounts | cpp/tree_test.cpp:50-51 | as written, a root with two leaves has height 1 but the reported depth is 2 |
| HuffmanTree.DepthIsHeight | cpp/tree_test.cpp:46-57 | the corrected depth is exactly the height |
| HuffmanTree.TreeTest | cpp/tree_test.cpp:59-100 | for n unit-frequency keys: n - 1 merges, leaves exactly 0..n-1, and the reported depth is at least the height, at most twice it, with the height below n |
| HuffmanTree.HeightBelowLeaves | cpp/tree_test.cpp:89-97 | a tree is no higher than it has internal nodes |
| HuffmanCodes.BuildCodes | cpp/main.cpp:226-241 | the table has an entry for exactly the tree's leaf values |
| HuffmanCodes.CodesWalk | cpp/main.cpp:226-241 | every code extends the prefix, and following its remaining bits from the root reaches that value's leaf |
| HuffmanCodes.WalkCodes | cpp/main.cpp:226-241 | every root-to-leaf path is, after the prefix, that leaf value's code |
| HuffmanCodes.CodeIffWalk | cpp/main.cpp:226-241 | value v has code c exactly when c's bits after the prefix lead to v's leaf |
| HuffmanCodes.CodesDecodable | cpp/main.cpp:226-241 | different values get different codes, and no code is a prefix of another's |
| HuffmanCodes.CodeLengths | cpp/main.cpp:226-241 | a code is no longer than prefix plus height, and below an internal node it has at least one bit |
| HuffmanCodes.SingleLeafCode | cpp/main.cpp:228-231 | a one-value column's only code is empty |
| Common.Invert | cpp/main.cpp:288-291 | the reverse map has exactly the table's codes as keys, sends each to a value with that code, and undoes an injective table exactly |
| HuffmanMain.Compress | cpp/main.cpp:243-283 | the table is the tree's, it covers exactly the column's values and is injective, and every cell is replaced by its value's code |
| HuffmanMain.Decompress | cpp/main.cpp:285-297 | a code of the table decodes to a value with that code (for an injective table, the value); any other code decodes to the default value |
| HuffmanMain.RoundTrip | cpp/main.cpp:243-297 | decompressing the compressed column yields the column |
| HuffmanEncoder.Compress | cpp/huffman.hpp:24-65 | the stored set is empty, and every cell is replaced by its value's code |
| HuffmanEncoder.Decompress | cpp/huffman.hpp:67-74 | as written, every slot holds the default value |
| HuffmanEncoder.RoundTripAsWritten | cpp/huffman.hpp:24-74 | the round trip restores a column exactly when every cell is the default value |
| HuffmanPacked.BuildBitCodes | cpp_for_review/huffman.cpp:32-47 | every code it builds is B bits wide; which bits they hold is BitCodesArePaddedPaths |
| HuffmanPacked.BitCodesArePaddedPaths | cpp_for_review/huffman.cpp:32-47 | the bitset table is every leaf's path followed by a terminating 1 and padded to B bits; out_of_range is thrown exactly when a leaf lies at depth B or deeper |
| HuffmanPacked.GetCodeLength | cpp_for_review/huffman.cpp:49-58 | the length is the number of positions up to and including the last set one, 0 for an empty set |
| HuffmanPacked.BitSixtyHasLengthFour | cpp_for_review/huffman_test.cpp:20-21 | a 64-bit set holding only bit 60 has code length 4 |
| HuffmanPacked.SentinelWord | cpp_for_review/huffman.cpp:36 | a padded code's word is its path plus the terminating 1 |
| HuffmanPacked.SentinelCodesDecodable | cpp_for_review/huffman.cpp:32-47 | for a tree lower than B, the codes are non-zero, pairwise different, and no code's word starts another's |
| HuffmanPacked.SeqMin | cpp_for_review/huffman.cpp:139 | the minimum is an element of the block and no larger than any other |
| HuffmanPacked.SeqMax | cpp_for_review/huffman.cpp:140 | the maximum is an element of the block and no smaller than any other |
| HuffmanPacked.GreedyShape | cpp_for_review/huffman.cpp:118-144 | the packing's blocks, concatenated, are the column; every block's words fit B bits; and a block started by the last cell holds only that cell |
| HuffmanPacked.AsWrittenCells | cpp_for_review/huffman.cpp:145-148 | the blocks compress keeps hold the whole column, or the column less its last cell when that cell started a fresh block |
| HuffmanPacked.PackStep | cpp_for_review/huffman.cpp:118-144 | one loop iteration (flush when the code does not fit, shift, or, update the bounds) keeps the variables equal to the greedy packing of the cells seen |
| HuffmanPacked.PackCells | cpp_for_review/huffman.cpp:110-144 | the pushed blocks, the current block, its bounds and the pushed flag are those of the greedy packing of the column |
| HuffmanPacked.ColumnCodes | cpp_for_review/huffman.cpp:79-107 | the table is the tree's padded paths (or out_of_range), and it covers every cell |
| HuffmanPacked.Compress | cpp_for_review/huffman.cpp:73-150 | out_of_range exactly when the tree is at least B high; otherwise the blocks are those of the greedy packing, the last one dropped when the last cell started it, and likewise the bounds |
| HuffmanPacked.CompressFixed | cpp_for_review/huffman.cpp:145-148 | with the last block and bounds always pushed, the blocks are the whole greedy packing |
| HuffmanPacked.Scan | cpp_for_review/huffman.cpp:161-175 | the block scan only appends to what was emitted before, and everything it emits is a value of the reverse map |
| HuffmanPacked.DecodeBlock | cpp_for_review/huffman.cpp:161-175 | the inner loop computes the scan of the block, out_of_range included |
| HuffmanPacked.ReverseOf | cpp_for_review/huffman.cpp:155-158 | the reverse map covers exactly the table's codes and maps each to a value with that code |
| HuffmanPacked.ReverseUnique | cpp_for_review/huffman.cpp:155-158 | for an injective table, the reverse map the loop builds is that reverse |
| HuffmanPacked.DecodeAll | cpp_for_review/huffman.cpp:160-176 | decoding the blocks in order emits only values of the reverse map |
| HuffmanPacked.DecompressMasked | cpp_for_review/huffman.cpp:153-178 | for an injective table, the result is every block's scan in order, and the first exception ends it |
| HuffmanPacked.Decompress | cpp_for_review/huffman.cpp:153-178 | as written, the scan's mask starts at position 63 |
| HuffmanPacked.DecompressFixed | cpp_for_review/huffman.cpp:153-178 | the scan's mask starts at position B - 1 |
| HuffmanPacked.ScanStep | cpp_for_review/huffman.cpp:163-175 | with the mask from the top, each window is the block's bits from the last match up to position i, placed at the top of a set |
| HuffmanPacked.DecodeGroup | cpp_for_review/huffman.cpp:160-176 | a block holding the words of some cells, for a decodable table, scans to exactly those cells |
| HuffmanPacked.DecodeGroups | cpp_for_review/huffman.cpp:160-176 | blocks of fitting groups decode to the groups concatenated |
| HuffmanPacked.PackedRoundTrip | cpp_for_review/huffman.cpp:73-178 | the whole greedy packing decodes to the column; the blocks compress keeps decode to the column less its last cell when that cell started a fresh block |
| HuffmanPacked.ScanWrongTop | cpp_for_review/huffman.cpp:165 | if the mask's top position differs from the block's last index, scanning a non-empty block throws |
| HuffmanPacked.MaskOutOfRange | cpp_for_review/huffman.cpp:165 | as written, decompression throws on blocks of every width but 64 |
| HuffmanPacked.RoundTripAsWritten | cpp_for_review/huffman.cpp:202-204 | the benchmark's check with B = 64 throws exactly when the tree is at least 64 high; otherwise the column comes back, minus its last cell when that cell started a fresh block |
| HuffmanPacked.RoundTripFixed | cpp_for_review/huffman.cpp:73-178 | with both corrections, every column whose tree is lower than B comes back, in particular every column with at most B distinct values |
| HuffmanPacked.OneValueFills | cpp_for_review/huffman.cpp:118-144 | with a one-bit code, at most B copies of a value fill a single block without a flush |
| HuffmanPacked.OneValueOverflows | cpp_for_review/huffman.cpp:123-129 | with a one-bit code, copy B + 1 flushes a full block and starts a fresh one |
| HuffmanPacked.LastCellLost | cpp_for_review/huffman.cpp:145-148 | for a one-value column of B + 1 cells, compress keeps only the first block, holding B cells |
| HuffmanPacked.BenchmarkLosesLastCell | cpp_for_review/huffman.cpp:202-204 | 65 copies of one value come back as 64 copies |
| Bitsets.AppendShifted | cpp_for_review/huffman.cpp:130-131 | shifting a code past the block's bits and or-ing it appends its word to the block |
| Bitsets.WindowSearch | cpp_for_review/huffman.cpp:165-166 | masking a window of positions and shifting it up places those bits at the top of the set |

## Left out

- CSV reading, the benchmark's timing and cache clearing, console output, allocators, and the `compressedSize` functions. These are I/O, measurement or sizeof arithmetic, and say nothing about the encoded values. So the `std::cout` inside `DictionaryEncoder::decompress` is not modelled.
- The `size` members (`Dictionary::size`, `DictionaryEncoder::size`, `HuffmanEncoder::size`) are stubs that return 0. They appear as functions without contracts.
- Cell values are integers. The codecs over `std::string` (cpp/dictionary.cpp, the string case of cpp_for_review/huffman_test.cpp:34-42) rely only on a total order and equality, and the ordering of strings is not modelled.
- Integer widths of loop counters, frequencies and `size_t` distances are unbounded. The code types of the dictionary codecs wrap modulo 2^w, which is modelled.
- Huffman optimality (minimal weighted code length) is neither promised by the source nor proved. What is stated is the tree's shape and leaves, and that every merge joins two least-frequency nodes (`HuffmanTree.HuffmanMerge`).
- Memory management of the tree nodes (allocated with `new`, never freed) is not modelled.
- The Huffman codecs on an empty column pop from an empty heap, which is undefined behaviour. Their compress methods therefore require a non-empty column.
- `std::pow` returns a `double`. The comparisons in the width selection are modelled with exact powers of two, which doubles represent exactly.
- `DictionaryMain.Decompress` writes past the vector's size, which is undefined behaviour. The model takes the writes as going to unused storage, and the result has size zero.
- The hash-map `operator[]` lookups of the compressors always find their key, so default insertion never happens there. In `HuffmanMain.Decompress` a code missing from the reverse map yields the default value.
- The bit-packing codec is modelled for integer columns only, because the bounds need an order.
- The bounds vector of `compress` is built but not returned by the source. The model returns it, so that its contents can be stated.
- The concrete columns of cpp_for_review/huffman_test.cpp:23-31 are not evaluated. `HuffmanPacked.RoundTripAsWritten` states the outcome for every column.
- HuffmanPacked.DecompressMasked: states its result only for injective tables. For other tables the reverse map keeps one value per code, chosen by the hash map's iteration order, which is unspecified.
- HuffmanPacked.Decompress: states its result only for injective tables, for the same reason as `HuffmanPacked.DecompressMasked`, whose contract it inherits with the mask's top at 63.
- HuffmanPacked.DecompressFixed: states its result only for injective tables, for the same reason as `HuffmanPacked.DecompressMasked`, whose contract it inherits with the mask's top at B - 1.
- HuffmanMain.Decompress: for a non-injective table, it only says that the chosen value has the code. The iteration order of `std::map` that decides which value wins is not modelled.
- DictionarySet.RoundTripAsWritten: does not name the character in slot 0; `DictionarySet.Decompress` states it.

## Findings

| source | as written | input that shows it | evidently intended | confidence | as-written member | corrected member |
|---|---|---|---|---|---|---|
| cpp/main.cpp:95-101 | `reserve` only gives capacity: the loop writes past the size, and the returned vector is empty | any non-empty column, e.g. [5] | a vector of `compressed.second.size()` elements | not executed | DictionaryMain.RoundTripAsWritten | DictionaryMain.RoundTripResized |
| cpp/dictionary.cpp:28-31 | `i` never advances, and slot 0 receives an attribute-vector entry converted to a one-character string, not a set element | column [1, 2]: slots after the first come back empty | slot i receives the set element at code i, then i advances | not executed | DictionarySet.RoundTripAsWritten | DictionarySet.RoundTripFixed |
| cpp/dictionary.hpp:24-28 | `i` never advances: slot 0 ends with the last cell's value and the other slots keep the default 0 | column [1, 2] comes back as [2, 0] | slot i receives the set element at code i, then i advances | not executed | DictionaryEncoder.RoundTripAsWritten | DictionaryEncoder.RoundTripFixed |
| cpp_for_review/huffman.cpp:145-148 | the last block is dropped when the last cell started it, because that cell's flush set `pushed` | 65 copies of one value with B = 64 come back as 64 copies | push the current block (and its bounds) unconditionally | not executed | HuffmanPacked.BenchmarkLosesLastCell | HuffmanPacked.RoundTripFixed |
| cpp_for_review/huffman.cpp:165 | the mask's first set position is 63 whatever B is | any block with B = 8: `set(63)` throws out_of_range | set position B - 1 - i | not executed | HuffmanPacked.MaskOutOfRange | HuffmanPacked.RoundTripFixed |
| cpp/tree_test.cpp:50-51 | `++depth` runs before both recursive calls, so the right child is measured two levels down | a root with two leaves: reported depth 2, height 1 | both children at depth + 1 | not executed | HuffmanTree.TreeDepthOvercounts | HuffmanTree.DepthIsHeight |
