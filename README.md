# Reusable Huffman codec — a Dafny model

This project models the reusable Huffman compressor of `src/compression_utils.py` and the two bit/byte helpers of `src/byte_utils.py` it relies on.

A `ReusableHuffman` codec is trained once on a corpus. Training:

- counts the corpus characters, seeding the End-of-Transmission-Block terminator `'\x17'` with a count of one;
- builds a Huffman trie by repeatedly merging the two least nodes of a priority queue;
- records every leaf's root-to-leaf 0/1 path in an encoding map.

Afterwards the codec compresses and decompresses any number of messages:

- **Compress.** Write the message's codewords, then the terminator's codeword, then zero padding up to a byte boundary. Pack the result into bytes.
- **Decompress.** Expand the bytes to bits and walk the trie. Stop at the terminator's leaf.

The model has four modules, plus one module for the unit-test scenarios:

| Module | File | Contents |
|---|---|---|
| `ByteUtils` | `byte_utils.dfy` | The two conversion helpers, as pure functions on 8-digit strings and byte values, most significant bit first. |
| `Huffman` | `huffman.dfy` | The trie nodes and the `__lt__` ordering. The priority queue, as a sequence kept strictly sorted by that order. The merge step. `MergeLoop(q)`, the function that specifies the merge loop. `BuildTrie(freq)`, the trie trained on a frequency table. |
| `Codes` | `codes.dfy` | The encoding map of a trie. The concatenation of codewords. The bit-by-bit decoding walk. Prefix-freeness, codeword/leaf correspondence, and the decoding round trip. |
| `CompressionUtils` | `compression_utils.dfy` | The frequency table, the padding layout, and the expansion of bytes to bits. The class `ReusableHuffman`, with its fields (`encodingMap`, `trie`, and a ghost `corpus`) and its methods. Each method is proved against the functions above. |
| `Scenarios` | `scenarios.dfy` | The unit tests of `src/compression_tests.py`, as methods and lemmas with the exact expected codebooks, bytes and texts. Also the degenerate empty corpus, and an all-ones byte that never reaches the terminator. |

In two places the code does more or less than its docstrings and comments describe; the model follows the code:

- **Padding.** The `decompress` docstring calls the zero padding optional (`src/compression_utils.py:209-211`), and the comment above `compress_message` pads only the final substring up to 8 bits (`src/compression_utils.py:141`). The code always appends between 1 and 8 zero bits: when the codeword bits already fill whole bytes, a whole extra zero byte is added (`src/compression_utils.py:150-161`). `ReusableHuffman.CompressMessage` and `PaddedShape` state this.
- **Running out of bits.** The `decompress` docstring expects the bytes to hold a message terminated by the terminator character (`src/compression_utils.py:209-210`). When the bits run out before the terminator's leaf is reached, the code returns the text decoded so far and raises no error (`src/compression_utils.py:197`). `ReusableHuffman.Decompress` states this through `Decode`, and `Scenarios.DecompressionAllOnes` shows it: the byte `0xFF` decompresses to `"CCC"` on the codec trained on `"ABBBCC"`.

## Model

| member | source | states |
|---|---|---|
| ByteUtils.BitstringsToBytes | src/byte_utils.py:7-24 | For strings of exactly eight binary digits: one byte per string, in order, each the big-endian binary value of its string. |
| ByteUtils.ByteToBitstring | src/byte_utils.py:26-48 | For every byte: a string of exactly eight binary digits whose big-endian value is the byte. |
| ByteUtils.BinaryValueBound | src/byte_utils.py:24 | A string of n binary digits denotes a value below 2^n, so an 8-digit string always fits in a byte. |
| ByteUtils.ToBinary | src/byte_utils.py:47 | The width-digit, most-significant-first representation of a value below 2^width has that width and denotes that value. |
| ByteUtils.ToBinaryOfValue | src/byte_utils.py:47 | A binary string is the fixed-width representation of its own value: the representation is unique. |
| ByteUtils.OctetValueRoundTrip | src/byte_utils.py:24-47 | Expanding the value of an 8-digit string gives the string back. |
| ByteUtils.OctetRoundTrip | src/byte_utils.py:24-47 | `byte_to_bitstring(bitstrings_to_bytes([s])[0]) == s` for every 8-digit binary string s. |
| ByteUtils.ByteRoundTrip | src/byte_utils.py:24-47 | `bitstrings_to_bytes([byte_to_bitstring(b)]) == [b]` for every byte b. |
| ByteUtils.ByteToBitstringInjective | src/byte_utils.py:47 | Distinct bytes expand to distinct bit strings. |
| Huffman.LessIsLexicographic | src/compression_utils.py:46-49 | `__lt__` is exactly the strict lexicographic order on (count, symbol): irreflexive, asymmetric, transitive, and total on nodes that differ in count or symbol. |
| Huffman.Insert | src/compression_utils.py:105 | `put` adds exactly the new node: the queue grows by one and its multiset of nodes gains the node. |
| Huffman.InsertMembers | src/compression_utils.py:105 | After a `put`, the queued nodes are the old ones plus the new one. |
| Huffman.InsertSorted | src/compression_utils.py:105 | `put` keeps the queue in strictly increasing `__lt__` order when the new node's symbol is not already queued, so `get` returns the minimum. |
| Huffman.Merge | src/compression_utils.py:112-117 | The parent is internal. Its zero child is the first node taken out and its one child the second. Its count is the sum of theirs, and its symbol is the smaller of theirs. |
| Huffman.SymbolIsLeast | src/compression_utils.py:114-117 | The symbol of a merged node is the least symbol below it. |
| Huffman.MergeOfLeastTwo | src/compression_utils.py:111-118 | Merging the two least nodes of a forest gives a well-formed node whose symbols, and representative symbol, differ from every node left in the queue. |
| Huffman.MergeStep | src/compression_utils.py:111-118 | One round of the loop keeps the queue a sorted forest of disjoint, well-formed tries, with the same leaves and the same total count. |
| Huffman.HuffmanCorrect | src/compression_utils.py:111-120 | The loop's result from a forest is well formed, holds exactly the forest's leaves, and has the forest's total count. |
| Huffman.SortedUnique | src/compression_utils.py:102-105 | Two strictly sorted queues holding the same nodes are identical, so the order in which the leaves are put does not matter. |
| Huffman.LeafQueueFacts | src/compression_utils.py:102-105 | The initial queue is a sorted forest with one leaf per table entry, whose leaves are the table's entries and whose total is the table's total. |
| Huffman.BuildTrieFacts | src/compression_utils.py:101-120 | The trained trie is well formed. Its leaves are the table's (symbol, count) entries, each exactly once, and its symbols are the table's keys. The root's count is the sum of all counts. |
| Huffman.BuildTrieSingle | src/compression_utils.py:103-119 | A one-entry table yields its single leaf as the root, with no merge. |
| Huffman.BuildTrieFromQueue | src/compression_utils.py:101-120 | Running the merge loop on any sorted queue of the table's leaves yields the trained trie. |
| Codes.CodeMapFrom | src/compression_utils.py:123-129 | `encoding_map(n, prefix)` writes one entry per symbol below n and no other. |
| Codes.CodeMapFromPaths | src/compression_utils.py:123-129 | Each entry written is the prefix followed by a 0/1 path that leads from n to a leaf carrying that symbol. |
| Codes.CodeMapPaths | src/compression_utils.py:123-129 | Every codeword of a trie is a 0/1 string leading from the root to its symbol's leaf. |
| Codes.CodeMapPrefixFree | src/compression_utils.py:123-129 | No codeword of a trie's encoding map is a prefix of another. |
| Codes.CodeMapBits | src/compression_utils.py:123-129 | Every codeword consists of binary digits only. |
| Codes.CodewordsExtend | src/compression_utils.py:147-148 | Encoding one more character appends exactly its codeword. |
| Codes.CodewordsAppend | src/compression_utils.py:147-148 | The codewords of a concatenation are the concatenation of the codewords. |
| Codes.CodewordsBits | src/compression_utils.py:147-149 | The concatenated codewords are a bit string. |
| Codes.DecodeStep | src/compression_utils.py:182-192 | One loop round from a node other than the terminator's leaf: emit a non-terminator leaf and reset to the root, then descend to the child chosen by the bit, which is still inside the trie. |
| Codes.DecodeAlong | src/compression_utils.py:182-192 | Walking a path's bits from a node lands on the node the path reaches and emits nothing on the way. |
| Codes.DecodeCodewords | src/compression_utils.py:170-197 | Decoding a terminator-free message's codewords, then the terminator's codeword, then anything at all, appends exactly that message to the text decoded so far. |
| Codes.DecodeRoundTrip | src/compression_utils.py:170-197 | Decoding from the root returns exactly the terminator-free message, whatever bits follow its terminator. |
| Codes.EmbeddedTerminatorTruncates | src/compression_utils.py:184-186 | If the message itself contains the terminator, decoding returns only the text before its first occurrence. |
| CompressionUtils.Frequencies | src/compression_utils.py:90-98 | The table always contains the terminator. |
| CompressionUtils.FrequenciesFacts | src/compression_utils.py:90-98 | The keys are exactly the corpus characters plus the terminator. Each other count is the character's number of occurrences; the terminator's is its occurrences plus one. Every count is at least 1. |
| CompressionUtils.FrequenciesSnoc | src/compression_utils.py:93-97 | Counting one more character raises its count by one, or adds it at 1. |
| CompressionUtils.FrequenciesTotal | src/compression_utils.py:90-98 | The counts add up to the corpus length plus one. |
| CompressionUtils.TrieOfFacts | src/compression_utils.py:79-80 | The trained trie is well formed and holds one leaf per table entry. Its symbols are the corpus characters plus the terminator. Its root count is the corpus length plus one. A leaf root is the terminator's leaf. |
| CompressionUtils.PaddedShape | src/compression_utils.py:150-161 | The padded bits are 8·(n div 8 + 1) long. They start with the n unpadded bits, and what follows is 1 to 8 zeros. |
| CompressionUtils.PadLayout | src/compression_utils.py:150-177 | The whole bytes cut off the bit string, followed by the remaining bits padded with zeros to eight, are all octets. Packing them and expanding the bytes again gives the bit string followed by the padding. |
| CompressionUtils.PackThenExpand | src/compression_utils.py:162-177 | Packing octets with `bitstrings_to_bytes` and expanding the bytes again gives the octets back, concatenated. |
| CompressionUtils.BytesToBitsInjective | src/compression_utils.py:175-177 | A byte buffer is determined by its expansion to bits. |
| CompressionUtils.ReusableHuffman.constructor | src/compression_utils.py:66-81 | The new codec holds the trie trained on its corpus and that trie's encoding map. |
| CompressionUtils.ReusableHuffman.CharFrequency | src/compression_utils.py:90-98 | The loop produces exactly the frequency table of its input. |
| CompressionUtils.ReusableHuffman.MakeTrie | src/compression_utils.py:101-120 | Both loops together produce exactly the trie the merge algorithm specifies for the table. |
| CompressionUtils.ReusableHuffman.EncodingMap | src/compression_utils.py:123-129 | The recursion adds exactly the entries for the leaves below the node, and changes nothing but the encoding map. |
| CompressionUtils.ReusableHuffman.GetEncodingMap | src/compression_utils.py:131-132 | The result equals the internal map and leaves the codec unchanged. Its keys are the corpus characters plus the terminator. It is prefix-free, and each codeword is a 0/1 path to its symbol's leaf. |
| CompressionUtils.ReusableHuffman.CompressMessage | src/compression_utils.py:144-162 | A key error exactly when some character has no codeword, reporting the first such character. Otherwise n div 8 + 1 bytes, whose bits are the message's codewords, then the terminator's, then 1 to 8 zero bits. |
| CompressionUtils.ReusableHuffman.PackBits | src/compression_utils.py:150-162 | The slicing and padding loops yield n div 8 + 1 bytes whose bits are the padded bit string. |
| CompressionUtils.ReusableHuffman.SliceWhole | src/compression_utils.py:150-153 | The slicing loop yields `length` octets whose concatenation is the first 8·`length` bits. |
| CompressionUtils.ReusableHuffman.PadLast | src/compression_utils.py:154-161 | The padding loop leaves the whole bytes unchanged and makes the last string the remaining bits followed by `num3` zeros. |
| CompressionUtils.ReusableHuffman.Decompress | src/compression_utils.py:170-197 | The result is the decoding walk over the expansion of the bytes: the text before the terminator's leaf, or the partial text when the bits run out. |
| CompressionUtils.ReusableHuffman.WalkTrie | src/compression_utils.py:179-197 | The bit loop computes exactly the decoding walk from the root. |
| CompressionUtils.PaddedRoundTrip | src/compression_utils.py:144-197 | Bytes whose bits are a terminator-free message's padded encoding decode back to that message. |
| CompressionUtils.TrailingBytesIgnored | src/compression_utils.py:182-186 | Bytes appended after a compressed message never change what it decodes to. |
| CompressionUtils.CodecRoundTrip | src/compression_utils.py:66-197 | For a trained codec, every terminator-free message over the corpus characters decodes back from its compressed bytes. |
| CompressionUtils.CompressThenDecompress | src/compression_utils.py:144-197 | `decompress(compress_message(m)) == m` for every terminator-free message m over the corpus characters. |
| Scenarios.TrieOfA | src/compression_tests.py:20-23 | The trie trained on "A" merges the terminator's leaf (zero child) and 'A' (one child). |
| Scenarios.CodeMapOfA | src/compression_tests.py:20-23 | Its encoding map is {ETB: "0", 'A': "1"}. |
| Scenarios.TrieOfAB | src/compression_tests.py:25-28 | The trie trained on "AB" has 'B' as zero child and the terminator/'A' merge as one child. |
| Scenarios.CodeMapOfAB | src/compression_tests.py:25-28 | Its encoding map is {ETB: "10", 'A': "11", 'B': "0"}. |
| Scenarios.TrieOfABBBCC | src/compression_tests.py:30-33 | The exact trie trained on "ABBBCC". |
| Scenarios.CodeMapOfABBBCC | src/compression_tests.py:30-33 | Its encoding map is {ETB: "100", 'A': "101", 'B': "0", 'C': "11"}. |
| Scenarios.TrieOfEmpty | src/compression_utils.py:92-119 | The empty corpus yields the terminator's leaf alone as root, coded by the empty path. |
| Scenarios.ConstructorA | src/compression_tests.py:20-23 | A codec trained on "A" hands out {ETB: "0", 'A': "1"}. |
| Scenarios.ConstructorAB | src/compression_tests.py:25-28 | A codec trained on "AB" hands out {ETB: "10", 'A': "11", 'B': "0"}. |
| Scenarios.ConstructorABBBCC | src/compression_tests.py:30-33 | A codec trained on "ABBBCC" hands out {ETB: "100", 'A': "101", 'B': "0", 'C': "11"}. |
| Scenarios.CompressionA | src/compression_tests.py:41-47 | "A" on the "A" codec compresses to the bytes of ['10000000']. |
| Scenarios.CompressionAB | src/compression_tests.py:49-55 | "AB" on the "AB" codec compresses to the bytes of ['11010000']. |
| Scenarios.CompressionBA | src/compression_tests.py:57-63 | "BA" on the "AB" codec compresses to the bytes of ['01110000']. |
| Scenarios.CompressionABBBCC | src/compression_tests.py:65-72 | "ABBBCC" on the "ABBBCC" codec compresses to the bytes of ['10100011', '11100000']. |
| Scenarios.CompressionBABCBC | src/compression_tests.py:74-81 | "BABCBC" on the "ABBBCC" codec compresses to the bytes of ['01010110', '11100000']. |
| Scenarios.DecodesA | src/compression_tests.py:90-95 | The bytes of ['10000000'] decode to "A" on any trie with the "A" codebook. |
| Scenarios.DecompressionA | src/compression_tests.py:90-95 | The "A" codec decompresses the bytes of ['10000000'] to "A". |
| Scenarios.DecodesAB | src/compression_tests.py:97-102 | The bytes of ['11010000'] decode to "AB" on any trie with the "AB" codebook. |
| Scenarios.DecompressionAB | src/compression_tests.py:97-102 | The "AB" codec decompresses the bytes of ['11010000'] to "AB". |
| Scenarios.DecodesBA | src/compression_tests.py:104-109 | The bytes of ['01110000'] decode to "BA" on any trie with the "AB" codebook. |
| Scenarios.DecompressionBA | src/compression_tests.py:104-109 | The "AB" codec decompresses the bytes of ['01110000'] to "BA". |
| Scenarios.DecodesABBBCC | src/compression_tests.py:111-117 | The bytes of ['10100011', '11100000'] decode to "ABBBCC" on any trie with the "ABBBCC" codebook. |
| Scenarios.DecompressionABBBCC | src/compression_tests.py:111-117 | The "ABBBCC" codec decompresses the bytes of ['10100011', '11100000'] to "ABBBCC". |
| Scenarios.DecodesBABCBC | src/compression_tests.py:119-125 | The bytes of ['01010110', '11100000'] decode to "BABCBC" on any trie with the "ABBBCC" codebook. |
| Scenarios.DecompressionBABCBC | src/compression_tests.py:119-125 | The "ABBBCC" codec decompresses the bytes of ['01010110', '11100000'] to "BABCBC". |
| Scenarios.WalkAllOnes | src/compression_utils.py:179-197 | Eight one-bits on the "ABBBCC" trie reach the 'C' leaf four times. The walk emits three 'C's and runs out of bits on the fourth. |
| Scenarios.DecompressionAllOnes | src/compression_utils.py:170-197 | The "ABBBCC" codec decompresses the single byte 0xFF to the partial text "CCC" rather than failing. |
| Scenarios.DecompressionEmptyCorpus | src/compression_utils.py:176-197 | A codec trained on the empty corpus starts on the terminator's leaf and decompresses any bytes to "". |
| Scenarios.PackA3E0 | src/byte_utils.py:20-22 | `bitstrings_to_bytes(['10100011', '11100000'])` gives the bytes 0xa3, 0xe0. |
| Scenarios.ExpandA2 | src/byte_utils.py:39-45 | `byte_to_bitstring(0xa2)` gives "10100010". |
| Scenarios.Expand03 | src/byte_utils.py:39-45 | `byte_to_bitstring(0x03)` gives "00000011". |

## Left out

- **Priority queue.** `queue.PriorityQueue` (its heap layout, locking and thread safety) is modelled as a sequence kept strictly sorted by `__lt__`. Only the extraction order matters, and `SortedUnique` shows that order is fully determined by the queued nodes.
- **Taking a copy.** The `copy.deepcopy` in `get_encoding_map` has no counterpart: a Dafny map is a value, so returning it already hands out an independent copy.
- **Conversion library.** The `bitstring.Bits` call behind `byte_to_bitstring` is not modelled. The code passes the byte to it as a decimal string (`Bits(uint=str(b), length=8)`, `src/byte_utils.py:47`); the model assumes the library reads that string as the number, and gives only the 8-bit, most-significant-first result the docstring describes (`src/byte_utils.py:39-45`).
- **Input to `bitstrings_to_bytes` other than 8-bit strings.** The precondition of `ByteUtils.BitstringsToBytes` admits only strings of exactly 8 binary digits, the input its docstring asks for (`src/byte_utils.py:9-14`). The Python code itself accepts more: `int(bs, 2)` also converts shorter strings (`'101'` gives 5), prefixed, underscored or space-padded forms such as `'0b1010'`, and longer strings whose value is below 256. On others it raises: for example the empty string, whitespace alone, a digit other than 0 or 1, a misplaced underscore or a bare `'0b'` make `int` raise, and a value outside 0..255 (`'-1'`, `'100000000'`) makes `bytes` raise. None of these inputs is modelled. `compress_message`, the only caller in the core, passes 8-digit strings only.
- **Empty table in `make_trie`.** `ReusableHuffman.MakeTrie` requires a non-empty table. On an empty table the final `tree.get()` would block forever. This never happens: `char_frequency` always includes the terminator.
- **Absent children in `encoding_map`.** The `None` check in `encoding_map` is not modelled separately. In the `Node` datatype a leaf has no children and an internal node always has two, so the recursion stops at leaves.
- **`is_leaf`.** It is modelled by the `Node.IsLeaf` predicate, that is, the `Leaf` constructor. `ReusableHuffman.EncodingMap`, `ReusableHuffman.WalkTrie` and `Codes.DecodeFrom` call it where the source calls `is_leaf()`.
- **Loop split.** `compress_message` and `decompress` are each split into several methods rather than one. `ReusableHuffman.PackBits` holds the packing steps, with the slicing loop in `ReusableHuffman.SliceWhole` and the padding loop in `ReusableHuffman.PadLast`. The bit-walking loop forms `ReusableHuffman.WalkTrie`. They take the same steps as the source, in an equivalent order: `num3` is computed from the remaining bits before they are appended, the unused `num2` is dropped, and `CompressMessage` tests for a missing key where the source's lookup raises.
- **Messages that contain the terminator.** The round-trip members (`CompressionUtils.CompressThenDecompress`, `CompressionUtils.CodecRoundTrip`, `CompressionUtils.PaddedRoundTrip`, `Codes.DecodeRoundTrip`) require a message free of the terminator character. For other messages `Codes.EmbeddedTerminatorTruncates` states the result: only the text before the first terminator comes back.
- **Character order.** Characters are compared by code point, as Python compares one-character strings. A Dafny `char` is a Unicode scalar value, so a corpus or message holding a lone surrogate, which a Python `str` can hold, is outside the model.
- **Integers.** Counts are unbounded integers and bytes are integers in 0..255 (`ByteUtils.Byte`), as in Python; no fixed-width arithmetic occurs.
- **Unit-test harness, I/O and concurrency.** The `unittest` harness is not modelled; its scenarios appear as the `Scenarios` members. There is no I/O and no concurrency in the core.
