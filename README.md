# Huffman coder — a Dafny model

This project models the Huffman entropy coder of the Hachiman encoder: the
canonical header `HuffmanLogic.h` and its older console copy
`HachimanEncoder.cpp`.

- **Trees.** A tree is `Nil | Leaf(symbol, f) | Internal(f, left, right)`.
  - `Nil` stands for a null pointer, either a null root or a missing child.
  - A node with no children behaves as a leaf, as the C++ test `!left && !right` does.
- **Heap.** `HuffHeap` is a class over a 1-indexed array with `capacity` and `size`. `Push` and `Pop` keep the heap ordered with sift loops.
- **Builders.** The text and image builders are methods. Each one:
  - counts frequencies into an array;
  - pushes one leaf per positive count;
  - merges the two minima until at most one node is left.
- **Code table and coding.**
  - `generateCodes` writes root-to-leaf paths into an array (`0` for left, `1` for right).
  - `encode` concatenates codes.
  - `decode` walks the tree bit by bit.
  - Each of these is specified by a function: `Gen`, `Encoded`, and `Run` over a `Walk` state.
- **Image path.** It adds a predictive transform: each byte minus the one before it, plus 255. The inverse of this transform is clamped to 0..255.
- **Serialization.**
  - The tree text is preorder: `L<symbol>:<f>.` for a leaf, and `I` followed by both subtrees for an internal node.
  - The parser is recursive and moves along a shared position.
  - It recomputes each internal node's frequency from the node's children.
  - `stoi` failures are modelled as `Failure` results.
- **Console copy.** Its builder indexes counts with `int(c)` in a heap of capacity 255. Where `char` is signed (x86), `int(c)` is negative for bytes from 128 on; where it is unsigned (ARM Linux, say), it is the byte itself. Both variants are modelled. It has a 256-entry code table and a decoder with no null checks.

The main results proved:

- the heap keeps its order and its contents;
- the header's text and image builders, and the console builders wherever they drop nothing, produce a full tree whose leaves are exactly the counted symbols, where every internal node's frequency is the sum of its children's and the root's is the input length. The exception: where `char` is unsigned, a text holding all 256 byte values makes the console builder drop the leaf of byte 255, whose count is then missing from the root;
- the code table is prefix-free and each code leads to its symbol;
- `decode(encode(s, T), T) == s` for the tree built from `s`, whenever `s` is empty or holds two distinct bytes. A text of one repeated byte encodes to nothing and decodes to nothing;
- `decodeImage(encodeImage(b)) == b` whenever two of the predictive symbols differ. An image whose predictive symbols are all equal (an all-black image, a single pixel, a ramp such as [1, 2, 3]) builds a single leaf with the empty code. It encodes to nothing, `decodeImage` writes none of its buffer, and so it does not round-trip;
- for a full tree (every tree the builders make), `deserializeTree(serializeTree(T))` rebuilds `T` with recomputed internal frequencies, and rebuilds exactly `T` when `T` already sums correctly. A tree that is not full can come back changed: a right-only child returns as a left child;
- the decoder's edge cases, and the parser's error paths.

Files: `tree.dfy` (HuffTree), `heap.dfy` (Heap), `builder.dfy` (Builder),
`codes.dfy` (Codes), `decoding.dfy` (Decoding), `image.dfy` (Image),
`serialization.dfy` (Serialization), `pipeline.dfy` (Pipeline), `console.dfy` (Console).

## Model

| member | source | states |
|---|---|---|
| HuffTree.CompareNodesIsStrictWeakOrder | HuffmanLogic.h:58-61 | comparing by frequency is irreflexive and transitive, and incomparability is transitive |
| HuffTree.ConservedRootIsLeafSum | HuffmanLogic.h:42-48 | when every internal node is built as `HuffNode(l->f + r->f, l, r)`, the root's frequency is the sum of its leaves' frequencies |
| HuffTree.FollowFull | HuffmanLogic.h:18-55 | in a full tree, every non-null node reached by a path is full, and it has no children exactly when it is a leaf |
| HuffTree.SymbolsBelowIff | HuffmanLogic.h:18-55 | a tree's symbols all lie in 0..n-1 exactly when every leaf symbol it carries does |
| Heap.HuffHeap.constructor | HuffmanLogic.h:74-80 | `HuffHeap(capacity)` makes an empty valid heap over a `capacity + 1` array, with a sentinel node in slot 0 |
| Heap.HuffHeap.Default | HachimanEncoder.cpp:62-67 | `HuffHeap()` makes an empty valid heap of capacity 255 over 256 slots |
| Heap.HuffHeap.FromNodes | HachimanEncoder.cpp:79-89 | `HuffHeap(arr, s)` pushes the nodes in order: it holds the first min(s, 255) of them, and a push on a full heap drops the rest |
| Heap.BuildHuffHeap | HachimanEncoder.cpp:92-95 | gives a fresh heap holding the same nodes as `HuffHeap(arr, s)` |
| Heap.HuffHeap.IsEmpty | HuffmanLogic.h:87-90 | true exactly when the heap holds no node |
| Heap.HuffHeap.IsFull | HuffmanLogic.h:92-95 | true exactly when the heap holds `capacity` nodes |
| Heap.HuffHeap.Push | HuffmanLogic.h:102-115 | on a full heap nothing changes. Otherwise size grows by one and the contents gain `val`. Heap order holds in both cases; the console `push` at HachimanEncoder.cpp:116-131 is the same without the full-heap message |
| Heap.HuffHeap.SiftUp | HuffmanLogic.h:110-114 | the sift-up loop: from a heap ordered everywhere except between slot `k0` and its parent (with that parent no larger than `k0`'s children), it restores heap order and keeps the contents |
| Heap.HuffHeap.Pop | HuffmanLogic.h:117-143 | on an empty heap it returns null and nothing changes. Otherwise it returns a stored node of minimum frequency, size drops by one, that node leaves the contents, and heap order holds; the console `pop` at HachimanEncoder.cpp:134-166 is the same |
| Heap.HuffHeap.SiftDown | HuffmanLogic.h:125-141 | the sift-down loop restores heap order after the last node moves to the root, and keeps the stored nodes as they were |
| Builder.PushLeaves | HuffmanLogic.h:244-248 | pushes one leaf `(i, freqs[i])` for each positive count, and the heap then holds exactly those leaves |
| Builder.PushLeaf | HuffmanLogic.h:246-247 | one pass of the leaf-pushing loop: after index i the heap holds exactly the leaves of the positive counts up to and including i |
| Builder.MergeTwo | HuffmanLogic.h:252-253 | the first pop takes a minimum node, the second takes a minimum of what remains, and both leave the heap |
| Builder.MergeLoop | HuffmanLogic.h:250-255 | the merge loop leaves at most one node, and keeps a forest whose leaves are the pushed leaves and whose trees are full and sum correctly |
| Builder.MergeAll | HuffmanLogic.h:244-257 | from a counts table: null exactly when no count is positive; otherwise a full tree that sums correctly, whose root frequency is the total count and whose leaves are the counted leaves |
| Builder.CountBytes | HuffmanLogic.h:237-240 | the count loop over `(unsigned char)c` gives each byte value's number of occurrences |
| Builder.BuildHuffmanTree | HuffmanLogic.h:235-260 | null exactly for empty text; otherwise a full tree that sums correctly, with root frequency \|s\|, whose leaves are one `(byte, count)` per distinct byte, with symbols below 256 |
| Builder.CountedLeaves | HuffmanLogic.h:239-248 | the pushed leaves' frequencies sum to the input length, and there are none exactly when the input is empty |
| Builder.BuiltLeaves | HuffmanLogic.h:235-260 | the built tree's leaves are exactly the pairs (symbol in the input, its number of occurrences), each once, and it carries exactly the input's symbols |
| Builder.BuiltLeafCount | HuffmanLogic.h:244-248 | each leaf occurs once in the built tree if it is a counted (symbol, count) pair, and otherwise not at all |
| Builder.BuiltSymbols | HuffmanLogic.h:244-248 | the built tree carries a symbol exactly when it occurs in the input |
| Codes.GenerateCodes | HuffmanLogic.h:266-278 | writes into the code array exactly the table `Gen` describes (a childless node writes its path, internal nodes recurse left then right); the console copy at HachimanEncoder.cpp:203-213 is the same over 256 entries |
| Codes.GetHuffmanCodes | HuffmanLogic.h:281-290 | clears every table entry to `""`, then generates codes from the empty path; `getHuffmanCodesForImage` (HuffmanLogic.h:375-384) is the same over 511 entries and the console copy (HachimanEncoder.cpp:214-220) over 256 |
| Codes.GenPath | HuffmanLogic.h:266-278 | in a full tree, each carried symbol's entry is the starting code followed by a path to a leaf with that symbol |
| Codes.GenUntouched | HuffmanLogic.h:266-278 | entries for symbols the tree does not carry are left as they were |
| Codes.CodeTable | HuffmanLogic.h:266-290 | every carried symbol's code leads from the root to a leaf carrying it, and it is empty exactly when the tree is a single leaf. Every other entry is `""` |
| Codes.PrefixFree | HuffmanLogic.h:266-290 | no code of a carried symbol is a prefix of the code of another carried symbol |
| Codes.Encode | HuffmanLogic.h:293-302 | the output is the codes of the input bytes, read through `(unsigned char)c`, concatenated in order |
| Codes.EncodedLength | HuffmanLogic.h:293-302 | the encoded length is the sum over symbols of count × code length |
| Codes.CostBump | HuffmanLogic.h:298-299 | one more occurrence of a symbol adds one more code length to the cost |
| Decoding.ToBytes | HuffmanLogic.h:323 | each decoded symbol is appended as the byte `(char)symbol`, which is the symbol mod 256 |
| Decoding.Decode | HuffmanLogic.h:305-328 | the result is `DecodeResult`: `""` for a null tree, `"Error"` when a step reaches a null child, and otherwise the symbols of the leaves reached, restarting at the root after each |
| Decoding.RunAppend | HuffmanLogic.h:312-326 | walking `a + b` is walking `a`, then walking `b` from the state reached |
| Decoding.RunExtends | HuffmanLogic.h:319 | once the walk has stopped with an error it stays stopped, and the symbols decoded so far are kept |
| Decoding.WalkCode | HuffmanLogic.h:312-326 | following a leaf's code from the root emits that leaf's symbol and returns to the root |
| Decoding.RunEncoded | HuffmanLogic.h:305-328 | walking the encoding of symbols the tree carries never breaks, and emits exactly those symbols |
| Decoding.DecodeEncoded | HuffmanLogic.h:305-328 | for a full tree with two or more leaves, `decode(encode(s))` is `s` when every byte of `s` is in the tree |
| Decoding.DecodeTrailingPath | HuffmanLogic.h:312-326 | an incomplete code left at the end is dropped silently: the text before it still decodes |
| Decoding.SingleLeaf | HuffmanLogic.h:270-319 | a one-leaf tree gives every symbol the code `""`, so the text encodes to nothing, and any non-empty bit-string decodes to `"Error"` |
| Decoding.DecodeMissingChild | HuffmanLogic.h:314-319 | a step onto a null child gives `"Error"`, whatever bits follow |
| Decoding.DecodeReadsNonZeroAsOne | HuffmanLogic.h:314-317 | every character other than `'0'` is read as `'1'` |
| Decoding.Normalized | HuffmanLogic.h:314-317 | maps `'0'` to `'0'` and every other character to `'1'` |
| Image.Residual | HuffmanLogic.h:350 | the predictive symbol of each pixel lies in 0..510 |
| Image.Residuals | HuffmanLogic.h:345-352 | one symbol per pixel, each in 0..510 |
| Image.Unpredict | HuffmanLogic.h:445-448 | the inverse `sym - 255 + prev`, clamped to 0 below and to 255 above |
| Image.Reconstruct | HuffmanLogic.h:439-451 | writes one byte per decoded symbol |
| Image.ReconstructResiduals | HuffmanLogic.h:409-448 | the inverse transform undoes the forward one exactly |
| Image.ResidualsReconstruct | HuffmanLogic.h:409-448 | when no clamp fires, the forward transform undoes the inverse |
| Image.ReconstructPrefix | HuffmanLogic.h:439-451 | the bytes written for a prefix of the symbols are a prefix of the bytes written for all of them |
| Image.BuildHuffmanTreeForImage | HuffmanLogic.h:339-372 | null exactly for no pixels; otherwise a full tree that sums correctly, with root frequency `data_size`, whose leaves are one (symbol, count) per distinct predictive symbol; the console copy at HachimanEncoder.cpp:282-320 is the same |
| Image.EncodeImage | HuffmanLogic.h:389-418 | an image that fails to load gives `""`, size 0 and an untouched tree. Otherwise the tree is built from the predictive symbols, carries exactly those symbols, and the bits are the symbols' codes |
| Image.EncodePixels | HuffmanLogic.h:409-414 | the transform loop concatenates the codes of the predictive symbols in pixel order; the console copy at HachimanEncoder.cpp:340-346 is the same |
| Image.DecodedImage | HuffmanLogic.h:430-454 | at most `data_size` bytes are decoded |
| Image.StopImage | HuffmanLogic.h:437-441 | when the walk stops at a null child, at `data_size` bytes or at the end of the bits, the bytes written are the clamped inverse of the symbols decoded up to then |
| Image.DecodeImage | HuffmanLogic.h:421-456 | a null tree gives null. Otherwise it gives a fresh buffer of `data_size` bytes whose first bytes are `DecodedImage`, stopping at a null child or at `data_size` |
| Image.DecodePixels | HuffmanLogic.h:430-454 | the decode loop stops after some prefix of the bits, at a null child, at a symbol that would overflow the buffer, or at the end. The buffer then starts with `Reconstruct` of the first `data_size` symbols the walk over that prefix decodes |
| Image.DecodeBit | HuffmanLogic.h:432-452 | one bit of the decode loop: either the loop breaks here (null child, or full buffer) and the symbols written are the walk's symbols cut at `data_size`, or the state is the walk after one more bit |
| Image.WritePixel | HuffmanLogic.h:443-451 | writing the clamped inverse of a new symbol extends the buffer's prefix from `Reconstruct(syms)` to `Reconstruct(syms + [sym])` |
| Image.DecodeImageEncoded | HuffmanLogic.h:389-456 | for a full tree with two or more leaves that carries every predictive symbol, decoding the encoding of an image gives its bytes back |
| Serialization.IntToString | HuffmanLogic.h:157 | `to_string` gives a non-empty string of digits and an optional minus sign |
| Serialization.Stoi | HuffmanLogic.h:206-207 | a value `stoi` returns fits in 32 bits, and a field holding no digit at all throws invalid argument |
| Serialization.DigitsValue | HuffmanLogic.h:157-207 | reading back the decimal digits of n gives n |
| Serialization.StoiIntToString | HuffmanLogic.h:157-207 | `stoi(to_string(n))` is `n` when n fits in 32 bits, and otherwise it is out of range |
| Serialization.Scan | HuffmanLogic.h:190-194 | the field read stops at the first stop character or at the end of the data, and never contains the stop character |
| Serialization.ReadField | HuffmanLogic.h:190-194 | the read loop collects exactly the characters `Scan` describes and stops where `Scan` stops |
| Serialization.ReadLeaf | HuffmanLogic.h:186-209 | reads the symbol up to `:` and the frequency up to `.`, skipping each delimiter. It gives the leaf, or the first `stoi` error |
| Serialization.DeserializeRecursive | HuffmanLogic.h:179-219 | gives null past the end or on an unknown tag, a leaf for `L`, and for `I` a node over both subtrees with frequency recomputed (0 for a missing child). Errors propagate, and the position ends where `Parse` ends |
| Serialization.Serialize | HuffmanLogic.h:151-174 | the text is empty exactly for a null tree |
| Serialization.SerializeTag | HuffmanLogic.h:155-168 | a node's text starts with `L` when the node has no children (the `L<symbol>:<f>.` form) and with `I` otherwise |
| Serialization.DeserializeTree | HuffmanLogic.h:222-226 | parsing from position 0: empty data, or data starting with a tag other than `L` or `I`, gives null |
| Serialization.SerializeRoundTrip | HuffmanLogic.h:151-226 | for a full tree (every tree the builders make) with 32-bit leaf fields, `deserializeTree(serializeTree(T))` is T with every internal frequency recomputed, and is exactly T when T already sums correctly. The empty tree round-trips too |
| Serialization.RightOnlyChildMovesLeft | HuffmanLogic.h:160-216 | a node whose only child is on the right serializes as `I` then the child, and parses back with that child on the left: the round trip needs a full tree |
| Serialization.ParseSerialized | HuffmanLogic.h:179-219 | parsing the serialization of a full tree at any position gives the recomputed tree and ends just after it |
| Serialization.ParseInternal | HuffmanLogic.h:210-217 | `I` followed by two parsed subtrees gives a node whose frequency is the sum of theirs |
| Serialization.ParseLeaf | HuffmanLogic.h:186-209 | the text `L<sym>:<f>.` parses to `Leaf(sym, f)` when both fit in 32 bits, and otherwise to out of range |
| Serialization.RecomputedIff | HuffmanLogic.h:210-217 | recomputing internal frequencies changes nothing exactly when the tree already sums correctly |
| Serialization.RecomputedConserves | HuffmanLogic.h:210-217 | a recomputed tree always sums correctly |
| Serialization.RecomputedLeaves | HuffmanLogic.h:210-217 | recomputing keeps the leaves and fullness |
| Serialization.ParseLeafOutOfRange | HuffmanLogic.h:206-207 | a leaf whose symbol or frequency does not fit in 32 bits makes `stoi` fail with out of range |
| Serialization.ParseMissingSymbol | HuffmanLogic.h:190-206 | `L:` with no digits makes `stoi` fail with invalid argument |
| Serialization.ParseUnknownTag | HuffmanLogic.h:218 | a text starting with any tag other than `L` or `I` parses to null |
| Serialization.ParseBareInternal | HuffmanLogic.h:210-216 | `I` alone parses to a node of frequency 0 with two missing children |
| Pipeline.TextRoundTrip | HuffmanLogic.h:235-328 | for the tree built from s, `decode(encode(s))` is s when s is empty or holds two distinct bytes |
| Pipeline.TextSingleSymbol | HuffmanLogic.h:235-328 | a non-empty text of one repeated byte builds a single leaf, encodes to `""` and decodes to `""` |
| Pipeline.TwoSymbolsMeanInternal | HuffmanLogic.h:250-255 | a tree carrying two different symbols is not a single leaf |
| Pipeline.ImageRoundTrip | HuffmanLogic.h:339-456 | for the tree built from an image, decoding its encoding gives the bytes back when two predictive symbols differ |
| Pipeline.ImageSingleSymbol | HuffmanLogic.h:339-456 | for the tree built from non-empty data whose predictive symbols are all equal: the tree is one leaf `(symbol, \|data\|)`, the encoding is empty, and decoding it writes no byte |
| Console.SignedIndex | HachimanEncoder.cpp:182 | `int(c)` of a byte is in -128..127, congruent to the byte mod 256, and negative exactly for bytes from 128 on |
| Console.SignedIndexOfHighByte | HachimanEncoder.cpp:182 | the byte 200 is counted at index -56 |
| Console.BuildHuffmanTreeConsole | HachimanEncoder.cpp:178-202 | on 7-bit text it gives the header builder's promise, with symbols below 128, although the heap's capacity is only 255 |
| Console.CountSigned | HachimanEncoder.cpp:180-182 | the console count loop at the signed index `int(c)`: on 7-bit text the table is the count of each byte |
| Console.PushLeafCapped | HachimanEncoder.cpp:186-187 | one pass of the console push loop: the heap holds the first `capacity` leaves of the counts up to and including i, and a leaf pushed on a full heap is dropped |
| Console.PushLeavesCapped | HachimanEncoder.cpp:184-188 | the heap ends holding the first `capacity` leaves of the table in index order; every later leaf is dropped |
| Console.BuildHuffmanTreeUnsigned | HachimanEncoder.cpp:178-202 | where `char` is unsigned, every byte is counted. The result is null exactly for empty text; otherwise it is a full tree that sums correctly, whose leaves are the first 255 counted leaves |
| Console.UnsignedMissingByte | HachimanEncoder.cpp:178-202 | when some byte value is absent from the text, nothing is dropped, and the unsigned console builder keeps the header builder's whole promise |
| Console.UnsignedDropsLastByte | HachimanEncoder.cpp:118-122 | when all 256 byte values occur, the full heap drops the leaf of byte 255: the tree carries every other byte but not 255, and its root frequency is \|s\| minus the count of 255 |
| Console.EncodeConsole | HachimanEncoder.cpp:237-244 | on 7-bit text it concatenates the 256-entry table's codes in order |
| Console.DecodeConsole | HachimanEncoder.cpp:246-264 | when the walk never steps onto a null child, it agrees with the header's `decode` |
| Console.NilTreeBreaks | HachimanEncoder.cpp:250-255 | any bit walked from a null root steps onto a null child |
| Console.ConsoleRoundTrip | HachimanEncoder.cpp:237-264 | for a full tree with two or more leaves, the walk over an encoding never meets a null child, and it gives the text back |
| Console.ConsoleTextRoundTrip | HachimanEncoder.cpp:178-264 | the console pipeline on 7-bit text that is empty or holds two distinct characters: decoding is defined and gives the text back |

## Left out

- Image file I/O: `loadImage`, `saveImage`, and `stbi_load` inside `encodeImage`. The pixels are an in-memory byte sequence, and a failed load is `None`.
- Image sizes: the `width * height * channels` product and its overflow are not modelled. Pixel data beyond the decoded bytes is left uninitialised in C++, and the model says nothing about it.
- `getCompressionRatio` and the other ratio statistics, which use floating point.
- The Qt user interface, including its "forest" step slots (the heap-based builder covers the same greedy merge).
- Console I/O: `drawTable`, `main`, and the `cout` messages of `push` and `pop`.
- Memory: destructors, `delete` and leaks.
- The function-local `static` code arrays: each call allocates a table whose entries are unknown until the clearing loop runs, and returns its contents as a sequence. Sharing of the static table between calls is not modelled.
- Machine integers: sums of frequencies, node frequencies, `int pos` and the counting arrays are unbounded integers. Only `stoi`'s 32-bit range is modelled.
- Exact code bit patterns under equal-frequency ties: the properties hold for any tie order.
- Console.BuildHuffmanTreeConsole: assumes a signed `char`, as on x86, and requires 7-bit text, because a byte from 128 on then indexes the count array out of bounds (see Findings). Where `char` is unsigned, the console builder is `Console.BuildHuffmanTreeUnsigned`, which takes any text; its 255-slot heap drops the leaf of byte 255 when all 256 byte values occur (see Findings).
- Console.EncodeConsole: assumes a signed `char` and requires 7-bit text, because where `char` is signed `codes[int(c)]` is out of bounds for bytes from 128 on. The console `encode` where `char` is unsigned (an in-bounds lookup at the byte itself) is not modelled.
- Console.DecodeConsole: requires a walk that never steps onto a null child; the console `decode` dereferences null there.
- Serialization.SerializeRoundTrip: requires a full tree (or null), because a node with one missing child does not come back as it was (`Serialization.RightOnlyChildMovesLeft`); every tree the builders make is full. It also requires every leaf field to fit in 32 bits, because `stoi` reads back only that range.

## Findings

| source | as written | input that shows it | evidently intended | confidence | as-written member | corrected member |
|---|---|---|---|---|---|---|
| HachimanEncoder.cpp:182 | `charFreqs[int(c)]++` indexes the count array with a signed `char` | text holding the byte 200: `int(c)` is -56, before the start of `charFreqs` | index with `(unsigned char)c` as HuffmanLogic.h:240 does, counting every byte in 0..255 | not executed | Console.SignedIndexOfHighByte | Builder.BuildHuffmanTree |
| HachimanEncoder.cpp:183 | `new HuffHeap()` has capacity 255, while the count table has 256 entries; with an unsigned `char` all 256 can be positive, and `push` then drops the last leaf | a text holding all 256 byte values, where `char` is unsigned: the leaf of byte 255 is dropped, so byte 255 gets no code | a heap of capacity 256, as `new HuffHeap(256)` at HuffmanLogic.h:242 | not executed | Console.UnsignedDropsLastByte | Builder.BuildHuffmanTree |
