# Huffman codec drafts, modelled in Dafny

This project models the core of a small C++ Huffman coding repository. The
repository holds several drafts of the same machinery, and the model follows
each draft separately.

- **Trees and their order** (`huffman.h`). An `encoding` is a pair (symbol
  string, weight). Its `operator<` is inverted on weight, so the top of an STL
  `priority_queue` is a lightest encoding. Equal weights are ordered by the
  symbol strings. `operator+` concatenates the strings and adds the weights.
  An `htree` is built as a leaf or as a node with two children, and a node's
  encoding is the sum of its children's.
- **Greedy construction and a breadth-first code table** (`huffman.cpp`).
  `build_tree` puts one leaf per input into the queue. It then repeatedly
  pops the two lightest trees and pushes their merge, until one tree is left.
  `build_code` explores the tree breadth-first and maps each leaf's symbol to
  its path, with `'0'` for a left edge and `'1'` for a right edge.
- **The second draft** (`new_huffman.cpp`). Trees carry a weight and the
  index of their word. `cmp_ptr` orders them by weight only. `huffman_encode`
  merges the queue the same way. It then walks the tree depth-first with an
  explicit stack, overwriting one shared codeword buffer, and prints one line
  (word, codeword) per leaf.
- **Bit buffers** (`huffman_buffers.h`, `huffman_buffers.cpp`).
  - `encode_buffer` appends codeword bits to a fixed array of `4096*8` bits.
    It packs the first eight bits into a byte, least significant bit first,
    and `terminate` packs a last partial byte padded with zeros.
  - `decode_buffer` appends the eight bits of a byte. It walks the tree bit by
    bit (true is right) and reports the index of the leaf it reaches.
- **The older pipeline** (`driver.cpp`).
  - `feed_buffer` is a FIFO over a fixed array with two cursors.
  - `file_to_huff` appends the codeword characters of input bytes while they
    fit.
  - `huff_to_bin` turns every eight `'0'`/`'1'` characters into one byte
    using `trans_bin_string`.

## How the model is organised

| file | module | models |
|---|---|---|
| `wrappers.dfy` | `Wrappers` | `Option` |
| `trees.dfy` | `Trees` | the binary tree both drafts share, paths, leaf counts, fringes |
| `huffman.dfy` | `Huffman` | `encoding`, `htree` of huffman.h |
| `build.dfy` | `HuffmanBuild` | `build_tree` and `build_code` of huffman.cpp |
| `new_huffman.dfy` | `NewHuffman` | new_huffman.cpp |
| `array_copy.dfy` | `ArrayCopy` | the `std::copy` that slides a buffer's live part to the front |
| `buffers.dfy` | `HuffmanBuffers` | huffman_buffers.h and huffman_buffers.cpp |
| `driver.dfy` | `Driver` | `feed_buffer`, `trans_bin_string`, `file_to_huff`, `huff_to_bin` |

Trees are immutable datatypes, as the source's const fields and shared
pointers make them. The tree type `Tree<D>` is generic in its datum:
- `Tree<Encoding>` is huffman.h's tree;
- `Tree<WI>` is new_huffman.cpp's tree, where an internal node's `unsigned`
  index `-1` is `0xFFFF_FFFF`.

A codeword is a path: a string over `'0'` (left) and `'1'` (right).

The code changes state in several places, and the model does too:
- `std::priority_queue` is a sequence held in a local variable. A linear scan
  finds the element `top()` would return, and `pop()` removes it.
- The BFS queue and the DFS stack are local sequences, and the loops carry
  their invariants. The `code` map of `build_code` is a local `map` that the
  loop updates.
- The shared `codeword` vector is an `array<char>` written in place.
- The buffers are classes. Their bit store is an `array`, and their cursors
  are fields.

This decoder behaviour is modelled as written. The loop of
`decode_buffer::pop_byte` tests `bit_loc < next_empty` before it tests for a
leaf. So a buffer that ends exactly at the end of a codeword decodes nothing
until one more bit arrives (`WalkNeedsOneMoreBit`).

## Model

| member | source | states |
|---|---|---|
| Huffman.Plus | huffman.h:35-37 | the sum's symbol string is the left string followed by the right one, and its weight is the sum of the weights |
| Huffman.MakeLeaf | huffman.h:48 | the leaf constructor builds a childless node carrying the encoding, and `is_leaf` holds |
| Huffman.IsLeaf | huffman.h:49 | a node is a leaf iff it has neither a left nor a right child: both one-edge paths lead nowhere |
| Huffman.MakeNode | huffman.h:47 | the two-children constructor has the given children and weighs their sum; its leaves are the left's then the right's, and it is well weighted when they are |
| Huffman.LessIsInvertedWeight | huffman.h:31-34 | a strictly heavier encoding is "less", so a queue top is a lightest one; at equal weight the order is the order of the symbol strings |
| Huffman.LessIsStrictTotalOrder | huffman.h:31-34 | `operator<` is irreflexive, transitive and total on distinct encodings, a valid priority-queue order |
| Huffman.SumOfWeightIsTotal | huffman.h:35-37 | adding encodings with `operator+` in order gives exactly the plain total of their weights |
| Huffman.RootIsSumOfLeaves | huffman.h:47 | in a tree built by the constructors, a node's symbol string is its leaves' strings concatenated left to right, and its weight is their total |
| Trees.InternalIsLeavesMinusOne | huffman.h:42-49 | with only zero or two children, a tree with n leaves has n - 1 internal nodes and 2n - 1 nodes |
| Trees.AtChildren | huffman.cpp:103-105 | following one more `'0'` or `'1'` from an internal node reaches its left or right child |
| Trees.LeafPathIsNoPrefix | huffman.cpp:100-106 | the path to a leaf is a prefix of no other path of the tree |
| Trees.DepthBound | new_huffman.cpp:56-69 | a node at depth d leaves at least d leaves outside its subtree, so every leaf's depth is below the leaf count |
| Trees.LeafInFringe | new_huffman.cpp:71-72 | the leaf at the end of a path is one of the tree's leaves |
| HuffmanBuild.TopIndex | huffman.cpp:78 | `wq.top()` finds an element that no element exceeds under `operator<`, and it is a lightest tree |
| HuffmanBuild.PopTop | huffman.cpp:78-79 | top then pop: a tree that no remaining tree exceeds under `operator<` (so a lightest one, and among equally light ones the one with the greatest symbol string) leaves the queue, which loses exactly that tree and exactly its leaves |
| HuffmanBuild.InitialForest | huffman.cpp:66-70 | the forest starts with exactly one leaf per input encoding, in input order |
| HuffmanBuild.MergeLightest | huffman.cpp:77-81 | one round shrinks the queue by one; the pushed node has the first-popped tree on the left; the first is not less than the second under `operator<` (so no heavier) and the second not less than any tree left (so no heavier); every tree keeps first-popped children on the left; leaves are kept |
| HuffmanBuild.BuildTree | huffman.cpp:61-83 | empty input gives no tree; otherwise the tree is well weighted; at every node the left child is no heavier and not less under `operator<` than the right one, so among equal weights the greater symbol string goes left; its leaves are a permutation of the input, its root weighs the input total, and it has n leaves and n - 1 internal nodes |
| HuffmanBuild.LastTree | huffman.cpp:82 | the one tree left holds all the input leaves, their total weight and n - 1 internal nodes |
| HuffmanBuild.TotalWeightPermutation | huffman.cpp:61-83 | the total weight does not depend on the order of the encodings |
| HuffmanBuild.ExpandFront | huffman.cpp:103-106 | replacing an internal node by its children at the paths extended by `'0'` and `'1'` keeps every entry at its path and keeps the pending symbols, and the queue shrinks |
| HuffmanBuild.VisitLeaf | huffman.cpp:100-102 | recording a leaf's path under its symbol keeps every entry's codeword at a leaf with that symbol |
| HuffmanBuild.CodeIsPrefixFree | huffman.cpp:100-106 | a table whose every codeword is the path to a leaf carrying its key is prefix-free |
| HuffmanBuild.SingleLeafCode | huffman.cpp:95-101 | a one-leaf tree maps its only symbol to the empty codeword |
| HuffmanBuild.BuildCode | huffman.cpp:92-109 | the keys are exactly the leaves' symbols, each codeword is the path to a leaf with that symbol, the table is prefix-free, and a one-leaf tree gets `""` |
| NewHuffman.MakeWLeaf | new_huffman.cpp:17 | a leaf records its weight and index and is the tree's only leaf |
| NewHuffman.MakeWNode | new_huffman.cpp:18-19 | an internal node weighs `l->w + r->w`, has index `-1` as unsigned, and keeps its children's leaves in order |
| NewHuffman.CmpPtrIsStrictWeakOrder | new_huffman.cpp:23-27 | `cmp_ptr` is a strict weak order whose only criterion is weight; trees of equal weight are unordered |
| NewHuffman.Leaves | new_huffman.cpp:44-45 | input k becomes a leaf of index k with input k's weight |
| NewHuffman.InitialForest | new_huffman.cpp:37-46 | `words[k]` is the k-th input word, and the queue holds one leaf of index k for it |
| NewHuffman.TopIndex | new_huffman.cpp:33 | with `cmp_ptr` the top is a tree no other tree is lighter than |
| NewHuffman.PopLightest | new_huffman.cpp:49-50 | top then pop: a lightest tree leaves the queue with exactly its leaves |
| NewHuffman.MergeLightest | new_huffman.cpp:48-52 | one round shrinks the queue by one, merges the two lightest trees with the first popped on the left, and keeps all leaves |
| NewHuffman.MergeForest | new_huffman.cpp:32-52 | the loop ends with one well-formed tree, lighter child on the left, whose leaves are exactly the input leaves |
| NewHuffman.IndicesInRange | new_huffman.cpp:44-45 | every leaf index of the merged tree indexes `words` |
| NewHuffman.EmittedLeaves | new_huffman.cpp:71-77 | the walk prints one line per leaf, right to left; each codeword is the path to its leaf and the printed index is that leaf's |
| NewHuffman.EmittedPrefixFree | new_huffman.cpp:64-81 | no printed codeword is a prefix of another |
| NewHuffman.Edge | new_huffman.cpp:69 | the written character is `'0'` for a left child, `'1'` for a right one, and always a binary digit |
| NewHuffman.PopKeeps | new_huffman.cpp:65-68 | popping the top entry keeps the stack invariant; no entry below it is deeper |
| NewHuffman.WriteKeeps | new_huffman.cpp:69 | writing `codeword[len-1]` completes the popped node's path in the buffer and keeps the prefixes of the entries below |
| NewHuffman.PushKeeps | new_huffman.cpp:79-80 | pushing the left child and then the right child, one deeper, keeps the stack invariant and the pending lines |
| NewHuffman.WriteEdge | new_huffman.cpp:69 | after the write, `codeword[0..len)` spells the popped entry's path and every entry below keeps its prefix; only `codeword[len-1]` changes, and only when `len > 0` |
| NewHuffman.LeafStep | new_huffman.cpp:71-75 | a popped leaf's index indexes `words`; printing its word with `codeword[0..len)` moves its line from the pending lines to the printed ones |
| NewHuffman.PrintOrPush | new_huffman.cpp:71-80 | a leaf is printed, an internal node's children are pushed; the stack invariant, the printed-plus-pending lines and the printed text all agree, and the trees left on the stack are smaller |
| NewHuffman.Visit | new_huffman.cpp:65-81 | one iteration keeps the stack invariant and the lines printed so far, and the trees on the stack shrink |
| NewHuffman.EmitCodewords | new_huffman.cpp:55-82 | the printed lines are the words and codewords of the leaves in stack order, and every write to `codeword` is in bounds |
| NewHuffman.HuffmanEncode | new_huffman.cpp:31-83 | empty input gives no result; otherwise one line per word; line j names the word of the j-th leaf from the right, at its path; codewords are shorter than the word count and prefix-free |
| HuffmanBuffers.MakeMasks | huffman_buffers.cpp:13-20 | the mask table holds `1 << i` at index i |
| HuffmanBuffers.PackBit | huffman_buffers.cpp:23-32 | bit i of the packed byte is set iff i is below the bit count and bit i is true; the bits above are 0 |
| HuffmanBuffers.BitsToByte | huffman_buffers.cpp:23-32 | the result packs the first n bits, least significant first, and only those |
| HuffmanBuffers.PackByteBits | huffman_buffers.cpp:98-102 | packing the eight bits that decode `put_byte` appends for a byte gives the byte back |
| HuffmanBuffers.ByteBitsPack | huffman_buffers.cpp:63-68 | unpacking a packed byte gives the packed bits back, followed by zero padding |
| HuffmanBuffers.FindPath | huffman_buffers.h:66-68 | a found codeword is the path to a leaf carrying the symbol index |
| HuffmanBuffers.FindPathComplete | huffman_buffers.h:66-68 | every symbol index of a leaf has a codeword |
| HuffmanBuffers.CodeTable | huffman_buffers.h:66-69 | the table has `numsymb` entries: a symbol's leaf path, or `""` for a symbol absent from the tree |
| HuffmanBuffers.Walk | huffman_buffers.cpp:113-130 | a decoded symbol uses at least the bits already used and leaves at least one bit |
| HuffmanBuffers.WalkFindsLeaf | huffman_buffers.cpp:113-130 | what the walk reports is the index of the leaf at the path spelt by the bits it used |
| HuffmanBuffers.WalkFollowsPath | huffman_buffers.cpp:113-130 | a codeword followed by at least one more bit decodes to its leaf, using exactly the codeword's bits |
| HuffmanBuffers.WalkNeedsOneMoreBit | huffman_buffers.cpp:113-114 | a buffer holding exactly one codeword and nothing after it decodes nothing |
| HuffmanBuffers.EncodeThenDecode | huffman_buffers.cpp:37-46 | the bits the encoder writes for a symbol with a leaf, followed by any bit, decode to that symbol, using exactly the codeword's bits |
| HuffmanBuffers.StreamRoundTrip | huffman_buffers.cpp:113-130 | the concatenated codewords of any stream of symbols with leaves, followed by at least one bit, decode back to exactly that stream by successive walks from the root |
| HuffmanBuffers.RoomForLongestCodeword | huffman_buffers.h:39-49 | a codeword can always be put while fewer than eight bits are buffered iff the buffer holds the codeword plus a byte |
| HuffmanBuffers.EncodeBuffer.constructor | huffman_buffers.h:66-69 | the buffer starts empty with both cursors 0, and its table is the tree's code table |
| HuffmanBuffers.EncodeBuffer.PutByte | huffman_buffers.cpp:37-46 | succeeds iff the codeword is strictly shorter than the free room; then its bits are appended, `'1'` as true; else nothing changes |
| HuffmanBuffers.EncodeBuffer.PopByte | huffman_buffers.cpp:48-60 | succeeds iff eight bits are buffered; then the byte packs the first eight bits and the rest slide down; else nothing changes |
| HuffmanBuffers.EncodeBuffer.Terminate | huffman_buffers.cpp:63-72 | succeeds iff fewer than eight bits are buffered; then the byte packs them zero-padded and the buffer empties |
| HuffmanBuffers.DecodeBuffer.constructor | huffman_buffers.h:93-95 | the buffer starts empty with both cursors 0 and holds the given tree |
| HuffmanBuffers.DecodeBuffer.SlideArray | huffman_buffers.cpp:76-83 | the live bits move unchanged to the front, and `first_data` becomes 0 |
| HuffmanBuffers.WriteByteBits | huffman_buffers.cpp:99-102 | the loop stores bit i of the byte, tested with `masks[i]`, at the i-th slot from the start, least significant first, and keeps what lies before |
| HuffmanBuffers.DecodeBuffer.PutByte | huffman_buffers.cpp:85-106 | succeeds iff a byte's room is free; then the byte's eight bits are appended, least significant first; else nothing changes |
| HuffmanBuffers.DecodeBuffer.PopByte | huffman_buffers.cpp:108-132 | succeeds iff the walk along the live bits reaches a leaf with bits left; then it returns the leaf's index and drops the bits used; else nothing changes |
| ArrayCopy.CopyDown | huffman_buffers.cpp:55 | `std::copy` of a range to the front: the range arrives in order, and everything from its old length on is untouched |
| Driver.FeedBuffer.constructor | driver.cpp:25-29 | a buffer has room for S elements and holds none |
| Driver.FeedBuffer.Room | driver.cpp:33 | `room()` is the capacity less the consumed and the unread elements: the slots still free at the back |
| Driver.FeedBuffer.ToRead | driver.cpp:34 | `toread()` is the number of elements pushed and not yet popped |
| Driver.FeedBuffer.Push | driver.cpp:49-51 | the element becomes the newest unread one, and the room drops by one |
| Driver.FeedBuffer.Pop | driver.cpp:43-47 | returns the oldest unread element and removes it: the buffer is first in, first out |
| Driver.FeedBuffer.Append | driver.cpp:36-41 | `a[0..l)` become the newest unread elements, in order |
| Driver.FeedBuffer.Reset | driver.cpp:53-57 | the unread elements move to the front in order, `toread()` is unchanged and `consumed` becomes 0 |
| Driver.BinValueAppend | driver.cpp:97-100 | a further `'1'` at position i adds 2^i, and any other character adds nothing |
| Driver.BinValueBound | driver.cpp:95-103 | eight characters give a value below 2^8 |
| Driver.BinStringOfValue | driver.cpp:97-101 | bit i of the value is 1 iff character i is `'1'`, least significant first |
| Driver.BinValueOfString | driver.cpp:95-103 | a value below 2^n is recovered from its n binary digits |
| Driver.TransBinString | driver.cpp:95-103 | the result is the value of the eight characters, least significant first, and it is below 256 |
| Driver.UnpackPacked | driver.cpp:122-127 | a `'0'`/`'1'` string whose length is a multiple of eight is recovered from its packed bytes |
| Driver.PackUnpacked | driver.cpp:122-127 | bytes are recovered from their binary digits |
| Driver.PackedPrefix | driver.cpp:122-127 | packing eight more characters adds their byte at the end |
| Driver.FileToHuff | driver.cpp:71-89 | appends the codewords of the consumed symbols in order, and stops only at the end of the input or at a symbol whose codeword does not fit the room |
| Driver.PopChunk | driver.cpp:123-125 | the eight characters popped are the eight oldest unread ones |
| Driver.TransferByte | driver.cpp:123-127 | one round consumes exactly eight characters and pushes the byte they stand for |
| Driver.TransferStep | driver.cpp:110-128 | after n + 1 rounds the first 8(n + 1) characters are gone and their bytes are appended |
| Driver.HuffToBin | driver.cpp:108-129 | stops once fewer than eight characters are left or the destination is full; returns the bytes pushed, which are the packed first 8n characters, now consumed |

## Left out

- Floating-point diagnostics are not modelled: `compute_cost` and `compute_entropy` (huffman.cpp:111-128) and the frequency normalisation of `compute_freqs` (driver.cpp:158-169).
- Weights are natural numbers added exactly, not `double`. huffman.cpp and new_huffman.cpp read arbitrary doubles; the model stands for weights that are whole multiples of one common unit. Even for those, `operator+` on doubles rounds, so the weight of a merged tree can differ from the exact sum. A rounded sum can create a tie that the exact sum does not have, or break one that it has. For example, take the weights b 0.1, c 0.2 and a 0.3, which the model writes as 1, 2 and 3. The double sum of b and c is 0.30000000000000004, heavier than a, so a is popped first and goes left. In the model the sum of b and c ties with a, and the tie-break by symbol string pops "bc" first. So the source's tree and codes can differ from the model's.
- Stream I/O and printing are not modelled:
  - the `main` functions and their reading loops;
  - the `operator<<` printers;
  - the file writes of `write_compressed_file` (driver.cpp:132-153).
- The input of `huffman_encode` is the sequence of (word, weight) pairs the reading loop collects, and the printed lines are returned as a sequence of (word, codeword) pairs.
- The `istream` of `file_to_huff` is a sequence of bytes. Consuming a byte is moving past it.
- `huffman.cpp:17-41` repeats the `encoding` and `htree` definitions of huffman.h word for word, so it is modelled once, in `Huffman`.
- new_huffman.h is not part of this model: it only declares a signature that does not match the definition in new_huffman.cpp.
- `generate_encodings` is called by the `encode_buffer` constructor but its definition is not part of this model. `HuffmanBuffers.CodeTable` gives each symbol index the path to its leftmost leaf with that index, and `""` when there is none. For trees whose leaves carry distinct indices, this is what `build_code` gives. When an index repeats they differ: `build_code` (huffman.cpp:92-109) overwrites `code[sym]`, so the last leaf in breadth-first order wins. For Node(Leaf s, Node(Leaf t, Leaf s)), `build_code` gives s the codeword "11" and `CodeTable` gives "0".
- The headers do not agree between drafts:
  - `slide_array` is not declared;
  - huffman.h's `htree` has no field `i`, yet `decode_buffer::pop_byte` reads `t->i`.
  The buffers use the tree of new_huffman.cpp, whose leaves carry that index.
- The commented-out `slide_array()` call and `first_data` update in the decoder are left out as the code leaves them out. So `first_data` stays 0 outside `slide_array`.
- Signed `char` quirks are not reproduced:
  - symbols index `encodings` as unsigned bytes 0..255, where the source indexes with a plain `char`;
  - `trans_bin_string` returns an unsigned value 0..255, where adding 128 to the source's `char` overflows; the bit pattern is the same.
- `pow(2, i)` in `trans_bin_string` is the exact power of two.
- HuffmanBuild.TopIndex and NewHuffman.TopIndex: which of several equally ranked trees the heap returns depends on the heap layout. The model takes the first in queue order. The contracts only promise a minimal tree, so nothing proved depends on that choice.
- Empty inputs are an error in the source: `top()` is called on an empty queue. `HuffmanBuild.BuildTree` and `NewHuffman.HuffmanEncode` return `None` for them.
- `shared_ptr` ownership and reference counting are not modelled: trees are values.
- Driver.FeedBuffer.Push, Driver.FeedBuffer.Pop and Driver.FeedBuffer.Append require what the comments of driver.cpp:32-43 leave to the caller (`room() > 0`, and `room() >= l`, before a push or append; `toread() > 0` before a pop):
  - a `push` with `room() == 0` writes `data[S]`, out of bounds;
  - a `pop` with `toread() == 0` reads `data[next_empty]`, which is in bounds unless `next_empty == S`. It leaves `consumed > next_empty`, so `toread()` then wraps to 2^32 - 1 and a later `reset` wraps `next_empty`.
- HuffmanBuffers.EncodeBuffer.PutByte requires the symbol to index the code table. The source indexes `encodings` unchecked, so a symbol outside the table is undefined behaviour (huffman_buffers.cpp:37-46).
