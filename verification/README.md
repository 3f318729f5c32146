# Huffman compression and encryption framing, modelled in Dafny

This project models the compression codec of `huffman.py` and the framing `encrypt.py` puts
around its block cipher.

**Compression.** `compress` works in these steps:
- count the bytes of the input;
- build a Huffman tree over all 256 symbols by repeatedly merge-sorting the unparented nodes and
  joining the two least frequent;
- give each symbol its root-to-leaf path as its code;
- encode the data in blocks, each either coded or stored literally when coding would not be
  shorter;
- store the codebook as 256 Elias gamma codes;
- pack everything, behind a sentinel '1' bit, into bytes.

`decompress` reverses this. It unpacks the bits and gamma-decodes the codebook. It then rebuilds
a tree from the codebook paths, skipping the entries that mark unused symbols, and walks that tree
over each coded block.

**Encryption framing.** `encrypt` pads the plaintext with ASCII '0' bytes to a multiple of 16 and
prefixes the pad count in 16 bytes. It then encrypts the result and sends it after the IV.
`decrypt` splits off the IV, decrypts, and strips the padding.

**Representation.** Bit strings are `seq<bool>` (`true` is '1') and bytes are integers 0..255.
The host byte order is a parameter, and so are the hash, the cipher and the IV.

**Variants.** The codec is modelled twice, through a `Variant` parameter:
- `AsWritten` follows the source: an unused symbol gets the path "0";
- `Corrected` changes three places together, so the round trip holds for every input (see
  "## Findings"):
  - `compress` gives an unused symbol the empty path, which no used symbol can have; it is stored
    as value 1, whose gamma code is the single digit '1';
  - `gammadecode` reads a '1' that follows no zeros as the value 1. As written, huffman.py:211
    raises there, because `int('', 2)` is a ValueError;
  - `decompress` skips the entries whose path is empty instead of those equal to "0".

Modules, in dependency order:
- `Wrappers`: `Option`.
- `Bits`: numerals, `bin`, `zfill`.
- `Bytes`: `int.to_bytes` and `int.from_bytes`.
- `Seqs`: `chunks`.
- `Packing`: the sentinel packing.
- `FrequencyTable`: `calculate_frequency`.
- `TreeBuilder`: `Node`, `merge_sort` and `form_tree`.
- `Codes`: `calculate_direction`.
- `GammaCoding`: `gamma` and `gammadecode`.
- `Trie`: the tree `decompress` rebuilds.
- `Blocks`: `encode` and the block loop of `decompress`.
- `Huffman`: `compress`, `decompress` and the end-to-end properties.
- `Framing`: `encrypt.py`.

## Model

| member | source | states |
|---|---|---|
| FrequencyTable.Frequency | huffman.py:46-51 | the table has 256 entries, and entry `c` is the number of occurrences of byte `c` in the data |
| FrequencyTable.FrequencyTotal | huffman.py:46-51 | the counts add up to the length of the data |
| TreeBuilder.Merge | huffman.py:35-42 | the merged list is a permutation of the two inputs together |
| TreeBuilder.MergeSorted | huffman.py:35-42 | merging two frequency-sorted lists gives a sorted list whose head is the head of one of them |
| TreeBuilder.MergeSort | huffman.py:27-43 | `merge_sort` of a non-empty list returns a permutation of it in nondecreasing order of frequency |
| TreeBuilder.MergeTiesRightFirst | huffman.py:35-42 | among the nodes of any one frequency, the merge puts all those of the right half first and then those of the left half, each in its original order |
| TreeBuilder.PermutationInvariant | huffman.py:58 | reordering the node list changes neither the multiset of leaf symbols nor the total frequency |
| TreeBuilder.Step | huffman.py:57-66 | one iteration of `form_tree` shortens the list by exactly one. The new last node is a parent of two of the old nodes, with frequency their sum; the left child is no more frequent than the right, and the right is no more frequent than any node left in the list. The remaining nodes plus the two children are exactly the old nodes. It keeps the leaf symbols, the total frequency and the parent-sum property |
| TreeBuilder.StepCounted | huffman.py:57-66 | if every leaf's frequency is its symbol's count in a table, that still holds after one iteration |
| TreeBuilder.FormTreeCounted | huffman.py:54-67 | if every leaf's frequency is its symbol's count in a table, that holds for every leaf of the root `form_tree` returns |
| TreeBuilder.FormTree | huffman.py:54-67 | the root's leaves are exactly the leaves of the input nodes, its frequency is their total, it keeps the parent-sum property, and it is internal when there were two or more nodes |
| TreeBuilder.InitialNodes | huffman.py:100 | the initial list holds one leaf per symbol 0..255 in symbol order, each with its symbol's count as frequency, and the total frequency is the sum of the table |
| TreeBuilder.HuffmanTree | huffman.py:97-102 | the tree `compress` builds is internal, has each of the 256 symbols as a leaf exactly once, keeps the parent-sum property, has root frequency `len(data)`, and every leaf's frequency is the number of occurrences of its symbol in the data |
| Codes.Paths | huffman.py:13-24 | `calculate_direction` has an entry for exactly the leaf symbols of the tree |
| Codes.PathsReachLeaves | huffman.py:13-24 | each entry is the starting direction followed by a path that leads from the node to that symbol's leaf |
| Codes.NothingBelowLeaf | huffman.py:18-23 | no path continues below a leaf |
| Codes.PrefixFree | huffman.py:13-24 | no symbol's code is a prefix of, or equal to, another symbol's code |
| Codes.Codes | huffman.py:103 | the table built from a tree has an entry for exactly its leaf symbols, and each entry is a path from the root to that symbol's leaf; Codes.PrefixFree is its partner |
| Codes.HuffmanCodes | huffman.py:103 | all 256 symbols get a non-empty code that leads to their own leaf, and the codes are prefix-free |
| Seqs.Chunks | huffman.py:70-72 | the chunks concatenate to the input, every chunk but the last has exactly `n` elements, none is empty, and there are none exactly when the input is empty |
| Blocks.EncodeBlock | huffman.py:80-92 | a block costs between 1 and `1 + 8*len(block)` bits, and its flag bit is '1' exactly when the summed code length is at least `8*len(block)` |
| Blocks.Header | huffman.py:78 | the header reads back as the block size, and is exactly 16 digits exactly when the block size is below 65536 |
| Blocks.Encode | huffman.py:75-94 | for a block size below 65536 the output starts with 16 digits that read back as the block size, followed by the encoding of each chunk; it has at most one flag bit per chunk and eight bits per byte beyond the header. Blocks.BodyRoundTrip is its inverse |
| Blocks.EncodeBlocksBound | huffman.py:79-94 | the encoded blocks take at most one flag bit per block plus eight bits per byte |
| Blocks.LiteralRoundTrip | huffman.py:157-165 | a literal block, read back eight digits at a time, gives the bytes of the block |
| Blocks.WalkCode | huffman.py:167-183 | a code that leads through unlabelled nodes to its symbol is decoded as that symbol, and the walk restarts at the root |
| Blocks.CodedRoundTrip | huffman.py:167-183 | a coded block whose codes all decode reads back as the block, stopping at the block size or at the end of the bits |
| Blocks.DecodeCoded | huffman.py:170-185 | a successful read of an encoded block never moves backwards and never takes the symbol count past the block size; Blocks.CodedRoundTrip is its inverse |
| Blocks.ReadBlock | huffman.py:157-185 | reading one block, literal or encoded, advances past the flag bit and yields at most the block size of bytes; Blocks.LiteralRoundTrip and Blocks.CodedRoundTrip are its inverses |
| Blocks.DecodeBlocks | huffman.py:152-187 | the block loop yields at most block-size bytes per remaining digit; Blocks.BlocksRoundTrip is its inverse and Blocks.CodedHitsGap its failure case |
| Blocks.BlocksRoundTrip | huffman.py:155-185 | the block loop reads the encoding of any chunking of the data back as the concatenated chunks |
| Blocks.BodyRoundTrip | huffman.py:155-185 | decoding the encoded blocks of the data gives the data, when every used symbol's code decodes |
| Blocks.CodedHitsGap | huffman.py:167-185 | if decodable bytes are followed by a code whose first digit leads to a missing child, the block loop fails |
| GammaCoding.Gamma | huffman.py:190-198 | the code of a list of values has at least one digit per value; GammaCoding.GammaRoundTrip is its inverse |
| GammaCoding.GammaCode | huffman.py:193-197 | `gamma(n)` has `2*len(bin(n)[2:]) - 1` digits, its first `len(bin(n)[2:]) - 1` digits are zeros, and it reads back as `n` |
| GammaCoding.GammaOfEntry | huffman.py:114 | the code of a stored path is its length in zeros, the sentinel '1', then the path, and `bin(value)[3:]` gives the path back |
| GammaCoding.DecodeLoop | huffman.py:201-214 | a successful read returns exactly 256 values and keeps those already read |
| GammaCoding.GammaDecode | huffman.py:201-217 | a successful decode returns 256 paths and a suffix of its input as the rest; GammaCoding.GammaRoundTrip is its partner |
| GammaCoding.ReadEntries | huffman.py:204-213 | reading the gamma codes of the stored paths appends their values and stops right after them |
| GammaCoding.GammaRoundTrip | huffman.py:201-217 | `gammadecode(gamma(entries) + rest)` returns every stored path in symbol order, together with exactly `rest` |
| GammaCoding.UnusedEntry | huffman.py:106-108 | the unused marker is stored as value 2 with gamma code "010" and decodes back to "0" (value 1, code "1", for the corrected marker) |
| Trie.Insert | huffman.py:135-151 | after inserting a path for a symbol, the node at that path carries the symbol; Trie.InsertSpec states what else changes |
| Trie.Build | huffman.py:131-151 | in the rebuilt tree, every non-skipped path that no later symbol shares leads to a node carrying its symbol; Trie.BuildSpec states the full shape |
| Trie.InsertSpec | huffman.py:135-151 | inserting a path sets the symbol at that path only, and creates exactly the nodes along it |
| Trie.BuildSpec | huffman.py:131-151 | in the rebuilt tree, a node exists exactly at the prefixes of non-skipped paths; a labelled node carries the last non-skipped symbol with that path; an unlabelled node has no such symbol |
| Packing.Pack | huffman.py:116 | the byte count is `(len(bits) + 7) // 8` and the bytes read back as the numeral |
| Packing.Unpack | huffman.py:123-124 | `bin(int.from_bytes(...))[2:]` has at least one digit and reads back as the bytes' value, and starts with '1' when that value is positive; Packing.SentinelRoundTrip is its partner |
| Packing.SentinelRoundTrip | huffman.py:123-124 | unpacking the packed sentinel-prefixed bits and dropping the first digit gives the bits back, for either byte order |
| Bytes.ToBytes | encrypt.py:14 | `n.to_bytes(len)` has `len` bytes and reads back as `n` under the same byte order |
| Bytes.FromBytes | encrypt.py:33 | `int.from_bytes` of `k` bytes is below `256**k`; Bytes.ToBytes is its inverse |
| Huffman.Book | huffman.py:106-111 | the stored codebook has one entry per symbol; Huffman.BookAt states each entry |
| Huffman.Compress | huffman.py:97-117 | the output has at least one byte, and unpacking it and dropping the sentinel gives the gamma-coded codebook followed by `encode`'s output; Huffman.RoundTrip is its inverse |
| Huffman.Decompress | huffman.py:120-187 | the empty input returns 0, and any bytes returned come from input whose codebook gamma-decodes; Huffman.RoundTrip is its partner |
| Huffman.EmptyInput | huffman.py:121-122 | `decompress` of the empty input returns 0 |
| Huffman.BookAt | huffman.py:106-111 | the stored entry of a symbol is its code when the symbol occurs, otherwise the unused marker |
| Huffman.BookDecodes | huffman.py:131-151 | in the rebuilt tree, the code of every used symbol not equal to the unused marker decodes to that symbol |
| Huffman.DecompressStages | huffman.py:123-131 | once the codebook and the header are read, `decompress` returns the block loop's result, or 0 when the block loop fails |
| Huffman.CompressedLayout | huffman.py:115-129 | `decompress` reads back from `compress`'s output the stored codebook, the block size, and then the encoded blocks |
| Huffman.RoundTrip | huffman.py:97-187 | `decompress(compress(data, bs)) == data` for `1 <= bs < 65536`, provided no used symbol has the unused marker as its code |
| Huffman.LeftChildMissing | huffman.py:131-151 | as written, when a used symbol has the code "0" the rebuilt tree has no left child at the root |
| Huffman.UsedSymbolCodedZero | huffman.py:106-108 | as written, `decompress(compress(data))` returns 0 when a used symbol has the code "0" and the data is one coded block |
| Huffman.CorrectedRoundTrip | huffman.py:97-187 | with the corrected marker, `decompress(compress(data, bs)) == data` for every input and `1 <= bs < 65536` |
| Framing.Pad | encrypt.py:10-13 | the padded length is a multiple of 16, the count is below 16 and equals `(16 - len % 16) % 16`, and the result is the plaintext followed by that many `b'0'` bytes |
| Framing.Frame | encrypt.py:14 | the frame is a whole number of 16-byte blocks; its first 16 bytes read back as the pad count and the rest is the padded plaintext |
| Framing.Unframe | encrypt.py:33-35 | the result is a prefix of the bytes after the count field; a count not above their length drops exactly that many bytes, and a larger one follows Python's negative slice end |
| Framing.Encrypt | encrypt.py:16-21 | the output starts with the 16-byte IV |
| Framing.Decrypt | encrypt.py:24-29 | an input shorter than the 16-byte IV fails |
| Framing.UnframeFrame | encrypt.py:33-35 | unframing a frame gives the plaintext back, including when the count is 0 |
| Framing.EncryptRoundTrip | encrypt.py:8-37 | if the cipher's decryption inverts its encryption, `decrypt(encrypt(p, pw), pw) == p` for any IV and password |

## Left out

- main.py is not part of this model. It holds the tkinter interface, threading, tar bundling,
  file I/O, configuration persistence and file-size display.
- AES-CBC, SHA-256 and `os.urandom` are parameters:
  - the cipher is a pair of functions under a key and an IV;
  - the round trip assumes decryption inverts encryption on whole blocks;
  - the key is `hash(password)` on both sides, so it depends on the password only.
- `password.encode()` is not modelled: the password is taken as bytes.
- `sys.byteorder` is a parameter, and every round trip is proved for both byte orders.
- Python exceptions are collapsed into one outcome, `Raises` (or `None` in the framing). These
  are `int('')`, an index past the end of the bits in `gammadecode`, an IV of the wrong
  length, and `decryptor.finalize()` on a ciphertext that is not a whole number of 16-byte blocks
  (the cipher's decryption returns `None`).
- `size/8 >= len(block)` is modelled as the exact integer comparison `size >= 8*len(block)`.
- `merge_sort` and `form_tree` require a non-empty list. `merge_sort([])` recurses until Python
  raises RecursionError, and `form_tree([])` reaches the same call through line 58. `compress`
  always passes 256 nodes.
- `compress` requires a block size of at least 1: Python's `range` rejects a step of 0.
- The block size is a `nat`. A negative one makes `compress` raise at `int(finaldata, 2)`, since
  `bin(-n)[2:]` in the header still holds the 'b' of '-0b'.
- The default `block_size=1000` of `compress` is not modelled: the block size is always an
  explicit parameter.
- The round trips require a block size below 65536. A larger one overflows the 16-digit header,
  so `decompress` reads a different block size.
- The integer-sum `character` label of internal nodes is dropped, since it never influences a
  code.
- `directionFromParent` is not stored. Each node's side is passed down the walk instead, which
  gives the same paths.
- Framing.Decrypt: its contract states only the short-input failure; what it returns on
  `encrypt`'s output is stated by Framing.EncryptRoundTrip.
- Framing.Encrypt: its contract states only the IV prefix; the ciphertext is stated through the
  round trip.

## Findings

| source | as written | input that shows it | evidently intended | confidence | as-written member | corrected member |
|---|---|---|---|---|---|---|
| huffman.py:106-108 | unused symbols are stored with the code "0" and `decompress` skips every entry equal to "0" (line 133). A used symbol that is the root's left child also has the code "0", so it is left out of the rebuilt tree, and decoding it steps into a missing child and returns 0 | `compress(b"AAAAABBBCCC")` with block size 1000. The zero-count symbols merge into one node, which joins B or C; that joins the other, weight 6; the root joins A (5) on the left with it. 'A' gets code "0", and the block is coded (20 bits < 88) | `decompress(compress(data)) == data` for every input | not executed; tree derived by hand from the source | Huffman.UsedSymbolCodedZero | Huffman.CorrectedRoundTrip |
