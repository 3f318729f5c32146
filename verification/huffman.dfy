/** The whole codec: `compress` and `decompress` (huffman.py:97-187). */
module Huffman {

  import opened Wrappers
  import opened Bits
  import opened Bytes
  import opened Seqs
  import opened FrequencyTable
  import opened TreeBuilder
  import opened Codes
  import opened GammaCoding
  import opened Trie
  import opened Blocks
  import opened Packing

  /** What `decompress` does with its input: returns bytes, returns the integer 0, or raises
      (IndexError or ValueError from the codebook or the block-size field). */
  datatype Outcome = Data(bytes: seq<byte>) | ReturnsZero | Raises

  /** The codebook as stored (huffman.py:106-111): the paths in symbol order, each unused symbol's
      replaced by the variant's marker. */
  function Book(freq: seq<nat>, codes: map<byte, Bits>, v: Variant): (r: seq<Bits>)
    requires |freq| == 256 && Total(codes)
    ensures |r| == 256
  {
    seq(256, (c: int) requires 0 <= c < 256 => if freq[c] == 0 then UnusedPath(v) else codes[c])
  }

  function DataBook(data: seq<byte>, v: Variant): (r: seq<Bits>)
    ensures |r| == 256
  {
    Book(Frequency(data), HuffmanCodes(data), v)
  }

  /** `compress(data, block_size)`: the sentinel '1', the gamma-coded codebook and the encoded
      blocks, packed into bytes. Python's `range` rejects a block size of 0. */
  function Compress(data: seq<byte>, bs: nat, order: ByteOrder, v: Variant): (r: seq<byte>)
    requires bs >= 1
    ensures |r| >= 1
    ensures Unpack(r, order)[1..] == Gamma(EntryValues(DataBook(data, v))) + Encode(data, HuffmanCodes(data), bs)
  {
    var codes := HuffmanCodes(data);
    var book := DataBook(data, v);
    var g := Gamma(EntryValues(book));
    var e := Encode(data, codes, bs);
    Regroup(g, e);
    SentinelRoundTrip(g + e, order);
    Pack([true] + g + e, order)
  }

  /** `decompress(compressed_data)`. */
  function Decompress(compressed: seq<byte>, order: ByteOrder, v: Variant): (r: Outcome)
    ensures |compressed| == 0 ==> r == ReturnsZero
    ensures r.Data? ==> GammaDecode(Unpack(compressed, order)[1..], v).Some?
  {
    if |compressed| == 0 then ReturnsZero
    else
      var bits := Unpack(compressed, order)[1..];
      match GammaDecode(bits, v)
      case None => Raises
      case Some((book, data)) =>
        if |data| == 0 then Raises
        else
          var bs := ToNat(data[..Min(16, |data|)]);
          var root := Build(book, UnusedPath(v));
          match DecodeBlocks(data[Min(16, |data|)..], 0, bs, root, root)
          case None => ReturnsZero
          case Some(out) => Data(out)
  }

  /** `decompress` returns 0 on empty input. */
  lemma EmptyInput(order: ByteOrder, v: Variant)
    ensures Decompress([], order, v) == ReturnsZero
  {
  }

  /** The stored path of a symbol. */
  lemma BookAt(data: seq<byte>, v: Variant, d: byte)
    ensures DataBook(data, v)[d] == if d in data then HuffmanCodes(data)[d] else UnusedPath(v)
  {
    assert Frequency(data)[d] == multiset(data)[d];
  }

  /** The stored paths are what the gamma decoder reads back: none is empty unless the variant
      marks unused symbols with the empty path. */
  lemma BookEntries(data: seq<byte>, v: Variant)
    ensures forall k | 0 <= k < 256 :: |DataBook(data, v)[k]| >= 1 || v.Corrected?
  {
    forall k | 0 <= k < 256
      ensures |DataBook(data, v)[k]| >= 1 || v.Corrected?
    {
      BookAt(data, v, k);
    }
  }

  /** A used symbol whose code differs from the unused marker is inserted into the rebuilt tree,
      and no other entry shares or prefixes its path. */
  lemma {:induction false} BookDecodes(data: seq<byte>, v: Variant, c: byte)
    requires c in data && HuffmanCodes(data)[c] != UnusedPath(v)
    ensures Decodes(Build(DataBook(data, v), UnusedPath(v)), HuffmanCodes(data)[c], c)
  {
    var codes := HuffmanCodes(data);
    var book := DataBook(data, v);
    var skip := UnusedPath(v);
    var root := Build(book, skip);
    var p := codes[c];
    BookAt(data, v, c);
    forall d: byte | d != c
      ensures book[d] == skip || !(book[d] <= p)
    {
      BookAt(data, v, d);
    }
    BuildSpec(book, skip, 256, p);
    forall j | 1 <= j < |p|
      ensures At(root, p[..j]).Some? && SymbolAt(root, p[..j]) == None
    {
      StrictPrefix(book, skip, c, p, j);
    }
  }

  /** A strict prefix of an inserted path that no entry spells leads to a node without a symbol. */
  lemma StrictPrefix(book: seq<Bits>, skip: Bits, c: byte, p: Bits, j: nat)
    requires |book| == 256 && book[c] == p && p != skip && 1 <= j < |p|
    requires forall d: byte | d != c :: book[d] == skip || !(book[d] <= p)
    ensures At(Build(book, skip), p[..j]).Some? && SymbolAt(Build(book, skip), p[..j]) == None
  {
    var q := p[..j];
    assert q <= book[c];
    forall d | 0 <= d < 256
      ensures book[d] == skip || book[d] != q
    {
      assert q <= p;
    }
    BuildSpec(book, skip, 256, q);
  }

  lemma Regroup(g: Bits, e: Bits)
    ensures [true] + g + e == [true] + (g + e)
  {
  }

  /** The stages of `decompress` on a well-formed input: with the codebook and a sixteen-digit
      header read back, what remains is the block decoder's result. */
  lemma DecompressStages(compressed: seq<byte>, order: ByteOrder, v: Variant, book: seq<Bits>, rest: Bits, bs: nat)
    requires |compressed| >= 1
    requires GammaDecode(Unpack(compressed, order)[1..], v) == Some((book, rest))
    requires |rest| >= 16 && ToNat(rest[..16]) == bs
    ensures Decompress(compressed, order, v)
         == match DecodeBlocks(rest[16..], 0, bs, Build(book, UnusedPath(v)), Build(book, UnusedPath(v)))
            case None => ReturnsZero
            case Some(out) => Data(out)
  {
  }

  /** Everything before the blocks comes back: the packed bytes unpack to the codebook and the
      encoded data, the codebook decodes to the stored paths, and the header to the block size. */
  lemma CompressedLayout(data: seq<byte>, bs: nat, order: ByteOrder, v: Variant)
    requires 1 <= bs < 65536
    ensures var e := Encode(data, HuffmanCodes(data), bs);
      && |Compress(data, bs, order, v)| >= 1
      && GammaDecode(Unpack(Compress(data, bs, order, v), order)[1..], v) == Some((DataBook(data, v), e))
      && |e| >= 16 && ToNat(e[..16]) == bs
      && e[16..] == EncodeBlocks(Chunks(data, bs), HuffmanCodes(data))
  {
    var codes := HuffmanCodes(data);
    var book := DataBook(data, v);
    var g := Gamma(EntryValues(book));
    var e := Encode(data, codes, bs);
    Regroup(g, e);
    SentinelRoundTrip(g + e, order);
    BookEntries(data, v);
    GammaRoundTrip(book, e, v);
    var h := Header(bs);
    assert e[..16] == h;
    assert e[16..] == EncodeBlocks(Chunks(data, bs), codes);
  }

  /** The round trip `decompress(compress(data, bs)) == data` for `1 <= bs < 2^16`, provided no
      symbol of the data has the code that marks unused symbols: in the source (`AsWritten`) that is
      the code "0", which a used symbol gets when it is the root's left child. */
  lemma RoundTrip(data: seq<byte>, bs: nat, order: ByteOrder, v: Variant)
    requires 1 <= bs < 65536
    requires forall c | c in data :: HuffmanCodes(data)[c] != UnusedPath(v)
    ensures Decompress(Compress(data, bs, order, v), order, v) == Data(data)
  {
    var codes := HuffmanCodes(data);
    var book := DataBook(data, v);
    var root := Build(book, UnusedPath(v));
    CompressedLayout(data, bs, order, v);
    var e := Encode(data, codes, bs);
    DecompressStages(Compress(data, bs, order, v), order, v, book, e, bs);
    forall c | c in data
      ensures Decodes(root, codes[c], c)
    {
      BookDecodes(data, v, c);
    }
    BodyRoundTrip(data, codes, bs, root);
  }

  /** With unused symbols marked by the empty path, the round trip holds for all data. */
  lemma CorrectedRoundTrip(data: seq<byte>, bs: nat, order: ByteOrder)
    requires 1 <= bs < 65536
    ensures Decompress(Compress(data, bs, order, Corrected), order, Corrected) == Data(data)
  {
    forall c | c in data
      ensures HuffmanCodes(data)[c] != UnusedPath(Corrected)
    {
    }
    RoundTrip(data, bs, order, Corrected);
  }
  /** The first position of `c` in `s`. */
  function FirstIndex(s: seq<byte>, c: byte): (k: nat)
    requires c in s
    ensures k < |s| && s[k] == c && c !in s[..k]
  {
    if s[0] == c then 0
    else
      var k := 1 + FirstIndex(s[1..], c);
      assert s[..k] == [s[0]] + s[1..][..k - 1];
      k
  }

  lemma SingleChunk(data: seq<byte>, bs: nat)
    requires 1 <= |data| <= bs
    ensures Chunks(data, bs) == [data]
  {
    assert data[..|data|] == data;
    assert data[|data|..] == [];
  }

  /** In the source the rebuilt tree has no left child when a used symbol has the code "0": that
      entry is skipped like the unused ones, and no other code starts with '0'. */
  lemma LeftChildMissing(data: seq<byte>, c: byte)
    requires c in data && HuffmanCodes(data)[c] == [false]
    ensures Child(Build(DataBook(data, AsWritten), [false]), false) == None
  {
    var codes := HuffmanCodes(data);
    var book := DataBook(data, AsWritten);
    forall j | 0 <= j < 256
      ensures book[j] == [false] || !([false] <= book[j])
    {
      BookAt(data, AsWritten, j);
    }
    BuildSpec(book, [false], 256, [false]);
  }

  /** The bytes before the first `c` all decode. */
  lemma BeforeFirst(data: seq<byte>, c: byte, k: nat)
    requires c in data && HuffmanCodes(data)[c] == [false]
    requires k <= |data| && c !in data[..k]
    ensures forall d | d in data[..k] :: Decodes(Build(DataBook(data, AsWritten), [false]), HuffmanCodes(data)[d], d)
  {
    forall d | d in data[..k]
      ensures Decodes(Build(DataBook(data, AsWritten), [false]), HuffmanCodes(data)[d], d)
    {
      assert d in data;
      BookDecodes(data, AsWritten, d);
    }
  }

  /** The encoded block up to position `k`: the codes of the bytes before it, then the first digit
      of the code of the byte at `k`. */
  lemma CodedLayout(block: seq<byte>, codes: map<byte, Bits>, k: nat)
    requires Total(codes) && k < |block| && |codes[block[k]]| >= 1
    ensures var bits := [false] + CodedBits(block, codes);
      var pre := CodedBits(block[..k], codes);
      && 1 + |pre| < |bits|
      && bits[1..1 + |pre|] == pre
      && bits[1 + |pre|] == codes[block[k]][0]
  {
    var pre := block[..k];
    var post := block[k + 1..];
    var c := block[k];
    assert block == pre + ([c] + post);
    CodedBitsAppend(pre, [c] + post, codes);
    CodedBitsAppend([c], post, codes);
    assert CodedBits([c], codes) == codes[c] + [];
    var bits := [false] + CodedBits(block, codes);
    var pb := CodedBits(pre, codes);
    assert bits == [false] + pb + (codes[c] + CodedBits(post, codes));
    assert bits[1..1 + |pb|] == pb;
  }

  /** A single encoded block fails to decode when the code of the byte at `k` leaves the tree at
      its first digit and every byte before it decodes. */
  lemma CodedBlockFails(block: seq<byte>, bs: nat, codes: map<byte, Bits>, root: Trie, k: nat)
    requires Total(codes) && 1 <= |block| <= bs
    requires CodedSize(block, codes) < 8 * |block|
    requires k < |block| && |codes[block[k]]| >= 1 && Child(root, codes[block[k]][0]) == None
    requires forall d | d in block[..k] :: Decodes(root, codes[d], d)
    ensures DecodeBlocks(EncodeBlocks(Chunks(block, bs), codes), 0, bs, root, root) == None
  {
    var bits := [false] + CodedBits(block, codes);
    CodedLayout(block, codes, k);
    CodedHitsGap(bits, 1, 0, bs, root, codes, block[..k], block[k]);
    SingleCodedBlock(block, bs, codes);
  }

  /** The block decoder fails on the single encoded block. */
  lemma BlockFails(data: seq<byte>, bs: nat, c: byte)
    requires 1 <= |data| <= bs
    requires CodedSize(data, HuffmanCodes(data)) < 8 * |data|
    requires c in data && HuffmanCodes(data)[c] == [false]
    ensures DecodeBlocks(EncodeBlocks(Chunks(data, bs), HuffmanCodes(data)), 0, bs,
      Build(DataBook(data, AsWritten), [false]), Build(DataBook(data, AsWritten), [false])) == None
  {
    var k := FirstIndex(data, c);
    LeftChildMissing(data, c);
    BeforeFirst(data, c, k);
    CodedBlockFails(data, bs, HuffmanCodes(data), Build(DataBook(data, AsWritten), [false]), k);
  }

  /** As written, a used symbol with the code "0" is lost: when the data fits in one block that
      the codes make shorter than its literal form, `decompress(compress(data))` returns 0. */
  lemma UsedSymbolCodedZero(data: seq<byte>, bs: nat, order: ByteOrder, c: byte)
    requires 1 <= |data| <= bs < 65536
    requires CodedSize(data, HuffmanCodes(data)) < 8 * |data|
    requires c in data && HuffmanCodes(data)[c] == [false]
    ensures Decompress(Compress(data, bs, order, AsWritten), order, AsWritten) == ReturnsZero
  {
    BlockFails(data, bs, c);
    BodyFails(data, bs, order);
  }

  /** When the block decoder fails on the encoded blocks, `decompress` returns 0. */
  lemma BodyFails(data: seq<byte>, bs: nat, order: ByteOrder)
    requires 1 <= bs < 65536
    requires var root := Build(DataBook(data, AsWritten), [false]);
      DecodeBlocks(EncodeBlocks(Chunks(data, bs), HuffmanCodes(data)), 0, bs, root, root) == None
    ensures Decompress(Compress(data, bs, order, AsWritten), order, AsWritten) == ReturnsZero
  {
    var codes := HuffmanCodes(data);
    var book := DataBook(data, AsWritten);
    CompressedLayout(data, bs, order, AsWritten);
    var e := Encode(data, codes, bs);
    DecompressStages(Compress(data, bs, order, AsWritten), order, AsWritten, book, e, bs);
  }

  lemma SingleCodedBlock(data: seq<byte>, bs: nat, codes: map<byte, Bits>)
    requires Total(codes) && 1 <= |data| <= bs
    requires CodedSize(data, codes) < 8 * |data|
    ensures EncodeBlocks(Chunks(data, bs), codes) == [false] + CodedBits(data, codes)
  {
    SingleChunk(data, bs);
    assert EncodeBlocks([data], codes) == EncodeBlock(data, codes) + EncodeBlocks([], codes);
  }
}
