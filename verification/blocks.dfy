/** The block layer: `encode` (huffman.py:75-94) and the decoding loop of `decompress`
    (huffman.py:152-187). */
module Blocks {

  import opened Wrappers
  import opened Bits
  import opened Bytes
  import opened Seqs
  import opened Trie

  /** Every byte has a code, as `calculate_direction` gives for a tree holding all 256 symbols;
      `encode` raises KeyError on a byte without one. */
  predicate Total(codes: map<byte, Bits>)
  {
    forall c: byte :: c in codes
  }

  /** `size` in `encode`: the code lengths of the block's bytes added up. */
  function CodedSize(block: seq<byte>, codes: map<byte, Bits>): nat
    requires Total(codes)
  {
    if |block| == 0 then 0 else |codes[block[0]]| + CodedSize(block[1..], codes)
  }

  /** The block's codes concatenated. */
  function CodedBits(block: seq<byte>, codes: map<byte, Bits>): (r: Bits)
    requires Total(codes)
    ensures |r| == CodedSize(block, codes)
  {
    if |block| == 0 then [] else codes[block[0]] + CodedBits(block[1..], codes)
  }

  /** The block's bytes as eight digits each. */
  function LiteralBits(block: seq<byte>): (r: Bits)
    ensures |r| == 8 * |block|
  {
    if |block| == 0 then [] else Byte8(block[0]) + LiteralBits(block[1..])
  }

  /** One block: '1' and the literal bytes when the codes would take at least eight digits per
      byte (the test `size/8 >= len(block)`), otherwise '0' and the codes. Either way the block
      costs at most one digit more than its literal form. */
  function EncodeBlock(block: seq<byte>, codes: map<byte, Bits>): (r: Bits)
    requires Total(codes)
    ensures 1 <= |r| <= 1 + 8 * |block|
    ensures r[0] <==> CodedSize(block, codes) >= 8 * |block|
  {
    if CodedSize(block, codes) >= 8 * |block| then [true] + LiteralBits(block)
    else [false] + CodedBits(block, codes)
  }

  function EncodeBlocks(blocks: seq<seq<byte>>, codes: map<byte, Bits>): Bits
    requires Total(codes)
  {
    if |blocks| == 0 then [] else EncodeBlock(blocks[0], codes) + EncodeBlocks(blocks[1..], codes)
  }

  /** `bin(block_size)[2:].zfill(16)`: exactly sixteen digits holding the block size when it is
      below 2^16, and more digits otherwise. */
  function Header(bs: nat): (r: Bits)
    ensures ToNat(r) == bs
    ensures |r| == 16 <==> bs < 65536
    ensures |r| >= 16
  {
    var b := Binary(bs);
    NumeralWidth(bs);
    ZFill(b, 16)
  }

  /** A numeral fits in sixteen digits exactly when its value is below 2^16. */
  lemma NumeralWidth(n: nat)
    ensures |Binary(n)| <= 16 <==> n < 65536
  {
    var b := Binary(n);
    assert Pow2(8) == 256;
    Pow2Add(8, 8);
    if n >= 65536 && |b| <= 16 {
      Pow2Monotone(|b|, 16);
    }
    if n < 65536 && |b| > 16 {
      LeadingOne(b);
      Pow2Monotone(16, |b| - 1);
    }
  }

  /** `encode(data, codes, bs)`: the header, then every chunk of `bs` bytes as a block. */
  function Encode(data: seq<byte>, codes: map<byte, Bits>, bs: nat): (r: Bits)
    requires Total(codes) && bs >= 1
    ensures bs < 65536 ==> |r| >= 16 && ToNat(r[..16]) == bs && r[16..] == EncodeBlocks(Chunks(data, bs), codes)
    ensures |r| <= |Header(bs)| + |Chunks(data, bs)| + 8 * |data|
  {
    var h := Header(bs);
    var blocks := Chunks(data, bs);
    EncodeBlocksBound(blocks, codes);
    var r := h + EncodeBlocks(blocks, codes);
    assert r[..|h|] == h && r[|h|..] == EncodeBlocks(blocks, codes);
    r
  }

  /** The encoded blocks take at most one digit per block more than the bytes in literal form. */
  lemma {:induction false} EncodeBlocksBound(blocks: seq<seq<byte>>, codes: map<byte, Bits>)
    requires Total(codes)
    ensures |EncodeBlocks(blocks, codes)| <= |blocks| + 8 * |Flatten(blocks)|
  {
    if |blocks| > 0 {
      EncodeBlocksBound(blocks[1..], codes);
    }
  }

  /** `int(char, 2)` of one chunk of at most eight digits. */
  function ChunkByte(chunk: Bits): (r: byte)
    requires |chunk| <= 8
  {
    Pow2Monotone(|chunk|, 8);
    assert Pow2(8) == 256;
    ToNat(chunk)
  }

  /** A literal block read back: each chunk of eight digits as a byte, a shorter last chunk as it
      stands. */
  function LiteralBytes(bits: Bits): seq<byte>
  {
    var cs := Chunks(bits, 8);
    seq(|cs|, (k: int) requires 0 <= k < |cs| => ChunkByte(cs[k]))
  }

  function Cons(c: byte, r: Option<(seq<byte>, nat, Trie)>): Option<(seq<byte>, nat, Trie)>
  {
    match r
    case None => None
    case Some((s, j, t)) => Some(([c] + s, j, t))
  }

  /** The loop over an encoded block (huffman.py:170-185) from position `i`, with `count` symbols
      decoded and the walk at node `cur`. It stops after `bs` symbols or at the end of the bits,
      giving the symbols, the position and the node it stopped at. `None` is a step into a missing
      child, the AttributeError on which `decompress` returns 0. */
  function DecodeCoded(bits: Bits, i: nat, count: nat, bs: nat, root: Trie, cur: Trie)
    : (r: Option<(seq<byte>, nat, Trie)>)
    ensures r.Some? ==> r.value.1 >= i
    ensures r.Some? && count <= bs ==> count + |r.value.0| <= bs
    decreases |bits| - i
  {
    if count >= bs || i >= |bits| then Some(([], i, cur))
    else
      match Child(cur, bits[i])
      case None => None
      case Some(n) =>
        if n.symbol.Some? then Cons(n.symbol.value, DecodeCoded(bits, i + 1, count + 1, bs, root, root))
        else DecodeCoded(bits, i + 1, count, bs, root, n)
  }

  /** One block read at position `i` (huffman.py:157-185): a literal block takes the next
      `8 * bs` digits, or what is left of them; an encoded block runs `DecodeCoded` from the
      current node. */
  function ReadBlock(bits: Bits, i: nat, bs: nat, root: Trie, cur: Trie): (r: Option<(seq<byte>, nat, Trie)>)
    requires i < |bits|
    ensures r.Some? ==> r.value.1 > i
    ensures r.Some? ==> |r.value.0| <= bs
  {
    if bits[i] then
      var lit := bits[i + 1..Min(i + 1 + bs * 8, |bits|)];
      ChunksCount(lit, 8, bs);
      Some((LiteralBytes(lit), i + 1 + bs * 8, cur))
    else DecodeCoded(bits, i + 1, 0, bs, root, cur)
  }

  function Prepend(s: seq<byte>, r: Option<seq<byte>>): Option<seq<byte>>
  {
    match r
    case None => None
    case Some(rest) => Some(s + rest)
  }

  /** The outer loop of `decompress` (huffman.py:156-187) from position `i` with the walk at
      `cur`; the walk carries over from one block into the next. */
  function DecodeBlocks(bits: Bits, i: nat, bs: nat, root: Trie, cur: Trie): (r: Option<seq<byte>>)
    ensures r.Some? && i <= |bits| ==> |r.value| <= bs * (|bits| - i)
    decreases |bits| - i
  {
    if i >= |bits| then Some([])
    else
      match ReadBlock(bits, i, bs, root, cur)
      case None => None
      case Some((syms, j, c)) =>
        var rest := DecodeBlocks(bits, j, bs, root, c);
        OutputBound(bs, |bits| - i, |bits| - j);
        Prepend(syms, rest)
  }

  /** A block of at most `bs` symbols read from `d` remaining digits, leaving `e` of them. */
  lemma OutputBound(bs: nat, d: int, e: int)
    requires d >= 1 && e < d
    ensures bs + bs * (if e < 0 then 0 else e) <= bs * d
  {
    var e' := if e < 0 then 0 else e;
    assert bs * d == bs + bs * (d - 1);
    assert bs * e' <= bs * (d - 1);
  }

  /** Eight-digit bytes split back into their chunks. */
  lemma {:induction false} ChunksOfLiteral(block: seq<byte>)
    ensures Chunks(LiteralBits(block), 8) == seq(|block|, (k: int) requires 0 <= k < |block| => Byte8(block[k]))
  {
    if |block| > 0 {
      var s := LiteralBits(block);
      assert s[..8] == Byte8(block[0]);
      assert s[8..] == LiteralBits(block[1..]);
      ChunksOfLiteral(block[1..]);
    }
  }

  /** A literal block reads back as the bytes written. */
  lemma LiteralRoundTrip(block: seq<byte>)
    ensures LiteralBytes(LiteralBits(block)) == block
  {
    ChunksOfLiteral(block);
  }

  /** The rebuilt tree decodes the code `p` as `c`: the walk along `p` stays inside the tree, meets
      no symbol before its end and ends at `c`. */
  ghost predicate Decodes(root: Trie, p: Bits, c: byte)
  {
    && |p| >= 1
    && SymbolAt(root, p) == Some(c)
    && forall j | 1 <= j < |p| :: At(root, p[..j]).Some? && SymbolAt(root, p[..j]) == None
  }

  /** Walking the rest of a decodable code from the node reached after its first `j` digits emits
      its symbol and returns to the root. */
  lemma {:induction false} WalkCode(bits: Bits, i: nat, count: nat, bs: nat, root: Trie, p: Bits, c: byte, j: nat, n: Trie)
    requires Decodes(root, p, c)
    requires j < |p| && At(root, p[..j]) == Some(n)
    requires i + |p| <= |bits| && bits[i..i + |p|] == p
    requires count < bs
    ensures DecodeCoded(bits, i + j, count, bs, root, n)
         == Cons(c, DecodeCoded(bits, i + |p|, count + 1, bs, root, root))
    decreases |p| - j
  {
    assert bits[i + j] == p[j];
    AtSnoc(root, p[..j], p[j]);
    assert p[..j] + [p[j]] == p[..j + 1];
    if j + 1 == |p| {
      assert p[..j + 1] == p;
    } else {
      var m := At(root, p[..j + 1]).value;
      WalkCode(bits, i, count, bs, root, p, c, j + 1, m);
    }
  }

  /** An encoded block decodes to its bytes when every byte's code is decodable, provided the
      loop stops right after it: the block fills the remaining count, or the bits end there. */
  lemma {:induction false} CodedRoundTrip(bits: Bits, i: nat, count: nat, bs: nat, root: Trie, codes: map<byte, Bits>, block: seq<byte>)
    requires Total(codes)
    requires forall c | c in block :: Decodes(root, codes[c], c)
    requires i + |CodedBits(block, codes)| <= |bits|
    requires bits[i..i + |CodedBits(block, codes)|] == CodedBits(block, codes)
    requires count + |block| <= bs
    requires count + |block| == bs || i + |CodedBits(block, codes)| == |bits|
    ensures DecodeCoded(bits, i, count, bs, root, root) == Some((block, i + |CodedBits(block, codes)|, root))
    decreases |block|
  {
    if |block| > 0 {
      var c := block[0];
      var p := codes[c];
      CodedHead(bits, i, count, bs, root, codes, block);
      assert forall d | d in block[1..] :: d in block;
      CodedRoundTrip(bits, i + |p|, count + 1, bs, root, codes, block[1..]);
      assert [c] + block[1..] == block;
    }
  }

  /** Reading the code of a block's first byte emits it and leaves the rest of the block's codes
      in place. */
  lemma CodedHead(bits: Bits, i: nat, count: nat, bs: nat, root: Trie, codes: map<byte, Bits>, block: seq<byte>)
    requires Total(codes) && |block| > 0
    requires Decodes(root, codes[block[0]], block[0])
    requires i + |CodedBits(block, codes)| <= |bits|
    requires bits[i..i + |CodedBits(block, codes)|] == CodedBits(block, codes)
    requires count < bs
    ensures DecodeCoded(bits, i, count, bs, root, root)
         == Cons(block[0], DecodeCoded(bits, i + |codes[block[0]]|, count + 1, bs, root, root))
    ensures CodedBits(block, codes) == codes[block[0]] + CodedBits(block[1..], codes)
    ensures bits[i + |codes[block[0]]|..i + |CodedBits(block, codes)|] == CodedBits(block[1..], codes)
  {
    var p := codes[block[0]];
    var tail := CodedBits(block[1..], codes);
    assert CodedBits(block, codes) == p + tail;
    SplitSlice(bits, i, p, tail);
    assert p[..0] == [];
    WalkCode(bits, i, count, bs, root, p, block[0], 0, root);
  }

  /** A block is a whole chunk of `bs` bytes, or the last one, which the bits end right after. */
  ghost predicate BlockFits(bits: Bits, i: nat, bs: nat, block: seq<byte>, e: Bits)
  {
    && 1 <= |block| <= bs
    && i + |e| <= |bits|
    && bits[i..i + |e|] == e
    && (|block| == bs || i + |e| == |bits|)
  }

  /** Reading one literal block. */
  lemma LiteralStep(bits: Bits, i: nat, bs: nat, root: Trie, block: seq<byte>)
    requires BlockFits(bits, i, bs, block, [true] + LiteralBits(block))
    ensures ReadBlock(bits, i, bs, root, root) == Some((block, i + 1 + bs * 8, root))
  {
    var lit := LiteralBits(block);
    var e := [true] + lit;
    var j := Min(i + 1 + bs * 8, |bits|);
    assert bits[i] == e[0];
    assert j == i + 1 + |lit|;
    assert bits[i + 1..j] == lit by {
      assert bits[i + 1..j] == e[1..];
    }
    LiteralRoundTrip(block);
  }

  /** Reading one encoded block whose bytes all have decodable codes. */
  lemma CodedStep(bits: Bits, i: nat, bs: nat, root: Trie, codes: map<byte, Bits>, block: seq<byte>)
    requires Total(codes)
    requires forall c | c in block :: Decodes(root, codes[c], c)
    requires BlockFits(bits, i, bs, block, [false] + CodedBits(block, codes))
    ensures ReadBlock(bits, i, bs, root, root) == Some((block, i + 1 + |CodedBits(block, codes)|, root))
  {
    var e := [false] + CodedBits(block, codes);
    assert bits[i] == e[0];
    SplitSlice(bits, i, [false], CodedBits(block, codes));
    CodedRoundTrip(bits, i + 1, 0, bs, root, codes, block);
  }

  /** Reading one block of either kind: it ends where its encoding ends, or, for the last block,
      at or past the end of the bits. */
  lemma BlockStep(bits: Bits, i: nat, bs: nat, root: Trie, codes: map<byte, Bits>, block: seq<byte>)
    requires Total(codes)
    requires forall c | c in block :: Decodes(root, codes[c], c)
    requires BlockFits(bits, i, bs, block, EncodeBlock(block, codes))
    ensures ReadBlock(bits, i, bs, root, root).Some?
    ensures var r := ReadBlock(bits, i, bs, root, root).value;
      && r.0 == block && r.2 == root
      && (r.1 == i + |EncodeBlock(block, codes)| || (r.1 >= |bits| && |block| < bs))
  {
    if CodedSize(block, codes) >= 8 * |block| {
      LiteralStep(bits, i, bs, root, block);
    } else {
      CodedStep(bits, i, bs, root, codes, block);
    }
  }

  /** The chunks after the first keep the chunk shape. */
  lemma ChunkShapeTail<T>(ss: seq<seq<T>>, n: nat)
    requires |ss| > 0 && ChunkShape(ss, n)
    ensures ChunkShape(ss[1..], n)
  {
    assert forall k | 0 <= k < |ss| - 1 :: ss[1..][k] == ss[k + 1];
  }

  /** The first chunk is full unless it is the only one. */
  lemma FirstChunk<T>(ss: seq<seq<T>>, n: nat)
    requires |ss| > 0 && ChunkShape(ss, n)
    ensures 1 <= |ss[0]| <= n && (|ss[0]| == n || |ss| == 1)
  {
  }

  lemma SplitTail(bits: Bits, i: nat, e: Bits, tail: Bits)
    requires i + |e| + |tail| == |bits| && bits[i..] == e + tail
    ensures bits[i..i + |e|] == e && bits[i + |e|..] == tail
  {
    assert bits[i..i + |e|] == (e + tail)[..|e|];
    assert bits[i + |e|..] == (e + tail)[|e|..];
  }

  /** Where the first block's encoding lies, and where the rest begins. */
  lemma SplitBlocks(bits: Bits, i: nat, bs: nat, codes: map<byte, Bits>, blocks: seq<seq<byte>>)
    requires Total(codes)
    requires ChunkShape(blocks, bs) && |blocks| > 0
    requires i + |EncodeBlocks(blocks, codes)| == |bits|
    requires bits[i..] == EncodeBlocks(blocks, codes)
    ensures var e := EncodeBlock(blocks[0], codes);
      && BlockFits(bits, i, bs, blocks[0], e)
      && i + |e| + |EncodeBlocks(blocks[1..], codes)| == |bits|
      && bits[i + |e|..] == EncodeBlocks(blocks[1..], codes)
  {
    var b := blocks[0];
    var e := EncodeBlock(b, codes);
    var tail := EncodeBlocks(blocks[1..], codes);
    assert EncodeBlocks(blocks, codes) == e + tail;
    FirstChunk(blocks, bs);
    assert |b| == bs || tail == [] by {
      if |blocks| == 1 {
        assert blocks[1..] == [];
      }
    }
    SplitFits(bits, i, bs, b, e, tail);
  }

  lemma SplitFits(bits: Bits, i: nat, bs: nat, b: seq<byte>, e: Bits, tail: Bits)
    requires i + |e| + |tail| == |bits| && bits[i..] == e + tail
    requires 1 <= |b| <= bs && (|b| == bs || tail == [])
    ensures BlockFits(bits, i, bs, b, e)
    ensures bits[i + |e|..] == tail
  {
    SplitTail(bits, i, e, tail);
  }

  /** The chunks after the first keep their shape, and their bytes are among the data's. */
  lemma SplitChunks(bs: nat, root: Trie, codes: map<byte, Bits>, blocks: seq<seq<byte>>)
    requires Total(codes)
    requires ChunkShape(blocks, bs) && |blocks| > 0
    requires forall c | c in Flatten(blocks) :: Decodes(root, codes[c], c)
    ensures |blocks[0]| < bs ==> blocks[1..] == []
    ensures forall c | c in blocks[0] :: Decodes(root, codes[c], c)
    ensures ChunkShape(blocks[1..], bs)
    ensures forall c | c in Flatten(blocks[1..]) :: Decodes(root, codes[c], c)
    ensures Flatten(blocks) == blocks[0] + Flatten(blocks[1..])
  {
    ChunkShapeTail(blocks, bs);
    FirstChunk(blocks, bs);
    if |blocks| == 1 {
      assert blocks[1..] == [];
    }
    assert Flatten(blocks) == blocks[0] + Flatten(blocks[1..]);
  }

  /** The bits from position `i` on are exactly the encoding of `blocks`, a chunking into blocks
      of `bs` bytes whose every byte has a decodable code. */
  ghost predicate Layout(bits: Bits, i: nat, bs: nat, root: Trie, codes: map<byte, Bits>, blocks: seq<seq<byte>>)
  {
    && Total(codes)
    && ChunkShape(blocks, bs)
    && (forall c | c in Flatten(blocks) :: Decodes(root, codes[c], c))
    && i + |EncodeBlocks(blocks, codes)| == |bits|
    && bits[i..] == EncodeBlocks(blocks, codes)
  }

  /** The first of the encoded blocks reads back as itself, and the decoder goes on at a position
      `j` where the remaining blocks are laid out, or past the end of the bits after the last one. */
  lemma FirstBlock(bits: Bits, i: nat, bs: nat, root: Trie, codes: map<byte, Bits>, blocks: seq<seq<byte>>)
    returns (j: nat)
    requires Layout(bits, i, bs, root, codes, blocks) && |blocks| > 0
    ensures DecodeBlocks(bits, i, bs, root, root) == Prepend(blocks[0], DecodeBlocks(bits, j, bs, root, root))
    ensures Flatten(blocks) == blocks[0] + Flatten(blocks[1..])
    ensures Layout(bits, j, bs, root, codes, blocks[1..]) || (j >= |bits| && blocks[1..] == [])
  {
    HeadFits(bits, i, bs, root, codes, blocks);
    j := ReadFirst(bits, i, bs, root, codes, blocks[0]);
    UnfoldDecode(bits, i, bs, root, blocks[0], j);
    NextLayout(bits, i, bs, root, codes, blocks);
  }

  /** Where the decoder goes on after reading a block that fits. */
  lemma ReadFirst(bits: Bits, i: nat, bs: nat, root: Trie, codes: map<byte, Bits>, block: seq<byte>)
    returns (j: nat)
    requires Total(codes)
    requires forall c | c in block :: Decodes(root, codes[c], c)
    requires BlockFits(bits, i, bs, block, EncodeBlock(block, codes))
    ensures i < |bits|
    ensures ReadBlock(bits, i, bs, root, root) == Some((block, j, root))
    ensures j == i + |EncodeBlock(block, codes)| || (j >= |bits| && |block| < bs)
  {
    BlockStep(bits, i, bs, root, codes, block);
    j := ReadBlock(bits, i, bs, root, root).value.1;
  }

  /** The first block of a layout can be read where it stands. */
  lemma HeadFits(bits: Bits, i: nat, bs: nat, root: Trie, codes: map<byte, Bits>, blocks: seq<seq<byte>>)
    requires Layout(bits, i, bs, root, codes, blocks) && |blocks| > 0
    ensures Total(codes)
    ensures BlockFits(bits, i, bs, blocks[0], EncodeBlock(blocks[0], codes))
    ensures forall c | c in blocks[0] :: Decodes(root, codes[c], c)
    ensures |blocks[0]| < bs ==> blocks[1..] == []
  {
    SplitBlocks(bits, i, bs, codes, blocks);
    SplitChunks(bs, root, codes, blocks);
  }

  /** The blocks after the first are laid out where the first block's encoding ends. */
  lemma NextLayout(bits: Bits, i: nat, bs: nat, root: Trie, codes: map<byte, Bits>, blocks: seq<seq<byte>>)
    requires Layout(bits, i, bs, root, codes, blocks) && |blocks| > 0
    ensures Layout(bits, i + |EncodeBlock(blocks[0], codes)|, bs, root, codes, blocks[1..])
    ensures Flatten(blocks) == blocks[0] + Flatten(blocks[1..])
  {
    SplitBlocks(bits, i, bs, codes, blocks);
    SplitChunks(bs, root, codes, blocks);
  }

  /** The encoded blocks, running to the end of the bits, decode back to their bytes when every
      byte's code is decodable. */
  lemma {:induction false} BlocksRoundTrip(bits: Bits, i: nat, bs: nat, root: Trie, codes: map<byte, Bits>, blocks: seq<seq<byte>>)
    requires Layout(bits, i, bs, root, codes, blocks)
    ensures DecodeBlocks(bits, i, bs, root, root) == Some(Flatten(blocks))
    decreases |blocks|
  {
    if |blocks| == 0 {
      NothingLeft(bits, i, bs, root, blocks);
    } else {
      var j := FirstBlock(bits, i, bs, root, codes, blocks);
      if Layout(bits, j, bs, root, codes, blocks[1..]) {
        BlocksRoundTrip(bits, j, bs, root, codes, blocks[1..]);
      } else {
        NothingLeft(bits, j, bs, root, blocks[1..]);
      }
    }
  }

  /** Past the end of the bits the decoder stops with nothing more. */
  lemma NothingLeft(bits: Bits, j: nat, bs: nat, root: Trie, rest: seq<seq<byte>>)
    requires j >= |bits| && rest == []
    ensures DecodeBlocks(bits, j, bs, root, root) == Some(Flatten(rest))
  {
    assert Flatten(rest) == [];
  }

  lemma UnfoldDecode(bits: Bits, i: nat, bs: nat, root: Trie, b: seq<byte>, j: nat)
    requires i < |bits| && ReadBlock(bits, i, bs, root, root) == Some((b, j, root))
    ensures DecodeBlocks(bits, i, bs, root, root) == Prepend(b, DecodeBlocks(bits, j, bs, root, root))
  {
  }

  /** The block layer's round trip: the bits after the header decode to the data. */
  lemma BodyRoundTrip(data: seq<byte>, codes: map<byte, Bits>, bs: nat, root: Trie)
    requires Total(codes) && bs >= 1
    requires forall c | c in data :: Decodes(root, codes[c], c)
    ensures DecodeBlocks(EncodeBlocks(Chunks(data, bs), codes), 0, bs, root, root) == Some(data)
  {
    var bits := EncodeBlocks(Chunks(data, bs), codes);
    assert bits[0..] == bits;
    assert Layout(bits, 0, bs, root, codes, Chunks(data, bs));
    BlocksRoundTrip(bits, 0, bs, root, codes, Chunks(data, bs));
  }
  lemma {:induction false} CodedBitsAppend(a: seq<byte>, b: seq<byte>, codes: map<byte, Bits>)
    requires Total(codes)
    ensures CodedBits(a + b, codes) == CodedBits(a, codes) + CodedBits(b, codes)
  {
    if |a| == 0 {
      assert a + b == b;
    } else {
      assert (a + b)[1..] == a[1..] + b;
      CodedBitsAppend(a[1..], b, codes);
    }
  }

  /** An encoded block whose decodable bytes are followed by a code leading out of the tree at
      its first digit: the decoder steps into the missing child. */
  lemma {:induction false} CodedHitsGap(bits: Bits, i: nat, count: nat, bs: nat, root: Trie, codes: map<byte, Bits>, pre: seq<byte>, c: byte)
    requires Total(codes)
    requires forall d | d in pre :: Decodes(root, codes[d], d)
    requires |codes[c]| >= 1 && Child(root, codes[c][0]) == None
    requires i + |CodedBits(pre, codes)| < |bits|
    requires bits[i..i + |CodedBits(pre, codes)|] == CodedBits(pre, codes)
    requires bits[i + |CodedBits(pre, codes)|] == codes[c][0]
    requires count + |pre| < bs
    ensures DecodeCoded(bits, i, count, bs, root, root) == None
    decreases |pre|
  {
    if |pre| > 0 {
      var p := codes[pre[0]];
      CodedHead(bits, i, count, bs, root, codes, pre);
      assert forall e | e in pre[1..] :: e in pre;
      CodedHitsGap(bits, i + |p|, count + 1, bs, root, codes, pre[1..], c);
    }
  }
}
