/** Sentinel-bit packing of the compressed bit string into bytes (huffman.py:115-116) and its
    unpacking (huffman.py:123-124). */
module Packing {

  import opened Bits
  import opened Bytes

  lemma {:induction false} Pow2Bytes(k: nat)
    ensures Pow2(8 * k) == Pow256(k)
  {
    if k > 0 {
      Pow2Add(8, 8 * (k - 1));
      assert Pow2(8) == 256;
      Pow2Bytes(k - 1);
    }
  }

  /** `int(bits, 2).to_bytes((len(bits) + 7) // 8, byteorder)`. */
  function Pack(bits: Bits, order: ByteOrder): (r: seq<byte>)
    ensures |r| == (|bits| + 7) / 8
    ensures FromBytes(r, order) == ToNat(bits)
  {
    var len := (|bits| + 7) / 8;
    Pow2Monotone(|bits|, 8 * len);
    Pow2Bytes(len);
    ToBytes(ToNat(bits), len, order)
  }

  /** `bin(int.from_bytes(bs, byteorder))[2:]`. */
  function Unpack(bs: seq<byte>, order: ByteOrder): (r: Bits)
    ensures |r| >= 1 && ToNat(r) == FromBytes(bs, order)
    ensures FromBytes(bs, order) >= 1 ==> r[0]
  {
    Binary(FromBytes(bs, order))
  }

  /** Prefixing the sentinel '1' before packing, then dropping the first digit after unpacking,
      recovers the bit string exactly, leading zeros included, for either byte order. */
  lemma SentinelRoundTrip(bits: Bits, order: ByteOrder)
    ensures |Pack([true] + bits, order)| >= 1
    ensures Unpack(Pack([true] + bits, order), order)[1..] == bits
  {
    BinaryOfLeadingOne([true] + bits);
  }
}
