/** Bytes and Python's `int.to_bytes` / `int.from_bytes` under a chosen byte order. The host byte
    order (`sys.byteorder`) is a parameter: every round trip below holds for either choice. */
module Bytes {

  type byte = x: int | 0 <= x < 256

  datatype ByteOrder = BigEndian | LittleEndian

  function Pow256(n: nat): (r: nat)
    ensures r >= 1
  {
    if n == 0 then 1 else 256 * Pow256(n - 1)
  }

  function Reverse<T>(s: seq<T>): (r: seq<T>)
    ensures |r| == |s|
    ensures forall k | 0 <= k < |s| :: r[k] == s[|s| - 1 - k]
  {
    if |s| == 0 then [] else Reverse(s[1..]) + [s[0]]
  }

  lemma ReverseReverse<T>(s: seq<T>)
    ensures Reverse(Reverse(s)) == s
  {
    assert forall k | 0 <= k < |s| :: Reverse(Reverse(s))[k] == s[k];
  }

  /** Base-256 digits of `n`, most significant first, in exactly `len` bytes. */
  function ToBytesBE(n: nat, len: nat): (r: seq<byte>)
    requires n < Pow256(len)
    ensures |r| == len
  {
    if len == 0 then [] else ToBytesBE(n / 256, len - 1) + [n % 256]
  }

  function FromBytesBE(bs: seq<byte>): (r: nat)
    ensures r < Pow256(|bs|)
  {
    if |bs| == 0 then 0 else FromBytesBE(bs[..|bs| - 1]) * 256 + bs[|bs| - 1]
  }

  lemma {:induction false} BigEndianRoundTrip(n: nat, len: nat)
    requires n < Pow256(len)
    ensures FromBytesBE(ToBytesBE(n, len)) == n
  {
    if len > 0 {
      var r := ToBytesBE(n, len);
      assert r[..len - 1] == ToBytesBE(n / 256, len - 1);
      BigEndianRoundTrip(n / 256, len - 1);
    }
  }

  /** `n.to_bytes(len, byteorder=order)`; Python raises OverflowError unless `n` fits in `len` bytes. */
  function ToBytes(n: nat, len: nat, order: ByteOrder): (r: seq<byte>)
    requires n < Pow256(len)
    ensures |r| == len
    ensures FromBytes(r, order) == n
  {
    BigEndianRoundTrip(n, len);
    match order
    case BigEndian => ToBytesBE(n, len)
    case LittleEndian =>
      ReverseReverse(ToBytesBE(n, len));
      Reverse(ToBytesBE(n, len))
  }

  /** `int.from_bytes(bs, byteorder=order)`. */
  function FromBytes(bs: seq<byte>, order: ByteOrder): (r: nat)
    ensures r < Pow256(|bs|)
  {
    match order
    case BigEndian => FromBytesBE(bs)
    case LittleEndian => FromBytesBE(Reverse(bs))
  }
}
