/** Elias gamma coding of the 256-entry codebook (`gamma`, `gammadecode`, huffman.py:114,
    190-217). */
module GammaCoding {

  import opened Wrappers
  import opened Bits
  import opened Seqs

  /** How the codebook marks a symbol that does not occur in the data. `AsWritten` is the source:
      the path "0", which a used symbol may also have. `Corrected` marks unused symbols with the empty
      path (value 1, gamma code "1"), which no used symbol has, and reads a gamma code with no
      leading zeros as that value instead of failing on `int('', 2)`. */
  datatype Variant = AsWritten | Corrected

  function UnusedPath(v: Variant): Bits
  {
    match v
    case AsWritten => [false]
    case Corrected => []
  }

  /** The gamma code of one value: as many zeros as `bin(n)[2:]` has digits after the first, then
      `bin(n)[2:]`. Read as a numeral it is `n` again. */
  function GammaCode(n: nat): (r: Bits)
    ensures |r| == 2 * |Binary(n)| - 1
    ensures ToNat(r) == n
    ensures forall k | 0 <= k < |Binary(n)| - 1 :: !r[k]
    ensures r[|Binary(n)| - 1] <==> n >= 1
  {
    var b := Binary(n);
    LeadingZeros(|b| - 1, b);
    Zeros(|b| - 1) + b
  }

  /** `gamma(values)`: the codes concatenated in order. */
  function Gamma(values: seq<nat>): (r: Bits)
    ensures |r| >= |values|
  {
    if |values| == 0 then [] else GammaCode(values[0]) + Gamma(values[1..])
  }

  /** The integer a codebook entry is stored as: `int('1' + path, 2)`. */
  function EntryValue(p: Bits): nat
  {
    ToNat([true] + p)
  }

  function EntryValues(ps: seq<Bits>): (r: seq<nat>)
    ensures |r| == |ps|
  {
    if |ps| == 0 then [] else [EntryValue(ps[0])] + EntryValues(ps[1..])
  }

  /** The loop of `gammadecode` from position `i` with `n` zeros counted and `out` decoded so far.
      It stops after 256 values; `None` is where Python raises: IndexError when the bits run out,
      ValueError when `int` is given an empty string. */
  function DecodeLoop(data: Bits, i: nat, n: nat, out: seq<nat>, v: Variant): (r: Option<(seq<nat>, nat)>)
    requires |out| <= 256
    ensures r.Some? ==> |r.value.0| == 256 && r.value.0[..|out|] == out
    decreases 256 - |out|, |data| - i
  {
    if |out| == 256 then Some((out, i))
    else if i >= |data| then None
    else if !data[i] then DecodeLoop(data, i + 1, n + 1, out, v)
    else if n == 0 then
      if v.AsWritten? then None
      else
        var r := DecodeLoop(data, i + 1, 0, out + [1], v);
        assert r.Some? ==> r.value.0[..|out|] == (out + [1])[..|out|];
        r
    else
      var digits := data[i + 1..Min(i + n + 1, |data|)];
      if |digits| == 0 then None
      else
        var num := Pow2(n) + ToNat(digits);
        var r := DecodeLoop(data, i + n + 1, 0, out + [num], v);
        assert r.Some? ==> r.value.0[..|out|] == (out + [num])[..|out|];
        r
  }

  /** `gammadecode(data)`: the 256 paths `bin(value)[3:]` in symbol order and the bits after them. */
  function GammaDecode(data: Bits, v: Variant): (r: Option<(seq<Bits>, Bits)>)
    ensures r.Some? ==> |r.value.0| == 256 && |r.value.1| <= |data|
    ensures r.Some? ==> r.value.1 == data[|data| - |r.value.1|..]
  {
    match DecodeLoop(data, 0, 0, [], v)
    case None => None
    case Some((values, i)) =>
      Some((seq(256, (k: int) requires 0 <= k < 256 => Binary(values[k])[1..]), data[Min(i, |data|)..]))
  }

  /** The gamma code of a codebook entry is the path's length in zeros, the sentinel '1', then the
      path itself. */
  lemma GammaOfEntry(p: Bits)
    ensures GammaCode(EntryValue(p)) == Zeros(|p|) + [true] + p
    ensures Binary(EntryValue(p))[1..] == p
  {
    BinaryOfLeadingOne([true] + p);
  }

  /** Leading zeros are only counted. */
  lemma {:induction false} SkipZeros(data: Bits, i: nat, n: nat, m: nat, out: seq<nat>, v: Variant)
    requires |out| < 256
    requires i + m <= |data|
    requires forall k | i <= k < i + m :: !data[k]
    ensures DecodeLoop(data, i, n, out, v) == DecodeLoop(data, i + m, n + m, out, v)
    decreases m
  {
    if m > 0 {
      SkipZeros(data, i + 1, n + 1, m - 1, out, v);
    }
  }

  /** The gamma code of an entry, as `GammaOfEntry` shows it to be. */
  function EntryCode(p: Bits): (r: Bits)
    ensures |r| == 2 * |p| + 1
  {
    Zeros(|p|) + [true] + p
  }

  /** One '1' read after as many zeros as there are digits `d` following it appends `2**|d|` plus
      the digits' value. */
  lemma ReadDigits(data: Bits, i: nat, d: Bits, out: seq<nat>, v: Variant, x: nat)
    requires |out| < 256 && 1 <= |d| && i + |d| + 1 <= |data| && data[i]
    requires data[i + 1..i + |d| + 1] == d
    requires x == Pow2(|d|) + ToNat(d)
    ensures DecodeLoop(data, i, |d|, out, v) == DecodeLoop(data, i + |d| + 1, 0, out + [x], v)
  {
  }

  /** With the Corrected reading, a '1' after no zeros appends the value 1. */
  lemma ReadBareOne(data: Bits, i: nat, out: seq<nat>)
    requires |out| < 256 && i < |data| && data[i]
    ensures DecodeLoop(data, i, 0, out, Corrected) == DecodeLoop(data, i + 1, 0, out + [1], Corrected)
  {
  }

  /** Reading one entry's gamma code appends the entry's value. */
  lemma ReadEntry(data: Bits, i: nat, p: Bits, out: seq<nat>, v: Variant)
    requires |out| < 256
    requires |p| >= 1 || v.Corrected?
    requires i + 2 * |p| + 1 <= |data|
    requires forall k | i <= k < i + |p| :: !data[k]
    requires data[i + |p|]
    requires data[i + |p| + 1..i + 2 * |p| + 1] == p
    ensures DecodeLoop(data, i, 0, out, v)
         == DecodeLoop(data, i + 2 * |p| + 1, 0, out + [EntryValue(p)], v)
  {
    if |p| >= 1 {
      ReadLongEntry(data, i, p, out, v);
    } else {
      assert [true] + p == [true];
      ReadBareOne(data, i, out);
    }
  }

  lemma ReadLongEntry(data: Bits, i: nat, p: Bits, out: seq<nat>, v: Variant)
    requires |out| < 256 && |p| >= 1
    requires i + 2 * |p| + 1 <= |data|
    requires forall k | i <= k < i + |p| :: !data[k]
    requires data[i + |p|]
    requires data[i + |p| + 1..i + 2 * |p| + 1] == p
    ensures DecodeLoop(data, i, 0, out, v)
         == DecodeLoop(data, i + 2 * |p| + 1, 0, out + [EntryValue(p)], v)
  {
    SkipZeros(data, i, 0, |p|, out, v);
    DigitsOfEntry(data, i + |p|, p, out, v);
  }

  /** The sentinel and digits of an entry, read after its zeros have been counted. */
  lemma DigitsOfEntry(data: Bits, j: nat, p: Bits, out: seq<nat>, v: Variant)
    requires |out| < 256 && |p| >= 1
    requires j + |p| + 1 <= |data| && data[j]
    requires data[j + 1..j + |p| + 1] == p
    ensures DecodeLoop(data, j, |p|, out, v) == DecodeLoop(data, j + |p| + 1, 0, out + [EntryValue(p)], v)
  {
    SentinelValue(p);
    ReadDigits(data, j, p, out, v, EntryValue(p));
  }

  /** The layout of an entry's gamma code found at position `i`. */
  lemma EntryLayout(data: Bits, i: nat, p: Bits)
    requires i + 2 * |p| + 1 <= |data| && data[i..i + 2 * |p| + 1] == EntryCode(p)
    ensures forall k | i <= k < i + |p| :: !data[k]
    ensures data[i + |p|]
    ensures data[i + |p| + 1..i + 2 * |p| + 1] == p
  {
    forall k | i <= k < i + |p|
      ensures !data[k]
    {
      assert data[k] == EntryCode(p)[k - i];
    }
    assert data[i + |p|] == EntryCode(p)[|p|];
    assert data[i + |p| + 1..i + 2 * |p| + 1] == EntryCode(p)[|p| + 1..];
  }

  lemma Snoc(out: seq<nat>, x: nat, xs: seq<nat>)
    ensures out + [x] + xs == out + ([x] + xs)
  {
  }

  /** The gamma-coded codebook written out entry by entry. */
  function GammaBook(ps: seq<Bits>): Bits
  {
    if |ps| == 0 then [] else EntryCode(ps[0]) + GammaBook(ps[1..])
  }

  lemma {:induction false} GammaBookIsGamma(ps: seq<Bits>)
    ensures Gamma(EntryValues(ps)) == GammaBook(ps)
  {
    if |ps| > 0 {
      assert EntryValues(ps)[1..] == EntryValues(ps[1..]);
      GammaOfEntry(ps[0]);
      GammaBookIsGamma(ps[1..]);
    }
  }

  /** Reading the gamma codes of a run of entries appends their values. */
  lemma {:induction false} ReadEntries(data: Bits, i: nat, ps: seq<Bits>, out: seq<nat>, v: Variant)
    requires |out| + |ps| == 256
    requires forall k | 0 <= k < |ps| :: |ps[k]| >= 1 || v.Corrected?
    requires i + |GammaBook(ps)| <= |data|
    requires data[i..i + |GammaBook(ps)|] == GammaBook(ps)
    ensures DecodeLoop(data, i, 0, out, v) == Some((out + EntryValues(ps), i + |GammaBook(ps)|))
    decreases |ps|
  {
    if |ps| == 0 {
      assert out + EntryValues(ps) == out;
    } else {
      var p := ps[0];
      var head := EntryCode(p);
      var tail := GammaBook(ps[1..]);
      assert GammaBook(ps) == head + tail;
      assert EntryValues(ps) == [EntryValue(p)] + EntryValues(ps[1..]);
      ReadHead(data, i, p, tail, out, v);
      assert forall k | 0 <= k < |ps[1..]| :: ps[1..][k] == ps[k + 1];
      ReadEntries(data, i + |head|, ps[1..], out + [EntryValue(p)], v);
      Snoc(out, EntryValue(p), EntryValues(ps[1..]));
    }
  }

  /** Reading the first entry of a run leaves the rest of the run in place. */
  lemma ReadHead(data: Bits, i: nat, p: Bits, tail: Bits, out: seq<nat>, v: Variant)
    requires |out| < 256
    requires |p| >= 1 || v.Corrected?
    requires i + |EntryCode(p)| + |tail| <= |data|
    requires data[i..i + |EntryCode(p)| + |tail|] == EntryCode(p) + tail
    ensures DecodeLoop(data, i, 0, out, v)
         == DecodeLoop(data, i + |EntryCode(p)|, 0, out + [EntryValue(p)], v)
    ensures data[i + |EntryCode(p)|..i + |EntryCode(p)| + |tail|] == tail
  {
    SplitSlice(data, i, EntryCode(p), tail);
    EntryLayout(data, i, p);
    ReadEntry(data, i, p, out, v);
  }

  /** Round trip: decoding the gamma-coded codebook followed by any bits gives back every path in
      symbol order and exactly the bits that follow. */
  lemma GammaRoundTrip(ps: seq<Bits>, rest: Bits, v: Variant)
    requires |ps| == 256
    requires forall k | 0 <= k < 256 :: |ps[k]| >= 1 || v.Corrected?
    ensures GammaDecode(Gamma(EntryValues(ps)) + rest, v) == Some((ps, rest))
  {
    var g := Gamma(EntryValues(ps));
    var data := g + rest;
    GammaBookIsGamma(ps);
    assert data[0..|g|] == g;
    ReadEntries(data, 0, ps, [], v);
    assert [] + EntryValues(ps) == EntryValues(ps);
    DecodedPaths(ps);
    assert data[|g|..] == rest;
  }

  /** `bin(value)[3:]` of every stored entry gives back its path. */
  lemma DecodedPaths(ps: seq<Bits>)
    requires |ps| == 256
    ensures seq(256, (k: int) requires 0 <= k < 256 => Binary(EntryValues(ps)[k])[1..]) == ps
  {
    var decoded := seq(256, (k: int) requires 0 <= k < 256 => Binary(EntryValues(ps)[k])[1..]);
    forall k | 0 <= k < 256
      ensures decoded[k] == ps[k]
    {
      EntryValueAt(ps, k);
      GammaOfEntry(ps[k]);
    }
  }

  lemma {:induction false} EntryValueAt(ps: seq<Bits>, k: nat)
    requires k < |ps|
    ensures EntryValues(ps)[k] == EntryValue(ps[k])
  {
    if k > 0 {
      EntryValueAt(ps[1..], k - 1);
    }
  }
  /** The entry of an unused symbol: as written the path "0" is stored as 2, gamma code "010", and
      read back as "0"; corrected, the empty path is stored as 1, gamma code "1". */
  lemma UnusedEntry(v: Variant)
    ensures EntryValue(UnusedPath(v)) == if v.AsWritten? then 2 else 1
    ensures GammaCode(EntryValue(UnusedPath(v))) == if v.AsWritten? then [false, true, false] else [true]
    ensures Binary(EntryValue(UnusedPath(v)))[1..] == UnusedPath(v)
  {
    GammaOfEntry(UnusedPath(v));
    assert Zeros(1) == [false];
  }
}
