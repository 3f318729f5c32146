/** Byte-frequency counting (`calculate_frequency`, huffman.py:46-51). The dictionary with keys
    0..255 is a sequence of 256 counts indexed by symbol. */
module FrequencyTable {

  import opened Bytes

  const SYMBOLS := 256

  function Sum(s: seq<nat>): nat
  {
    if |s| == 0 then 0 else s[0] + Sum(s[1..])
  }

  /** Counts every byte value in `data`, in the order the loop visits the bytes. */
  function Frequency(data: seq<byte>): (f: seq<nat>)
    ensures |f| == SYMBOLS
    ensures forall c | 0 <= c < SYMBOLS :: f[c] == multiset(data)[c]
  {
    if |data| == 0 then seq(SYMBOLS, _ => 0)
    else
      var init := data[..|data| - 1];
      var last := data[|data| - 1];
      assert data == init + [last];
      var f := Frequency(init);
      f[last := f[last] + 1]
  }

  lemma {:induction false} SumIncrement(s: seq<nat>, i: nat)
    requires i < |s|
    ensures Sum(s[i := s[i] + 1]) == Sum(s) + 1
  {
    if i == 0 {
      assert s[i := s[i] + 1][1..] == s[1..];
    } else {
      assert s[i := s[i] + 1][1..] == s[1..][i - 1 := s[i] + 1];
      SumIncrement(s[1..], i - 1);
    }
  }

  lemma {:induction false} SumZeros(n: nat)
    ensures Sum(seq(n, _ => 0)) == 0
  {
    if n > 0 {
      assert seq(n, _ => 0)[1..] == seq(n - 1, _ => 0);
      SumZeros(n - 1);
    }
  }

  /** The counts add up to the length of the input. */
  lemma {:induction false} FrequencyTotal(data: seq<byte>)
    ensures Sum(Frequency(data)) == |data|
  {
    if |data| == 0 {
      SumZeros(SYMBOLS);
    } else {
      var init := data[..|data| - 1];
      FrequencyTotal(init);
      SumIncrement(Frequency(init), data[|data| - 1]);
    }
  }
}
