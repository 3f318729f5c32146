/** Splitting a sequence into fixed-size pieces (`chunks` in huffman.py) and joining pieces back. */
module Seqs {

  /** The smaller of two bounds, as Python clamps a slice end to the sequence's length. */
  function Min(a: int, b: int): int
  {
    if a <= b then a else b
  }

  function Flatten<T>(ss: seq<seq<T>>): seq<T>
  {
    if |ss| == 0 then [] else ss[0] + Flatten(ss[1..])
  }

  /** The pieces of a sequence as `chunks` yields them: lengths between 1 and `n`, all but the last
      exactly `n`. */
  ghost predicate ChunkShape<T>(ss: seq<seq<T>>, n: nat)
  {
    && (forall k | 0 <= k < |ss| :: 1 <= |ss[k]| <= n)
    && (forall k | 0 <= k < |ss| - 1 :: |ss[k]| == n)
  }

  /** `chunks(s, n)`: successive slices `s[i:i+n]` for `i` in `range(0, len(s), n)`. A step of 0
      makes Python's `range` raise, hence the precondition. */
  function Chunks<T>(s: seq<T>, n: nat): (r: seq<seq<T>>)
    requires n >= 1
    ensures Flatten(r) == s
    ensures ChunkShape(r, n)
    ensures |s| == 0 <==> |r| == 0
    decreases |s|
  {
    if |s| == 0 then []
    else
      var m := Min(n, |s|);
      var r := [s[..m]] + Chunks(s[m..], n);
      assert r[1..] == Chunks(s[m..], n);
      assert s == s[..m] + s[m..];
      r
  }

  /** A sequence of at most `k * n` elements falls into at most `k` chunks. */
  lemma {:induction false} ChunksCount<T>(s: seq<T>, n: nat, k: nat)
    requires n >= 1 && |s| <= k * n
    ensures |Chunks(s, n)| <= k
    decreases |s|
  {
    if |s| > 0 {
      ChunksCons(s, n);
      MulDown(|s|, k, n);
      if |s| <= n {
        assert s[Min(n, |s|)..] == [];
      } else {
        ChunksCount(s[n..], n, k - 1);
      }
    }
  }

  lemma ChunksCons<T>(s: seq<T>, n: nat)
    requires n >= 1 && |s| > 0
    ensures |Chunks(s, n)| == 1 + |Chunks(s[Min(n, |s|)..], n)|
  {
  }

  lemma MulDown(a: nat, k: nat, n: nat)
    requires a > 0 && a <= k * n
    ensures k >= 1 && (a <= n || a - n <= (k - 1) * n)
  {
    assert (k - 1) * n == k * n - n;
  }
}
