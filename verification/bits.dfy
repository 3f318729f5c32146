/** Bit strings as the codec sees them: Python strings of '0' and '1', most significant digit
    first. `true` stands for the digit '1'. */
module Bits {

  type Bits = seq<bool>

  function Bit(b: bool): nat
  {
    if b then 1 else 0
  }

  function Pow2(n: nat): (r: nat)
    ensures r >= 1
  {
    if n == 0 then 1 else 2 * Pow2(n - 1)
  }

  /** A run of `n` zero digits. */
  function Zeros(n: nat): (r: Bits)
    ensures |r| == n
    ensures forall k | 0 <= k < n :: !r[k]
  {
    seq(n, _ => false)
  }

  /** The value of a digit string read in base 2, as `int(s, 2)` computes it for a non-empty `s`
      (the empty string, which Python rejects, reads as 0 here; callers model the rejection). */
  function ToNat(s: Bits): (r: nat)
    ensures r < Pow2(|s|)
  {
    if |s| == 0 then 0 else 2 * ToNat(s[..|s| - 1]) + Bit(s[|s| - 1])
  }

  /** `bin(n)[2:]`: the shortest base-2 numeral of `n`, which is "0" for zero. */
  function Binary(n: nat): (r: Bits)
    ensures |r| >= 1
    ensures ToNat(r) == n
    ensures n >= 1 ==> r[0] && Pow2(|r| - 1) <= n
  {
    if n < 2 then [n == 1]
    else
      var r := Binary(n / 2) + [n % 2 == 1];
      assert r[..|r| - 1] == Binary(n / 2);
      r
  }

  /** `s.zfill(w)`: pads with '0' on the left up to width `w`, never truncates. */
  function ZFill(s: Bits, w: nat): (r: Bits)
    ensures |r| == if |s| >= w then |s| else w
    ensures ToNat(r) == ToNat(s)
  {
    if |s| >= w then s
    else
      LeadingZeros(w - |s|, s);
      Zeros(w - |s|) + s
  }

  /** `bin(c)[2:].zfill(8)`: a byte as exactly eight digits. */
  function Byte8(c: nat): (r: Bits)
    requires c < 256
    ensures |r| == 8 && ToNat(r) == c
  {
    var b := Binary(c);
    assert Pow2(8) == 256;
    if |b| > 8 then
      TooLongNumeral(b);
      assert false;
      b
    else ZFill(b, 8)
  }

  lemma {:induction false} TooLongNumeral(b: Bits)
    requires |b| >= 9 && b[0]
    ensures ToNat(b) >= 256
  {
    LeadingOne(b);
    Pow2Monotone(8, |b| - 1);
    assert Pow2(8) == 256;
  }

  lemma {:induction false} Pow2Monotone(a: nat, b: nat)
    requires a <= b
    ensures Pow2(a) <= Pow2(b)
    decreases b - a
  {
    if a < b {
      Pow2Monotone(a, b - 1);
    }
  }

  lemma {:induction false} Pow2Add(a: nat, b: nat)
    ensures Pow2(a + b) == Pow2(a) * Pow2(b)
    decreases a
  {
    if a > 0 {
      Pow2Add(a - 1, b);
    }
  }

  /** Appending one digit doubles the value and adds the digit. */
  lemma SnocValue(s: Bits, b: bool)
    ensures ToNat(s + [b]) == 2 * ToNat(s) + Bit(b)
  {
    assert (s + [b])[..|s|] == s;
  }

  /** Leading zero digits do not change the value of a numeral. */
  lemma {:induction false} LeadingZeros(n: nat, s: Bits)
    ensures ToNat(Zeros(n) + s) == ToNat(s)
    decreases |s|
  {
    if |s| == 0 {
      assert Zeros(n) + s == Zeros(n);
      AllZeros(n);
    } else {
      var init := s[..|s| - 1];
      assert Zeros(n) + s == (Zeros(n) + init) + [s[|s| - 1]];
      assert s == init + [s[|s| - 1]];
      SnocValue(Zeros(n) + init, s[|s| - 1]);
      SnocValue(init, s[|s| - 1]);
      LeadingZeros(n, init);
    }
  }

  lemma {:induction false} AllZeros(n: nat)
    ensures ToNat(Zeros(n)) == 0
  {
    if n > 0 {
      assert Zeros(n)[..n - 1] == Zeros(n - 1);
      AllZeros(n - 1);
    }
  }

  /** A numeral that starts with '1' is at least 2^(length-1). */
  lemma {:induction false} LeadingOne(s: Bits)
    requires |s| >= 1 && s[0]
    ensures ToNat(s) >= Pow2(|s| - 1)
  {
    if |s| > 1 {
      var init := s[..|s| - 1];
      assert init[0];
      LeadingOne(init);
    }
  }

  /** Prefixing a '1' adds 2^|s| to the value: the sentinel digit carries no information. */
  lemma {:induction false} SentinelValue(s: Bits)
    ensures ToNat([true] + s) == Pow2(|s|) + ToNat(s)
  {
    if |s| == 0 {
      assert [true] + s == [true];
    } else {
      var init := s[..|s| - 1];
      var last := s[|s| - 1];
      assert s == init + [last];
      assert [true] + s == ([true] + init) + [last];
      SnocValue([true] + init, last);
      SnocValue(init, last);
      SentinelValue(init);
    }
  }

  /** `bin` undoes `int(_, 2)` on every numeral that starts with '1'. */
  lemma {:induction false} BinaryOfLeadingOne(s: Bits)
    requires |s| >= 1 && s[0]
    ensures Binary(ToNat(s)) == s
    decreases |s|
  {
    if |s| == 1 {
      assert s == [true];
    } else {
      var init := s[..|s| - 1];
      var last := s[|s| - 1];
      assert s == init + [last];
      SnocValue(init, last);
      assert init[0];
      LeadingOne(init);
      var n := ToNat(s);
      assert n / 2 == ToNat(init) && (n % 2 == 1) == last;
      BinaryOfLeadingOne(init);
    }
  }

  /** A slice that spells `a + b` splits into a slice spelling `a` and one spelling `b`. */
  lemma SplitSlice(data: Bits, i: nat, a: Bits, b: Bits)
    requires i + |a| + |b| <= |data| && data[i..i + |a| + |b|] == a + b
    ensures data[i..i + |a|] == a
    ensures data[i + |a|..i + |a| + |b|] == b
  {
    assert data[i..i + |a|] == (a + b)[..|a|];
    assert data[i + |a|..i + |a| + |b|] == (a + b)[|a|..];
  }
}
