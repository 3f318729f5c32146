/** The framing around the block cipher in `encrypt.py`: the plaintext is padded with ASCII '0'
    bytes to a multiple of 16, prefixed with the pad count in 16 bytes, encrypted, and sent after
    the initialisation vector. SHA-256, AES-CBC and `os.urandom` are parameters. */
module Framing {

  import opened Wrappers
  import opened Bytes
  import opened Seqs

  /** The AES block size, which is also the width of the pad-count field and of the IV. */
  const BLOCK: nat := 16

  /** `b'0'`: the padding byte is the ASCII digit zero, not the zero byte. */
  const PAD_BYTE: byte := 0x30

  /** A block cipher in CBC mode under a key and an IV. Decryption may fail (the library raises
      on a ciphertext whose length is not a multiple of the block size). */
  datatype Cipher = Cipher(
    encrypt: (seq<byte>, seq<byte>, seq<byte>) -> seq<byte>,
    decrypt: (seq<byte>, seq<byte>, seq<byte>) -> Option<seq<byte>>)

  /** Decryption undoes encryption of any whole number of blocks under the same key and IV. */
  ghost predicate Inverts(cipher: Cipher)
  {
    forall key: seq<byte>, iv: seq<byte>, m: seq<byte> | |iv| == BLOCK && |m| % BLOCK == 0 ::
      cipher.decrypt(key, iv, cipher.encrypt(key, iv, m)) == Some(m)
  }

  function Fill(n: nat): (r: seq<byte>)
    ensures |r| == n
    ensures forall k | 0 <= k < n :: r[k] == PAD_BYTE
  {
    seq(n, _ => PAD_BYTE)
  }

  /** The padding loop of `encrypt` (encrypt.py:10-13): append `b'0'` until the length is a multiple
      of 16, counting the bytes appended. */
  function Pad(p: seq<byte>): (r: (seq<byte>, nat))
    ensures |r.0| % BLOCK == 0
    ensures r.1 < BLOCK
    ensures r.0 == p + Fill(r.1)
    ensures r.1 == (BLOCK - |p| % BLOCK) % BLOCK
    decreases (BLOCK - |p| % BLOCK) % BLOCK
  {
    if |p| % BLOCK == 0 then
      assert p + Fill(0) == p;
      (p, 0)
    else
      var q := p + [PAD_BYTE];
      PadStep(|p|);
      var (padded, n) := Pad(q);
      assert padded == p + Fill(n + 1) by {
        assert Fill(n + 1) == [PAD_BYTE] + Fill(n);
      }
      (padded, n + 1)
  }

  lemma PadStep(n: nat)
    requires n % 16 != 0
    ensures (16 - (n + 1) % 16) % 16 == (16 - n % 16) % 16 - 1
  {
    var r := n % 16;
    assert n == 16 * (n / 16) + r;
    if r == 15 {
      assert n + 1 == 16 * (n / 16 + 1);
    } else {
      assert n + 1 == 16 * (n / 16) + (r + 1);
    }
  }

  lemma PadCountFits(n: nat)
    requires n < BLOCK
    ensures n < Pow256(BLOCK)
  {
    assert Pow256(1) == 256;
    Pow256Grows(1, BLOCK);
  }

  lemma {:induction false} Pow256Grows(a: nat, b: nat)
    requires a <= b
    ensures Pow256(a) <= Pow256(b)
    decreases b - a
  {
    if a < b {
      Pow256Grows(a, b - 1);
    }
  }

  /** `padding.to_bytes(16, byteorder=order)`, which cannot overflow since `padding < 16`. */
  function CountField(n: nat, order: ByteOrder): (r: seq<byte>)
    requires n < BLOCK
    ensures |r| == BLOCK && FromBytes(r, order) == n
  {
    PadCountFits(n);
    ToBytes(n, BLOCK, order)
  }

  lemma BlockAhead(n: nat)
    requires n % BLOCK == 0
    ensures (BLOCK + n) % BLOCK == 0
  {
    assert BLOCK + n == BLOCK * (n / BLOCK + 1);
  }

  /** The framed buffer (encrypt.py:14): the pad count in 16 bytes, then the padded plaintext. */
  function Frame(p: seq<byte>, order: ByteOrder): (r: seq<byte>)
    ensures |r| % BLOCK == 0 && |r| >= BLOCK
    ensures FromBytes(r[..BLOCK], order) == (BLOCK - |p| % BLOCK) % BLOCK
    ensures r[BLOCK..] == p + Fill((BLOCK - |p| % BLOCK) % BLOCK)
  {
    var (padded, n) := Pad(p);
    var count := CountField(n, order);
    var r := count + padded;
    assert r[..BLOCK] == count;
    BlockAhead(|padded|);
    assert |r| == BLOCK + |padded|;
    r
  }

  /** Python's end index of `s[:e]` on a sequence of length `len`: a negative `e` counts from the
      end, and one still negative after that selects nothing. */
  function SliceEnd(len: nat, e: int): (r: nat)
    requires e <= len
    ensures r <= len
    ensures e >= 0 ==> r == e
    ensures e < 0 && len + e >= 0 ==> r == len + e
    ensures len + e < 0 ==> r == 0
  {
    if e >= 0 then e else if len + e >= 0 then len + e else 0
  }

  /** The unframing of `decrypt` (encrypt.py:33-35): the first 16 bytes give the pad count, and
      that many bytes are dropped from the end of the rest. A count larger than the rest makes
      Python's slice end negative, which counts from the end again. */
  function Unframe(plain: seq<byte>, order: ByteOrder): (r: seq<byte>)
    ensures var rest := plain[Min(BLOCK, |plain|)..];
      var padding := FromBytes(plain[..Min(BLOCK, |plain|)], order);
      && r <= rest
      && (padding <= |rest| ==> |r| == |rest| - padding)
      && (|rest| < padding <= 2 * |rest| ==> |r| == 2 * |rest| - padding)
      && (2 * |rest| < padding ==> r == [])
  {
    var padding := FromBytes(plain[..Min(BLOCK, |plain|)], order);
    var rest := plain[Min(BLOCK, |plain|)..];
    rest[..SliceEnd(|rest|, |rest| - padding)]
  }

  /** `encrypt(plaintext, password)` with the key derivation `hash`, the `cipher` and the random
      `iv` as parameters: the IV, then the ciphertext of the framed plaintext. */
  function Encrypt(plaintext: seq<byte>, password: seq<byte>, hash: seq<byte> -> seq<byte>,
                   cipher: Cipher, iv: seq<byte>, order: ByteOrder): (r: seq<byte>)
    requires |iv| == BLOCK
    ensures |r| >= BLOCK && r[..BLOCK] == iv
  {
    var ct := cipher.encrypt(hash(password), iv, Frame(plaintext, order));
    assert (iv + ct)[..BLOCK] == iv;
    iv + ct
  }

  /** `decrypt(ciphertext, password)`: split off the IV, decrypt the rest, unframe. `None` where the
      source raises: an IV shorter than 16 bytes, or a failed decryption. */
  function Decrypt(ciphertext: seq<byte>, password: seq<byte>, hash: seq<byte> -> seq<byte>,
                   cipher: Cipher, order: ByteOrder): (r: Option<seq<byte>>)
    ensures |ciphertext| < BLOCK ==> r == None
  {
    if |ciphertext| < BLOCK then None
    else
      match cipher.decrypt(hash(password), ciphertext[..BLOCK], ciphertext[BLOCK..])
      case None => None
      case Some(plain) => Some(Unframe(plain, order))
  }

  /** Unframing a framed plaintext gives it back, including when no padding was added. */
  lemma UnframeFrame(p: seq<byte>, order: ByteOrder)
    ensures Unframe(Frame(p, order), order) == p
  {
    var f := Frame(p, order);
    var n := (BLOCK - |p| % BLOCK) % BLOCK;
    var rest := f[BLOCK..];
    assert |rest| == |p| + n;
    assert rest[..|p|] == p;
  }

  /** Round trip: when the cipher's decryption inverts its encryption, decrypting with the same
      password what `encrypt` produced gives back the plaintext, whatever the IV. */
  lemma EncryptRoundTrip(plaintext: seq<byte>, password: seq<byte>, hash: seq<byte> -> seq<byte>,
                         cipher: Cipher, iv: seq<byte>, order: ByteOrder)
    requires Inverts(cipher) && |iv| == BLOCK
    ensures Decrypt(Encrypt(plaintext, password, hash, cipher, iv, order), password, hash, cipher, order)
         == Some(plaintext)
  {
    var f := Frame(plaintext, order);
    var ct := cipher.encrypt(hash(password), iv, f);
    var c := Encrypt(plaintext, password, hash, cipher, iv, order);
    assert c == iv + ct;
    assert c[..BLOCK] == iv && c[BLOCK..] == ct;
    assert cipher.decrypt(hash(password), iv, ct) == Some(f);
    UnframeFrame(plaintext, order);
  }
}
