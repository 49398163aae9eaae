/** Cipher block chaining (section 6.2 of NIST SP 800-38A) over any block cipher. */
module BlockModes {
  import opened ByteStrings

  /** A block cipher under some key: encryption and decryption of a block in the chain, after
      the chaining value, and decryption of a block by itself. */
  datatype Perm = Perm(enc: (Block, Block) -> Block, dec: (Block, Block) -> Block, ecb: Block -> Block)

  /** k chains the permutation e with inverse d. */
  ghost predicate Chains(k: Perm, e: Block -> Block, d: Block -> Block) {
    && (forall b: Block :: d(e(b)) == b)
    && (forall iv: Block, b: Block :: k.enc(iv, b) == e(XorBytes(b, iv)))
    && (forall iv: Block, b: Block :: k.dec(iv, b) == XorBytes(d(b), iv))
    && (forall b: Block :: k.ecb(b) == d(b))
  }

  /** What the modes need of it. */
  ghost predicate Inverse(k: Perm) {
    forall iv: Block, b: Block :: k.dec(iv, k.enc(iv, b)) == b
  }

  ghost predicate Unchained(k: Perm) {
    forall iv: Block, b: Block :: k.ecb(k.enc(iv, b)) == XorBytes(b, iv)
  }

  lemma {:induction false} XorTwice(a: Bytes, b: Bytes)
    requires |a| == |b|
    ensures XorBytes(XorBytes(a, b), b) == a
  {
    if a != [] {
      XorTwice(a[1..], b[1..]);
      XorByteBack(a[0], b[0]);
      assert XorBytes(a, b)[1..] == XorBytes(a[1..], b[1..]);
      assert a == [a[0]] + a[1..];
    }
  }

  lemma XorByteBack(a: Byte, b: Byte)
    ensures XorByte(XorByte(a, b), b) == a
  {
  }

  lemma ChainsInverse(k: Perm, e: Block -> Block, d: Block -> Block)
    requires Chains(k, e, d)
    ensures Inverse(k) && Unchained(k)
  {
    forall iv: Block, b: Block ensures k.dec(iv, k.enc(iv, b)) == b {
      XorTwice(b, iv);
    }
  }

  // ---- Blocks of a buffer ----

  /** Block i of a buffer. */
  function BlockAt(d: Bytes, i: nat): Block
    requires 16 * i + 16 <= |d|
  {
    d[16 * i..16 * i + 16]
  }

  /** The chaining value after n blocks of plaintext d. */
  function Chain(k: Perm, iv: Block, d: Bytes, n: nat): Block
    requires 16 * n <= |d|
  {
    if n == 0 then iv else k.enc(Chain(k, iv, d, n - 1), BlockAt(d, n - 1))
  }

  /** The ciphertext of the first n blocks of d. */
  function CbcEnc(k: Perm, iv: Block, d: Bytes, n: nat): (r: Bytes)
    requires 16 * n <= |d|
    ensures |r| == 16 * n
  {
    if n == 0 then [] else CbcEnc(k, iv, d, n - 1) + Chain(k, iv, d, n)
  }

  /** The chaining value after n blocks of ciphertext c. */
  function Previous(iv: Block, c: Bytes, n: nat): Block
    requires 16 * n <= |c|
  {
    if n == 0 then iv else BlockAt(c, n - 1)
  }

  /** The plaintext of the first n blocks of c. */
  function CbcDec(k: Perm, iv: Block, c: Bytes, n: nat): (r: Bytes)
    requires 16 * n <= |c|
    ensures |r| == 16 * n
  {
    if n == 0 then [] else CbcDec(k, iv, c, n - 1) + k.dec(Previous(iv, c, n - 1), BlockAt(c, n - 1))
  }

  /** Block i of the ciphertext. */
  lemma {:induction false} CipherBlock(k: Perm, iv: Block, d: Bytes, n: nat, i: nat)
    requires i < n && 16 * n <= |d|
    ensures BlockAt(CbcEnc(k, iv, d, n), i) == Chain(k, iv, d, i + 1)
    decreases n
  {
    if i < n - 1 {
      CipherBlock(k, iv, d, n - 1, i);
    }
  }

  lemma CipherPrevious(k: Perm, iv: Block, d: Bytes, n: nat, i: nat)
    requires i <= n && 16 * n <= |d|
    ensures Previous(iv, CbcEnc(k, iv, d, n), i) == Chain(k, iv, d, i)
  {
    if i > 0 {
      CipherBlock(k, iv, d, n, i - 1);
    }
  }

  /** c begins with the ciphertext of n blocks of d. */
  ghost predicate Agrees(k: Perm, iv: Block, d: Bytes, c: Bytes, n: nat) {
    16 * n <= |d| && 16 * n <= |c| && forall i :: 0 <= i < n ==> BlockAt(c, i) == Chain(k, iv, d, i + 1)
  }

  /** Decryption inverts encryption block by block. */
  lemma {:induction false} DecAgrees(k: Perm, iv: Block, d: Bytes, c: Bytes, n: nat)
    requires Inverse(k) && Agrees(k, iv, d, c, n)
    ensures CbcDec(k, iv, c, n) == d[..16 * n]
    decreases n
  {
    if n > 0 {
      DecAgrees(k, iv, d, c, n - 1);
      assert Previous(iv, c, n - 1) == Chain(k, iv, d, n - 1);
      assert BlockAt(c, n - 1) == Chain(k, iv, d, n);
      assert d[..16 * n] == d[..16 * (n - 1)] + BlockAt(d, n - 1);
    }
  }

  lemma CbcRoundTrip(k: Perm, iv: Block, d: Bytes, n: nat)
    requires Inverse(k) && |d| == 16 * n
    ensures CbcDec(k, iv, CbcEnc(k, iv, d, n), n) == d
  {
    var c := CbcEnc(k, iv, d, n);
    forall i | 0 <= i < n ensures BlockAt(c, i) == Chain(k, iv, d, i + 1) {
      CipherBlock(k, iv, d, n, i);
    }
    DecAgrees(k, iv, d, c, n);
  }

  // ---- Going on with more blocks ----

  lemma BlockOfJoin(a: Bytes, b: Bytes, n: nat, j: nat)
    requires |a| == 16 * n && 16 * j + 16 <= |b|
    ensures BlockAt(a + b, n + j) == BlockAt(b, j)
  {
  }

  lemma {:induction false} ChainPrefix(k: Perm, iv: Block, d: Bytes, e: Bytes, n: nat)
    requires 16 * n <= |d| && 16 * n <= |e| && d[..16 * n] == e[..16 * n]
    ensures Chain(k, iv, d, n) == Chain(k, iv, e, n) && CbcEnc(k, iv, d, n) == CbcEnc(k, iv, e, n)
    decreases n
  {
    if n > 0 {
      assert d[..16 * (n - 1)] == d[..16 * n][..16 * (n - 1)] && e[..16 * (n - 1)] == e[..16 * n][..16 * (n - 1)];
      assert BlockAt(d, n - 1) == d[..16 * n][16 * (n - 1)..] && BlockAt(e, n - 1) == e[..16 * n][16 * (n - 1)..];
      ChainPrefix(k, iv, d, e, n - 1);
    }
  }

  /** Encrypting b after a: one call and two calls. */
  lemma {:induction false} EncJoin(k: Perm, iv: Block, a: Bytes, b: Bytes, n: nat, j: nat)
    requires |a| == 16 * n && 16 * j <= |b|
    ensures var v := Chain(k, iv, a, n);
            && Chain(k, iv, a + b, n + j) == Chain(k, v, b, j)
            && CbcEnc(k, iv, a + b, n + j) == CbcEnc(k, iv, a, n) + CbcEnc(k, v, b, j)
    decreases j
  {
    if j == 0 {
      assert (a + b)[..16 * n] == a[..16 * n];
      ChainPrefix(k, iv, a + b, a, n);
    } else {
      EncJoin(k, iv, a, b, n, j - 1);
      BlockOfJoin(a, b, n, j - 1);
    }
  }

  lemma {:induction false} DecPrefix(k: Perm, iv: Block, c: Bytes, e: Bytes, n: nat)
    requires 16 * n <= |c| && 16 * n <= |e| && c[..16 * n] == e[..16 * n]
    ensures CbcDec(k, iv, c, n) == CbcDec(k, iv, e, n) && Previous(iv, c, n) == Previous(iv, e, n)
    decreases n
  {
    if n > 0 {
      assert c[..16 * (n - 1)] == c[..16 * n][..16 * (n - 1)] && e[..16 * (n - 1)] == e[..16 * n][..16 * (n - 1)];
      assert BlockAt(c, n - 1) == c[..16 * n][16 * (n - 1)..] && BlockAt(e, n - 1) == e[..16 * n][16 * (n - 1)..];
      DecPrefix(k, iv, c, e, n - 1);
    }
  }

  lemma PreviousJoin(iv: Block, a: Bytes, b: Bytes, n: nat, j: nat)
    requires |a| == 16 * n && 16 * j <= |b|
    ensures Previous(iv, a + b, n + j) == Previous(Previous(iv, a, n), b, j)
  {
    if j > 0 {
      BlockOfJoin(a, b, n, j - 1);
    } else if n > 0 {
      assert BlockAt(a + b, n - 1) == BlockAt(a, n - 1);
    }
  }

  lemma {:induction false} DecJoin(k: Perm, iv: Block, a: Bytes, b: Bytes, n: nat, j: nat, v: Block)
    requires |a| == 16 * n && 16 * j <= |b| && v == Previous(iv, a, n)
    ensures CbcDec(k, iv, a + b, n + j) == CbcDec(k, iv, a, n) + CbcDec(k, v, b, j)
    decreases j
  {
    if j == 0 {
      assert (a + b)[..16 * n] == a[..16 * n];
      DecPrefix(k, iv, a + b, a, n);
    } else {
      DecJoin(k, iv, a, b, n, j - 1, v);
      BlockOfJoin(a, b, n, j - 1);
      PreviousJoin(iv, a, b, n, j - 1);
    }
  }
}
