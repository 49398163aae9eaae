/** Ciphertext stealing, core/crypto/aes-cts.c: CBC-CS3 of the Addendum to NIST SP 800-38A,
    over any block permutation. */
module AesCts {
  import opened ByteStrings
  import opened BlockModes

  datatype Mode = Encrypt | Decrypt
  datatype Result = Success | BadParameters | BadState

  // ---- The mode on whole messages ----

  /** Number of blocks of a final piece of n bytes. */
  function Blocks(n: nat): (r: nat)
    ensures n <= 16 * r < n + 16
  {
    (n + 15) / 16
  }

  /** Bytes in the last of them. */
  function LastLen(n: nat): (r: nat)
    ensures n > 0 ==> 0 < r <= 16 && n == 16 * (Blocks(n) - 1) + r
  {
    if n % 16 == 0 then 16 else n % 16
  }

  /** A length above one block: n blocks, of which the last has l bytes. */
  predicate Shape(len: nat, n: nat, l: nat) {
    n >= 2 && 0 < l <= 16 && len == 16 * (n - 1) + l
  }

  lemma ShapeIs(len: nat)
    requires len > 16
    ensures Shape(len, Blocks(len), LastLen(len))
  {
  }

  lemma ShapeOnly(len: nat, n: nat, l: nat)
    requires Shape(len, n, l)
    ensures n == Blocks(len) && l == LastLen(len)
  {
  }

  function Padded(d: Bytes, l: nat): (r: Bytes)
    requires l <= 16
  {
    d + ZeroBytes(16 - l)
  }

  /** The two blocks from m on swapped, and the second cut to l bytes. */
  function Steal(w: Bytes, m: nat, l: nat): (r: Bytes)
    requires |w| == m + 32 && l <= 16
    ensures |r| == m + 16 + l
  {
    w[..m] + w[m + 16..] + w[m..m + l]
  }

  /** Pad with zeros, encrypt in CBC mode, swap the last two blocks, truncate. */
  function CtsEnc(k: Perm, iv: Block, d: Bytes): (r: Bytes)
    requires |d| > 16
    ensures |r| == |d|
  {
    EncShaped(k, iv, d, Blocks(|d|), LastLen(|d|))
  }

  function EncShaped(k: Perm, iv: Block, d: Bytes, n: nat, l: nat): (r: Bytes)
    requires Shape(|d|, n, l)
    ensures |r| == |d|
  {
    Steal(CbcEnc(k, iv, Padded(d, l), n), 16 * n - 32, l)
  }

  /** The stolen ciphertext put right: the missing bytes are those that decrypting the block
      before last by itself gives. */
  function Unsteal(k: Perm, c: Bytes, m: nat, l: nat): (r: Bytes)
    requires |c| == m + 16 + l && l <= 16
    ensures |r| == m + 32
  {
    var x: Block := c[m..m + 16];
    c[..m] + (c[m + 16..] + k.ecb(x)[l..]) + x
  }

  /** The last block completed. */
  function Completed(k: Perm, c: Bytes, n: nat, l: nat): Block
    requires Shape(|c|, n, l)
  {
    c[16 * n - 16..] + k.ecb(BlockAt(c, n - 2))[l..]
  }

  /** Complete the last block, swap the last two, decrypt in CBC mode, truncate. */
  function CtsDec(k: Perm, iv: Block, c: Bytes): (r: Bytes)
    requires |c| > 16
    ensures |r| == |c|
  {
    DecShaped(k, iv, c, Blocks(|c|), LastLen(|c|))
  }

  function DecShaped(k: Perm, iv: Block, c: Bytes, n: nat, l: nat): (r: Bytes)
    requires Shape(|c|, n, l)
    ensures |r| == |c|
  {
    CbcDec(k, iv, Unsteal(k, c, 16 * n - 32, l), n)[..|c|]
  }

  // ---- Round trip ----

  lemma {:induction false} XorZeros(q: Bytes, z: Bytes, e: Bytes)
    requires |q| + |z| == |e| && z == ZeroBytes(|z|)
    ensures XorBytes(q + z, e)[|q|..] == e[|q|..]
    decreases |q| + |z|
  {
    if q != [] {
      assert (q + z)[1..] == q[1..] + z;
      XorZeros(q[1..], z, e[1..]);
      assert XorBytes(q + z, e)[|q|..] == XorBytes(q[1..] + z, e[1..])[|q| - 1..];
      assert e[|q|..] == e[1..][|q| - 1..];
    } else if z != [] {
      assert z[1..] == ZeroBytes(|z| - 1) && q + z == z && q + z[1..] == z[1..];
      XorZeros(q, z[1..], e[1..]);
      XorZero(e[0]);
      assert XorBytes(z, e) == [e[0]] + XorBytes(z[1..], e[1..]);
    }
  }

  /** What was stolen is found again. */
  lemma Unstolen(k: Perm, w: Bytes, m: nat, l: nat)
    requires |w| == m + 32 && l <= 16 && k.ecb(w[m + 16..])[l..] == w[m + l..m + 16]
    ensures Unsteal(k, Steal(w, m, l), m, l) == w
  {
    var c, x := Steal(w, m, l), w[m + 16..];
    assert c[..m] == w[..m] && c[m..m + 16] == x && c[m + 16..] == w[m..m + l];
    assert w == w[..m] + (w[m..m + l] + w[m + l..m + 16]) + x;
  }

  /** Decrypted by itself, the last block shows the end of the chaining value. */
  lemma EcbTail(k: Perm, e: Block, q: Bytes, b: Block)
    requires Unchained(k) && |q| <= 16 && b == q + ZeroBytes(16 - |q|)
    ensures k.ecb(k.enc(e, b))[|q|..] == e[|q|..]
  {
    XorZeros(q, ZeroBytes(16 - |q|), e);
  }

  lemma PaddedLast(d: Bytes, n: nat, l: nat)
    requires Shape(|d|, n, l)
    ensures BlockAt(Padded(d, l), n - 1) == d[16 * n - 16..] + ZeroBytes(16 - l) && |d[16 * n - 16..]| == l
  {
  }

  lemma LastTwo(k: Perm, iv: Block, p: Bytes, n: nat, w: Bytes)
    requires n >= 2 && |p| == 16 * n && w == CbcEnc(k, iv, p, n)
    ensures w[16 * n - 32..16 * n - 16] == Chain(k, iv, p, n - 1)
    ensures w[16 * n - 16..] == k.enc(Chain(k, iv, p, n - 1), BlockAt(p, n - 1))
  {
    CipherBlock(k, iv, p, n, n - 2);
    CipherBlock(k, iv, p, n, n - 1);
  }

  lemma LastBlock(k: Perm, iv: Block, d: Bytes, n: nat, l: nat, w: Bytes)
    requires Unchained(k) && Shape(|d|, n, l) && w == CbcEnc(k, iv, Padded(d, l), n)
    ensures k.ecb(w[16 * n - 16..])[l..] == w[16 * n - 32 + l..16 * n - 16]
  {
    var e, q := Chain(k, iv, Padded(d, l), n - 1), d[16 * n - 16..];
    LastTwo(k, iv, Padded(d, l), n, w);
    PaddedLast(d, n, l);
    EcbTail(k, e, q, BlockAt(Padded(d, l), n - 1));
    TailOf(w, 16 * n - 32, e, l);
  }

  lemma TailOf(w: Bytes, m: nat, e: Block, l: nat)
    requires m + 16 <= |w| && w[m..m + 16] == e && l <= 16
    ensures w[m + l..m + 16] == e[l..]
  {
  }

  /** For every final length above a block, decryption inverts encryption. */
  lemma CtsRoundTrip(k: Perm, iv: Block, d: Bytes)
    requires Inverse(k) && Unchained(k) && |d| > 16
    ensures CtsDec(k, iv, CtsEnc(k, iv, d)) == d
  {
    var n, l := Blocks(|d|), LastLen(|d|);
    ShapeIs(|d|);
    RoundTripShaped(k, iv, d, n, l);
  }

  lemma RoundTripShaped(k: Perm, iv: Block, d: Bytes, n: nat, l: nat)
    requires Inverse(k) && Unchained(k) && Shape(|d|, n, l)
    ensures DecShaped(k, iv, EncShaped(k, iv, d, n, l), n, l) == d
  {
    var w := CbcEnc(k, iv, Padded(d, l), n);
    LastBlock(k, iv, d, n, l, w);
    Unstolen(k, w, 16 * n - 32, l);
    CbcRoundTrip(k, iv, Padded(d, l), n);
    assert Padded(d, l)[..|d|] == d;
  }

  // ---- Pieces ----

  /** The shape of a length is the only one. */
  lemma IsShaped(k: Perm, iv: Block, d: Bytes, n: nat, l: nat)
    requires Shape(|d|, n, l)
    ensures CtsEnc(k, iv, d) == EncShaped(k, iv, d, n, l)
  {
    ShapeOnly(|d|, n, l);
  }

  /** Whole blocks u ahead of a final piece d: the result for u + d in one call is c, what u
      gave, and what d gives from the chaining value v on. */
  lemma CtsJoin(k: Perm, iv: Block, u: Bytes, n: nat, d: Bytes, v: Block, c: Bytes)
    requires |u| == 16 * n && |d| > 16 && v == Chain(k, iv, u, n) && c == CbcEnc(k, iv, u, n)
    ensures CtsEnc(k, iv, u + d) == c + CtsEnc(k, v, d)
  {
    var a, j, l := u + d, Blocks(|d|), LastLen(|d|);
    ShapeIs(|d|);
    LongerShape(|d|, j, l, n);
    var x, y := EncShaped(k, v, d, j, l), EncShaped(k, iv, a, n + j, l);
    assert y == c + x by {
      ShapedJoin(k, iv, u, n, d, j, l, v, c);
    }
    assert CtsEnc(k, iv, a) == y by {
      IsShaped(k, iv, a, n + j, l);
    }
    assert CtsEnc(k, v, d) == x by {
      IsShaped(k, v, d, j, l);
    }
  }

  lemma LongerShape(len: nat, j: nat, l: nat, n: nat)
    requires Shape(len, j, l)
    ensures Shape(16 * n + len, n + j, l)
  {
  }

  lemma ShapedJoin(k: Perm, iv: Block, u: Bytes, n: nat, d: Bytes, j: nat, l: nat, v: Block, c: Bytes)
    requires |u| == 16 * n && Shape(|d|, j, l) && v == Chain(k, iv, u, n) && c == CbcEnc(k, iv, u, n)
    ensures EncShaped(k, iv, u + d, n + j, l) == c + EncShaped(k, v, d, j, l)
  {
    var p := Padded(d, l);
    var w := CbcEnc(k, v, p, j);
    WholeJoin(k, iv, u, n, p, j, v, c, w);
    PaddedJoin(u, d, l);
    Stolen(k, iv, u + d, u + p, n + j, l, c + w);
    Stolen(k, v, d, p, j, l, w);
    StealRest(c, w, 16 * j - 32, l);
  }

  lemma WholeJoin(k: Perm, iv: Block, u: Bytes, n: nat, p: Bytes, j: nat, v: Block, c: Bytes, w: Bytes)
    requires |u| == 16 * n && |p| == 16 * j && v == Chain(k, iv, u, n)
    requires c == CbcEnc(k, iv, u, n) && w == CbcEnc(k, v, p, j)
    ensures CbcEnc(k, iv, u + p, n + j) == c + w
  {
    EncJoin(k, iv, u, p, n, j);
  }

  lemma Stolen(k: Perm, iv: Block, d: Bytes, p: Bytes, n: nat, l: nat, w: Bytes)
    requires Shape(|d|, n, l) && p == Padded(d, l) && w == CbcEnc(k, iv, p, n)
    ensures EncShaped(k, iv, d, n, l) == Steal(w, 16 * n - 32, l)
  {
  }

  lemma PaddedJoin(u: Bytes, d: Bytes, l: nat)
    requires l <= 16
    ensures Padded(u + d, l) == u + Padded(d, l)
  {
  }

  lemma StealRest(a: Bytes, w: Bytes, m: nat, l: nat)
    requires |w| == m + 32 && l <= 16
    ensures Steal(a + w, |a| + m, l) == a + Steal(w, m, l)
  {
  }

  /** Over any permutation: after whole blocks u, encrypted and decrypted in updates, the two
      contexts have the same chaining value, and the final piece comes back. */
  lemma StreamRoundTrip(k: Perm, e: Block -> Block, f: Block -> Block, iv: Block, u: Bytes, n: nat, c: Bytes, d: Bytes)
    requires Chains(k, e, f) && |u| == 16 * n && c == CbcEnc(k, iv, u, n) && |d| > 16
    ensures CbcDec(k, iv, c, n) == u && Previous(iv, c, n) == Chain(k, iv, u, n)
    ensures CtsDec(k, Previous(iv, c, n), CtsEnc(k, Chain(k, iv, u, n), d)) == d
  {
    ChainsInverse(k, e, f);
    CbcRoundTrip(k, iv, u, n);
    CipherPrevious(k, iv, u, n, n);
    CtsRoundTrip(k, Chain(k, iv, u, n), d);
  }

  // ---- The context ----

  /** struct cts_ctx: the CBC context's chaining value; the ECB context has none. */
  class Context {
    const k: Perm
    const mode: Mode
    var iv: Block

    constructor (k: Perm, mode: Mode, iv: Block)
      ensures this.k == k && this.mode == mode && this.iv == iv
    {
      this.k, this.mode, this.iv := k, mode, iv;
    }

    /** tee_do_cipher_update on the CBC context, in encryption. */
    method EncryptBlocks(data: Bytes, n: nat) returns (dst: Bytes)
      requires 16 * n <= |data|
      modifies this
      ensures dst == CbcEnc(k, old(iv), data, n) && iv == Chain(k, old(iv), data, n)
    {
      dst := [];
      var i := 0;
      while i < n
        invariant 0 <= i <= n && dst == CbcEnc(k, old(iv), data, i) && iv == Chain(k, old(iv), data, i)
      {
        iv := k.enc(iv, BlockAt(data, i));
        dst, i := dst + iv, i + 1;
      }
    }

    /** The same in decryption. */
    method DecryptBlocks(data: Bytes, n: nat) returns (dst: Bytes)
      requires 16 * n <= |data|
      modifies this
      ensures dst == CbcDec(k, old(iv), data, n) && iv == Previous(old(iv), data, n)
    {
      dst := [];
      var i := 0;
      while i < n
        invariant 0 <= i <= n && dst == CbcDec(k, old(iv), data, i) && iv == Previous(old(iv), data, i)
      {
        dst := dst + k.dec(iv, BlockAt(data, i));
        iv := BlockAt(data, i);
        i := i + 1;
      }
    }

    /** The last piece in encryption: all blocks but the last in CBC mode, a copy of the last
        of them moved behind its place, the padded last block put there. */
    method EncryptLast(data: Bytes) returns (dst: Bytes)
      requires |data| > 16
      modifies this
      ensures dst == CtsEnc(k, old(iv), data)
    {
      var n, l := Blocks(|data|), LastLen(|data|);
      ShapeIs(|data|);
      var tmp := data[16 * n - 16..] + ZeroBytes(16 - l);
      dst := EncryptBlocks(data, n - 1);
      var stolen := dst[16 * n - 32..16 * n - 32 + l];
      ghost var v := iv;
      var last := EncryptBlocks(tmp, 1);
      EncryptSteps(k, old(iv), data, n, l, dst, v, tmp, last);
      dst := dst[..16 * n - 32] + last + stolen;
    }

    /** The last piece in decryption. */
    method DecryptLast(data: Bytes) returns (dst: Bytes)
      requires |data| > 16
      modifies this
      ensures dst == CtsDec(k, old(iv), data)
    {
      ShapeIs(|data|);
      dst := DecryptShaped(data, Blocks(|data|), LastLen(|data|));
    }

    method DecryptTwo(b: Block, x: Block) returns (p: Block, q: Block)
      modifies this
      ensures p == k.dec(old(iv), b) && q == k.dec(b, x)
    {
      SingleBlock(k, iv, b);
      SingleBlock(k, b, x);
      p := DecryptBlocks(b, 1);
      q := DecryptBlocks(x, 1);
    }

    method DecryptShaped(data: Bytes, n: nat, l: nat) returns (dst: Bytes)
      requires Shape(|data|, n, l)
      modifies this
      ensures dst == DecShaped(k, old(iv), data, n, l)
    {
      var x, tmp := BlockAt(data, n - 2), Completed(k, data, n, l);
      dst := [];
      if n > 2 {
        dst := DecryptBlocks(data, n - 2);
      }
      assert dst == CbcDec(k, old(iv), data, n - 2) && iv == Previous(old(iv), data, n - 2);
      ghost var v := iv;
      var p, q := DecryptTwo(tmp, x);
      DecryptSteps(k, old(iv), data, n, l, dst, v, tmp, x, p, q);
      dst := dst + p + q[..l];
    }

    /** cbc_cts_update. */
    method Update(last: bool, data: Bytes) returns (r: Result, dst: Bytes)
      modifies this
      ensures r == if !last then (if |data| % 16 == 0 then Success else BadParameters)
                   else if |data| > 16 then Success else BadState
      ensures !r.Success? ==> iv == old(iv)
      ensures r.Success? && last ==> dst == if mode.Encrypt? then CtsEnc(k, old(iv), data) else CtsDec(k, old(iv), data)
      ensures r.Success? && !last && mode.Encrypt? ==>
        dst == CbcEnc(k, old(iv), data, |data| / 16) && iv == Chain(k, old(iv), data, |data| / 16)
      ensures r.Success? && !last && mode.Decrypt? ==>
        dst == CbcDec(k, old(iv), data, |data| / 16) && iv == Previous(old(iv), data, |data| / 16)
    {
      r, dst := Success, [];
      if !last {
        if |data| % 16 != 0 {
          return BadParameters, [];
        }
        if mode.Encrypt? {
          dst := EncryptBlocks(data, |data| / 16);
        } else {
          dst := DecryptBlocks(data, |data| / 16);
        }
      } else if Blocks(|data|) < 2 {
        r := BadState;
      } else if mode.Encrypt? {
        dst := EncryptLast(data);
      } else {
        dst := DecryptLast(data);
      }
    }
  }

  lemma SingleBlock(k: Perm, v: Block, b: Block)
    ensures CbcDec(k, v, b, 1) == k.dec(v, b) && CbcEnc(k, v, b, 1) == k.enc(v, b) && Previous(v, b, 1) == b
  {
    assert BlockAt(b, 0) == b;
    assert CbcDec(k, v, b, 1) == CbcDec(k, v, b, 0) + k.dec(Previous(v, b, 0), b);
    assert Chain(k, v, b, 1) == k.enc(Chain(k, v, b, 0), b);
    assert CbcEnc(k, v, b, 1) == CbcEnc(k, v, b, 0) + Chain(k, v, b, 1);
  }

  lemma StolenCopy(c: Bytes, last: Block, m: nat, l: nat)
    requires |c| == m + 16 && l <= 16
    ensures Steal(c + last, m, l) == c[..m] + last + c[m..m + l]
  {
  }

  /** The steps of encryption give the padded, swapped and truncated ciphertext. */
  lemma EncryptSteps(k: Perm, iv: Block, d: Bytes, n: nat, l: nat, c: Bytes, v: Block, tmp: Block, last: Bytes)
    requires Shape(|d|, n, l) && tmp == d[16 * n - 16..] + ZeroBytes(16 - l)
    requires c == CbcEnc(k, iv, d, n - 1) && v == Chain(k, iv, d, n - 1) && last == CbcEnc(k, v, tmp, 1)
    ensures EncShaped(k, iv, d, n, l) == c[..16 * n - 32] + last + c[16 * n - 32..16 * n - 32 + l]
  {
    var p := Padded(d, l);
    PaddedLast(d, n, l);
    SingleBlock(k, v, tmp);
    SameFront(d, p, n, l);
    ChainPrefix(k, iv, p, d, n - 1);
    assert CbcEnc(k, iv, p, n) == c + last;
    StolenCopy(c, last, 16 * n - 32, l);
  }

  lemma SameFront(d: Bytes, p: Bytes, n: nat, l: nat)
    requires Shape(|d|, n, l) && p == Padded(d, l)
    ensures p[..16 * (n - 1)] == d[..16 * (n - 1)]
  {
  }

  /** The steps of decryption give the decryption of the ciphertext put right. */
  lemma DecryptSteps(k: Perm, iv: Block, c: Bytes, n: nat, l: nat, dst: Bytes, v: Block, tmp: Block, x: Block,
                     p: Block, q: Block)
    requires Shape(|c|, n, l)
    requires x == BlockAt(c, n - 2) && tmp == Completed(k, c, n, l)
    requires dst == CbcDec(k, iv, c, n - 2) && v == Previous(iv, c, n - 2) && p == k.dec(v, tmp) && q == k.dec(tmp, x)
    ensures DecShaped(k, iv, c, n, l) == dst + p + q[..l]
  {
    var w := Unsteal(k, c, 16 * n - 32, l);
    UnstolenBlocks(k, c, n, l, w, tmp, x);
    DecPrefix(k, iv, c, w, n - 2);
    assert CbcDec(k, iv, w, n - 1) == dst + p;
    assert CbcDec(k, iv, w, n) == dst + p + q;
    Truncated(dst, p, q, l);
  }

  lemma UnstolenBlocks(k: Perm, c: Bytes, n: nat, l: nat, w: Bytes, tmp: Block, x: Block)
    requires Shape(|c|, n, l) && w == Unsteal(k, c, 16 * n - 32, l)
    requires x == BlockAt(c, n - 2) && tmp == Completed(k, c, n, l)
    ensures w[..16 * (n - 2)] == c[..16 * (n - 2)] && BlockAt(w, n - 2) == tmp && BlockAt(w, n - 1) == x
  {
  }

  lemma Truncated(a: Bytes, p: Block, q: Block, l: nat)
    requires l <= 16
    ensures (a + p + q)[..|a| + 16 + l] == a + p + q[..l]
  {
  }
}
