/** AES-GCM as functions of whole messages (sections 7.1 and 7.2 of NIST SP 800-38D), for
    any block function and any hash multiplication. */
module GcmSpec {
  import opened ByteStrings

  /** unsigned int counters of the context. */
  const UINT_RANGE: nat := 0x1_0000_0000

  /** The counter block: two 64-bit big-endian words. */
  datatype Counter = Counter(c0: nat, c1: nat)

  /** The primitives the mode is built from: the block cipher on a counter block, the
      multiplication by the hash key, and the step of the counter. */
  datatype Cipher = Cipher(enc: Counter -> Block, mulH: Block -> Block, inc: Counter -> Counter)

  /** A byte count that has wrapped to zero is a whole number of blocks. */
  lemma {:induction false} WrappedToZero(n: nat)
    requires Wrap(n, UINT_RANGE) == 0
    ensures n % 16 == 0
    decreases n
  {
    if n >= UINT_RANGE {
      WrappedToZero(n - UINT_RANGE);
    }
  }

  lemma NoPartialBlock(n: nat, k: nat, pos: nat)
    requires Wrap(n, UINT_RANGE) == 0 && n == 16 * k + pos && pos < 16
    ensures pos == 0
  {
    WrappedToZero(n);
  }

  // ---- Hash ----

  /** GHASH over whole blocks, continuing from y. */
  function Hash(mulH: Block -> Block, y: Block, d: Bytes): Block
    requires |d| % 16 == 0
    decreases |d|
  {
    if d == [] then y else Hash(mulH, mulH(XorBytes(y, d[..16])), d[16..])
  }

  lemma {:induction false} HashConcat(mulH: Block -> Block, y: Block, a: Bytes, b: Bytes)
    requires |a| % 16 == 0 && |b| % 16 == 0
    ensures Hash(mulH, y, a + b) == Hash(mulH, Hash(mulH, y, a), b)
    decreases |a|
  {
    if a == [] {
      assert a + b == b;
    } else {
      assert (a + b)[..16] == a[..16] && (a + b)[16..] == a[16..] + b;
      HashConcat(mulH, mulH(XorBytes(y, a[..16])), a[16..], b);
    }
  }

  lemma HashOne(mulH: Block -> Block, y: Block, b: Block)
    ensures Hash(mulH, y, b) == mulH(XorBytes(y, b))
  {
    assert b[..16] == b && b[16..] == [];
  }

  lemma HashBlock(mulH: Block -> Block, y: Block, a: Bytes, b: Block)
    requires |a| % 16 == 0
    ensures Hash(mulH, y, a + b) == mulH(XorBytes(Hash(mulH, y, a), b))
  {
    HashConcat(mulH, y, a, b);
    HashOne(mulH, Hash(mulH, y, a), b);
  }

  /** Zero-padded to whole blocks. */
  function Pad(d: Bytes): (r: Bytes)
    ensures |r| % 16 == 0
  {
    if |d| % 16 == 0 then d else d + ZeroBytes(16 - |d| % 16)
  }

  /** Whole blocks one behind the other. */
  function Behind(a: Bytes, b: Bytes): (r: Bytes)
    requires |a| % 16 == 0 && |b| % 16 == 0
    ensures |r| % 16 == 0 && r == a + b
  {
    a + b
  }

  // ---- Hashing byte by byte ----

  /** Hash of the whole blocks seen so far, and the bytes of the block not yet complete. */
  datatype Running = Running(hash: Block, rest: Bytes)

  function Push(mulH: Block -> Block, s: Running, b: Byte): Running {
    if |s.rest| == 15 then Running(mulH(XorBytes(s.hash, s.rest + [b])), [])
    else s.(rest := s.rest + [b])
  }

  function Feed(mulH: Block -> Block, s: Running, d: Bytes): Running
    decreases |d|
  {
    if d == [] then s else Feed(mulH, Push(mulH, s, d[0]), d[1..])
  }

  lemma {:induction false} FeedConcat(mulH: Block -> Block, s: Running, a: Bytes, b: Bytes)
    ensures Feed(mulH, s, a + b) == Feed(mulH, Feed(mulH, s, a), b)
    decreases |a|
  {
    if a == [] {
      assert a + b == b;
    } else {
      assert (a + b)[1..] == a[1..] + b;
      FeedConcat(mulH, Push(mulH, s, a[0]), a[1..], b);
    }
  }

  /** Bytes that do not complete the block only extend it. */
  lemma {:induction false} FeedFill(mulH: Block -> Block, s: Running, x: Bytes)
    requires |s.rest| + |x| < 16
    ensures Feed(mulH, s, x) == s.(rest := s.rest + x)
    decreases |x|
  {
    if x == [] {
      assert s.rest + x == s.rest;
    } else {
      FeedFill(mulH, Push(mulH, s, x[0]), x[1..]);
      assert s.rest + [x[0]] + x[1..] == s.rest + x;
    }
  }

  /** Bytes that complete it are hashed with it. */
  lemma FeedComplete(mulH: Block -> Block, s: Running, x: Bytes, b: Block)
    requires |s.rest| + |x| == 16 && x != [] && b == s.rest + x
    ensures Feed(mulH, s, x) == Running(mulH(XorBytes(s.hash, b)), [])
  {
    var init, last := x[..|x| - 1], x[|x| - 1];
    assert x == init + [last];
    FeedConcat(mulH, s, init, [last]);
    FeedFill(mulH, s, init);
    assert s.rest + init + [last] == b;
    assert [last][1..] == [];
  }

  lemma {:induction false} FeedBlocks(mulH: Block -> Block, y: Block, x: Bytes)
    requires |x| % 16 == 0
    ensures Feed(mulH, Running(y, []), x) == Running(Hash(mulH, y, x), [])
    decreases |x|
  {
    if x != [] {
      assert x == x[..16] + x[16..];
      FeedConcat(mulH, Running(y, []), x[..16], x[16..]);
      FeedComplete(mulH, Running(y, []), x[..16], x[..16]);
      FeedBlocks(mulH, mulH(XorBytes(y, x[..16])), x[16..]);
    }
  }

  lemma {:induction false} FeedRest(mulH: Block -> Block, s: Running, d: Bytes)
    requires |s.rest| < 16
    ensures |Feed(mulH, s, d).rest| == (|s.rest| + |d|) % 16
    decreases |d|
  {
    if d != [] {
      FeedRest(mulH, Push(mulH, s, d[0]), d[1..]);
    }
  }

  /** Closing the stream: what is left is padded with zeros and hashed. */
  lemma HashFinish(mulH: Block -> Block, y: Block, d: Bytes, s: Running)
    requires s == Feed(mulH, Running(y, []), d)
    ensures |s.rest| == |d| % 16
    ensures s.rest == [] ==> Hash(mulH, y, Pad(d)) == s.hash
    ensures s.rest != [] ==> Hash(mulH, y, Pad(d)) == mulH(XorBytes(s.hash, s.rest + ZeroBytes(16 - |s.rest|)))
  {
    FeedRest(mulH, Running(y, []), d);
    if s.rest == [] {
      FeedBlocks(mulH, y, d);
    } else {
      HashPadded(mulH, y, d, s, ZeroBytes(16 - |s.rest|));
    }
  }

  lemma HashPadded(mulH: Block -> Block, y: Block, d: Bytes, s: Running, z: Bytes)
    requires s == Feed(mulH, Running(y, []), d) && z != [] && |s.rest| + |z| == 16 && Pad(d) == d + z
    ensures Hash(mulH, y, Pad(d)) == mulH(XorBytes(s.hash, s.rest + z))
  {
    FeedBlocks(mulH, y, Pad(d));
    FeedConcat(mulH, Running(y, []), d, z);
    FeedComplete(mulH, s, z, s.rest + z);
  }

  /** The block of the two bit lengths; the products are 32-bit ones. */
  function LenBlock(aadBytes: nat, payloadBytes: nat): Block {
    BigEndian(Wrap(aadBytes * 8, UINT_RANGE), WORD_BYTES) + BigEndian(Wrap(payloadBytes * 8, UINT_RANGE), WORD_BYTES)
  }

  /** Its two halves are the bit lengths of associated data and payload, in this order, modulo 2^32. */
  lemma LenBlockIs(aadBytes: nat, payloadBytes: nat)
    ensures BytesValue(LenBlock(aadBytes, payloadBytes)[..8]) == (8 * aadBytes) % UINT_RANGE
    ensures BytesValue(LenBlock(aadBytes, payloadBytes)[8..]) == (8 * payloadBytes) % UINT_RANGE
  {
    var a, p := Wrap(aadBytes * 8, UINT_RANGE), Wrap(payloadBytes * 8, UINT_RANGE);
    var b := LenBlock(aadBytes, payloadBytes);
    assert b[..8] == BigEndian(a, WORD_BYTES) && b[8..] == BigEndian(p, WORD_BYTES);
    Pow256Of8();
    BigEndianValue(a, WORD_BYTES);
    BigEndianValue(p, WORD_BYTES);
    WrapIs(aadBytes * 8);
    WrapIs(payloadBytes * 8);
  }

  lemma {:induction false} WrapIs(n: nat)
    ensures Wrap(n, UINT_RANGE) == n % UINT_RANGE
    decreases n
  {
    if n >= UINT_RANGE {
      WrapIs(n - UINT_RANGE);
    }
  }

  /** Padding adds zeros up to the next whole block. */
  lemma PadIs(d: Bytes)
    ensures |d| <= |Pad(d)| < |d| + 16 && Pad(d)[..|d|] == d && forall i :: |d| <= i < |Pad(d)| ==> Pad(d)[i] == 0
  {
  }

  // ---- The mode ----

  /** internal_aes_gcm_inc_ctr: the low word carries into the high one. */
  function Inc(c: Counter): Counter {
    var low := Wrap(c.c1 + 1, WORD_RANGE);
    if low == 0 then Counter(Wrap(c.c0 + 1, WORD_RANGE), low) else c.(c1 := low)
  }

  /** The counter after n steps. */
  function After(inc: Counter -> Counter, j: Counter, n: nat): Counter {
    if n == 0 then j else inc(After(inc, j, n - 1))
  }

  function CounterValue(c: Counter): nat {
    c.c0 * WORD_RANGE + c.c1
  }

  /** With the code's increment, n steps add n modulo 2^128. */
  lemma {:induction false} AfterValue(j: Counter, n: nat)
    requires j.c0 < WORD_RANGE && j.c1 < WORD_RANGE
    ensures var r := After(Inc, j, n);
            && r.c0 < WORD_RANGE && r.c1 < WORD_RANGE
            && CounterValue(r) == Wrap(CounterValue(j) + n, WORD_RANGE * WORD_RANGE)
  {
    if n > 0 {
      AfterValue(j, n - 1);
      WrapAdd(CounterValue(j) + n - 1, 1, WORD_RANGE * WORD_RANGE);
    }
  }

  /** The two words read from a 16-byte block. */
  function BlockCounter(b: Block): (r: Counter)
    ensures r.c0 < WORD_RANGE && r.c1 < WORD_RANGE
  {
    Pow256Of8();
    Counter(BytesValue(b[..8]), BytesValue(b[8..]))
  }

  /** The counter J0 made from the nonce. */
  function InitialCounter(c: Cipher, nonce: Bytes): (r: Counter) {
    if |nonce| == 12 then c.inc(BlockCounter(nonce + ZeroBytes(4)))
    else BlockCounter(Hash(c.mulH, Hash(c.mulH, ZERO_BLOCK, Pad(nonce)), LenBlock(0, Wrap(|nonce|, UINT_RANGE))))
  }

  lemma BlockCounterValue(b: Block)
    ensures CounterValue(BlockCounter(b)) == BytesValue(b)
  {
    assert b[..8] + b[8..] == b;
    ValueConcat(b[..8], b[8..]);
    Pow256Of8();
  }

  const HALF_BYTES: nat := 4

  /** A nonce of 96 bits is followed by the number 1 in 32 bits. */
  lemma ShortNonceCounter(c: Cipher, nonce: Bytes)
    requires |nonce| == 12 && forall j :: c.inc(j) == Inc(j)
    ensures CounterValue(InitialCounter(c, nonce)) == BytesValue(nonce) * UINT_RANGE + 1
  {
    var b := nonce + ZeroBytes(HALF_BYTES);
    BlockCounterValue(b);
    ValueConcat(nonce, ZeroBytes(HALF_BYTES));
    ZeroValue(HALF_BYTES);
    assert Pow256(4) == UINT_RANGE;
    var low := nonce[8..];
    assert b[8..] == low + ZeroBytes(HALF_BYTES);
    ValueConcat(low, ZeroBytes(HALF_BYTES));
  }

  /** Any other nonce is hashed with its bit length behind it. */
  lemma LongNonceCounter(c: Cipher, nonce: Bytes)
    requires |nonce| != 12
    ensures CounterValue(InitialCounter(c, nonce))
         == BytesValue(Hash(c.mulH, ZERO_BLOCK, Behind(Pad(nonce), LenBlock(0, Wrap(|nonce|, UINT_RANGE)))))
  {
    var l := LenBlock(0, Wrap(|nonce|, UINT_RANGE));
    HashConcat(c.mulH, ZERO_BLOCK, Pad(nonce), l);
    BlockCounterValue(Hash(c.mulH, ZERO_BLOCK, Behind(Pad(nonce), l)));
  }

  /** The key stream byte for payload position i: blocks J0 + 1, J0 + 2, ... */
  function Stream(c: Cipher, j0: Counter, i: nat): Byte
    decreases i
  {
    var j := c.inc(j0);
    if i < 16 then c.enc(j)[i] else Stream(c, j, i - 16)
  }

  lemma {:induction false} AfterShift(inc: Counter -> Counter, j: Counter, n: nat)
    ensures After(inc, inc(j), n) == After(inc, j, n + 1)
  {
    if n > 0 {
      AfterShift(inc, j, n - 1);
    }
  }

  lemma {:induction false} StreamIs(c: Cipher, j0: Counter, b: nat, r: nat)
    requires r < 16
    ensures Stream(c, j0, 16 * b + r) == c.enc(After(c.inc, j0, 1 + b))[r]
    decreases b
  {
    if b == 0 {
      assert After(c.inc, j0, 1) == c.inc(After(c.inc, j0, 0));
    } else {
      StreamIs(c, c.inc(j0), b - 1, r);
      AfterShift(c.inc, j0, b);
    }
  }

  /** Text at payload offset off combined with the key stream. */
  function Crypt(c: Cipher, j0: Counter, text: Bytes, off: nat): (r: Bytes)
    ensures |r| == |text|
    decreases |text|
  {
    if text == [] then [] else [XorByte(Stream(c, j0, off), text[0])] + Crypt(c, j0, text[1..], off + 1)
  }

  lemma {:induction false} CryptConcat(c: Cipher, j0: Counter, a: Bytes, b: Bytes, off: nat)
    ensures Crypt(c, j0, a + b, off) == Crypt(c, j0, a, off) + Crypt(c, j0, b, off + |a|)
    decreases |a|
  {
    if a == [] {
      assert a + b == b;
    } else {
      assert (a + b)[1..] == a[1..] + b;
      CryptConcat(c, j0, a[1..], b, off + 1);
    }
  }

  /** Going on with the next n bytes of a text. */
  lemma CryptOn(c: Cipher, j0: Counter, text: Bytes, d: nat, n: nat, off: nat)
    requires d + n <= |text|
    ensures Crypt(c, j0, text[..d], off) + Crypt(c, j0, text[d..d + n], off + d) == Crypt(c, j0, text[..d + n], off)
  {
    CryptConcat(c, j0, text[..d], text[d..d + n], off);
    assert text[..d] + text[d..d + n] == text[..d + n];
  }

  /** Within one block, the stream is a slice of one encrypted counter. */
  lemma {:induction false} CryptInBlock(c: Cipher, j0: Counter, b: nat, r: nat, x: Bytes, e: Block, off: nat)
    requires r + |x| <= 16 && e == c.enc(After(c.inc, j0, 1 + b)) && off == 16 * b + r
    ensures Crypt(c, j0, x, off) == XorBytes(e[r..r + |x|], x)
    decreases |x|
  {
    if x != [] {
      CryptInBlock(c, j0, b, r + 1, x[1..], e, off + 1);
      assert e[r..r + |x|][1..] == e[r + 1..r + 1 + |x[1..]|];
      StreamIs(c, j0, b, r);
    }
  }

  /** Decryption is encryption again. */
  lemma {:induction false} CryptInvolution(c: Cipher, j0: Counter, text: Bytes, off: nat)
    ensures Crypt(c, j0, Crypt(c, j0, text, off), off) == text
    decreases |text|
  {
    if text != [] {
      XorByteCancels(Stream(c, j0, off), text[0]);
      CryptInvolution(c, j0, text[1..], off + 1);
      assert Crypt(c, j0, text, off)[1..] == Crypt(c, j0, text[1..], off + 1);
    }
  }

  /** The tag over associated data, counted with length aadLen, and ciphertext. */
  function CountedTag(c: Cipher, j0: Counter, aad: Bytes, aadLen: nat, ct: Bytes, tagLen: nat): (r: Bytes)
    requires tagLen <= 16
    ensures |r| == tagLen
  {
    var y := Hash(c.mulH, Hash(c.mulH, Hash(c.mulH, ZERO_BLOCK, Pad(aad)), Pad(ct)),
                  LenBlock(Wrap(aadLen, UINT_RANGE), Wrap(|ct|, UINT_RANGE)));
    XorBytes(c.enc(j0), y)[..tagLen]
  }

  /** The tag of a message. */
  function Tag(c: Cipher, j0: Counter, aad: Bytes, ct: Bytes, tagLen: nat): (r: Bytes)
    requires tagLen <= 16
    ensures |r| == tagLen
  {
    CountedTag(c, j0, aad, |aad|, ct, tagLen)
  }

  /** It is the encrypted first counter over the hash of one string: both parts padded, then their
      bit lengths. */
  lemma TagIs(c: Cipher, j0: Counter, aad: Bytes, ct: Bytes, tagLen: nat, l: Block)
    requires tagLen <= 16 && l == LenBlock(Wrap(|aad|, UINT_RANGE), Wrap(|ct|, UINT_RANGE))
    ensures Tag(c, j0, aad, ct, tagLen)
         == XorBytes(c.enc(j0), Hash(c.mulH, ZERO_BLOCK, Behind(Behind(Pad(aad), Pad(ct)), l)))[..tagLen]
    ensures BytesValue(l[..8]) == (8 * |aad|) % UINT_RANGE && BytesValue(l[8..]) == (8 * |ct|) % UINT_RANGE
  {
    HashConcat(c.mulH, ZERO_BLOCK, Behind(Pad(aad), Pad(ct)), l);
    HashConcat(c.mulH, ZERO_BLOCK, Pad(aad), Pad(ct));
    LenBlockIs(Wrap(|aad|, UINT_RANGE), Wrap(|ct|, UINT_RANGE));
    BitsOfWrapped(|aad|);
    BitsOfWrapped(|ct|);
  }

  lemma BitsOfWrapped(n: nat)
    ensures (8 * Wrap(n, UINT_RANGE)) % UINT_RANGE == (8 * n) % UINT_RANGE
  {
    WrapIs(n);
    var q, r := n / UINT_RANGE, n % UINT_RANGE;
    assert 8 * n == 8 * q * UINT_RANGE + 8 * r;
  }

  /** Byte i of the payload is combined with byte i modulo 16 of the counter block number i / 16 + 1. */
  lemma {:induction false} CryptAt(c: Cipher, j0: Counter, text: Bytes, off: nat, i: nat)
    requires i < |text|
    ensures Crypt(c, j0, text, off)[i] == XorByte(c.enc(After(c.inc, j0, 1 + (off + i) / 16))[(off + i) % 16], text[i])
    decreases i
  {
    if i == 0 {
      StreamIs(c, j0, off / 16, off % 16);
    } else {
      CryptAt(c, j0, text[1..], off + 1, i - 1);
    }
  }
}
