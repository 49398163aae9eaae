/** Byte strings as the cryptographic models use them. */
module ByteStrings {
  type Byte = bv8
  type Bytes = seq<Byte>

  /** A block of AES and of SM4. */
  type Block = b: Bytes | |b| == 16 witness seq(16, i => 0)

  const WORD_BYTES: nat := 8
  const WORD_RANGE: nat := 0x1_0000_0000_0000_0000

  const ZERO_BLOCK: Block := ZeroBytes(16)

  // ---- Unsigned numbers ----

  /** Unsigned wrap-around. */
  function Wrap(n: nat, range: nat): (r: nat)
    requires range > 0
    ensures r < range
  {
    if n < range then n else Wrap(n - range, range)
  }

  lemma {:induction false} WrapAdd(a: nat, b: nat, range: nat)
    requires range > 0
    ensures Wrap(Wrap(a, range) + b, range) == Wrap(a + b, range)
    decreases a
  {
    if a >= range {
      WrapAdd(a - range, b, range);
    }
  }

  // ---- Exclusive or ----

  function XorByte(a: Byte, b: Byte): Byte {
    a ^ b
  }

  lemma XorByteCancels(a: Byte, b: Byte)
    ensures XorByte(a, XorByte(a, b)) == b
  {
    BitwiseCancel(a, b);
  }

  lemma BitwiseCancel(a: bv8, b: bv8)
    ensures a ^ (a ^ b) == b
  {
  }

  lemma XorZero(a: bv8)
    ensures XorByte(0, a) == a
  {
  }

  function XorBytes(a: Bytes, b: Bytes): (r: Bytes)
    requires |a| == |b|
    ensures |r| == |a|
  {
    if a == [] then [] else [XorByte(a[0], b[0])] + XorBytes(a[1..], b[1..])
  }

  function ZeroBytes(n: nat): (r: Bytes)
    ensures |r| == n
  {
    seq(n, i => 0)
  }

  /** x written over a buffer at position pos. */
  function Splice(b: Bytes, pos: nat, x: Bytes): (r: Bytes)
    requires pos + |x| <= |b|
    ensures |r| == |b|
  {
    b[..pos] + x + b[pos + |x|..]
  }

  /** Reading on from position d of a string that continues a. */
  lemma Continue(a: Bytes, s: Bytes, d: nat, n: nat)
    requires d + n <= |s|
    ensures a + s[..d] + s[d..d + n] == a + s[..d + n]
    ensures d + n == |s| ==> s[..d + n] == s
  {
  }

  // ---- Integers as big-endian bytes ----

  function BigEndian(n: nat, k: nat): (r: Bytes)
    ensures |r| == k
    decreases k
  {
    if k == 0 then [] else BigEndian(n / 256, k - 1) + [(n % 256) as bv8]
  }

  function Pow256(k: nat): (r: nat)
    ensures r > 0
  {
    if k == 0 then 1 else 256 * Pow256(k - 1)
  }

  function BytesValue(d: Bytes): (r: nat)
    ensures r < Pow256(|d|)
  {
    if d == [] then 0 else 256 * BytesValue(d[..|d| - 1]) + d[|d| - 1] as nat
  }

  lemma Pow256Of8()
    ensures Pow256(8) == WORD_RANGE
  {
    assert Pow256(2) == 0x1_0000;
    assert Pow256(4) == 0x1_0000_0000;
    assert Pow256(6) == 0x1_0000_0000_0000;
  }

  lemma NextByte(x: bv8)
    requires x < 255
    ensures (x + 1) as int == x as int + 1
  {
  }

  lemma {:induction false} ByteFor(b: nat) returns (x: bv8)
    requires b < 256
    ensures x as int == b
    decreases b
  {
    if b == 0 {
      x := 0;
    } else {
      var y := ByteFor(b - 1);
      NextByte(y);
      x := y + 1;
    }
  }

  lemma SameByte(x: bv8)
    ensures (x as nat) as bv8 == x
  {
  }

  lemma ByteBack(b: nat)
    requires b < 256
    ensures (b as bv8) as nat == b
  {
    var x := ByteFor(b);
    SameByte(x);
  }

  /** A number that fits is read back from its bytes. */
  lemma {:induction false} BigEndianValue(n: nat, k: nat)
    requires n < Pow256(k)
    ensures BytesValue(BigEndian(n, k)) == n
    decreases k
  {
    if k > 0 {
      var r := BigEndian(n, k);
      assert r[..k - 1] == BigEndian(n / 256, k - 1) && r[k - 1] == (n % 256) as bv8;
      ByteBack(n % 256);
      BigEndianValue(n / 256, k - 1);
    }
  }

  /** The value of two strings one behind the other. */
  lemma {:induction false} ValueConcat(a: Bytes, b: Bytes)
    ensures BytesValue(a + b) == BytesValue(a) * Pow256(|b|) + BytesValue(b)
    decreases |b|
  {
    if b == [] {
      assert a + b == a;
    } else {
      var init, last := b[..|b| - 1], b[|b| - 1];
      assert (a + b)[..|a + b| - 1] == a + init && (a + b)[|a + b| - 1] == last;
      ValueConcat(a, init);
      MulAssoc(BytesValue(a), Pow256(|b| - 1));
    }
  }

  lemma MulAssoc(x: nat, p: nat)
    ensures 256 * (x * p) == x * (256 * p)
  {
  }

  lemma {:induction false} ZeroValue(n: nat)
    ensures BytesValue(ZeroBytes(n)) == 0
  {
    if n > 0 {
      assert ZeroBytes(n)[..n - 1] == ZeroBytes(n - 1);
      ZeroValue(n - 1);
    }
  }
}
