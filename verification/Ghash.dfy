/** Multiplication in GF(2^128) as AES-GCM uses it (section 6.3 of NIST SP 800-38D):
    the bit-by-bit algorithm of core/crypto/aes-gcm.c and the algebra behind it.

    Machine words are bit strings with the most significant bit first, so the two
    64-bit words of an element, one after the other, list the coefficients of
    P^0, P^1, ..., P^127. */
module Ghash {

  type Bits = seq<bool>

  // ---- Words ----

  function Xor(a: Bits, b: Bits): (r: Bits)
    requires |a| == |b|
    ensures |r| == |a|
  {
    seq(|a|, i requires 0 <= i < |a| => a[i] != b[i])
  }

  function Or(a: Bits, b: Bits): (r: Bits)
    requires |a| == |b|
    ensures |r| == |a|
  {
    seq(|a|, i requires 0 <= i < |a| => a[i] || b[i])
  }

  function Shr(a: Bits, k: nat): (r: Bits)
    ensures |r| == |a|
  {
    seq(|a|, i requires 0 <= i < |a| => k <= i && a[i - k])
  }

  function Shl(a: Bits, k: nat): (r: Bits)
    ensures |r| == |a|
  {
    seq(|a|, i requires 0 <= i < |a| => i + k < |a| && a[i + k])
  }

  function Zeros(n: nat): (r: Bits)
    ensures |r| == n
  {
    seq(n, i => false)
  }

  // ---- Field elements ----

  type Elem = v: Bits | |v| == 128 witness seq(128, i => false)

  const ZERO: Elem := Zeros(128)
  const ONE: Elem := [true] + Zeros(127)

  /** Coefficients of P^128 reduced: 1 + P + P^2 + P^7, the word 0xe1 << 56. */
  predicate Reduction(i: int) {
    i == 0 || i == 1 || i == 2 || i == 7
  }

  /** Multiplication by P. */
  function MulP(v: Elem): (r: Elem)
  {
    seq(128, i requires 0 <= i < 128 => (0 < i && v[i - 1]) != (v[127] && Reduction(i)))
  }

  function Scale(b: bool, v: Elem): Elem {
    if b then v else ZERO
  }

  /** The sum of bits[n] * P^n * v. */
  function Dot(bits: Bits, v: Elem): Elem
    decreases |bits|
  {
    if bits == [] then ZERO else Xor(Scale(bits[0], v), Dot(bits[1..], MulP(v)))
  }

  // ---- Algebra ----

  lemma XorAssoc(a: Elem, b: Elem, c: Elem)
    ensures Xor(Xor(a, b), c) == Xor(a, Xor(b, c))
  {
  }

  lemma XorZero(a: Elem)
    ensures Xor(a, ZERO) == a == Xor(ZERO, a)
  {
  }

  lemma MulPLinear(a: Elem, b: Elem)
    ensures MulP(Xor(a, b)) == Xor(MulP(a), MulP(b))
  {
  }

  lemma MulPZero()
    ensures MulP(ZERO) == ZERO
  {
  }

  /** Exchanging the two middle terms of a sum. */
  lemma XorExchange(a: Elem, b: Elem, c: Elem, d: Elem)
    ensures Xor(Xor(a, b), Xor(c, d)) == Xor(Xor(a, c), Xor(b, d))
  {
  }

  lemma ScaleLinear(s: bool, a: Elem, b: Elem)
    ensures Scale(s, Xor(a, b)) == Xor(Scale(s, a), Scale(s, b))
    ensures MulP(Scale(s, a)) == Scale(s, MulP(a))
  {
    XorZero(ZERO);
    MulPZero();
  }

  lemma {:induction false} DotLinear(bits: Bits, a: Elem, b: Elem)
    ensures Dot(bits, Xor(a, b)) == Xor(Dot(bits, a), Dot(bits, b))
    decreases |bits|
  {
    if bits == [] {
      XorZero(ZERO);
    } else {
      MulPLinear(a, b);
      ScaleLinear(bits[0], a, b);
      DotLinear(bits[1..], MulP(a), MulP(b));
      XorExchange(Scale(bits[0], a), Scale(bits[0], b), Dot(bits[1..], MulP(a)), Dot(bits[1..], MulP(b)));
    }
  }

  lemma {:induction false} DotMulP(bits: Bits, v: Elem)
    ensures Dot(bits, MulP(v)) == MulP(Dot(bits, v))
    decreases |bits|
  {
    if bits == [] {
      MulPZero();
    } else {
      DotMulP(bits[1..], MulP(v));
      ScaleLinear(bits[0], v, v);
      MulPLinear(Scale(bits[0], v), Dot(bits[1..], MulP(v)));
    }
  }

  lemma {:induction false} DotZero(bits: Bits)
    ensures Dot(bits, ZERO) == ZERO
    decreases |bits|
  {
    if bits == [] {
    } else {
      MulPZero();
      DotZero(bits[1..]);
      XorZero(ZERO);
    }
  }

  lemma {:induction false} DotExchange(a: Bits, b: Bits, v: Elem)
    ensures Dot(a, Dot(b, v)) == Dot(b, Dot(a, v))
    decreases |b|
  {
    DotZero(a);
    if b == [] {
    } else {
      DotLinear(a, Scale(b[0], v), Dot(b[1..], MulP(v)));
      DotExchange(a, b[1..], MulP(v));
      DotMulP(a, v);
    }
  }

  lemma {:induction false} DotOnePrefix(bits: Bits)
    requires |bits| <= 128
    ensures Dot(bits, ONE) == bits + Zeros(128 - |bits|)
    decreases |bits|
  {
    if bits == [] {
      assert ZERO == bits + Zeros(128);
    } else {
      var rest := bits[1..];
      DotOnePrefix(rest);
      DotMulP(rest, ONE);
      var r := bits + Zeros(128 - |bits|);
      var m := MulP(rest + Zeros(128 - |rest|));
      forall i | 0 <= i < 128 ensures Xor(Scale(bits[0], ONE), m)[i] == r[i] {
      }
      assert Dot(bits, ONE) == r;
    }
  }

  lemma DotOne(x: Elem)
    ensures Dot(x, ONE) == x
  {
    DotOnePrefix(x);
    assert x + Zeros(0) == x;
  }

  /** The product is the same with its arguments in either order. */
  lemma ProductCommutes(x: Elem, y: Elem)
    ensures Dot(x, y) == Dot(y, x)
  {
    DotOne(x);
    DotOne(y);
    DotExchange(x, y, ONE);
  }
}
