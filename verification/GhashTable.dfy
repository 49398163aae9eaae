/** The two implementations of multiplication by the hash key: bit by bit
    (internal_aes_gcm_gfmul) and Shoup's method with 4-bit tables
    (core/crypto/aes-gcm-ghash-tbl.c).  Both compute the product of module Ghash. */
module GhashTable {
  import opened Ghash

  type Byte = b: Bits | |b| == 8 witness seq(8, i => false)
  type Word = w: Bits | |w| == 64 witness seq(64, i => false)
  type Block = x: seq<Byte> | |x| == 16 witness seq(16, i => Zeros(8))

  /** The bits of a string of bytes: a 16-byte block read as a field element. */
  function Flat(x: seq<Byte>): (r: Bits)
    ensures |r| == 8 * |x|
  {
    if x == [] then [] else x[0] + Flat(x[1..])
  }

  lemma {:induction false} FlatAt(x: seq<Byte>, n: nat)
    requires n < 8 * |x|
    ensures Flat(x)[n] == x[n / 8][n % 8]
  {
    if n >= 8 {
      FlatAt(x[1..], n - 8);
    }
  }

  /** The element held in two words. */
  function Join(hi: Word, lo: Word): (r: Elem) {
    var a: Bits := hi;
    a + lo
  }

  lemma JoinXor(a: Word, b: Word, c: Word, d: Word)
    ensures Xor(Join(a, b), Join(c, d)) == Join(Xor(a, c), Xor(b, d))
  {
  }

  lemma JoinHalves(v: Elem)
    ensures Join(v[..64], v[64..]) == v
  {
  }

  lemma JoinZeros()
    ensures Join(Zeros(64), Zeros(64)) == ZERO
  {
  }

  // ---- Bit by bit ----

  /** 0xe100000000000000 or 0. */
  function ReductionWord(mul: bool): Word {
    [mul, mul, mul, false, false, false, false, mul] + Zeros(56)
  }

  /** One shift of a two-word element is multiplication by P. */
  lemma ShiftWords(hi: Word, lo: Word)
    ensures Join(Xor(Shr(hi, 1), ReductionWord(lo[63])), Or(Shl(hi, 63), Shr(lo, 1))) == MulP(Join(hi, lo))
  {
    var v := Join(hi, lo);
    var h, l := Xor(Shr(hi, 1), ReductionWord(lo[63])), Or(Shl(hi, 63), Shr(lo, 1));
    forall i | 0 <= i < 128 ensures Join(h, l)[i] == MulP(v)[i] {
      if i >= 64 {
        assert l[i - 64] == (Shl(hi, 63)[i - 64] || Shr(lo, 1)[i - 64]);
      }
    }
  }

  /** One round of the bitwise loop. */
  lemma GfMulRound(z: Elem, bits: Bits, v: Elem)
    requires bits != []
    ensures Xor(Xor(z, Scale(bits[0], v)), Dot(bits[1..], MulP(v))) == Xor(z, Dot(bits, v))
  {
    XorAssoc(z, Scale(bits[0], v), Dot(bits[1..], MulP(v)));
  }

  /** internal_aes_gcm_gfmul. */
  method GfMul(x: Block, y: Block) returns (product: Elem)
    ensures product == Dot(Flat(x), Flat(y))
  {
    var y0: Word, y1: Word := Flat(y)[..64], Flat(y)[64..];
    var z0: Word, z1: Word := Zeros(64), Zeros(64);
    ghost var bits := Flat(x);
    JoinHalves(Flat(y));
    JoinZeros();
    XorZero(Dot(bits, Flat(y)));
    assert bits[0..] == bits;
    var n := 0;
    while n < 128
      invariant 0 <= n <= 128
      invariant Xor(Join(z0, z1), Dot(bits[n..], Join(y0, y1))) == Dot(bits, Flat(y))
    {
      FlatAt(x, n);
      assert bits[n..][0] == bits[n] && bits[n..][1..] == bits[n + 1..];
      GfMulRound(Join(z0, z1), bits[n..], Join(y0, y1));
      XorZero(Join(z0, z1));
      if x[n / 8][n % 8] {
        JoinXor(z0, z1, y0, y1);
        z0, z1 := Xor(z0, y0), Xor(z1, y1);
      }
      ShiftWords(y0, y1);
      var mul := y1[63];
      y0, y1 := Xor(Shr(y0, 1), ReductionWord(mul)), Or(Shl(y0, 63), Shr(y1, 1));
      n := n + 1;
    }
    XorZero(Join(z0, z1));
    product := Join(z0, z1);
  }

  // ---- The table ----

  function NibbleBits(i: nat): (r: Bits)
    requires i < 16
    ensures |r| == 4
  {
    [i / 8 % 2 == 1, i / 4 % 2 == 1, i / 2 % 2 == 1, i % 2 == 1]
  }

  /** What the table stores at i: i times h. */
  function Entry(i: nat, h: Elem): Elem
    requires i < 16
  {
    Dot(NibbleBits(i), h)
  }

  lemma {:induction false} DotBitsLinear(a: Bits, b: Bits, v: Elem)
    requires |a| == |b|
    ensures Dot(Xor(a, b), v) == Xor(Dot(a, v), Dot(b, v))
    decreases |a|
  {
    if a == [] {
      XorZero(ZERO);
    } else {
      assert Xor(a, b)[1..] == Xor(a[1..], b[1..]);
      DotBitsLinear(a[1..], b[1..], MulP(v));
      XorExchange(Scale(a[0], v), Scale(b[0], v), Dot(a[1..], MulP(v)), Dot(b[1..], MulP(v)));
      assert Scale(Xor(a, b)[0], v) == Xor(Scale(a[0], v), Scale(b[0], v));
    }
  }

  lemma NibbleSum(i: nat, j: nat)
    requires i == 2 || i == 4 || i == 8
    requires 0 < j < i
    ensures NibbleBits(i + j) == Xor(NibbleBits(i), NibbleBits(j))
  {
  }

  lemma EntrySum(i: nat, j: nat, h: Elem)
    requires i == 2 || i == 4 || i == 8
    requires 0 < j < i
    ensures Entry(i + j, h) == Xor(Entry(i, h), Entry(j, h))
  {
    NibbleSum(i, j);
    DotBitsLinear(NibbleBits(i), NibbleBits(j), h);
  }

  lemma DotSkip(bits: Bits, v: Elem)
    ensures Dot([false] + bits, v) == Dot(bits, MulP(v))
  {
    assert ([false] + bits)[1..] == bits;
    XorZero(Dot(bits, MulP(v)));
  }

  lemma {:induction false} DotNone(k: nat, v: Elem)
    ensures Dot(Zeros(k), v) == ZERO
    decreases k
  {
    if k > 0 {
      assert Zeros(k) == [false] + Zeros(k - 1);
      DotSkip(Zeros(k - 1), v);
      DotNone(k - 1, MulP(v));
    }
  }

  lemma DotFirst(k: nat, v: Elem)
    ensures Dot([true] + Zeros(k), v) == v
  {
    assert ([true] + Zeros(k))[1..] == Zeros(k);
    DotNone(k, MulP(v));
    XorZero(v);
  }

  /** The entries for 1, 2, 4 and 8 are H times P^3, P^2, P and 1. */
  lemma EntryPowers(h: Elem)
    ensures Entry(0, h) == ZERO && Entry(8, h) == h && Entry(4, h) == MulP(h)
    ensures Entry(2, h) == MulP(MulP(h)) && Entry(1, h) == MulP(MulP(MulP(h)))
  {
    assert NibbleBits(0) == Zeros(4) && NibbleBits(8) == [true] + Zeros(3);
    DotNone(4, h);
    DotFirst(3, h);
    assert NibbleBits(4) == [false] + ([true] + Zeros(2));
    DotSkip([true] + Zeros(2), h);
    DotFirst(2, MulP(h));
    assert NibbleBits(2) == [false] + ([false] + ([true] + Zeros(1)));
    DotSkip([false] + ([true] + Zeros(1)), h);
    DotSkip([true] + Zeros(1), MulP(h));
    DotFirst(1, MulP(MulP(h)));
    assert NibbleBits(1) == [false] + ([false] + ([false] + ([true] + Zeros(0))));
    DotSkip([false] + ([false] + ([true] + Zeros(0))), h);
    DotSkip([false] + ([true] + Zeros(0)), MulP(h));
    DotSkip([true] + Zeros(0), MulP(MulP(h)));
    DotFirst(0, MulP(MulP(MulP(h))));
  }

  class GhashKey {
    const HL: array<Word>
    const HH: array<Word>

    ghost predicate Holds(i: nat, h: Elem)
      requires HL.Length == HH.Length == 16 && i < 16
      reads HL, HH
    {
      Join(HH[i], HL[i]) == Entry(i, h)
    }

    constructor ()
      ensures fresh(HL) && fresh(HH) && HL != HH && HL.Length == HH.Length == 16
    {
      HL := new Word[16](_ => Zeros(64));
      HH := new Word[16](_ => Zeros(64));
    }

    /** The entries for 0 and the powers of two: one shift from each to the next. */
    method GenPowers(h: Elem)
      requires HL.Length == HH.Length == 16 && HL != HH
      modifies HL, HH
      ensures Holds(0, h) && Holds(1, h) && Holds(2, h) && Holds(4, h) && Holds(8, h)
    {
      EntryPowers(h);
      var vh: Word, vl: Word := h[..64], h[64..];
      JoinHalves(h);
      HL[8], HH[8] := vl, vh;
      HH[0], HL[0] := Zeros(64), Zeros(64);
      JoinZeros();
      var i := 4;
      while i > 0
        invariant i == 4 || i == 2 || i == 1 || i == 0
        invariant Join(vh, vl) == (if i == 0 then Entry(1, h) else Entry(2 * i, h))
        invariant Holds(0, h) && Holds(8, h)
        invariant (i < 4 ==> Holds(4, h)) && (i < 2 ==> Holds(2, h)) && (i < 1 ==> Holds(1, h))
        decreases i
      {
        ShiftWords(vh, vl);
        vh, vl := Xor(Shr(vh, 1), ReductionWord(vl[63])), Or(Shl(vh, 63), Shr(vl, 1));
        HL[i] := vl;
        HH[i] := vh;
        i := i / 2;
      }
    }

    /** The entries between i and 2 * i: each the sum of entry i and a smaller one. */
    method GenSums(i: nat, h: Elem)
      requires HL.Length == HH.Length == 16 && HL != HH
      requires i == 2 || i == 4 || i == 8
      requires forall k :: 0 <= k <= i ==> Holds(k, h)
      modifies HL, HH
      ensures forall k :: 0 <= k < 2 * i ==> Holds(k, h)
      ensures forall k :: 2 * i <= k < 16 ==> HH[k] == old(HH[k]) && HL[k] == old(HL[k])
    {
      var vh, vl := HH[i], HL[i];
      assert Holds(i, h);
      var j := 1;
      while j < i
        invariant 1 <= j <= i && Join(vh, vl) == Entry(i, h)
        invariant forall k :: 0 <= k < i + j ==> Holds(k, h)
        invariant forall k :: 2 * i <= k < 16 ==> HH[k] == old(HH[k]) && HL[k] == old(HL[k])
      {
        EntrySum(i, j, h);
        assert Holds(j, h);
        JoinXor(vh, vl, HH[j], HL[j]);
        label Before:
        HH[i + j] := Xor(vh, HH[j]);
        HL[i + j] := Xor(vl, HL[j]);
        forall k | 0 <= k < i + j + 1 ensures Holds(k, h) {
          assert k < i + j ==> old@Before(Holds(k, h));
        }
        j := j + 1;
      }
    }

    /** internal_aes_gcm_ghash_gen_tbl for the hash key h: entry i becomes i times h. */
    method GenTbl(h: Elem)
      requires HL.Length == HH.Length == 16 && HL != HH
      modifies HL, HH
      ensures forall i :: 0 <= i < 16 ==> Holds(i, h)
    {
      GenPowers(h);
      var i := 2;
      while i <= 8
        invariant i == 2 || i == 4 || i == 8 || i == 16
        invariant forall k :: 0 <= k < i ==> Holds(k, h)
        invariant (i <= 2 ==> Holds(2, h)) && (i <= 4 ==> Holds(4, h)) && (i <= 8 ==> Holds(8, h))
        decreases 16 - i
      {
        GenSums(i, h);
        i := i * 2;
      }
    }
  }

  // ---- Multiplication by table ----

  /** Four hexadecimal digits. */
  function Row(d0: nat, d1: nat, d2: nat, d3: nat): (r: Bits)
    requires d0 < 16 && d1 < 16 && d2 < 16 && d3 < 16
    ensures |r| == 16
  {
    NibbleBits(d0) + NibbleBits(d1) + NibbleBits(d2) + NibbleBits(d3)
  }

  /** last4: x times P^128, in 16 bits. */
  function Last4(rem: nat): (r: Bits)
    requires rem < 16
    ensures |r| == 16
  {
    match rem
    case 0 => Row(0x0, 0x0, 0x0, 0x0)
    case 1 => Row(0x1, 0xc, 0x2, 0x0)
    case 2 => Row(0x3, 0x8, 0x4, 0x0)
    case 3 => Row(0x2, 0x4, 0x6, 0x0)
    case 4 => Row(0x7, 0x0, 0x8, 0x0)
    case 5 => Row(0x6, 0xc, 0xa, 0x0)
    case 6 => Row(0x4, 0x8, 0xc, 0x0)
    case 7 => Row(0x5, 0x4, 0xe, 0x0)
    case 8 => Row(0xe, 0x1, 0x0, 0x0)
    case 9 => Row(0xf, 0xd, 0x2, 0x0)
    case 10 => Row(0xd, 0x9, 0x4, 0x0)
    case 11 => Row(0xc, 0x5, 0x6, 0x0)
    case 12 => Row(0x9, 0x1, 0x8, 0x0)
    case 13 => Row(0x8, 0xd, 0xa, 0x0)
    case 14 => Row(0xa, 0x9, 0xc, 0x0)
    case _ => Row(0xb, 0x5, 0xe, 0x0)
  }

  /** (uint64_t)last4[rem] << 48. */
  function Last4Word(rem: nat): Word
    requires rem < 16
  {
    Last4(rem) + Zeros(48)
  }

  /** The four coefficients shifted out, reduced. */
  predicate Overflow4(b: Bits, i: int)
    requires |b| == 4
  {
    (((b[0] && Reduction(i)) != (b[1] && Reduction(i - 1))) != (b[2] && Reduction(i - 2))) != (b[3] && Reduction(i - 3))
  }

  lemma MulP4Is(v: Elem)
    ensures forall i :: 0 <= i < 128 ==>
              MulP(MulP(MulP(MulP(v))))[i] == ((4 <= i && v[i - 4]) != Overflow4(v[124..], i))
  {
  }

  /** Overflow4 position by position. */
  function OverflowRow(b: Bits): (r: Bits)
    requires |b| == 4
    ensures |r| == 16
  {
    [b[0], b[0] != b[1], (b[0] != b[1]) != b[2], (b[1] != b[2]) != b[3]]
    + [b[2] != b[3], b[3], false, b[0]] + [b[1], b[2], b[3], false] + [false, false, false, false]
  }

  lemma OverflowRowIs(b: Bits)
    requires |b| == 4
    ensures forall i :: 0 <= i < 128 ==> Overflow4(b, i) == (i < 16 && OverflowRow(b)[i])
  {
  }

  /** Each table entry is the reduction of the four bits shifted out. */
  lemma Last4Correct(rem: nat)
    requires rem < 16
    ensures Last4(rem) == OverflowRow(NibbleBits(rem))
  {
  }

  function NibbleValue(b: Bits): (r: nat)
    requires |b| == 4
    ensures r < 16 && NibbleBits(r) == b
  {
    (if b[0] then 8 else 0) + (if b[1] then 4 else 0) + (if b[2] then 2 else 0) + if b[3] then 1 else 0
  }

  function MulP4(v: Elem): Elem {
    MulP(MulP(MulP(MulP(v))))
  }

  /** A shift by four with the table correction is an exact multiplication by P^4. */
  lemma Shift4Words(zh: Word, zl: Word)
    ensures Join(Xor(Shr(zh, 4), Last4Word(NibbleValue(zl[60..]))), Or(Shl(zh, 60), Shr(zl, 4)))
            == MulP4(Join(zh, zl))
  {
    var v, b := Join(zh, zl), zl[60..];
    var h, l := Xor(Shr(zh, 4), Last4Word(NibbleValue(b))), Or(Shl(zh, 60), Shr(zl, 4));
    assert v[124..] == b;
    MulP4Is(v);
    Last4Correct(NibbleValue(b));
    OverflowRowIs(b);
    forall i | 0 <= i < 128 ensures Join(h, l)[i] == MulP4(v)[i] {
      if i >= 64 {
        assert l[i - 64] == (Shl(zh, 60)[i - 64] || Shr(zl, 4)[i - 64]);
      } else {
        assert h[i] == (Shr(zh, 4)[i] != Last4Word(NibbleValue(b))[i]);
      }
    }
  }

  lemma {:induction false} DotConcat(a: Bits, b: Bits, v: Elem)
    ensures Dot(a + b, v) == Xor(Dot(a, v), Dot(b, Power(v, |a|)))
    decreases |a|
  {
    if a == [] {
      assert a + b == b;
      XorZero(Dot(b, v));
    } else {
      assert (a + b)[1..] == a[1..] + b;
      DotConcat(a[1..], b, MulP(v));
      XorAssoc(Scale(a[0], v), Dot(a[1..], MulP(v)), Dot(b, Power(v, |a|)));
    }
  }

  /** v times P^k. */
  function Power(v: Elem, k: nat): Elem
    decreases k
  {
    if k == 0 then v else Power(MulP(v), k - 1)
  }

  /** Horner's rule, four bits at a time. */
  lemma DotNibble(a: Bits, b: Bits, h: Elem)
    requires |a| == 4
    ensures Dot(a + b, h) == Xor(Dot(a, h), MulP4(Dot(b, h)))
  {
    DotConcat(a, b, h);
    var h1 := MulP(h);
    var h2 := MulP(h1);
    var h3 := MulP(h2);
    assert Power(h, 4) == Power(h1, 3) == Power(h2, 2) == Power(h3, 1) == MulP(h3);
    DotMulP(b, h);
    DotMulP(b, h1);
    DotMulP(b, h2);
    DotMulP(b, h3);
  }

  /** Shift by a nibble and add a table entry: the body of the multiplication loop. */
  method ShiftAdd(key: GhashKey, zh: Word, zl: Word, nibble: Bits, ghost h: Elem, ghost rest: Bits)
    returns (zh': Word, zl': Word)
    requires key.HL.Length == key.HH.Length == 16 && |nibble| == 4
    requires forall i :: 0 <= i < 16 ==> key.Holds(i, h)
    requires Join(zh, zl) == Dot(rest, h)
    ensures Join(zh', zl') == Dot(nibble + rest, h)
  {
    var k := NibbleValue(nibble);
    assert key.Holds(k, h);
    var rem := NibbleValue(zl[60..]);
    zl' := Or(Shl(zh, 60), Shr(zl, 4));
    zh' := Xor(Shr(zh, 4), Last4Word(rem));
    Shift4Words(zh, zl);
    JoinXor(key.HH[k], key.HL[k], zh', zl');
    DotNibble(nibble, rest, h);
    zh' := Xor(key.HH[k], zh');
    zl' := Xor(key.HL[k], zl');
  }

  /** The bits of the bytes from position i on. */
  function FlatFrom(x: Block, i: nat): (r: Bits)
    requires i <= 16
    decreases 16 - i
  {
    if i == 16 then [] else x[i] + FlatFrom(x, i + 1)
  }

  lemma {:induction false} FlatFromIs(x: Block, i: nat)
    requires i <= 16
    ensures FlatFrom(x, i) == Flat(x[i..])
    decreases 16 - i
  {
    if i < 16 {
      FlatFromIs(x, i + 1);
      assert x[i..][1..] == x[i + 1..];
    }
  }

  lemma SplitByte(b: Byte, rest: Bits)
    ensures b[..4] + (b[4..] + rest) == b + rest
    ensures b[4..] + [] == b[4..]
  {
  }

  /** internal_aes_gcm_ghash_mult_tbl: multiplication by the key of the table. */
  method MultTbl(key: GhashKey, x: Block, ghost h: Elem) returns (output: Elem)
    requires key.HL.Length == key.HH.Length == 16
    requires forall i :: 0 <= i < 16 ==> key.Holds(i, h)
    ensures output == Dot(Flat(x), h)
  {
    var lo := NibbleValue(x[15][4..]);
    assert key.Holds(lo, h);
    var zh, zl := key.HH[lo], key.HL[lo];
    var i := 15;
    while i >= 0
      invariant -1 <= i <= 15
      invariant Join(zh, zl) == Dot(if i == 15 then x[15][4..] else FlatFrom(x, i + 1), h)
    {
      ghost var rest := FlatFrom(x, i + 1);
      SplitByte(x[i], rest);
      if i != 15 {
        zh, zl := ShiftAdd(key, zh, zl, x[i][4..], h, rest);
      }
      zh, zl := ShiftAdd(key, zh, zl, x[i][..4], h, x[i][4..] + rest);
      i := i - 1;
    }
    FlatFromIs(x, 0);
    assert x[0..] == x;
    output := Join(zh, zl);
  }

  /** The table and the bitwise algorithm agree: for every key and every block the table
      product equals gfmul with its arguments in either order. */
  method TableEqualsBitwise(h: Block, x: Block) returns (table: Elem, bitwise: Elem, swapped: Elem)
    ensures table == bitwise == swapped
    ensures table == Dot(Flat(x), Flat(h))
  {
    var key := new GhashKey();
    key.GenTbl(Flat(h));
    table := MultTbl(key, x, Flat(h));
    bitwise := GfMul(x, h);
    swapped := GfMul(h, x);
    ProductCommutes(Flat(x), Flat(h));
  }
}
