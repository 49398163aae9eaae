/** The SM4 cipher (GM/T 0002-2012) of core/crypto/sm4.c, for any S-box: the round function
    is a parameter. */
module Sm4 {
  import opened ByteStrings
  import opened BlockModes

  type Word = bv32

  /** sm4Lt, the substitution and diffusion of one word; sm4CalciRK, the same for key words; the
      constants FK and CK. */
  datatype Tables = Tables(lt: Word -> Word, rk: Word -> Word, fk: seq<Word>, ck: seq<Word>)

  predicate Sized(t: Tables) {
    |t.fk| == 4 && |t.ck| == ROUNDS
  }

  function Xor(a: Word, b: Word): Word {
    a ^ b
  }

  /** sm4F. */
  function F(t: Tables, x0: Word, x1: Word, x2: Word, x3: Word, k: Word): Word {
    Xor(x0, t.lt(Mix(x1, x2, x3, k)))
  }

  /** What the three other words and the key give. */
  function Mix(x1: Word, x2: Word, x3: Word, k: Word): Word {
    Xor(Xor(Xor(x1, x2), x3), k)
  }

  /** Each of the four words enters: a change of one is a change of the result, bit by bit. */
  lemma MixEach(x1: Word, x2: Word, x3: Word, k: Word, d: Word)
    ensures Mix(Xor(x1, d), x2, x3, k) == Xor(Mix(x1, x2, x3, k), d)
    ensures Mix(x1, Xor(x2, d), x3, k) == Xor(Mix(x1, x2, x3, k), d)
    ensures Mix(x1, x2, Xor(x3, d), k) == Xor(Mix(x1, x2, x3, k), d)
    ensures Mix(x1, x2, x3, Xor(k, d)) == Xor(Mix(x1, x2, x3, k), d)
    ensures Mix(0, 0, 0, 0) == 0
  {
    MixFirst(x1, x2, x3, k, d);
    MixSecond(x1, x2, x3, k, d);
    MixThird(x1, x2, x3, k, d);
    XorAssociates(Xor(Xor(x1, x2), x3), k, d);
  }

  /** A difference moves outwards. */
  lemma MoveOut(a: Word, d: Word, b: Word)
    ensures Xor(Xor(a, d), b) == Xor(Xor(a, b), d)
  {
    XorAssociates(a, d, b);
    XorCommutes(d, b);
    XorAssociates(a, b, d);
  }

  lemma MixFirst(x1: Word, x2: Word, x3: Word, k: Word, d: Word)
    ensures Mix(Xor(x1, d), x2, x3, k) == Xor(Mix(x1, x2, x3, k), d)
  {
    MoveOut(x1, d, x2);
    MoveOut(Xor(x1, x2), d, x3);
    MoveOut(Xor(Xor(x1, x2), x3), d, k);
  }

  lemma MixSecond(x1: Word, x2: Word, x3: Word, k: Word, d: Word)
    ensures Mix(x1, Xor(x2, d), x3, k) == Xor(Mix(x1, x2, x3, k), d)
  {
    XorAssociates(x1, x2, d);
    MoveOut(Xor(x1, x2), d, x3);
    MoveOut(Xor(Xor(x1, x2), x3), d, k);
  }

  lemma MixThird(x1: Word, x2: Word, x3: Word, k: Word, d: Word)
    ensures Mix(x1, x2, Xor(x3, d), k) == Xor(Mix(x1, x2, x3, k), d)
  {
    XorAssociates(Xor(x1, x2), x3, d);
    MoveOut(Xor(Xor(x1, x2), x3), d, k);
  }

  /** A round adds the substituted mix to its first word. */
  lemma RoundAdds(t: Tables, x0: Word, x1: Word, x2: Word, x3: Word, k: Word)
    ensures Xor(F(t, x0, x1, x2, x3, k), x0) == t.lt(Mix(x1, x2, x3, k))
  {
    var y := t.lt(Mix(x1, x2, x3, k));
    XorCommutes(x0, y);
    XorBack(y, x0);
  }

  lemma MixTurned(x1: Word, x2: Word, x3: Word, k: Word)
    ensures Mix(x3, x2, x1, k) == Mix(x1, x2, x3, k)
  {
    XorTurned(x1, x2, x3, k);
  }

  lemma XorTurned(a: Word, b: Word, c: Word, d: Word)
    ensures Xor(Xor(Xor(a, b), c), d) == Xor(Xor(Xor(c, b), a), d)
  {
    XorAssociates(a, b, c);
    XorCommutes(b, c);
    XorCommutes(a, Xor(b, c));
  }

  lemma XorCommutes(a: bv32, b: bv32)
    ensures Xor(a, b) == Xor(b, a)
  {
  }

  lemma XorAssociates(a: bv32, b: bv32, c: bv32)
    ensures Xor(Xor(a, b), c) == Xor(a, Xor(b, c))
  {
  }

  lemma XorBack(a: bv32, b: bv32)
    ensures Xor(Xor(a, b), b) == a
  {
  }

  /** A round undone: the other three words enter alike in either order. */
  lemma RoundBack(t: Tables, x0: Word, x1: Word, x2: Word, x3: Word, k: Word)
    ensures F(t, F(t, x0, x1, x2, x3, k), x3, x2, x1, k) == x0
  {
    var m := Mix(x1, x2, x3, k);
    MixTurned(x1, x2, x3, k);
    XorBack(x0, t.lt(m));
    var y := Xor(x0, t.lt(m));
    assert F(t, x0, x1, x2, x3, k) == y;
    assert F(t, y, x3, x2, x1, k) == Xor(y, t.lt(m));
  }

  // ---- One block ----

  /** The number of rounds. */
  const ROUNDS: nat := 32

  /** The first n + 4 words of ulbuf for keys sk and input words x. */
  function Buf(t: Tables, sk: seq<Word>, x: seq<Word>, n: nat): (r: seq<Word>)
    requires |x| == 4 && n <= |sk|
    ensures |r| == n + 4
  {
    if n == 0 then x
    else
      var b := Buf(t, sk, x, n - 1);
      b + [F(t, b[n - 1], b[n], b[n + 1], b[n + 2], sk[n - 1])]
  }

  /** Every word from the fifth on comes from the four before it. */
  ghost predicate IsRun(t: Tables, sk: seq<Word>, b: seq<Word>) {
    |b| == |sk| + 4 && forall i :: 0 <= i < |sk| ==> RoundAt(t, sk, b, i)
  }

  ghost predicate RoundAt(t: Tables, sk: seq<Word>, b: seq<Word>, i: nat)
    requires i < |sk| && i + 4 < |b|
  {
    b[i + 4] == F(t, b[i], b[i + 1], b[i + 2], b[i + 3], sk[i])
  }

  lemma {:induction false} BufRounds(t: Tables, sk: seq<Word>, x: seq<Word>, n: nat)
    requires |x| == 4 && n <= |sk|
    ensures forall i :: 0 <= i < n ==> RoundAt(t, sk, Buf(t, sk, x, n), i)
    ensures forall i :: 0 <= i < 4 ==> Buf(t, sk, x, n)[i] == x[i]
    decreases n
  {
    if n > 0 {
      BufRounds(t, sk, x, n - 1);
      var b, c := Buf(t, sk, x, n - 1), Buf(t, sk, x, n);
      forall i | 0 <= i < n ensures RoundAt(t, sk, c, i) {
        assert i < n - 1 ==> RoundAt(t, sk, b, i);
      }
    }
  }

  /** The output words: the last four, last first. */
  function Out(t: Tables, sk: seq<Word>, x: seq<Word>): (r: seq<Word>)
    requires |x| == 4 && |sk| == ROUNDS
    ensures |r| == 4
  {
    var b := Buf(t, sk, x, ROUNDS);
    [b[35], b[34], b[33], b[32]]
  }

  ghost predicate Reversed(sk: seq<Word>, r: seq<Word>) {
    |r| == |sk| == ROUNDS && forall i :: 0 <= i < ROUNDS ==> r[i] == sk[ROUNDS - 1 - i]
  }

  /** With reversed keys the run goes back through the same words. */
  lemma {:induction false} BackThrough(t: Tables, sk: seq<Word>, r: seq<Word>, b: seq<Word>, c: seq<Word>, i: nat)
    requires Reversed(sk, r) && IsRun(t, sk, b) && IsRun(t, r, c) && i < 36
    requires c[0] == b[35] && c[1] == b[34] && c[2] == b[33] && c[3] == b[32]
    ensures c[i] == b[35 - i]
    decreases i
  {
    if i >= 4 {
      BackThrough(t, sk, r, b, c, i - 4);
      BackThrough(t, sk, r, b, c, i - 3);
      BackThrough(t, sk, r, b, c, i - 2);
      BackThrough(t, sk, r, b, c, i - 1);
      assert RoundAt(t, r, c, i - 4) && RoundAt(t, sk, b, 35 - i);
      RoundBack(t, b[35 - i], b[36 - i], b[37 - i], b[38 - i], sk[35 - i]);
    }
  }

  /** So it is its own inverse with the keys reversed. */
  lemma OutInverse(t: Tables, sk: seq<Word>, r: seq<Word>, x: seq<Word>)
    requires Reversed(sk, r) && |x| == 4
    ensures Out(t, r, Out(t, sk, x)) == x
  {
    var b, c := Buf(t, sk, x, ROUNDS), Buf(t, r, Out(t, sk, x), ROUNDS);
    BufRounds(t, sk, x, ROUNDS);
    BufRounds(t, r, Out(t, sk, x), ROUNDS);
    BackThrough(t, sk, r, b, c, 35);
    BackThrough(t, sk, r, b, c, 34);
    BackThrough(t, sk, r, b, c, 33);
    BackThrough(t, sk, r, b, c, 32);
  }

  // ---- Bytes ----

  /** GET_UINT32_BE. */
  function Get(b: Bytes, i: nat): Word
    requires i + 4 <= |b|
  {
    GetWord(b[i], b[i + 1], b[i + 2], b[i + 3])
  }

  function GetWord(a: Byte, b: Byte, c: Byte, d: Byte): Word {
    ((a as bv32) << 24) | ((b as bv32) << 16) | ((c as bv32) << 8) | (d as bv32)
  }

  /** PUT_UINT32_BE. */
  function Put(n: Word): (r: Bytes)
    ensures |r| == 4
  {
    [Low(n >> 24), Low(n >> 16), Low(n >> 8), Low(n)]
  }

  function Low(n: Word): Byte {
    (n & 0xFF) as bv8
  }

  lemma PutGet(a: Byte, b: Byte, c: Byte, d: Byte)
    ensures Put(GetWord(a, b, c, d)) == [a, b, c, d]
  {
  }

  lemma GetPut(n: Word)
    ensures GetWord(Put(n)[0], Put(n)[1], Put(n)[2], Put(n)[3]) == n
  {
  }

  function Words(b: Block): (r: seq<Word>)
    ensures |r| == 4
  {
    [Get(b, 0), Get(b, 4), Get(b, 8), Get(b, 12)]
  }

  function ToBytes(x: seq<Word>): Block
    requires |x| == 4
  {
    Put(x[0]) + Put(x[1]) + Put(x[2]) + Put(x[3])
  }

  lemma WordsBack(x: seq<Word>)
    requires |x| == 4
    ensures Words(ToBytes(x)) == x
  {
    GetPut(x[0]);
    GetPut(x[1]);
    GetPut(x[2]);
    GetPut(x[3]);
  }

  lemma BytesBack(b: Block)
    ensures ToBytes(Words(b)) == b
  {
    PutGet(b[0], b[1], b[2], b[3]);
    PutGet(b[4], b[5], b[6], b[7]);
    PutGet(b[8], b[9], b[10], b[11]);
    PutGet(b[12], b[13], b[14], b[15]);
  }

  /** sm4_one_round. */
  function Sm4Block(t: Tables, sk: seq<Word>, b: Block): Block
    requires |sk| == ROUNDS
  {
    ToBytes(Out(t, sk, Words(b)))
  }

  /** Decryption of a block. */
  lemma BlockInverse(t: Tables, sk: seq<Word>, r: seq<Word>, b: Block)
    requires Reversed(sk, r)
    ensures Sm4Block(t, r, Sm4Block(t, sk, b)) == b
  {
    WordsBack(Out(t, sk, Words(b)));
    OutInverse(t, sk, r, Words(b));
    BytesBack(b);
  }

  // ---- Keys ----

  /** The key words masked with FK. */
  function KeyWords(t: Tables, key: Block): (r: seq<Word>)
    requires Sized(t)
    ensures |r| == 4
  {
    var m := Words(key);
    [Xor(m[0], t.fk[0]), Xor(m[1], t.fk[1]), Xor(m[2], t.fk[2]), Xor(m[3], t.fk[3])]
  }

  /** The mask can be taken off again, word by word. */
  lemma KeyWordsBack(t: Tables, key: Block, i: nat)
    requires Sized(t) && i < 4
    ensures Xor(KeyWords(t, key)[i], t.fk[i]) == Words(key)[i]
  {
    XorBack(Words(key)[i], t.fk[i]);
  }

  /** The round keys of sm4_setkey: the same recurrence with sm4CalciRK over CK. */
  function Schedule(t: Tables, key: Block): (r: seq<Word>)
    requires Sized(t)
    ensures |r| == ROUNDS
  {
    Buf(t.(lt := t.rk), t.ck, KeyWords(t, key), ROUNDS)[4..]
  }

  // ---- Counter mode ----

  /** A big-endian number of bytes plus one, wrapping. */
  function IncBytes(b: Bytes): (r: Bytes)
    ensures |r| == |b|
  {
    if b == [] then []
    else
      var n := |b| - 1;
      var x := b[n] + 1;
      if x != 0 then b[..n] + [x] else IncBytes(b[..n]) + [0]
  }

  /** What counter mode is made of: the block cipher and the step of the counter. */
  datatype Keystream = Keystream(enc: Block -> Block, inc: Block -> Block)

  function CounterAt(s: Keystream, ctr: Block, n: nat): Block {
    if n == 0 then ctr else s.inc(CounterAt(s, ctr, n - 1))
  }

  /** n blocks of d combined with the key stream of s from ctr on. */
  function Ctr(s: Keystream, ctr: Block, d: Bytes, n: nat): (r: Bytes)
    requires 16 * n <= |d|
    ensures |r| == 16 * n
  {
    if n == 0 then [] else Ctr(s, ctr, d, n - 1) + XorBytes(BlockAt(d, n - 1), s.enc(CounterAt(s, ctr, n - 1)))
  }

  lemma {:induction false} CtrBlock(s: Keystream, ctr: Block, d: Bytes, n: nat, i: nat)
    requires i < n && 16 * n <= |d|
    ensures BlockAt(Ctr(s, ctr, d, n), i) == XorBytes(BlockAt(d, i), s.enc(CounterAt(s, ctr, i)))
    decreases n
  {
    if i < n - 1 {
      CtrBlock(s, ctr, d, n - 1, i);
    }
  }

  /** Applied twice it gives the text back. */
  lemma CtrInvolution(s: Keystream, ctr: Block, d: Bytes, n: nat)
    requires |d| == 16 * n
    ensures Ctr(s, ctr, Ctr(s, ctr, d, n), n) == d
  {
    CtrTwice(s, ctr, d, n, Ctr(s, ctr, d, n), n);
    assert d[..16 * n] == d;
  }

  lemma {:induction false} CtrTwice(s: Keystream, ctr: Block, d: Bytes, m: nat, c: Bytes, n: nat)
    requires n <= m && 16 * m <= |d| && c == Ctr(s, ctr, d, m)
    ensures Ctr(s, ctr, c, n) == d[..16 * n]
    decreases n
  {
    if n > 0 {
      CtrTwice(s, ctr, d, m, c, n - 1);
      CtrBlockTwice(s, ctr, d, m, c, n - 1);
      UpToBlock(d, n);
    }
  }

  lemma CtrBlockTwice(s: Keystream, ctr: Block, d: Bytes, m: nat, c: Bytes, i: nat)
    requires i < m && 16 * m <= |d| && c == Ctr(s, ctr, d, m)
    ensures XorBytes(BlockAt(c, i), s.enc(CounterAt(s, ctr, i))) == BlockAt(d, i)
  {
    CtrBlock(s, ctr, d, m, i);
    XorTwice(BlockAt(d, i), s.enc(CounterAt(s, ctr, i)));
  }

  lemma UpToBlock(d: Bytes, n: nat)
    requires 0 < n && 16 * n <= |d|
    ensures d[..16 * n] == d[..16 * (n - 1)] + BlockAt(d, n - 1)
  {
  }

  lemma {:induction false} CounterLater(s: Keystream, ctr: Block, n: nat, j: nat)
    ensures CounterAt(s, CounterAt(s, ctr, n), j) == CounterAt(s, ctr, n + j)
    decreases j
  {
    if j > 0 {
      CounterLater(s, ctr, n, j - 1);
    }
  }

  /** Split calls give what one call gives. */
  lemma {:induction false} CtrJoin(s: Keystream, ctr: Block, a: Bytes, b: Bytes, n: nat, j: nat)
    requires |a| == 16 * n && 16 * j <= |b|
    ensures Ctr(s, ctr, a + b, n + j) == Ctr(s, ctr, a, n) + Ctr(s, CounterAt(s, ctr, n), b, j)
    decreases j
  {
    if j == 0 {
      assert (a + b)[..16 * n] == a[..16 * n];
      CtrPrefix(s, ctr, a + b, a, n);
    } else {
      CtrJoin(s, ctr, a, b, n, j - 1);
      BlockOfJoin(a, b, n, j - 1);
      CounterLater(s, ctr, n, j - 1);
    }
  }

  lemma {:induction false} CtrPrefix(s: Keystream, ctr: Block, d: Bytes, a: Bytes, n: nat)
    requires 16 * n <= |d| && 16 * n <= |a| && d[..16 * n] == a[..16 * n]
    ensures Ctr(s, ctr, d, n) == Ctr(s, ctr, a, n)
    decreases n
  {
    if n > 0 {
      assert d[..16 * (n - 1)] == d[..16 * n][..16 * (n - 1)] && a[..16 * (n - 1)] == a[..16 * n][..16 * (n - 1)];
      assert BlockAt(d, n - 1) == d[..16 * n][16 * (n - 1)..] && BlockAt(a, n - 1) == a[..16 * n][16 * (n - 1)..];
      CtrPrefix(s, ctr, d, a, n - 1);
    }
  }

  lemma {:induction false} IncValue(b: Bytes)
    ensures BytesValue(IncBytes(b)) == if BytesValue(b) + 1 == Pow256(|b|) then 0 else BytesValue(b) + 1
    decreases |b|
  {
    if b != [] {
      var n := |b| - 1;
      var x := b[n];
      ByteInc(x);
      IncValue(b[..n]);
      var r := IncBytes(b);
      assert r[..n] == if x + 1 != 0 then b[..n] else IncBytes(b[..n]);
    }
  }

  lemma ByteInc(x: bv8)
    ensures (x + 1) as nat == if x == 255 then 0 else x as nat + 1
    ensures x == 255 <==> x + 1 == 0
    ensures x as nat == 255 <==> x == 255
  {
  }

  /** The step of the counter, read as a number by val, modulo p. */
  ghost predicate Steps(s: Keystream, val: Bytes -> nat, p: nat) {
    p > 0 && forall b: Block :: val(s.inc(b)) == if val(b) + 1 == p then 0 else val(b) + 1
  }

  /** val reads a block as a big-endian number. */
  ghost predicate Reads(val: Bytes -> nat, b: Bytes) {
    val(b) == BytesValue(b)
  }

  lemma IncStep(val: Bytes -> nat, b: Bytes, c: Bytes)
    requires c == IncBytes(b) && Reads(val, b) && Reads(val, c)
    ensures val(c) == if val(b) + 1 == Pow256(|b|) then 0 else val(b) + 1
  {
    IncValue(b);
  }

  /** The counter block counts modulo 2^128. */
  lemma IncSteps(s: Keystream, val: Bytes -> nat, p: nat)
    requires (forall b: Block :: s.inc(b) == IncBytes(b)) && (forall b: Bytes :: Reads(val, b)) && p == Pow256(16) > 0
    ensures Steps(s, val, p)
  {
    forall b: Block ensures val(s.inc(b)) == if val(b) + 1 == p then 0 else val(b) + 1 {
      IncStep(val, b, s.inc(b));
    }
  }

  lemma WrapStep(m: nat, p: nat)
    requires p > 0
    ensures var v := Wrap(m, p); Wrap(m + 1, p) == if v + 1 == p then 0 else v + 1
  {
    WrapAdd(m, 1, p);
  }

  /** After n blocks the counter is the first one plus n, modulo p. */
  lemma {:induction false} CounterValueAt(s: Keystream, val: Bytes -> nat, ctr: Block, n: nat, p: nat)
    requires Steps(s, val, p) && val(ctr) < p
    ensures val(CounterAt(s, ctr, n)) == Wrap(val(ctr) + n, p)
    decreases n
  {
    if n > 0 {
      CounterValueAt(s, val, ctr, n - 1, p);
      WrapStep(val(ctr) + n - 1, p);
    }
  }

  lemma CounterFor(s: Keystream, val: Bytes -> nat, ctr: Block, n: nat, c: Block, p: nat)
    requires (forall b: Block :: s.inc(b) == IncBytes(b)) && (forall b: Bytes :: Reads(val, b)) && p == Pow256(16) > 0
    requires c == CounterAt(s, ctr, n) && val(ctr) < p
    ensures val(c) == Wrap(val(ctr) + n, p)
  {
    IncSteps(s, val, p);
    CounterValueAt(s, val, ctr, n, p);
  }

  /** The counter c of block n is that of the first block plus n, modulo 2^128. */
  lemma CounterIs(s: Keystream, ctr: Block, n: nat, c: Block)
    requires (forall b: Block :: s.inc(b) == IncBytes(b)) && c == CounterAt(s, ctr, n)
    ensures BytesValue(c) == Wrap(BytesValue(ctr) + n, Pow256(16))
  {
    var val := ValueOf();
    assert Reads(val, c) && Reads(val, ctr) && Pow256(|ctr|) == Pow256(16);
    CounterFor(s, val, ctr, n, c, Pow256(16));
  }

  ghost function ValueOf(): (f: Bytes -> nat)
    ensures forall b: Bytes :: Reads(f, b)
  {
    (b: Bytes) => BytesValue(b)
  }

  // ---- The context ----

  /** struct sm4_context. */
  class Context {
    const t: Tables
    var encrypts: bool
    var sk: array<Word>

    constructor (t: Tables)
      ensures this.t == t && fresh(sk) && sk.Length == ROUNDS
    {
      this.t := t;
      encrypts := true;
      sk := new Word[ROUNDS];
    }

    /** The rounds over ulbuf. */
    method OneRound(input: Block) returns (output: Block)
      requires sk.Length == ROUNDS
      ensures output == Sm4Block(t, sk[..], input)
    {
      var x := Words(input);
      ghost var keys := sk[..];
      var ulbuf := x;
      var i := 0;
      while i < ROUNDS
        invariant 0 <= i <= ROUNDS && sk[..] == keys && ulbuf == Buf(t, keys, x, i)
      {
        ulbuf := ulbuf + [F(t, ulbuf[i], ulbuf[i + 1], ulbuf[i + 2], ulbuf[i + 3], sk[i])];
        i := i + 1;
      }
      output := ToBytes([ulbuf[35], ulbuf[34], ulbuf[33], ulbuf[32]]);
    }

    /** The swaps of sm4_setkey_dec. */
    method ReverseKeys()
      requires sk.Length == ROUNDS
      modifies sk
      ensures Reversed(old(sk[..]), sk[..])
    {
      var i := 0;
      while i < 16
        invariant 0 <= i <= 16
        invariant forall j :: 0 <= j < i ==> sk[j] == old(sk[31 - j]) && sk[31 - j] == old(sk[j])
        invariant forall j :: i <= j < 32 - i ==> sk[j] == old(sk[j])
      {
        sk[i], sk[31 - i] := sk[31 - i], sk[i];
        i := i + 1;
      }
    }

    /** sm4_setkey: the recurrence over the key words, whose results are the round keys. */
    method SetKey(key: Block)
      requires Sized(t) && sk.Length == ROUNDS
      modifies sk
      ensures sk[..] == Schedule(t, key)
    {
      var tr := t.(lt := t.rk);
      ghost var x := KeyWords(t, key);
      var k := KeyWords(t, key);
      var i := 0;
      while i < ROUNDS
        invariant 0 <= i <= ROUNDS && k == Buf(tr, t.ck, x, i)
        invariant forall j :: 0 <= j < i ==> sk[j] == k[j + 4]
      {
        var y := F(tr, k[i], k[i + 1], k[i + 2], k[i + 3], t.ck[i]);
        k := k + [y];
        sk[i] := y;
        i := i + 1;
      }
      assert sk[..] == k[4..];
    }

    /** sm4_setkey_enc. */
    method SetKeyEnc(key: Block)
      requires Sized(t) && sk.Length == ROUNDS
      modifies this`encrypts, sk
      ensures encrypts && sk[..] == Schedule(t, key)
    {
      encrypts := true;
      SetKey(key);
    }

    /** sm4_setkey_dec. */
    method SetKeyDec(key: Block)
      requires Sized(t) && sk.Length == ROUNDS
      modifies this`encrypts, sk
      ensures !encrypts && Reversed(Schedule(t, key), sk[..])
    {
      encrypts := false;
      SetKey(key);
      ReverseKeys();
    }

    /** The block function of the context's keys. */
    function Cipher(): (f: Block -> Block)
      requires sk.Length == ROUNDS
      reads this, sk
    {
      var keys := sk[..];
      (b: Block) => Sm4Block(t, keys, b)
    }

    /** sm4_crypt_ecb: every block through the block function, with the context's keys. */
    method Ecb(input: Bytes, n: nat) returns (output: Bytes)
      requires sk.Length == ROUNDS && |input| == 16 * n
      ensures |output| == 16 * n
      ensures forall i :: 0 <= i < n ==> BlockAt(output, i) == Sm4Block(t, sk[..], BlockAt(input, i))
    {
      output := CryptEcb(Cipher(), input, n);
    }

    /** sm4_crypt_cbc: k is CBC, in the direction of the context over the block function of its keys. */
    method Cbc(iv0: Block, input: Bytes, n: nat, ghost k: Perm) returns (output: Bytes, iv: Block)
      requires sk.Length == ROUNDS && |input| == 16 * n
      requires encrypts ==> forall v: Block, b: Block :: k.enc(v, b) == Cipher()(XorBytes(b, v))
      requires !encrypts ==> forall v: Block, b: Block :: k.dec(v, b) == XorBytes(Cipher()(b), v)
      ensures encrypts ==> output == CbcEnc(k, iv0, input, n) && iv == Chain(k, iv0, input, n)
      ensures !encrypts ==> output == CbcDec(k, iv0, input, n) && iv == Previous(iv0, input, n)
    {
      var f := Cipher();
      if encrypts {
        output, iv := EncryptCbc(f, iv0, input, n, k);
      } else {
        output, iv := DecryptCbc(f, iv0, input, n, k);
      }
    }

    /** sm4_crypt_ctr, with the context's keys. */
    method CtrMode(ctr0: Block, input: Bytes, n: nat) returns (output: Bytes, ctr: Block)
      requires sk.Length == ROUNDS && |input| == 16 * n
      ensures output == Ctr(Keystream(Cipher(), IncBlock()), ctr0, input, n)
      ensures BytesValue(ctr) == Wrap(BytesValue(ctr0) + n, Pow256(16))
    {
      output, ctr := CryptCtr(Keystream(Cipher(), IncBlock()), ctr0, input, n);
    }
  }

  function IncBlock(): (f: Block -> Block)
    ensures forall b: Block :: f(b) == IncBytes(b)
  {
    (b: Block) => IncBytes(b)
  }

  /** The bytes of c from i on are those of the increment, and a carry goes on. */
  ghost predicate Carrying(ctr: Bytes, c: Bytes, i: nat) {
    i <= |c| == |ctr| && c[..i] == ctr[..i] && IncBytes(ctr) == IncBytes(ctr[..i]) + c[i..]
  }

  lemma ByteStored(c: Bytes, i: nat, x: Byte)
    requires 0 < i <= |c|
    ensures var r := c[i - 1 := x];
            r[..i - 1] == c[..i - 1] && r[i - 1..] == [x] + c[i..] && r == c[..i - 1] + [x] + c[i..]
  {
  }

  /** The increment of a longer string ends with that of its last byte. */
  lemma SplitInc(a: Bytes, init: Bytes, x: Byte, rest: Bytes)
    requires a != [] && init == a[..|a| - 1] && x == a[|a| - 1] + 1
    ensures IncBytes(a) + rest == if x != 0 then init + [x] + rest else IncBytes(init) + ([x] + rest)
  {
    LastStep(a);
    if x == 0 {
      assert IncBytes(a) + rest == IncBytes(init) + ([x] + rest);
    }
  }

  lemma CarryOn(ctr: Bytes, c: Bytes, i: nat, x: Byte)
    requires Carrying(ctr, c, i) && i > 0 && x == c[i - 1] + 1
    ensures if x != 0 then c[i - 1 := x] == IncBytes(ctr) else Carrying(ctr, c[i - 1 := x], i - 1)
  {
    var a := ctr[..i];
    assert a[..i - 1] == ctr[..i - 1] && c[i - 1] == c[..i][i - 1] == a[i - 1];
    assert c[..i - 1] == c[..i][..i - 1];
    ByteStored(c, i, x);
    SplitInc(a, ctr[..i - 1], x, c[i..]);
  }

  /** The byte loop of sm4_crypt_ctr that steps the counter. */
  method StepCounter(ctr: Block) returns (r: Block)
    ensures r == IncBytes(ctr)
  {
    var c: Bytes := ctr;
    var i := 16;
    assert ctr[..16] == ctr && c[16..] == [];
    while i > 0
      invariant 0 <= i <= 16 && |c| == 16 && Carrying(ctr, c, i)
    {
      var x := c[i - 1] + 1;
      CarryOn(ctr, c, i, x);
      c := c[i - 1 := x];
      i := i - 1;
      if x != 0 {
        return c;
      }
    }
    assert c[0..] == c;
    r := c;
  }

  lemma LastStep(b: Bytes)
    requires b != []
    ensures var n := |b| - 1;
            IncBytes(b) == if b[n] + 1 != 0 then b[..n] + [b[n] + 1] else IncBytes(b[..n]) + [0]
  {
  }

  // ---- The modes, for the block function f of a context's keys ----

  /** sm4_crypt_cbc in encryption. */
  method EncryptCbc(f: Block -> Block, iv0: Block, input: Bytes, n: nat, ghost k: Perm)
    returns (output: Bytes, iv: Block)
    requires |input| == 16 * n && forall v: Block, b: Block :: k.enc(v, b) == f(XorBytes(b, v))
    ensures output == CbcEnc(k, iv0, input, n) && iv == Chain(k, iv0, input, n)
  {
    output, iv := [], iv0;
    var i := 0;
    while i < n
      invariant 0 <= i <= n && output == CbcEnc(k, iv0, input, i) && iv == Chain(k, iv0, input, i)
    {
      iv := f(XorBytes(BlockAt(input, i), iv));
      output, i := output + iv, i + 1;
    }
  }

  /** sm4_crypt_cbc in decryption. */
  method DecryptCbc(f: Block -> Block, iv0: Block, input: Bytes, n: nat, ghost k: Perm)
    returns (output: Bytes, iv: Block)
    requires |input| == 16 * n && forall v: Block, b: Block :: k.dec(v, b) == XorBytes(f(b), v)
    ensures output == CbcDec(k, iv0, input, n) && iv == Previous(iv0, input, n)
  {
    output, iv := [], iv0;
    var i := 0;
    while i < n
      invariant 0 <= i <= n && output == CbcDec(k, iv0, input, i) && iv == Previous(iv0, input, i)
    {
      var temp := BlockAt(input, i);
      output := output + XorBytes(f(temp), iv);
      iv, i := temp, i + 1;
    }
  }

  /** sm4_crypt_ctr. */
  method CryptCtr(s: Keystream, ctr0: Block, input: Bytes, n: nat) returns (output: Bytes, ctr: Block)
    requires |input| == 16 * n && forall b: Block :: s.inc(b) == IncBytes(b)
    ensures output == Ctr(s, ctr0, input, n) && ctr == CounterAt(s, ctr0, n)
    ensures BytesValue(ctr) == Wrap(BytesValue(ctr0) + n, Pow256(16))
  {
    output, ctr := CtrBlocks(s, ctr0, input, n);
    CounterIs(s, ctr0, n, ctr);
  }

  method CtrBlocks(s: Keystream, ctr0: Block, input: Bytes, n: nat) returns (output: Bytes, ctr: Block)
    requires |input| == 16 * n && forall b: Block :: s.inc(b) == IncBytes(b)
    ensures output == Ctr(s, ctr0, input, n) && ctr == CounterAt(s, ctr0, n)
  {
    output, ctr := [], ctr0;
    var i := 0;
    while i < n
      invariant 0 <= i <= n && output == Ctr(s, ctr0, input, i) && ctr == CounterAt(s, ctr0, i)
    {
      output := output + XorBytes(BlockAt(input, i), s.enc(ctr));
      ctr := StepCounter(ctr);
      i := i + 1;
    }
  }

  /** sm4_crypt_ecb. */
  method CryptEcb(f: Block -> Block, input: Bytes, n: nat) returns (output: Bytes)
    requires |input| == 16 * n
    ensures |output| == 16 * n && forall i :: 0 <= i < n ==> BlockAt(output, i) == f(BlockAt(input, i))
  {
    output := [];
    var i := 0;
    while i < n
      invariant 0 <= i <= n && |output| == 16 * i
      invariant forall j :: 0 <= j < i ==> BlockAt(output, j) == f(BlockAt(input, j))
    {
      var b := f(BlockAt(input, i));
      forall j | 0 <= j < i + 1 ensures BlockAt(output + b, j) == f(BlockAt(input, j)) {
        assert j < i ==> BlockAt(output + b, j) == BlockAt(output, j);
      }
      output := output + b;
      i := i + 1;
    }
  }

  /** The block functions of an encryption and a decryption context with the same key are
      inverse, so over them CBC decryption inverts CBC encryption. */
  lemma CbcInverse(k: Perm, t: Tables, key: Block, r: seq<Word>, e: Block -> Block, f: Block -> Block,
                   iv: Block, d: Bytes, n: nat)
    requires Sized(t) && Reversed(Schedule(t, key), r) && |d| == 16 * n
    requires forall b: Block :: e(b) == Sm4Block(t, Schedule(t, key), b)
    requires forall b: Block :: f(b) == Sm4Block(t, r, b)
    requires forall v: Block, b: Block :: k.enc(v, b) == e(XorBytes(b, v))
    requires forall v: Block, b: Block :: k.dec(v, b) == XorBytes(f(b), v)
    ensures CbcDec(k, iv, CbcEnc(k, iv, d, n), n) == d
  {
    FunctionsInverse(t, Schedule(t, key), r, e, f);
    ChainInverse(k, e, f);
    CbcRoundTrip(k, iv, d, n);
  }

  /** CBC over the two block functions that a key gives. */
  ghost function KeyPerm(t: Tables, keys: seq<Word>, reversed: seq<Word>): Perm
    requires |keys| == ROUNDS == |reversed|
  {
    Perm((v: Block, b: Block) => Sm4Block(t, keys, XorBytes(b, v)),
         (v: Block, b: Block) => XorBytes(Sm4Block(t, reversed, b), v),
         (b: Block) => Sm4Block(t, reversed, b))
  }

  ghost function Backwards(keys: seq<Word>): (r: seq<Word>)
    requires |keys| == ROUNDS
    ensures Reversed(keys, r)
  {
    seq(ROUNDS, i requires 0 <= i < ROUNDS => keys[31 - i])
  }

  lemma OnlyReversed(keys: seq<Word>, r: seq<Word>)
    requires |keys| == ROUNDS && Reversed(keys, r)
    ensures r == Backwards(keys)
  {
  }

  /** A context keyed for encryption and then, with the same key, for decryption gives the text back. */
  method CbcThereAndBack(ctx: Context, key: Block, iv: Block, text: Bytes, n: nat) returns (output: Bytes)
    requires Sized(ctx.t) && ctx.sk.Length == ROUNDS && |text| == 16 * n
    modifies ctx, ctx.sk
    ensures output == text
  {
    ctx.SetKeyEnc(key);
    ghost var keys := ctx.sk[..];
    ghost var r := Backwards(keys);
    ghost var k := KeyPerm(ctx.t, keys, r);
    ghost var e := ctx.Cipher();
    var c, _ := ctx.Cbc(iv, text, n, k);
    ctx.SetKeyDec(key);
    OnlyReversed(keys, ctx.sk[..]);
    ghost var f := ctx.Cipher();
    var iv1;
    output, iv1 := ctx.Cbc(iv, c, n, k);
    CbcInverse(k, ctx.t, key, r, e, f, iv, text, n);
  }

  lemma FunctionsInverse(t: Tables, sk: seq<Word>, r: seq<Word>, e: Block -> Block, f: Block -> Block)
    requires Reversed(sk, r)
    requires forall b: Block :: e(b) == Sm4Block(t, sk, b)
    requires forall b: Block :: f(b) == Sm4Block(t, r, b)
    ensures forall b: Block :: f(e(b)) == b
  {
    forall b: Block ensures f(e(b)) == b {
      BlockInverse(t, sk, r, b);
    }
  }

  lemma ChainInverse(k: Perm, e: Block -> Block, f: Block -> Block)
    requires forall b: Block :: f(e(b)) == b
    requires forall v: Block, b: Block :: k.enc(v, b) == e(XorBytes(b, v))
    requires forall v: Block, b: Block :: k.dec(v, b) == XorBytes(f(b), v)
    ensures Inverse(k)
  {
    forall v: Block, b: Block ensures k.dec(v, k.enc(v, b)) == b {
      XorTwice(b, v);
    }
  }
}
