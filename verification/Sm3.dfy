/** The SM3 hash and HMAC-SM3 of core/crypto/sm3.c, for any compression function: data
    arrives in updates of any length. */
module Sm3 {
  import opened ByteStrings

  /** The eight state words as the 32 bytes they are output as. */
  type Digest = b: Bytes | |b| == 32 witness seq(32, i => 0)

  /** sm3_process and the initial state. */
  datatype Hash = Hash(comp: (Digest, Bytes) -> Digest, iv: Digest)

  const RANGE: nat := 0x1_0000_0000

  // ---- The hash of a whole message ----

  function BlockAt(m: Bytes, i: nat): Bytes
    requires 64 * i + 64 <= |m|
  {
    m[64 * i..64 * i + 64]
  }

  /** The compression function folded over n blocks of m. */
  function Fold(c: Hash, m: Bytes, n: nat): Digest
    requires 64 * n <= |m|
  {
    if n == 0 then c.iv else c.comp(Fold(c, m, n - 1), BlockAt(m, n - 1))
  }

  /** 0x80 and zeros up to eight bytes short of a block, after a message that ends with r
      bytes of a block. */
  function Filler(r: nat): (f: Bytes)
    requires r < 64
    ensures |f| == if r < 56 then 56 - r else 120 - r
  {
    [0x80] + ZeroBytes((if r < 56 then 56 - r else 120 - r) - 1)
  }

  /** The bit length of a message of len bytes, as a 64-bit number. */
  function LengthBytes(len: nat): (r: Bytes)
    ensures |r| == 8
  {
    BigEndian((8 * len) % (RANGE * RANGE), WORD_BYTES)
  }

  /** The message padded to whole blocks, with len written as its length. */
  function Padded(m: Bytes, len: nat): (r: Bytes) {
    m + Filler(|m| % 64) + LengthBytes(len)
  }

  /** The number of its blocks. */
  function PaddedBlocks(len: nat): nat {
    len / 64 + if len % 64 < 56 then 1 else 2
  }

  lemma PaddedLength(m: Bytes, len: nat)
    ensures |Padded(m, len)| == 64 * PaddedBlocks(|m|)
  {
  }

  /** Section 5.2 of GM/T 0004-2012: the message, a one bit, the fewest zeros that leave eight bytes to
      a whole block, and the bit length in those eight. */
  lemma PaddingIs(m: Bytes, len: nat)
    ensures var p := Padded(m, len);
            && |p| % 64 == 0 && |m| + 9 <= |p| < |m| + 9 + 64 && p[..|m|] == m && p[|m|] == 0x80
            && (forall i :: |m| < i < |p| - 8 ==> p[i] == 0)
            && BytesValue(p[|p| - 8..]) == (8 * len) % (RANGE * RANGE)
  {
    var p, l := Padded(m, len), LengthBytes(len);
    PaddedLength(m, len);
    assert p[|p| - 8..] == l;
    LengthValue(len);
  }

  lemma LengthValue(len: nat)
    ensures BytesValue(LengthBytes(len)) == (8 * len) % (RANGE * RANGE)
  {
    Pow256Of8();
    assert WORD_RANGE == RANGE * RANGE;
    BigEndianValue((8 * len) % (RANGE * RANGE), WORD_BYTES);
  }

  /** The hash of m when len is taken for its length. */
  function Hashed(c: Hash, m: Bytes, len: nat): Digest {
    PaddedLength(m, len);
    Fold(c, Padded(m, len), PaddedBlocks(|m|))
  }

  function Sm3(c: Hash, m: Bytes): Digest {
    Hashed(c, m, |m|)
  }

  lemma {:induction false} FoldPrefix(c: Hash, m: Bytes, x: Bytes, n: nat)
    requires 64 * n <= |m|
    ensures Fold(c, m + x, n) == Fold(c, m, n)
    decreases n
  {
    if n > 0 {
      FoldPrefix(c, m, x, n - 1);
      assert BlockAt(m + x, n - 1) == BlockAt(m, n - 1);
    }
  }

  /** The bytes x complete block n. */
  lemma FoldOn(c: Hash, m: Bytes, x: Bytes, n: nat, b: Bytes)
    requires 64 * n <= |m| && |m| + |x| == 64 * n + 64 && b == m[64 * n..] + x
    ensures Fold(c, m + x, n + 1) == c.comp(Fold(c, m, n), b)
  {
    FoldPrefix(c, m, x, n);
    assert BlockAt(m + x, n) == b;
  }

  // ---- The context ----

  /** struct sm3_context without the HMAC pads. */
  datatype State = State(h: Digest, total0: nat, total1: nat, buffer: Bytes)

  /** Message m has been taken in: n whole blocks are folded, the rest is in the buffer. */
  ghost predicate Holds(c: Hash, m: Bytes, n: nat, s: State) {
    && |s.buffer| == 64 && 64 * n <= |m| < 64 * n + 64
    && s.h == Fold(c, m, n) && s.buffer[..|m| - 64 * n] == m[64 * n..]
  }

  /** The low word counts the bytes modulo 2^32, which is all that the buffering needs. */
  ghost predicate LowCounts(len: nat, s: State) {
    s.total0 == len % RANGE && s.total1 < RANGE
  }

  /** The bytes counted by the two words. */
  function Counted(s: State): nat {
    s.total1 * RANGE + s.total0
  }

  /** The two words count the bytes modulo 2^64. */
  ghost predicate Counts(len: nat, s: State) {
    s.total0 < RANGE && s.total1 < RANGE && Counted(s) == len % (RANGE * RANGE)
  }

  /** sm3_init. */
  function Started(c: Hash, buffer: Bytes): State {
    State(c.iv, 0, 0, buffer)
  }

  lemma StartedHolds(c: Hash, buffer: Bytes)
    requires |buffer| == 64
    ensures Holds(c, [], 0, Started(c, buffer)) && LowCounts(0, Started(c, buffer)) && Counted(Started(c, buffer)) == 0
  {
  }

  // ---- Counting ----

  /** The carry out of the low word, as the code sees it: the sum, cut to 32 bits, compared
      with the length, which is not. */
  function Carry(total0: nat, len: nat): nat {
    if (total0 + len) % RANGE < len then 1 else 0
  }

  /** It is the carry exactly for lengths below 2^32 and those that carry once. */
  lemma CarryIff(total0: nat, len: nat)
    requires total0 < RANGE
    ensures Carry(total0, len) == (total0 + len) / RANGE <==> len < RANGE || total0 + len < 2 * RANGE
  {
    var q, r := (total0 + len) / RANGE, (total0 + len) % RANGE;
    assert total0 + len == q * RANGE + r;
    if len < RANGE {
      assert q <= 1;
    } else {
      assert q >= 1;
    }
  }

  /** An input that goes wrong: 8 GiB in one update are counted as 4 GiB. */
  lemma CountSlips()
    ensures Carry(0, 2 * RANGE) == 1 && 2 * RANGE / RANGE == 2 && AddCount(0, 2 * RANGE) == RANGE
  {
  }

  function AddTotal(s: State, len: nat): State {
    s.(total0 := (s.total0 + len) % RANGE, total1 := (s.total1 + Carry(s.total0, len)) % RANGE)
  }

  /** What an update of len bytes makes of a count n. */
  function AddCount(n: nat, len: nat): (r: nat)
    ensures r < RANGE * RANGE
  {
    ((n / RANGE + Carry(n % RANGE, len)) % RANGE) * RANGE + (n % RANGE + len) % RANGE
  }

  lemma AddTotalCounts(s: State, len: nat, more: nat)
    requires LowCounts(len, s)
    ensures LowCounts(len + more, AddTotal(s, more)) && Counted(AddTotal(s, more)) == AddCount(Counted(s), more)
  {
    assert Counted(s) / RANGE == s.total1 && Counted(s) % RANGE == s.total0;
    LowWord(len, more);
  }

  lemma LowWord(len: nat, more: nat)
    ensures (len % RANGE + more) % RANGE == (len + more) % RANGE
  {
    var q, t := len / RANGE, (len % RANGE + more) / RANGE;
    assert len + more == (q + t) * RANGE + (len % RANGE + more) % RANGE;
  }

  /** Lengths for which the count stays right. */
  predicate Countable(n: nat, len: nat) {
    len < RANGE || n % RANGE + len < 2 * RANGE
  }

  /** For every length a size_t can hold, the count of a message of n bytes stays right exactly
      when the update is countable. */
  lemma CountRightIff(n: nat, more: nat)
    requires more < RANGE * RANGE
    ensures AddCount(n % (RANGE * RANGE), more) == (n + more) % (RANGE * RANGE) <==> Countable(n, more)
  {
    var w := n % (RANGE * RANGE);
    var t1, t0 := w / RANGE, w % RANGE;
    LowOfCount(n);
    CarryIff(t0, more);
    var q, r := (t0 + more) / RANGE, (t0 + more) % RANGE;
    TwoWords(t1, t0, n, more, q, r);
    if !Countable(n, more) {
      QuotientBelow(t0, more, q, r);
      WordMoves(t1, q);
    }
  }

  lemma LowOfCount(n: nat)
    ensures n % (RANGE * RANGE) % RANGE == n % RANGE
    ensures n % (RANGE * RANGE) == (n % (RANGE * RANGE)) / RANGE * RANGE + n % RANGE
  {
    var a, w := n / (RANGE * RANGE), n % (RANGE * RANGE);
    var t1, t0 := w / RANGE, w % RANGE;
    assert n == (a * RANGE + t1) * RANGE + t0;
  }

  lemma QuotientBelow(t0: nat, more: nat, q: nat, r: nat)
    requires t0 < RANGE && RANGE <= more < RANGE * RANGE && 2 * RANGE <= t0 + more == q * RANGE + r && r < RANGE
    ensures 1 < q <= RANGE
  {
  }

  lemma WordMoves(t: nat, q: nat)
    requires t < RANGE && 1 < q <= RANGE
    ensures (t + q) % RANGE != (t + 1) % RANGE
  {
  }

  lemma TwoWords(t1: nat, t0: nat, len: nat, more: nat, q: nat, r: nat)
    requires t1 * RANGE + t0 == len % (RANGE * RANGE) && t0 + more == q * RANGE + r && r < RANGE
    ensures ((t1 + q) % RANGE) * RANGE + r == (len + more) % (RANGE * RANGE)
  {
    var w := RANGE * RANGE;
    var a, b := len / w, (t1 + q) / RANGE;
    assert len == a * w + (t1 * RANGE + t0);
    assert t1 + q == b * RANGE + (t1 + q) % RANGE;
    assert len + more == (a + b) * w + (((t1 + q) % RANGE) * RANGE + r);
  }

  lemma PadCount()
    ensures AddCount(0, 64) == 64
  {
  }

  /** The outer hash of HMAC is over 64 and 32 bytes. */
  lemma OuterCount(s: State, len: nat)
    requires Counted(s) == AddCount(AddCount(0, 64), 32) && LowCounts(len, s) && len == 96
    ensures Counts(len, s)
  {
    PadCount();
    assert AddCount(64, 32) == 96;
  }

  // ---- Updates ----

  lemma Filled(c: Hash, m: Bytes, n: nat, s: State, x: Bytes, pos: nat)
    requires Holds(c, m, n, s) && pos == |m| - 64 * n && pos + |x| < 64
    ensures Holds(c, m + x, n, s.(buffer := Splice(s.buffer, pos, x)))
  {
    FoldPrefix(c, m, x, n);
    assert (m + x)[64 * n..] == m[64 * n..] + x;
  }

  /** A block completed in the buffer, or taken straight from the input, is folded in. */
  lemma Completed(c: Hash, m: Bytes, n: nat, s: State, x: Bytes, b: Bytes, buffer: Bytes)
    requires Holds(c, m, n, s) && |m| + |x| == 64 * n + 64 && b == m[64 * n..] + x && |buffer| == 64
    ensures Holds(c, m + x, n + 1, s.(h := c.comp(s.h, b), buffer := buffer))
  {
    FoldOn(c, m, x, n, b);
    assert buffer[..0] == [] && (m + x)[64 * (n + 1)..] == [];
  }

  /** The whole blocks of the rest of the input, from d on. */
  method TakeBlocks(c: Hash, s0: State, input: Bytes, d0: nat, ghost m: Bytes, ghost n0: nat)
    returns (s: State, d: nat, ghost n: nat)
    requires d0 <= |input| && Holds(c, m + input[..d0], n0, s0) && |m| + d0 == 64 * n0
    ensures d0 <= d <= |input| < d + 64 && Holds(c, m + input[..d], n, s) && |m| + d == 64 * n
    ensures s.total0 == s0.total0 && s.total1 == s0.total1
  {
    s, d, n := s0, d0, n0;
    while |input| - d >= 64
      invariant d0 <= d <= |input| && Holds(c, m + input[..d], n, s) && |m| + d == 64 * n
      invariant s.total0 == s0.total0 && s.total1 == s0.total1
    {
      var b := input[d..d + 64];
      Completed(c, m + input[..d], n, s, b, b, s.buffer);
      Continue(m, input, d, 64);
      s := s.(h := c.comp(s.h, b));
      d, n := d + 64, n + 1;
    }
  }

  /** The first branch of sm3_update: the input completes the block in the buffer. */
  method FillBlock(c: Hash, s0: State, input: Bytes, left: nat, ghost m: Bytes, ghost n: nat) returns (s: State)
    requires Holds(c, m, n, s0) && left == |m| - 64 * n && |input| >= 64 - left
    ensures Holds(c, m + input[..64 - left], n + 1, s) && s.total0 == s0.total0 && s.total1 == s0.total1
  {
    var x := input[..64 - left];
    var b := Splice(s0.buffer, left, x);
    assert b == m[64 * n..] + x;
    Completed(c, m, n, s0, x, b, b);
    s := s0.(h := c.comp(s0.h, b), buffer := b);
  }

  /** The rest of the input, less than a block, goes into the buffer. */
  method Keep(c: Hash, s0: State, input: Bytes, d: nat, pos: nat, ghost m: Bytes, ghost n: nat) returns (s: State)
    requires d <= |input| && Holds(c, m + input[..d], n, s0) && pos == |m| + d - 64 * n && pos + |input| - d < 64
    ensures Holds(c, m + input, n, s) && s.total0 == s0.total0 && s.total1 == s0.total1
  {
    s := s0;
    Continue(m, input, d, |input| - d);
    if d < |input| {
      Filled(c, m + input[..d], n, s, input[d..], pos);
      s := s.(buffer := Splice(s.buffer, pos, input[d..]));
    }
  }

  /** The input from d on, where a block begins. */
  method TakeRest(c: Hash, s0: State, input: Bytes, d0: nat, ghost m: Bytes, ghost n0: nat)
    returns (s: State, ghost n: nat)
    requires d0 <= |input| && Holds(c, m + input[..d0], n0, s0) && |m| + d0 == 64 * n0
    ensures Holds(c, m + input, n, s) && s.total0 == s0.total0 && s.total1 == s0.total1
  {
    var d;
    s, d, n := TakeBlocks(c, s0, input, d0, m, n0);
    s := Keep(c, s, input, d, 0, m, n);
  }

  /** sm3_update after the count: left bytes of a block are in the buffer. */
  method Absorb(c: Hash, s0: State, input: Bytes, left: nat, ghost m: Bytes, ghost n0: nat)
    returns (s: State, ghost n: nat)
    requires Holds(c, m, n0, s0) && left == |m| - 64 * n0
    ensures Holds(c, m + input, n, s) && s.total0 == s0.total0 && s.total1 == s0.total1
  {
    assert m + input[..0] == m;
    if left != 0 && |input| >= 64 - left {
      s := FillBlock(c, s0, input, left, m, n0);
      s, n := TakeRest(c, s, input, 64 - left, m, n0 + 1);
    } else if left == 0 {
      s, n := TakeRest(c, s0, input, 0, m, n0);
    } else {
      s := Keep(c, s0, input, 0, left, m, n0);
      n := n0;
    }
  }

  /** sm3_update. */
  method Update(c: Hash, s0: State, input: Bytes, ghost m: Bytes, ghost n0: nat) returns (s: State, ghost n: nat)
    requires Holds(c, m, n0, s0) && LowCounts(|m|, s0)
    ensures Holds(c, m + input, n, s) && LowCounts(|m + input|, s) && Counted(s) == AddCount(Counted(s0), |input|)
  {
    if |input| == 0 {
      AddTotalCounts(s0, |m|, 0);
      assert m + input == m && AddTotal(s0, 0) == s0;
      return s0, n0;
    }
    var left := s0.total0 % 64;
    var s1 := Advanced(s0, |m|, |input|, n0, left);
    s, n := Absorb(c, s1, input, left, m, n0);
    SameCount(s1, s, |m + input|);
  }

  /** The count of sm3_update. */
  method Advanced(s0: State, ghost len: nat, more: nat, ghost n: nat, left: nat) returns (s: State)
    requires LowCounts(len, s0) && 64 * n <= len < 64 * n + 64 && left == s0.total0 % 64
    ensures LowCounts(len + more, s) && Counted(s) == AddCount(Counted(s0), more)
    ensures s.h == s0.h && s.buffer == s0.buffer && left == len - 64 * n
  {
    AddTotalCounts(s0, len, more);
    Left(s0, len, n);
    s := AddTotal(s0, more);
  }

  lemma SameCount(s0: State, s: State, len: nat)
    requires LowCounts(len, s0) && s.total0 == s0.total0 && s.total1 == s0.total1
    ensures LowCounts(len, s) && Counted(s) == Counted(s0)
  {
  }

  /** The low word's position in a block is the message's. */
  lemma Left(s: State, len: nat, n: nat)
    requires LowCounts(len, s) && 64 * n <= len < 64 * n + 64
    ensures s.total0 % 64 == len - 64 * n
  {
    var a := len / RANGE;
    assert len == 64 * (RANGE / 64 * a) + s.total0;
  }

  // ---- The end ----

  /** The upper and lower half of the bit length. */
  function High(s: State): nat {
    (s.total1 * 8) % RANGE + s.total0 / TOP
  }

  function Low(s: State): nat {
    (s.total0 * 8) % RANGE
  }

  const TOP: nat := 0x2000_0000

  /** A word times eight: its top three bits leave. */
  lemma TimesEight(t: nat)
    requires t < RANGE
    ensures (t * 8) % RANGE == 8 * (t % TOP) && t * 8 == (t / TOP) * RANGE + 8 * (t % TOP) && t / TOP < 8
  {
    var q, r := t / TOP, t % TOP;
    assert t == q * TOP + r;
    assert t * 8 == q * RANGE + 8 * r;
  }

  lemma RemainderIs(n: nat, q: nat, r: nat)
    requires n == q * (RANGE * RANGE) + r && r < RANGE * RANGE
    ensures n % (RANGE * RANGE) == r
  {
  }

  lemma BitLength(len: nat, s: State)
    requires Counts(len, s)
    ensures High(s) < RANGE && Low(s) < RANGE && High(s) * RANGE + Low(s) == (8 * len) % (RANGE * RANGE)
  {
    TimesEight(s.total1);
    TimesEight(s.total0);
    var a, b, q, r := s.total1 / TOP, s.total1 % TOP, s.total0 / TOP, s.total0 % TOP;
    var k := len / (RANGE * RANGE);
    assert len == k * (RANGE * RANGE) + (s.total1 * RANGE + s.total0);
    RemainderIs(8 * len, 8 * k + a, (8 * b + q) * RANGE + 8 * r);
  }

  lemma DivStep(x: nat, b: nat)
    ensures (256 * x + b) / 256 == x + b / 256 && (256 * x + b) % 256 == b % 256
  {
  }

  lemma MulStep(a: nat, p: nat, q: nat)
    requires p == 256 * q
    ensures a * p == 256 * (a * q)
  {
  }

  lemma ByteOff(a: nat, b: nat, p: nat, q: nat, n: nat)
    requires p == 256 * q && b < p && n == a * p + b
    ensures n / 256 == a * q + b / 256 && n % 256 == b % 256 && b / 256 < q
  {
    MulStep(a, p, q);
    DivStep(a * q, b);
  }

  lemma {:induction false} BigEndianJoin(a: nat, b: nat, i: nat, j: nat, p: nat, n: nat)
    requires p == Pow256(j) && b < p && n == a * p + b
    ensures BigEndian(n, i + j) == BigEndian(a, i) + BigEndian(b, j)
    decreases j
  {
    if j > 0 {
      var q := Pow256(j - 1);
      ByteOff(a, b, p, q, n);
      BigEndianJoin(a, b / 256, i, j - 1, q, n / 256);
    }
  }

  const HALF_BYTES: nat := 4

  function LengthField(s: State): Bytes {
    BigEndian(High(s), HALF_BYTES) + BigEndian(Low(s), HALF_BYTES)
  }

  lemma LengthIs(len: nat, s: State)
    requires Counts(len, s)
    ensures LengthField(s) == LengthBytes(len)
  {
    BitLength(len, s);
    assert Pow256(4) == RANGE;
    BigEndianJoin(High(s), Low(s), HALF_BYTES, HALF_BYTES, RANGE, (8 * len) % (RANGE * RANGE));
  }

  /** sm3_final: the digest over the bytes the two words count. */
  method Final(c: Hash, s0: State, ghost m: Bytes, ghost n0: nat) returns (digest: Digest)
    requires Holds(c, m, n0, s0) && LowCounts(|m|, s0)
    ensures digest == Hashed(c, m, Counted(s0))
    ensures Counts(|m|, s0) ==> digest == Sm3(c, m)
  {
    var msglen := LengthField(s0);
    ghost var len := if Counts(|m|, s0) then |m| else Counted(s0);
    CountsItself(s0);
    LengthIs(Counted(s0), s0);
    LengthIs(len, s0);
    Left(s0, |m|, n0);
    var last := s0.total0 % 64;
    var padding := Filler(last);
    var s;
    ghost var n;
    s, n := Update(c, s0, padding, m, n0);
    s, n := Update(c, s, msglen, m + padding, n);
    PaddedIs(m, Counted(s0), n0, last);
    PaddedIs(m, len, n0, last);
    Finished(c, m, Counted(s0), n, s);
    digest := s.h;
  }

  lemma CountsItself(s: State)
    requires s.total0 < RANGE && s.total1 < RANGE
    ensures Counts(Counted(s), s)
  {
    RemainderIs(Counted(s), 0, Counted(s));
  }

  lemma PaddedIs(m: Bytes, len: nat, n: nat, last: nat)
    requires 64 * n <= |m| < 64 * n + 64 && last == |m| - 64 * n
    ensures Padded(m, len) == m + Filler(last) + LengthBytes(len)
  {
    assert |m| % 64 == last;
  }

  lemma Finished(c: Hash, m: Bytes, len: nat, n: nat, s: State)
    requires Holds(c, Padded(m, len), n, s)
    ensures s.h == Hashed(c, m, len)
  {
    PaddedLength(m, len);
    assert n == PaddedBlocks(|m|);
  }

  // ---- Whole messages ----

  /** struct sm3_context. */
  class Context {
    const c: Hash
    var st: State
    var ipad: Bytes
    var opad: Bytes
    ghost var msg: Bytes
    ghost var blocks: nat

    constructor (c: Hash)
      ensures Valid() && this.c == c && msg == [] && Counted(st) == 0
    {
      this.c := c;
      st := Started(c, ZeroBytes(64));
      ipad, opad, msg, blocks := ZeroBytes(64), ZeroBytes(64), [], 0;
      new;
      StartedHolds(c, ZeroBytes(64));
    }

    ghost predicate Valid()
      reads this
    {
      Holds(c, msg, blocks, st) && LowCounts(|msg|, st)
    }

    /** sm3_init. */
    method Init()
      requires Valid()
      modifies this`st, this`msg, this`blocks
      ensures Valid() && msg == [] && Counted(st) == 0
    {
      StartedHolds(c, st.buffer);
      st, msg, blocks := Started(c, st.buffer), [], 0;
    }

    /** sm3_update and sm3_hmac_update. */
    method Take(input: Bytes)
      requires Valid()
      modifies this`st, this`msg, this`blocks
      ensures Valid() && msg == old(msg) + input && Counted(st) == AddCount(old(Counted(st)), |input|)
    {
      var s;
      ghost var n;
      s, n := Update(c, st, input, msg, blocks);
      st, msg, blocks := s, msg + input, n;
    }

    /** sm3_final: whatever the updates were, the digest is that of all they brought. */
    method Finish() returns (digest: Digest)
      requires Valid()
      ensures digest == Hashed(c, msg, Counted(st))
      ensures Counts(|msg|, st) ==> digest == Sm3(c, msg)
    {
      digest := Final(c, st, msg, blocks);
    }

    /** sm3_hmac_init. */
    method HmacInit(key: Bytes)
      requires Valid()
      modifies this
      ensures Valid() && msg == ipad && Counted(st) == 64
      ensures var k := KeyBlock(c, key, AddCount(0, |key|));
              ipad == XorBytes(k, Repeat(0x36, 64)) && opad == XorBytes(k, Repeat(0x5C, 64))
    {
      PadCount();
      var k := ShortKey(c, key);
      ipad := MaskKey(k, 0x36);
      opad := MaskKey(k, 0x5C);
      Init();
      Take(ipad);
      assert [] + ipad == ipad;
    }

    /** sm3_hmac_final. */
    method HmacFinal() returns (digest: Digest)
      requires Valid() && |opad| == 64
      modifies this`st, this`msg, this`blocks
      ensures Valid() && digest == Sm3(c, opad + Hashed(c, old(msg), old(Counted(st))))
    {
      var inner := Finish();
      Init();
      Take(opad);
      Take(inner);
      OuterCount(st, |msg|);
      assert [] + opad == opad;
      digest := Finish();
    }
  }

  /** sm3. */
  method OneShot(c: Hash, input: Bytes) returns (digest: Digest)
    ensures digest == Hashed(c, input, AddCount(0, |input|))
    ensures |input| < 2 * RANGE ==> digest == Sm3(c, input)
  {
    var ctx := new Context(c);
    ctx.Take(input);
    assert [] + input == input;
    digest := ctx.Finish();
    if |input| < 2 * RANGE {
      CountRightIff(0, |input|);
    }
  }

  // ---- HMAC ----

  function Repeat(x: Byte, n: nat): (r: Bytes)
    ensures |r| == n
  {
    if n == 0 then [] else [x] + Repeat(x, n - 1)
  }

  /** The key of section 2 of RFC 2104: hashed, with len for its length, if longer than a block, then
      padded with zeros. */
  function KeyBlock(c: Hash, key: Bytes, len: nat): (r: Bytes)
    ensures |r| == 64
  {
    var k: Bytes := if |key| > 64 then Hashed(c, key, len) else key;
    k + Repeat(0, 64 - |k|)
  }

  /** The key that sm3_hmac_init masks: a long one is hashed first. */
  method ShortKey(c: Hash, key: Bytes) returns (k: Bytes)
    ensures |k| <= 64 && k + Repeat(0, 64 - |k|) == KeyBlock(c, key, AddCount(0, |key|))
  {
    k := key;
    if |key| > 64 {
      k := OneShot(c, key);
    }
  }

  /** The two hashes over the key block k, the inner one over len bytes. */
  function HmacOver(c: Hash, k: Bytes, m: Bytes, len: nat): Digest
    requires |k| == 64
  {
    Sm3(c, XorBytes(k, Repeat(0x5C, 64)) + Hashed(c, XorBytes(k, Repeat(0x36, 64)) + m, len))
  }

  function Hmac(c: Hash, key: Bytes, m: Bytes): Digest {
    HmacOver(c, KeyBlock(c, key, |key|), m, 64 + |m|)
  }

  /** The loop that masks the key into a pad of constant bytes. */
  method MaskKey(key: Bytes, x: Byte) returns (pad: Bytes)
    requires |key| <= 64
    ensures pad == XorBytes(key + Repeat(0, 64 - |key|), Repeat(x, 64))
  {
    pad := Repeat(x, 64);
    var i := 0;
    forall j | 0 <= j < 64 ensures pad[j] == x {
      RepeatAt(x, 64, j);
    }
    while i < |key|
      invariant 0 <= i <= |key| && |pad| == 64 && Masked(key, x, pad, i)
    {
      pad := pad[i := XorByte(key[i], pad[i])];
      i := i + 1;
    }
    MaskIs(key, x, pad);
  }

  ghost predicate Masked(key: Bytes, x: Byte, pad: Bytes, n: nat)
    requires n <= |key| <= |pad|
  {
    forall j :: 0 <= j < |pad| ==> pad[j] == if j < n then XorByte(key[j], x) else x
  }

  lemma MaskIs(key: Bytes, x: Byte, pad: Bytes)
    requires |key| <= |pad| == 64 && Masked(key, x, pad, |key|)
    ensures pad == XorBytes(key + Repeat(0, 64 - |key|), Repeat(x, 64))
  {
    forall j | 0 <= j < 64 ensures pad[j] == XorBytes(key + Repeat(0, 64 - |key|), Repeat(x, 64))[j] {
      MaskAt(key, x, j);
    }
  }

  lemma MaskAt(key: Bytes, x: Byte, j: nat)
    requires |key| <= 64 && j < 64
    ensures XorBytes(key + Repeat(0, 64 - |key|), Repeat(x, 64))[j] == if j < |key| then XorByte(key[j], x) else x
  {
    XorAt(key + Repeat(0, 64 - |key|), Repeat(x, 64), j);
    RepeatAt(x, 64, j);
    if j >= |key| {
      RepeatAt(0, 64 - |key|, j - |key|);
      XorZero(x);
    }
  }

  lemma {:induction false} XorAt(a: Bytes, b: Bytes, j: nat)
    requires |a| == |b| && j < |a|
    ensures XorBytes(a, b)[j] == XorByte(a[j], b[j])
    decreases j
  {
    if j > 0 {
      XorAt(a[1..], b[1..], j - 1);
    }
  }

  lemma {:induction false} RepeatAt(x: Byte, n: nat, i: nat)
    requires i < n
    ensures Repeat(x, n)[i] == x
    decreases n
  {
    if i > 0 {
      RepeatAt(x, n - 1, i - 1);
    }
  }

  // ---- Messages in pieces ----

  /** The first n pieces, joined. */
  function Joined(ps: seq<Bytes>, n: nat): Bytes
    requires n <= |ps|
  {
    if n == 0 then [] else Joined(ps, n - 1) + ps[n - 1]
  }

  /** The count after the first n pieces. */
  function CountAll(from: nat, ps: seq<Bytes>, n: nat): nat
    requires n <= |ps|
  {
    if n == 0 then from else AddCount(CountAll(from, ps, n - 1), |ps[n - 1]|)
  }

  /** Pieces below 4 GiB are counted right. */
  lemma {:induction false} CountAllRight(from: nat, ps: seq<Bytes>, n: nat)
    requires n <= |ps| && from < RANGE * RANGE && forall i :: 0 <= i < n ==> |ps[i]| < RANGE
    ensures CountAll(from, ps, n) == (from + |Joined(ps, n)|) % (RANGE * RANGE)
    decreases n
  {
    if n == 0 {
      RemainderIs(from, 0, from);
    } else {
      CountAllRight(from, ps, n - 1);
      CountRightIff(from + |Joined(ps, n - 1)|, |ps[n - 1]|);
    }
  }

  /** A length and the same modulo 2^64 are written alike. */
  lemma SameHash(c: Hash, m: Bytes, len: nat, count: nat)
    requires count == len % (RANGE * RANGE)
    ensures Hashed(c, m, count) == Hashed(c, m, len)
  {
    var q := len / (RANGE * RANGE);
    assert 8 * len == 8 * q * (RANGE * RANGE) + 8 * count;
    SameRemainder(8 * count, 8 * q);
    PaddedLength(m, len);
    assert LengthBytes(count) == LengthBytes(len);
  }

  lemma SameRemainder(a: nat, k: nat)
    ensures (k * (RANGE * RANGE) + a) % (RANGE * RANGE) == a % (RANGE * RANGE)
  {
    var q, r := a / (RANGE * RANGE), a % (RANGE * RANGE);
    RemainderIs(k * (RANGE * RANGE) + a, k + q, r);
  }

  method TakeAll(ctx: Context, ps: seq<Bytes>)
    requires ctx.Valid()
    modifies ctx`st, ctx`msg, ctx`blocks
    ensures ctx.Valid() && ctx.msg == old(ctx.msg) + Joined(ps, |ps|)
    ensures Counted(ctx.st) == CountAll(old(Counted(ctx.st)), ps, |ps|)
  {
    ghost var m, from := ctx.msg, Counted(ctx.st);
    var i := 0;
    assert m + [] == m;
    while i < |ps|
      invariant 0 <= i <= |ps| && ctx.Valid() && ctx.msg == m + Joined(ps, i)
      invariant Counted(ctx.st) == CountAll(from, ps, i)
    {
      ctx.Take(ps[i]);
      assert m + Joined(ps, i) + ps[i] == m + (Joined(ps, i) + ps[i]);
      i := i + 1;
    }
  }

  /** The hash depends on how the message was cut only through the count: for pieces below 4 GiB
      not at all. */
  method HashPieces(c: Hash, ps: seq<Bytes>) returns (digest: Digest)
    ensures digest == Hashed(c, Joined(ps, |ps|), CountAll(0, ps, |ps|))
    ensures (forall i :: 0 <= i < |ps| ==> |ps[i]| < RANGE) ==> digest == Sm3(c, Joined(ps, |ps|))
  {
    var ctx := new Context(c);
    TakeAll(ctx, ps);
    assert [] + Joined(ps, |ps|) == Joined(ps, |ps|);
    digest := ctx.Finish();
    if forall i :: 0 <= i < |ps| ==> |ps[i]| < RANGE {
      CountAllRight(0, ps, |ps|);
      SameHash(c, Joined(ps, |ps|), |Joined(ps, |ps|)|, CountAll(0, ps, |ps|));
    }
  }

  /** sm3_hmac, with the message in any pieces: with a key below 8 GiB and pieces below 4 GiB it is
      HMAC of section 2 of RFC 2104. */
  method HmacPieces(c: Hash, key: Bytes, ps: seq<Bytes>) returns (digest: Digest)
    ensures digest == HmacOver(c, KeyBlock(c, key, AddCount(0, |key|)), Joined(ps, |ps|), CountAll(64, ps, |ps|))
    ensures |key| < 2 * RANGE && (forall i :: 0 <= i < |ps| ==> |ps[i]| < RANGE) ==>
        digest == Hmac(c, key, Joined(ps, |ps|))
  {
    var ctx := new Context(c);
    ctx.HmacInit(key);
    TakeAll(ctx, ps);
    digest := ctx.HmacFinal();
    if |key| < 2 * RANGE && forall i :: 0 <= i < |ps| ==> |ps[i]| < RANGE {
      HmacRight(c, key, ps);
    }
  }

  lemma HmacRight(c: Hash, key: Bytes, ps: seq<Bytes>)
    requires |key| < 2 * RANGE && forall i :: 0 <= i < |ps| ==> |ps[i]| < RANGE
    ensures HmacOver(c, KeyBlock(c, key, AddCount(0, |key|)), Joined(ps, |ps|), CountAll(64, ps, |ps|))
         == Hmac(c, key, Joined(ps, |ps|))
  {
    CountRightIff(0, |key|);
    RemainderIs(|key|, 0, |key|);
    CountAllRight(64, ps, |ps|);
    var k := KeyBlock(c, key, |key|);
    SameHash(c, XorBytes(k, Repeat(0x36, 64)) + Joined(ps, |ps|), 64 + |Joined(ps, |ps|)|, CountAll(64, ps, |ps|));
  }
}
