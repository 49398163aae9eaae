/** The buffered AES-GCM context of core/crypto/aes-gcm.c and aes-gcm-sw.c: associated data
    and payload arrive in pieces of any size at any address. */
module Gcm {
  import opened ByteStrings
  import opened GcmSpec

  datatype Mode = Encrypt | Decrypt
  datatype Result = Success | BadParameters | ShortBuffer | MacInvalid

  /** struct internal_aes_gcm_state. */
  datatype State = State(ctr: Counter, hash: Block, bufTag: Block, bufHash: Block, bufCryp: Block,
                         tagLen: nat, aadBytes: nat, payloadBytes: nat, bufPos: nat)

  /** The message a context has seen: mode, first counter, associated data as it entered the
      hash, the length it was given with, its padded hash, number of complete payload blocks,
      ciphertext. */
  datatype Message = Message(mode: Mode, j0: Counter, aad: Bytes, aadLen: nat, y0: Block, blocks: nat, ct: Bytes)

  // ---- What the fields mean ----

  /** Hash state and partial block after hashing d from y0. */
  ghost predicate Hashed(c: Cipher, y0: Block, d: Bytes, s: State) {
    s.bufPos < 16 && Feed(c.mulH, Running(y0, []), d) == Running(s.hash, s.bufHash[..s.bufPos])
  }

  ghost function StreamBlock(c: Cipher, g: Message): Block {
    c.enc(After(c.inc, g.j0, 1 + g.blocks))
  }

  /** Counter and stream buffer when pos bytes of the payload block in progress have been
      used.  Encryption keeps the stream block ready; decryption makes it when a block is
      begun. */
  ghost predicate Counting(c: Cipher, g: Message, pos: nat, s: State) {
    && s.ctr == After(c.inc, g.j0, g.blocks + if g.mode.Encrypt? then 2 else 1)
    && (g.mode.Encrypt? || pos > 0 ==> Agree(s.bufCryp, StreamBlock(c, g), pos))
  }

  /** Two blocks agree from position pos on. */
  ghost predicate Agree(a: Block, b: Block, pos: nat) {
    forall i :: pos <= i < 16 ==> a[i] == b[i]
  }

  lemma SpliceAgrees(a: Block, b: Block, pos: nat, x: Bytes)
    requires pos + |x| <= 16 && Agree(a, b, pos)
    ensures Agree(Splice(a, pos, x), b, pos + |x|)
    ensures a[pos..pos + |x|] == b[pos..pos + |x|]
  {
  }

  lemma SpliceWhole(a: Block, x: Block)
    ensures Splice(a, 0, x) == x && a[0..16] == a
  {
  }

  ghost predicate InPayload(c: Cipher, g: Message, s: State) {
    Hashed(c, g.y0, g.ct, s) && |g.ct| == 16 * g.blocks + s.bufPos && Counting(c, g, s.bufPos, s)
  }

  /** Fields that payload processing leaves alone. */
  predicate SameRest(s: State, t: State) {
    s.bufTag == t.bufTag && s.tagLen == t.tagLen && s.aadBytes == t.aadBytes && s.payloadBytes == t.payloadBytes
  }

  // ---- Hashing ----

  /** ghash_update_block. */
  function GhashBlock(c: Cipher, s: State, b: Block): State {
    s.(hash := c.mulH(XorBytes(s.hash, b)))
  }

  /** internal_aes_gcm_ghash_update: an optional head block, then n blocks of data. */
  method GhashUpdate(c: Cipher, s0: State, useHead: bool, data: Bytes, n: nat) returns (s: State)
    requires |data| == 16 * n
    ensures var h := if useHead then c.mulH(XorBytes(s0.hash, s0.bufHash)) else s0.hash;
            s == s0.(hash := Hash(c.mulH, h, data))
  {
    s := if useHead then GhashBlock(c, s0, s0.bufHash) else s0;
    ghost var h0 := s.hash;
    var i := 0;
    while i < n
      invariant 0 <= i <= n && s == s0.(hash := Hash(c.mulH, h0, data[..16 * i]))
    {
      var b: Block := data[16 * i..16 * i + 16];
      HashBlock(c.mulH, h0, data[..16 * i], b);
      assert data[..16 * i] + b == data[..16 * (i + 1)];
      s := GhashBlock(c, s, b);
      i := i + 1;
    }
    assert data[..16 * i] == data;
  }

  /** Copies x into the partial block. */
  function FillHash(s: State, x: Bytes): (r: State)
    requires s.bufPos + |x| <= 16
    ensures r.bufPos == s.bufPos + |x|
  {
    s.(bufHash := Splice(s.bufHash, s.bufPos, x), bufPos := s.bufPos + |x|)
  }

  lemma FillKeepsHashed(c: Cipher, y0: Block, d: Bytes, s: State, x: Bytes)
    requires Hashed(c, y0, d, s) && s.bufPos + |x| < 16
    ensures Hashed(c, y0, d + x, FillHash(s, x))
  {
    FeedConcat(c.mulH, Running(y0, []), d, x);
    FeedFill(c.mulH, Running(s.hash, s.bufHash[..s.bufPos]), x);
    assert FillHash(s, x).bufHash[..s.bufPos + |x|] == s.bufHash[..s.bufPos] + x;
  }

  /** A full block, hashed, empties the buffer. */
  lemma FullBlockHashed(c: Cipher, y0: Block, d: Bytes, s: State, x: Bytes, r: State)
    requires Hashed(c, y0, d, s) && s.bufPos + |x| == 16
    requires r == GhashBlock(c, FillHash(s, x), FillHash(s, x).bufHash).(bufPos := 0)
    ensures Hashed(c, y0, d + x, r)
  {
    FeedConcat(c.mulH, Running(y0, []), d, x);
    var b := FillHash(s, x).bufHash;
    assert b == s.bufHash[..s.bufPos] + x;
    FeedComplete(c.mulH, Running(s.hash, s.bufHash[..s.bufPos]), x, b);
    assert r.bufHash[..0] == [];
  }

  lemma BlocksHashed(c: Cipher, y0: Block, d: Bytes, s: State, x: Bytes, n: nat)
    requires Hashed(c, y0, d, s) && s.bufPos == 0 && |x| == 16 * n
    ensures Hashed(c, y0, d + x, s.(hash := Hash(c.mulH, s.hash, x)))
  {
    assert s.bufHash[..0] == [];
    FeedConcat(c.mulH, Running(y0, []), d, x);
    FeedBlocks(c.mulH, s.hash, x);
  }

  // ---- Associated data ----

  /** The hash fields may differ, nothing else. */
  predicate HashOnly(s: State, t: State) {
    s.ctr == t.ctr && s.bufCryp == t.bufCryp && SameRest(s, t)
  }

  /** Copies x into the partial block; a full block is left for the hash. */
  method FillAad(c: Cipher, s0: State, x: Bytes, ghost d: Bytes) returns (s: State, full: bool)
    requires Hashed(c, ZERO_BLOCK, d, s0) && s0.bufPos + |x| <= 16
    ensures HashOnly(s, s0) && full == (s0.bufPos + |x| == 16)
    ensures !full ==> Hashed(c, ZERO_BLOCK, d + x, s)
    ensures full ==> Hashed(c, ZERO_BLOCK, d + x, GhashBlock(c, s, s.bufHash)) && s.bufPos == 0
  {
    s := FillHash(s0, x);
    full := s.bufPos == 16;
    if full {
      s := s.(bufPos := 0);
      FullBlockHashed(c, ZERO_BLOCK, d, s0, x, GhashBlock(c, s, s.bufHash));
    } else {
      FillKeepsHashed(c, ZERO_BLOCK, d, s0, x);
    }
  }

  /** Hashes the block left in the buffer, if there is one, and n blocks y after it. */
  method HashAadBlocks(c: Cipher, s0: State, head: bool, y: Bytes, n: nat, ghost d: Bytes) returns (s: State)
    requires s0.bufPos == 0 && |y| == 16 * n
    requires Hashed(c, ZERO_BLOCK, d, if head then GhashBlock(c, s0, s0.bufHash) else s0)
    ensures HashOnly(s, s0) && Hashed(c, ZERO_BLOCK, d + y, s)
  {
    BlocksHashed(c, ZERO_BLOCK, d, if head then GhashBlock(c, s0, s0.bufHash) else s0, y, n);
    s := GhashUpdate(c, s0, head, y, n);
  }

  /** The loop of __gcm_update_aad: data lies at addr, and aligned says which addresses are
      block-aligned. */
  method HashAad(c: Cipher, s0: State, data: Bytes, addr: nat, aligned: nat -> bool, ghost aad: Bytes)
    returns (s: State)
    requires Hashed(c, ZERO_BLOCK, aad, s0)
    ensures Hashed(c, ZERO_BLOCK, aad + data, s) && HashOnly(s, s0)
  {
    s := s0;
    var d: nat, l: nat, head := 0, |data|, false;
    assert aad + data[..0] == aad;
    while l != 0
      invariant d + l == |data| && Hashed(c, ZERO_BLOCK, aad + data[..d], s) && HashOnly(s, s0)
      // a head left over from an earlier turn is refilled before it is used again
      invariant head ==> l < 16 || !aligned(addr + d)
      decreases l
    {
      if s.bufPos != 0 || !aligned(addr + d) || l < 16 {
        var n := if 16 - s.bufPos < l then 16 - s.bufPos else l;
        Continue(aad, data, d, n);
        s, head := FillAad(c, s, data[d..d + n], aad + data[..d]);
        if !head {
          return;
        }
        d, l := d + n, l - n;
      }
      var n := if aligned(addr + d) then l / 16 else 0;
      Continue(aad, data, d, 16 * n);
      s := HashAadBlocks(c, s, head, data[d..d + 16 * n], n, aad + data[..d]);
      l, d := l - 16 * n, d + 16 * n;
    }
    Continue(aad, data, d, 0);
  }

  // ---- Payload ----

  /** Decryption makes the stream block when it begins one. */
  function BeginBlock(c: Cipher, m: Mode, s: State, pos: nat): State {
    if pos == 0 && m.Decrypt? then s.(bufCryp := c.enc(s.ctr)) else s
  }

  /** x combined with the stream buffer from position pos on, and the buffer it leaves. */
  function XorOut(s: State, pos: nat, x: Bytes): (r: Bytes)
    requires pos + |x| <= 16
    ensures |r| == |x|
  {
    XorBytes(s.bufCryp[pos..pos + |x|], x)
  }

  function XorIn(s: State, pos: nat, out: Bytes): State
    requires pos + |out| <= 16
  {
    s.(bufCryp := Splice(s.bufCryp, pos, out))
  }

  /** After a complete block: encryption prepares the next stream block, then the counter
      moves on. */
  function NextBlock(c: Cipher, m: Mode, s: State): State {
    var s1 := if m.Encrypt? then s.(bufCryp := c.enc(s.ctr)) else s;
    s1.(ctr := c.inc(s1.ctr))
  }

  /** Using bytes of the stream block: the output is the stream cipher's, and the rest of
      the buffer is still stream. */
  lemma XorCounting(c: Cipher, g: Message, s: State, pos: nat, x: Bytes, b: State, out: Bytes)
    requires pos + |x| <= 16 && x != [] && Counting(c, g, pos, s) && |g.ct| == 16 * g.blocks + pos
    requires b == BeginBlock(c, g.mode, s, pos) && out == XorOut(b, pos, x)
    ensures out == Crypt(c, g.j0, x, |g.ct|) && Counting(c, g, pos + |x|, XorIn(b, pos, out))
  {
    assert Agree(b.bufCryp, StreamBlock(c, g), pos);
    SpliceAgrees(b.bufCryp, StreamBlock(c, g), pos, x);
    SpliceAgrees(b.bufCryp, StreamBlock(c, g), pos, out);
    CryptInBlock(c, g.j0, g.blocks, pos, x, StreamBlock(c, g), |g.ct|);
  }

  lemma NextCounting(c: Cipher, g: Message, s: State)
    requires Counting(c, g, 16, s)
    ensures Counting(c, g.(blocks := g.blocks + 1), 0, NextBlock(c, g.mode, s))
  {
  }

  /** The ciphertext among input and output. */
  function Side(m: Mode, x: Bytes, out: Bytes): (r: Bytes) {
    if m.Encrypt? then out else x
  }

  /** The message after h more bytes of ciphertext, which complete n blocks. */
  function More(g: Message, h: Bytes, n: nat): Message {
    g.(ct := g.ct + h, blocks := g.blocks + n)
  }

  /** The branch of __gcm_update_payload for a block in progress or less than a block. */
  function CryptPart(c: Cipher, m: Mode, s: State, x: Bytes): (r: (State, Bytes))
    requires s.bufPos + |x| <= 16
  {
    var b := BeginBlock(c, m, s, s.bufPos);
    var out := XorOut(b, s.bufPos, x);
    var f := FillHash(XorIn(b, s.bufPos, out), Side(m, x, out));
    if f.bufPos != 16 then (f, out)
    else (NextBlock(c, m, GhashBlock(c, f, f.bufHash).(bufPos := 0)), out)
  }

  lemma PartFills(c: Cipher, g: Message, s: State, h: Bytes)
    requires Hashed(c, g.y0, g.ct, s) && |g.ct| == 16 * g.blocks + s.bufPos
    requires s.bufPos + |h| < 16 && Counting(c, g, s.bufPos + |h|, s)
    ensures InPayload(c, More(g, h, 0), FillHash(s, h))
  {
    FillKeepsHashed(c, g.y0, g.ct, s, h);
  }

  lemma PartCompletes(c: Cipher, g: Message, s: State, h: Bytes, f: State, q: State)
    requires Hashed(c, g.y0, g.ct, s) && |g.ct| == 16 * g.blocks + s.bufPos
    requires s.bufPos + |h| == 16 && Counting(c, g, 16, s)
    requires f == FillHash(s, h) && q == GhashBlock(c, f, f.bufHash).(bufPos := 0)
    ensures InPayload(c, More(g, h, 1), NextBlock(c, g.mode, q))
  {
    FullBlockHashed(c, g.y0, g.ct, s, h, q);
    NextCounting(c, g, q);
  }

  lemma CryptPartOk(c: Cipher, g: Message, s: State, x: Bytes, r: State, out: Bytes)
    requires InPayload(c, g, s) && x != [] && s.bufPos + |x| <= 16 && (r, out) == CryptPart(c, g.mode, s, x)
    ensures out == Crypt(c, g.j0, x, |g.ct|) && SameRest(r, s)
    ensures InPayload(c, More(g, Side(g.mode, x, out), if s.bufPos + |x| == 16 then 1 else 0), r)
  {
    var b := BeginBlock(c, g.mode, s, s.bufPos);
    XorCounting(c, g, s, s.bufPos, x, b, out);
    var xs, h := XorIn(b, s.bufPos, out), Side(g.mode, x, out);
    if s.bufPos + |x| < 16 {
      PartFills(c, g, xs, h);
    } else {
      var f := FillHash(xs, h);
      PartCompletes(c, g, xs, h, f, GhashBlock(c, f, f.bufHash).(bufPos := 0));
    }
  }

  /** encrypt_block and decrypt_block. */
  function CryptBlock(c: Cipher, m: Mode, s: State, src: Block): (r: (State, Block)) {
    var b := BeginBlock(c, m, s, 0);
    var out: Block := XorBytes(b.bufCryp, src);
    var h := GhashBlock(c, b.(bufCryp := out), Side(m, src, out));
    (NextBlock(c, m, h), out)
  }

  lemma BlockHashed(c: Cipher, g: Message, s: State, h: Block)
    requires Hashed(c, g.y0, g.ct, s) && |g.ct| == 16 * g.blocks && s.bufPos == 0 && Counting(c, g, 16, s)
    ensures InPayload(c, More(g, h, 1), NextBlock(c, g.mode, GhashBlock(c, s, h)))
  {
    HashOne(c.mulH, s.hash, h);
    BlocksHashed(c, g.y0, g.ct, s, h, 1);
    NextCounting(c, g, GhashBlock(c, s, h));
  }

  lemma CryptBlockOk(c: Cipher, g: Message, s: State, src: Block, r: State, out: Block)
    requires InPayload(c, g, s) && s.bufPos == 0 && (r, out) == CryptBlock(c, g.mode, s, src)
    ensures out == Crypt(c, g.j0, src, |g.ct|) && SameRest(r, s) && r.bufPos == 0
    ensures InPayload(c, More(g, Side(g.mode, src, out), 1), r)
  {
    var b := BeginBlock(c, g.mode, s, 0);
    SpliceWhole(b.bufCryp, out);
    XorCounting(c, g, s, 0, src, b, out);
    BlockHashed(c, g, XorIn(b, 0, out), Side(g.mode, src, out));
  }

  // ---- Payload of any length ----

  /** The first d bytes of src are processed: dst is their stream encryption, and the message,
      g at first, is now h after k more complete blocks. */
  ghost predicate Crypted(c: Cipher, g: Message, src: Bytes, d: nat, dst: Bytes, k: nat, h: Message)
    requires d <= |src|
  {
    dst == Crypt(c, g.j0, src[..d], |g.ct|) && h == More(g, Side(g.mode, src[..d], dst), k)
  }

  lemma NothingCrypted(c: Cipher, g: Message, src: Bytes)
    ensures Crypted(c, g, src, 0, [], 0, g)
  {
  }

  lemma MoreMore(g: Message, x: Bytes, k: nat, y: Bytes, n: nat)
    ensures More(More(g, x, k), y, n) == More(g, x + y, k + n)
  {
    assert g.ct + x + y == g.ct + (x + y);
  }

  /** The message after a further piece x of src. */
  lemma MessageOn(g: Message, a: Bytes, dst: Bytes, k: nat, x: Bytes, out: Bytes, n: nat, b: Bytes)
    requires b == a + x
    ensures More(More(g, Side(g.mode, a, dst), k), Side(g.mode, x, out), n)
         == More(g, Side(g.mode, b, dst + out), k + n)
  {
    MoreMore(g, Side(g.mode, a, dst), k, Side(g.mode, x, out), n);
  }

  lemma CryptedOn(c: Cipher, g: Message, src: Bytes, d: nat, dst: Bytes, k: nat, h: Message,
                  x: Bytes, out: Bytes, n: nat)
    requires d + |x| <= |src| && x == src[d..d + |x|] && Crypted(c, g, src, d, dst, k, h)
    requires out == Crypt(c, g.j0, x, |h.ct|)
    ensures Crypted(c, g, src, d + |x|, dst + out, k + n, More(h, Side(g.mode, x, out), n))
  {
    assert |h.ct| == |g.ct| + d;
    TextOn(c, g.j0, src, d, |x|, dst, x, out, |g.ct|);
    MessageOn(g, src[..d], dst, k, x, out, n, src[..d + |x|]);
  }

  lemma TextOn(c: Cipher, j0: Counter, src: Bytes, d: nat, n: nat, dst: Bytes, x: Bytes, out: Bytes, off: nat)
    requires d + n <= |src| && x == src[d..d + n]
    requires dst == Crypt(c, j0, src[..d], off) && out == Crypt(c, j0, x, off + d)
    ensures dst + out == Crypt(c, j0, src[..d + n], off) && src[..d] + x == src[..d + n]
  {
    CryptOn(c, j0, src, d, n, off);
  }

  /** internal_aes_gcm_update_payload_blocks. */
  method CryptBlocks(c: Cipher, s0: State, src: Bytes, n: nat, m: Mode, ghost g: Message)
    returns (s: State, dst: Bytes)
    requires InPayload(c, g, s0) && s0.bufPos == 0 && |src| == 16 * n && m == g.mode
    ensures dst == Crypt(c, g.j0, src, |g.ct|) && SameRest(s, s0) && s.bufPos == 0
    ensures InPayload(c, More(g, Side(m, src, dst), n), s)
  {
    s, dst := s0, [];
    ghost var h := g;
    NothingCrypted(c, g, src);
    var i := 0;
    while i < n
      invariant 0 <= i <= n && SameRest(s, s0) && s.bufPos == 0
      invariant InPayload(c, h, s) && Crypted(c, g, src, 16 * i, dst, i, h)
    {
      var b: Block := src[16 * i..16 * i + 16];
      var (r, out) := CryptBlock(c, m, s, b);
      CryptBlockOk(c, h, s, b, r, out);
      CryptedOn(c, g, src, 16 * i, dst, i, h, b, out, 1);
      h := More(h, Side(g.mode, b, out), 1);
      s, dst, i := r, dst + out, i + 1;
    }
    assert src[..16 * i] == src;
  }

  /** The loop of __gcm_update_payload. */
  method CryptAll(c: Cipher, s0: State, src: Bytes, m: Mode, ghost g: Message)
    returns (s: State, dst: Bytes, ghost k: nat)
    requires InPayload(c, g, s0) && m == g.mode
    ensures dst == Crypt(c, g.j0, src, |g.ct|) && SameRest(s, s0)
    ensures InPayload(c, More(g, Side(m, src, dst), k), s)
  {
    s, dst, k := s0, [], 0;
    ghost var h := g;
    NothingCrypted(c, g, src);
    var d: nat, l: nat := 0, |src|;
    while l != 0
      invariant d + l == |src| && SameRest(s, s0)
      invariant InPayload(c, h, s) && Crypted(c, g, src, d, dst, k, h)
      decreases l
    {
      var r, x, out;
      ghost var n;
      r, x, out, n := CryptSome(c, s, src, d, l, m, h);
      CryptedOn(c, g, src, d, dst, k, h, x, out, n);
      h := More(h, Side(g.mode, x, out), n);
      s, dst, k := r, dst + out, k + n;
      d, l := d + |x|, l - |x|;
    }
    assert src[..d] == src;
  }

  /** One turn of that loop: a block in progress or less than a block, or all whole blocks. */
  method CryptSome(c: Cipher, s: State, src: Bytes, d: nat, l: nat, m: Mode, ghost h: Message)
    returns (r: State, x: Bytes, out: Bytes, ghost n: nat)
    requires InPayload(c, h, s) && m == h.mode && d + l == |src| && l != 0
    ensures 0 < |x| <= l && x == src[d..d + |x|] && out == Crypt(c, h.j0, x, |h.ct|) && SameRest(r, s)
    ensures InPayload(c, More(h, Side(m, x, out), n), r)
  {
    if s.bufPos != 0 || l < 16 {
      x := src[d..d + if 16 - s.bufPos < l then 16 - s.bufPos else l];
      r, out, n := CryptPartial(c, s, x, m, h);
    } else {
      x, n := src[d..d + 16 * (l / 16)], l / 16;
      r, out := CryptBlocks(c, s, x, l / 16, m, h);
    }
  }

  method CryptPartial(c: Cipher, s: State, x: Bytes, m: Mode, ghost h: Message)
    returns (r: State, out: Bytes, ghost n: nat)
    requires InPayload(c, h, s) && m == h.mode && x != [] && s.bufPos + |x| <= 16
    ensures out == Crypt(c, h.j0, x, |h.ct|) && SameRest(r, s)
    ensures InPayload(c, More(h, Side(m, x, out), n), r)
  {
    var p := CryptPart(c, m, s, x);
    r, out, n := p.0, p.1, if s.bufPos + |x| == 16 then 1 else 0;
    CryptPartOk(c, h, s, x, r, out);
  }
}
