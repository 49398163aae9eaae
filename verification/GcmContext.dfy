/** The life of a GCM context: initialisation, pieces of associated data, pieces of payload,
    and the tag.  Whatever the pieces are, the result is that of the mode on whole messages. */
module GcmContext {
  import opened ByteStrings
  import opened GcmSpec
  import opened Gcm

  // ---- Phases ----

  /** What initialisation fixed. */
  ghost predicate Base(c: Cipher, g: Message, s: State) {
    && s.bufTag == c.enc(g.j0) && s.tagLen <= 16
    && s.aadBytes == Wrap(g.aadLen, UINT_RANGE) && s.payloadBytes == Wrap(|g.ct|, UINT_RANGE)
  }

  /** Still taking associated data. */
  ghost predicate AadPhase(c: Cipher, g: Message, s: State) {
    && Base(c, g, s) && g.ct == [] && g.blocks == 0
    && Hashed(c, ZERO_BLOCK, g.aad, s) && Counting(c, g, 0, s)
  }

  /** Taking payload: the associated data is hashed and padded. */
  ghost predicate PayloadPhase(c: Cipher, g: Message, s: State) {
    Base(c, g, s) && g.y0 == Hash(c.mulH, ZERO_BLOCK, Pad(g.aad)) && InPayload(c, g, s)
  }

  // ---- Closing a partial block ----

  /** Zero-fills the block in progress and hashes it. */
  function Close(c: Cipher, s: State): State
    requires s.bufPos <= 16
  {
    if s.bufPos == 0 then s
    else
      var b := Splice(s.bufHash, s.bufPos, ZeroBytes(16 - s.bufPos));
      GhashBlock(c, s.(bufHash := b), b)
  }

  lemma Closed(c: Cipher, y0: Block, d: Bytes, s: State)
    requires Hashed(c, y0, d, s)
    ensures Close(c, s).hash == Hash(c.mulH, y0, Pad(d)) && HashOnly(Close(c, s), s)
  {
    var rest := s.bufHash[..s.bufPos];
    HashFinish(c.mulH, y0, d, Running(s.hash, rest));
    if s.bufPos != 0 {
      assert Splice(s.bufHash, s.bufPos, ZeroBytes(16 - s.bufPos)) == rest + ZeroBytes(16 - |rest|);
    }
  }

  /** The first step of __gcm_update_payload. */
  function FinishAad(c: Cipher, s: State): State
    requires s.bufPos <= 16
  {
    if s.payloadBytes == 0 && s.bufPos != 0 then Close(c, s).(bufPos := 0) else s
  }

  function Padded(c: Cipher, g: Message): Message {
    g.(y0 := Hash(c.mulH, ZERO_BLOCK, Pad(g.aad)))
  }

  lemma EmptyHashed(c: Cipher, s: State)
    requires s.bufPos == 0
    ensures Hashed(c, s.hash, [], s)
  {
    assert s.bufHash[..0] == [];
  }

  lemma AadFinished(c: Cipher, g: Message, s: State, r: State)
    requires AadPhase(c, g, s) && r == FinishAad(c, s)
    ensures PayloadPhase(c, Padded(c, g), r) && SameRest(r, s)
  {
    Closed(c, ZERO_BLOCK, g.aad, s);
    EmptyHashed(c, r);
  }

  /** Once there is payload, nothing is left to finish, even when the byte counter has come
      round to zero. */
  lemma NothingToFinish(c: Cipher, g: Message, s: State)
    requires PayloadPhase(c, g, s)
    ensures FinishAad(c, s) == s
  {
    if s.payloadBytes == 0 {
      NoPartialBlock(|g.ct|, g.blocks, s.bufPos);
    }
  }

  // ---- Initialisation ----

  /** Hashes n blocks one copy at a time. */
  method HashCopies(c: Cipher, s0: State, data: Bytes, n: nat) returns (s: State)
    requires |data| == 16 * n
    ensures s == s0.(hash := Hash(c.mulH, s0.hash, data))
  {
    s := s0;
    var m := 0;
    while m < n
      invariant 0 <= m <= n && s == s0.(hash := Hash(c.mulH, s0.hash, data[..16 * m]))
    {
      var b: Block := data[16 * m..16 * m + 16];
      HashBlock(c.mulH, s0.hash, data[..16 * m], b);
      assert data[..16 * m] + b == data[..16 * (m + 1)];
      s := GhashBlock(c, s, b);
      m := m + 1;
    }
    assert data[..16 * m] == data;
  }

  /** ghash_update_pad_zero. */
  method PadZero(c: Cipher, s0: State, data: Bytes, aligned: bool) returns (s: State)
    ensures s == s0.(hash := Hash(c.mulH, s0.hash, Pad(data)))
  {
    var n := |data| / 16;
    if aligned {
      s := GhashUpdate(c, s0, false, data[..16 * n], n);
    } else {
      s := HashCopies(c, s0, data[..16 * n], n);
    }
    if |data| != 16 * n {
      var b: Block := data[16 * n..] + ZeroBytes(16 - (|data| - 16 * n));
      HashBlock(c.mulH, s0.hash, data[..16 * n], b);
      assert data[..16 * n] + b == Pad(data);
      s := GhashBlock(c, s, b);
    } else {
      assert data[..16 * n] == data == Pad(data);
    }
  }

  const ZERO_STATE: State := State(Counter(0, 0), ZERO_BLOCK, ZERO_BLOCK, ZERO_BLOCK, ZERO_BLOCK, 0, 0, 0, 0)

  /** Makes the first counter; the hash is cleared again. */
  method FirstCounter(c: Cipher, nonce: Bytes, aligned: bool) returns (j0: Counter)
    ensures j0 == InitialCounter(c, nonce)
  {
    if |nonce| == 12 {
      j0 := c.inc(BlockCounter(nonce + ZeroBytes(4)));
    } else {
      var s := PadZero(c, ZERO_STATE, nonce, aligned);
      var l := LenBlock(0, Wrap(|nonce|, UINT_RANGE));
      HashOne(c.mulH, s.hash, l);
      s := GhashBlock(c, s, l);
      j0 := BlockCounter(s.hash);
    }
  }

  function Fresh(m: Mode, j0: Counter): Message {
    Message(m, j0, [], 0, ZERO_BLOCK, 0, [])
  }

  /** The state after __gcm_init with first counter j0. */
  function Started(c: Cipher, m: Mode, j0: Counter, tagLen: nat): State {
    var s := ZERO_STATE.(bufTag := c.enc(j0), ctr := c.inc(j0), tagLen := tagLen);
    if m.Encrypt? then s.(bufCryp := c.enc(s.ctr), ctr := c.inc(s.ctr)) else s
  }

  lemma StartedOk(c: Cipher, m: Mode, j0: Counter, tagLen: nat)
    requires tagLen <= 16
    ensures AadPhase(c, Fresh(m, j0), Started(c, m, j0, tagLen))
  {
    assert After(c.inc, j0, 1) == c.inc(After(c.inc, j0, 0));
    assert After(c.inc, j0, 2) == c.inc(After(c.inc, j0, 1));
    EmptyHashed(c, Started(c, m, j0, tagLen));
  }

  // ---- Associated data ----

  function WithAad(g: Message, data: Bytes): Message {
    g.(aad := g.aad + data, aadLen := g.aadLen + |data|)
  }

  /** What was hashed so far, as one string, when no partial block is left. */
  lemma Rejoined(c: Cipher, g: Message, s: State)
    requires PayloadPhase(c, g, s) && s.payloadBytes == 0
    ensures Hashed(c, ZERO_BLOCK, Pad(g.aad) + g.ct, s) && s.bufPos == 0
  {
    NoPartialBlock(|g.ct|, g.blocks, s.bufPos);
    FeedBlocks(c.mulH, ZERO_BLOCK, Pad(g.aad));
    FeedConcat(c.mulH, Running(ZERO_BLOCK, []), Pad(g.aad), g.ct);
  }

  /** A payload phase without payload is an associated-data phase again, over padded data. */
  lemma Reopened(c: Cipher, g: Message, s: State)
    requires PayloadPhase(c, g, s) && g.ct == []
    ensures AadPhase(c, g.(aad := Pad(g.aad)), s)
  {
    Rejoined(c, g, s);
    assert Pad(g.aad) + g.ct == Pad(g.aad);
  }

  /** __gcm_update_aad.  The guard looks at the payload byte counter: data given after an
      empty payload update is taken, behind a zero-padded block, and so is data given when
      the counter has wrapped to zero, which then joins the hash of the ciphertext. */
  method UpdateAad(c: Cipher, s0: State, data: Bytes, addr: nat, aligned: nat -> bool, ghost g: Message)
    returns (s: State, r: Result)
    requires AadPhase(c, g, s0) || PayloadPhase(c, g, s0)
    ensures r == if s0.payloadBytes == 0 then Success else BadParameters
    ensures r.BadParameters? ==> s == s0
    ensures r.Success? ==> HashOnly(s, s0.(aadBytes := Wrap(s0.aadBytes + |data|, UINT_RANGE)))
    ensures AadPhase(c, g, s0) ==> r.Success? && AadPhase(c, WithAad(g, data), s)
    ensures !AadPhase(c, g, s0) && r.Success? ==> Hashed(c, ZERO_BLOCK, Pad(g.aad) + g.ct + data, s)
  {
    if s0.payloadBytes != 0 {
      return s0, BadParameters;
    }
    ghost var fed := if AadPhase(c, g, s0) then g.aad else Pad(g.aad) + g.ct;
    if !AadPhase(c, g, s0) {
      Rejoined(c, g, s0);
    }
    WrapAdd(g.aadLen, |data|, UINT_RANGE);
    s := HashAad(c, s0.(aadBytes := Wrap(s0.aadBytes + |data|, UINT_RANGE)), data, addr, aligned, fed);
    r := Success;
  }

  // ---- Payload ----

  /** h is g after x more bytes of ciphertext. */
  ghost predicate Continues(g: Message, h: Message, x: Bytes) {
    h.mode == g.mode && h.j0 == g.j0 && h.aad == g.aad && h.aadLen == g.aadLen && h.ct == g.ct + x
  }

  /** __gcm_update_payload. */
  method UpdatePayload(c: Cipher, s0: State, src: Bytes, m: Mode, ghost g: Message)
    returns (s: State, dst: Bytes, ghost h: Message)
    requires (AadPhase(c, g, s0) || PayloadPhase(c, g, s0)) && m == g.mode
    ensures dst == Crypt(c, g.j0, src, |g.ct|) && s.tagLen == s0.tagLen
    ensures PayloadPhase(c, h, s) && Continues(g, h, Side(m, src, dst))
  {
    s := FinishAad(c, s0);
    h := Padded(c, g);
    if AadPhase(c, g, s0) {
      AadFinished(c, g, s0, s);
    } else {
      NothingToFinish(c, g, s0);
    }
    WrapAdd(|g.ct|, |src|, UINT_RANGE);
    ghost var k;
    s, dst, k := CryptAll(c, s.(payloadBytes := Wrap(s.payloadBytes + |src|, UINT_RANGE)), src, m, h);
    h := More(h, Side(m, src, dst), k);
  }

  // ---- The tag ----

  /** The tag of what a context has seen. */
  function TagOf(c: Cipher, g: Message, tagLen: nat): (r: Bytes)
    requires tagLen <= 16
  {
    CountedTag(c, g.j0, g.aad, g.aadLen, g.ct, tagLen)
  }

  lemma {:induction false} XorPrefix(a: Bytes, b: Bytes, n: nat)
    requires |a| == |b| && n <= |a|
    ensures XorBytes(a, b)[..n] == XorBytes(a[..n], b[..n])
  {
    if n > 0 {
      XorPrefix(a[1..], b[1..], n - 1);
      assert a[..n][1..] == a[1..][..n - 1] && b[..n][1..] == b[1..][..n - 1];
      assert XorBytes(a, b)[..n] == [XorByte(a[0], b[0])] + XorBytes(a[1..], b[1..])[..n - 1];
    }
  }

  /** The end of operation_final: closes the hash and leaves the tag in the tag buffer. */
  function MakeTag(c: Cipher, s: State): (r: State)
    requires s.bufPos <= 16 && s.tagLen <= 16
  {
    var s1 := Close(c, s);
    var s2 := GhashBlock(c, s1, LenBlock(s1.aadBytes, s1.payloadBytes));
    s2.(bufTag := XorBytes(s2.bufTag[..s2.tagLen], s2.hash[..s2.tagLen]) + s2.bufTag[s2.tagLen..])
  }

  lemma MakesTag(c: Cipher, g: Message, s: State)
    requires PayloadPhase(c, g, s)
    ensures MakeTag(c, s).bufTag[..s.tagLen] == TagOf(c, g, s.tagLen) && MakeTag(c, s).tagLen == s.tagLen
  {
    Closed(c, g.y0, g.ct, s);
    var s1, l := Close(c, s), LenBlock(s.aadBytes, s.payloadBytes);
    HashOne(c.mulH, s1.hash, l);
    XorPrefix(s.bufTag, Hash(c.mulH, s1.hash, l), s.tagLen);
  }

  // ---- The context ----

  /** struct internal_aes_gcm_ctx. */
  class Context {
    const c: Cipher
    var st: State
    ghost var msg: Message

    constructor (c: Cipher)
      ensures this.c == c
    {
      this.c := c;
      st := ZERO_STATE;
      msg := Fresh(Encrypt, Counter(0, 0));
    }

    /** Taking associated data or payload. */
    ghost predicate Valid()
      reads this
    {
      AadPhase(c, msg, st) || PayloadPhase(c, msg, st)
    }

    /** internal_aes_gcm_init. */
    method Init(m: Mode, nonce: Bytes, aligned: bool, tagLen: nat) returns (r: Result)
      modifies this
      ensures r == if tagLen <= 16 then Success else BadParameters
      ensures r.BadParameters? ==> st == old(st) && msg == old(msg)
      ensures r.Success? ==> AadPhase(c, msg, st) && msg == Fresh(m, InitialCounter(c, nonce)) && st.tagLen == tagLen
    {
      if tagLen > 16 {
        return BadParameters;
      }
      var j0 := FirstCounter(c, nonce, aligned);
      StartedOk(c, m, j0, tagLen);
      st, msg := Started(c, m, j0, tagLen), Fresh(m, j0);
      r := Success;
    }

    /** internal_aes_gcm_update_aad. */
    method TakeAad(data: Bytes, addr: nat, aligned: nat -> bool) returns (r: Result)
      requires AadPhase(c, msg, st)
      modifies this
      ensures r.Success? && AadPhase(c, msg, st) && msg == WithAad(old(msg), data) && st.tagLen == old(st.tagLen)
    {
      var s;
      s, r := UpdateAad(c, st, data, addr, aligned, msg);
      st, msg := s, WithAad(msg, data);
    }

    /** internal_aes_gcm_update_payload. */
    method TakePayload(src: Bytes, m: Mode) returns (dst: Bytes)
      requires Valid() && m == msg.mode
      modifies this
      ensures PayloadPhase(c, msg, st) && Continues(old(msg), msg, Side(m, src, dst)) && st.tagLen == old(st.tagLen)
      ensures dst == Crypt(c, msg.j0, src, |old(msg).ct|)
    {
      var s;
      ghost var h;
      s, dst, h := UpdatePayload(c, st, src, m, msg);
      st, msg := s, h;
    }

    /** operation_final. */
    method Finish(src: Bytes, m: Mode) returns (dst: Bytes)
      requires Valid() && m == msg.mode
      modifies this
      ensures Continues(old(msg), msg, Side(m, src, dst)) && dst == Crypt(c, msg.j0, src, |old(msg).ct|)
      ensures st.tagLen == old(st.tagLen) <= 16 && st.bufTag[..st.tagLen] == TagOf(c, msg, st.tagLen)
    {
      dst := TakePayload(src, m);
      MakesTag(c, msg, st);
      st := MakeTag(c, st);
    }

    /** internal_aes_gcm_enc_final: the last text, and room for a tag of up to room bytes. */
    method EncFinal(src: Bytes, room: nat) returns (r: Result, dst: Bytes, tag: Bytes)
      requires Valid() && msg.mode.Encrypt?
      modifies this
      ensures r == if room < old(st.tagLen) then ShortBuffer else Success
      ensures r.ShortBuffer? ==> st == old(st) && msg == old(msg)
      ensures r.Success? ==> dst == Crypt(c, msg.j0, src, |old(msg).ct|) && Continues(old(msg), msg, dst)
      ensures r.Success? ==> st.tagLen == old(st.tagLen) <= 16 && tag == TagOf(c, msg, st.tagLen)
    {
      if room < st.tagLen {
        return ShortBuffer, [], [];
      }
      dst := Finish(src, Encrypt);
      r, tag := Success, st.bufTag[..st.tagLen];
    }

    /** internal_aes_gcm_dec_final: the last ciphertext and the tag to compare with. */
    method DecFinal(src: Bytes, tag: Bytes) returns (r: Result, dst: Bytes)
      requires Valid() && msg.mode.Decrypt?
      modifies this
      ensures |tag| != old(st.tagLen) ==> r.MacInvalid? && st == old(st) && msg == old(msg)
      ensures |tag| == old(st.tagLen) ==>
        && dst == Crypt(c, msg.j0, src, |old(msg).ct|) && Continues(old(msg), msg, src)
        && |tag| <= 16 && r == if tag == TagOf(c, msg, |tag|) then Success else MacInvalid
    {
      if |tag| != st.tagLen {
        return MacInvalid, [];
      }
      dst := Finish(src, Decrypt);
      r := if st.bufTag[..|tag|] == tag then Success else MacInvalid;
    }
  }

  // ---- Whole messages in pieces ----

  /** A piece of data and the address it lies at. */
  datatype Piece = Piece(data: Bytes, addr: nat)

  /** The first n pieces, joined. */
  function Joined(ps: seq<Piece>, n: nat): (r: Bytes)
    requires n <= |ps|
  {
    if n == 0 then [] else Joined(ps, n - 1) + ps[n - 1].data
  }

  method TakeAllAad(ctx: Context, ps: seq<Piece>, aligned: nat -> bool)
    requires AadPhase(ctx.c, ctx.msg, ctx.st)
    modifies ctx
    ensures AadPhase(ctx.c, ctx.msg, ctx.st) && ctx.msg == WithAad(old(ctx.msg), Joined(ps, |ps|))
    ensures ctx.st.tagLen == old(ctx.st.tagLen)
  {
    var i := 0;
    assert old(ctx.msg).aad + [] == old(ctx.msg).aad;
    while i < |ps|
      invariant 0 <= i <= |ps| && AadPhase(ctx.c, ctx.msg, ctx.st) && ctx.st.tagLen == old(ctx.st.tagLen)
      invariant ctx.msg == WithAad(old(ctx.msg), Joined(ps, i))
    {
      var _ := ctx.TakeAad(ps[i].data, ps[i].addr, aligned);
      assert old(ctx.msg).aad + Joined(ps, i) + ps[i].data == old(ctx.msg).aad + (Joined(ps, i) + ps[i].data);
      i := i + 1;
    }
  }

  /** From g0 on, i pieces of payload were taken and gave dst; the message is now g. */
  ghost predicate Taken(c: Cipher, g0: Message, g: Message, ps: seq<Piece>, i: nat, dst: Bytes)
    requires i <= |ps|
  {
    Continues(g0, g, Side(g0.mode, Joined(ps, i), dst)) && dst == Crypt(c, g0.j0, Joined(ps, i), 0)
  }

  /** One more piece of payload. */
  lemma PieceOn(c: Cipher, g0: Message, g: Message, h: Message, ps: seq<Piece>, i: nat, dst: Bytes, out: Bytes)
    requires i < |ps| && g0.ct == [] && Taken(c, g0, g, ps, i, dst)
    requires out == Crypt(c, g0.j0, ps[i].data, |g.ct|) && Continues(g, h, Side(g0.mode, ps[i].data, out))
    ensures Taken(c, g0, h, ps, i + 1, dst + out)
  {
    var a, x := Joined(ps, i), ps[i].data;
    assert Joined(ps, i + 1) == a + x;
    BothSides(g0, g, h, a, x, dst, out);
    CryptConcat(c, g0.j0, a, x, 0);
  }

  /** Two pieces in a row. */
  lemma BothSides(g0: Message, g: Message, h: Message, a: Bytes, x: Bytes, dst: Bytes, out: Bytes)
    requires g0.ct == [] && |dst| == |a|
    requires Continues(g0, g, Side(g0.mode, a, dst)) && Continues(g, h, Side(g0.mode, x, out))
    ensures Continues(g0, h, Side(g0.mode, a + x, dst + out)) && |g.ct| == |a|
  {
    var m := g0.mode;
    assert g.ct == Side(m, a, dst);
    assert Side(m, a, dst) + Side(m, x, out) == Side(m, a + x, dst + out);
  }

  lemma NothingTaken(c: Cipher, g0: Message, ps: seq<Piece>)
    requires g0.ct == []
    ensures Taken(c, g0, g0, ps, 0, [])
  {
  }

  method TakePiece(ctx: Context, ps: seq<Piece>, i: nat, dst: Bytes, m: Mode, ghost g0: Message) returns (all: Bytes)
    requires ctx.Valid() && i < |ps| && g0.ct == [] && m == g0.mode && Taken(ctx.c, g0, ctx.msg, ps, i, dst)
    modifies ctx
    ensures ctx.Valid() && ctx.st.tagLen == old(ctx.st.tagLen) && Taken(ctx.c, g0, ctx.msg, ps, i + 1, all)
  {
    ghost var g := ctx.msg;
    var out := ctx.TakePayload(ps[i].data, m);
    PieceOn(ctx.c, g0, g, ctx.msg, ps, i, dst, out);
    all := dst + out;
  }

  method TakeAllPayload(ctx: Context, ps: seq<Piece>, m: Mode) returns (dst: Bytes)
    requires AadPhase(ctx.c, ctx.msg, ctx.st) && m == ctx.msg.mode
    modifies ctx
    ensures ctx.Valid() && ctx.st.tagLen == old(ctx.st.tagLen) && Taken(ctx.c, old(ctx.msg), ctx.msg, ps, |ps|, dst)
  {
    ghost var g0 := ctx.msg;
    NothingTaken(ctx.c, g0, ps);
    var i := 0;
    dst := [];
    while i < |ps|
      invariant 0 <= i <= |ps| && ctx.Valid() && ctx.st.tagLen == old(ctx.st.tagLen)
      invariant Taken(ctx.c, g0, ctx.msg, ps, i, dst)
    {
      dst := TakePiece(ctx, ps, i, dst, m, g0);
      i := i + 1;
    }
  }

  /** Everything but the last piece of a message. */
  method Run(c: Cipher, m: Mode, nonce: Bytes, aad: seq<Piece>, text: seq<Piece>, tagLen: nat, aligned: nat -> bool)
    returns (ctx: Context, dst: Bytes)
    requires tagLen <= 16
    ensures fresh(ctx) && ctx.c == c && ctx.Valid() && ctx.st.tagLen == tagLen
    ensures Continues(WithAad(Fresh(m, InitialCounter(c, nonce)), Joined(aad, |aad|)), ctx.msg,
                      Side(m, Joined(text, |text|), dst))
    ensures dst == Crypt(c, ctx.msg.j0, Joined(text, |text|), 0)
  {
    ctx := new Context(c);
    var _ := ctx.Init(m, nonce, false, tagLen);
    TakeAllAad(ctx, aad, aligned);
    dst := TakeAllPayload(ctx, text, m);
  }

  /** The last piece x of a message g whose pieces so far are a. */
  lemma LastPiece(c: Cipher, j0: Counter, m: Mode, aad: Bytes, a: Bytes, dst: Bytes, x: Bytes, out: Bytes,
                  g: Message, h: Message, tagLen: nat)
    requires Continues(WithAad(Fresh(m, j0), aad), g, Side(m, a, dst)) && Continues(g, h, Side(m, x, out))
    requires dst == Crypt(c, j0, a, 0) && out == Crypt(c, j0, x, |g.ct|) && tagLen <= 16
    ensures dst + out == Crypt(c, j0, a + x, 0)
    ensures TagOf(c, h, tagLen) == Tag(c, j0, aad, Side(m, a + x, dst + out), tagLen)
  {
    assert |g.ct| == |a|;
    CryptConcat(c, j0, a, x, 0);
    JoinedCt(m, j0, aad, a, dst, x, out, g, h);
  }

  lemma JoinedCt(m: Mode, j0: Counter, aad: Bytes, a: Bytes, dst: Bytes, x: Bytes, out: Bytes, g: Message, h: Message)
    requires Continues(WithAad(Fresh(m, j0), aad), g, Side(m, a, dst)) && Continues(g, h, Side(m, x, out))
    ensures h.j0 == j0 && h.aad == aad && h.aadLen == |aad| && h.ct == Side(m, a + x, dst + out)
  {
    assert [] + aad == aad && [] + Side(m, a, dst) == Side(m, a, dst);
  }

  /** Encrypts a message given in any pieces. */
  method Seal(c: Cipher, nonce: Bytes, aad: seq<Piece>, text: seq<Piece>, last: Bytes, tagLen: nat,
              aligned: nat -> bool)
    returns (ct: Bytes, tag: Bytes)
    requires tagLen <= 16
    ensures ct == Crypt(c, InitialCounter(c, nonce), Joined(text, |text|) + last, 0)
    ensures tag == Tag(c, InitialCounter(c, nonce), Joined(aad, |aad|), ct, tagLen)
  {
    var ctx, dst := Run(c, Encrypt, nonce, aad, text, tagLen, aligned);
    ghost var g := ctx.msg;
    var _, out, t := ctx.EncFinal(last, tagLen);
    LastPiece(c, g.j0, Encrypt, Joined(aad, |aad|), Joined(text, |text|), dst, last, out, g, ctx.msg, tagLen);
    ct, tag := dst + out, t;
  }

  /** Decrypts and authenticates a message given in any pieces. */
  method Open(c: Cipher, nonce: Bytes, aad: seq<Piece>, ct: seq<Piece>, last: Bytes, tag: Bytes, aligned: nat -> bool)
    returns (r: Result, text: Bytes)
    requires |tag| <= 16
    ensures text == Crypt(c, InitialCounter(c, nonce), Joined(ct, |ct|) + last, 0)
    ensures r.Success? <==> tag == Tag(c, InitialCounter(c, nonce), Joined(aad, |aad|), Joined(ct, |ct|) + last, |tag|)
  {
    var ctx, dst := Run(c, Decrypt, nonce, aad, ct, |tag|, aligned);
    ghost var g := ctx.msg;
    var res, out := ctx.DecFinal(last, tag);
    LastPiece(c, g.j0, Decrypt, Joined(aad, |aad|), Joined(ct, |ct|), dst, last, out, g, ctx.msg, |tag|);
    r, text := res, dst + out;
  }

  /** What was sealed in some pieces opens in any other pieces. */
  method SealOpen(c: Cipher, nonce: Bytes, aad: seq<Piece>, text: seq<Piece>, last: Bytes, tagLen: nat,
                  aligned: nat -> bool, aad1: seq<Piece>, ct1: seq<Piece>, last1: Bytes)
    returns (r: Result, out: Bytes)
    requires tagLen <= 16 && Joined(aad1, |aad1|) == Joined(aad, |aad|)
    requires Joined(ct1, |ct1|) + last1 == Crypt(c, InitialCounter(c, nonce), Joined(text, |text|) + last, 0)
    ensures r.Success? && out == Joined(text, |text|) + last
  {
    var ct, tag := Seal(c, nonce, aad, text, last, tagLen, aligned);
    r, out := Open(c, nonce, aad1, ct1, last1, tag, aligned);
    CryptInvolution(c, InitialCounter(c, nonce), Joined(text, |text|) + last, 0);
  }
}
