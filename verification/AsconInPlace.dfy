/** The in-place routines: one buffer holds plaintext or ciphertext throughout. */
module AsconInPlace {
  import opened Arith
  import opened Ascon
  import opened AsconWords

  /** Overwrites `|b|` bytes of the buffer from `i`. */
  method WriteAt(buf: array<bv8>, i: nat, b: Bytes)
    requires i + |b| <= buf.Length
    modifies buf
    ensures buf[..] == old(buf[..i]) + b + old(buf[i + |b|..])
  {
    forall k | i <= k < i + |b| { buf[k] := b[k - i]; }
  }

  // -------------------------------------------------------- single blocks

  /** `rem`, the padding byte, zeros: sixteen bytes whatever the rate. */
  function PadBlock(c: Cipher, rem: Bytes): (b: Bytes)
    requires |rem| < 16
    ensures |b| == 16
  {
    rem + [c.pad] + seq(15 - |rem|, _ => 0)
  }

  lemma PadBlockIs(c: Cipher, v: Variant, rem: Bytes)
    requires Models(c, v) && |rem| < c.rate
    ensures PadBlock(c, rem)[..c.rate] == Padded(v, rem)
  {
  }

  lemma PermutedAs(c: Cipher, v: Variant, s: State)
    requires Models(c, v)
    ensures Flat(c.order, c.pb(s)) == v.pb(Flat(c.order, s))
  {
    ModelsIs(c, v);
    Permuted(c.order, c.pb, s);
  }

  /** Folding a block in and permuting, seen on bytes. */
  lemma AbsorbOne(c: Cipher, v: Variant, s: State, block: Bytes)
    requires Models(c, v) && |block| == c.rate
    ensures Flat(c.order, c.pb(XorRate(c, s, block))) == v.pb(XorAt(Flat(c.order, s), 0, block))
  {
    XorRateIs(c, s, block);
    PermutedAs(c, v, XorRate(c, s, block));
  }

  /** After folding a plaintext block in, the rate is the ciphertext block. */
  lemma EncryptOne(c: Cipher, s: State, block: Bytes)
    requires c.Valid() && |block| == c.rate
    ensures var (f, t) := (Flat(c.order, s), XorRate(c, s, block));
            var r := Xor(f[..c.rate], block);
            RateBytes(c, t)[..c.rate] == r && Flat(c.order, t) == SetRate(f, r)
  {
    XorRateIs(c, s, block);
    var f, t := Flat(c.order, s), XorRate(c, s, block);
    assert XorAt(f, 0, block) == SetRate(f, Xor(f[..c.rate], block));
    RateBytesIs(c, t);
  }

  /** The key stream for a ciphertext block, and the state once the rate is the ciphertext. */
  lemma DecryptOne(c: Cipher, s: State, block: Bytes)
    requires c.Valid() && |block| == c.rate
    ensures var ct := block + seq(16 - c.rate, _ => 0);
            && RateBytes(c, s)[..c.rate] == Flat(c.order, s)[..c.rate]
            && Flat(c.order, SetRateWords(c, s, ct)) == SetRate(Flat(c.order, s), block)
  {
    var ct := block + seq(16 - c.rate, _ => 0);
    RateBytesIs(c, s);
    SetRateIs(c, s, ct);
    assert ct[..c.rate] == block;
  }

  /** The partial ciphertext block: its bytes replace the rate, and the padding byte follows them. */
  function TailBytes(c: Cipher, ks: Bytes, rem: Bytes): (b: Bytes)
    requires |ks| == 16 && |rem| < 16
    ensures |b| == 16
  {
    rem + [ks[|rem|] ^ c.pad] + ks[|rem| + 1..]
  }

  lemma TailBytesIs(c: Cipher, v: Variant, s: State, rem: Bytes)
    requires Models(c, v) && |rem| < c.rate
    ensures var f := Flat(c.order, s);
            && RateBytes(c, s)[..|rem|] == f[..|rem|]
            && Flat(c.order, SetRateWords(c, s, TailBytes(c, RateBytes(c, s), rem))) == SetRate(f, TailRate(v, f, rem))
  {
    RateBytesIs(c, s);
    SetRateIs(c, s, TailBytes(c, RateBytes(c, s), rem));
    TailCut(c, v, Flat(c.order, s), rem);
  }

  lemma TailCut(c: Cipher, v: Variant, f: Bytes, rem: Bytes)
    requires |rem| < v.rate <= 16 && |f| == STATE && v.pad == c.pad
    ensures TailBytes(c, f[..16], rem)[..v.rate] == TailRate(v, f, rem) && f[..16][..|rem|] == f[..|rem|]
  {
    var b, t, l := TailBytes(c, f[..16], rem), TailRate(v, f, rem), |rem|;
    forall i | 0 <= i < v.rate ensures b[i] == t[i] {
      if i > l { assert b[i] == f[..16][l + 1..][i - l - 1] == f[i]; }
    }
  }

  // ---------------------------------------------------------- absorption

  /**
   * Absorbs the associated data block by block, the last one padded; the separator always. The run is
   * a list of states: each is the permutation of the one before with a block folded into the rate,
   * and the blocks joined are the data, the padding byte and zeros.
   */
  method AbsorbAd(c: Cipher, s0: State, aad: Bytes, ghost v: Variant)
    returns (s: State, ghost states: seq<Bytes>, ghost blocks: seq<Bytes>)
    requires Models(c, v)
    ensures Flat(c.order, s) == Absorbed(v, Flat(c.order, s0), aad)
    ensures |states| == |blocks| + 1 && |blocks| == if |aad| == 0 then 0 else |aad| / c.rate + 1
    ensures (forall i :: 0 <= i < |blocks| ==> |blocks[i]| == c.rate)
            && forall i :: 0 <= i < |states| ==> |states[i]| == STATE
    ensures |aad| > 0 ==> Joined(blocks) == aad + [c.pad] + seq(c.rate - |aad| % c.rate - 1, _ => 0)
    ensures states[0] == Flat(c.order, s0)
    ensures forall i :: 0 <= i < |blocks| ==>
              states[i + 1] == Flat(c.order, c.pb(Unflat(c.order, XorAt(states[i], 0, blocks[i]))))
    ensures Flat(c.order, s) == XorAt(states[|blocks|], STATE - 1, [Store(c.order, c.sep)[7]])
  {
    s, states, blocks := s0, [Flat(c.order, s0)], [];
    if |aad| > 0 {
      states, blocks := AbsorbRun(v, Flat(c.order, s0), aad);
      ChainWords(c, v, states, blocks);
      PaddedWords(c, v, aad);
      s := AbsorbData(c, s, aad, v);
    }
    SeparatorIs(c, v, s);
    s := s.(w4 := XorW(s.w4, c.sep));
  }

  /** A run of the byte permutation is a run of the word permutation. */
  lemma ChainWords(c: Cipher, v: Variant, ts: seq<Bytes>, bs: seq<Bytes>)
    requires Models(c, v) && Chain(v.pb, v.rate, ts, bs)
    ensures forall i :: 0 <= i < |bs| ==>
              ts[i + 1] == Flat(c.order, c.pb(Unflat(c.order, XorAt(ts[i], 0, bs[i]))))
  {
    ModelsIs(c, v);
    forall i | 0 <= i < |bs|
      ensures ts[i + 1] == Flat(c.order, c.pb(Unflat(c.order, XorAt(ts[i], 0, bs[i]))))
    {
      StepWords(c, v, XorAt(ts[i], 0, bs[i]));
    }
  }

  lemma StepWords(c: Cipher, v: Variant, b: Bytes)
    requires c.Valid() && v == c.Bytewise() && |b| == STATE
    ensures v.pb(b) == Flat(c.order, c.pb(Unflat(c.order, b)))
  {
  }

  lemma PaddedWords(c: Cipher, v: Variant, data: Bytes)
    requires Models(c, v)
    ensures PaddedData(v, data) == data + [c.pad] + seq(c.rate - |data| % c.rate - 1, _ => 0)
  {
  }

  method AbsorbData(c: Cipher, s0: State, aad: Bytes, ghost v: Variant) returns (s: State)
    requires Models(c, v)
    ensures Flat(c.order, s) == AbsorbBlocks(v, Flat(c.order, s0), aad)
  {
    s := s0;
    var i := 0;
    assert aad[0..] == aad;
    while i + c.rate <= |aad|
      invariant 0 <= i <= |aad|
      invariant AbsorbBlocks(v, Flat(c.order, s), aad[i..]) == AbsorbBlocks(v, Flat(c.order, s0), aad)
    {
      var block := aad[i..i + c.rate];
      AbsorbNext(v, Flat(c.order, s), aad, i);
      AbsorbOne(c, v, s, block);
      s := c.pb(XorRate(c, s, block));
      i := i + c.rate;
    }
    var last := PadBlock(c, aad[i..])[..c.rate];
    PadBlockIs(c, v, aad[i..]);
    AbsorbOne(c, v, s, last);
    s := c.pb(XorRate(c, s, last));
  }

  lemma AbsorbNext(v: Variant, f: Bytes, aad: Bytes, i: nat)
    requires v.Valid() && |f| == STATE && i + v.rate <= |aad|
    ensures AbsorbBlocks(v, f, aad[i..]) == AbsorbBlocks(v, v.pb(XorAt(f, 0, aad[i..i + v.rate])), aad[i + v.rate..])
  {
    assert aad[i..][..v.rate] == aad[i..i + v.rate] && aad[i..][v.rate..] == aad[i + v.rate..];
  }

  lemma SeparatorByte(c: Cipher, v: Variant)
    requires Models(c, v)
    ensures Store(c.order, c.sep)[7] == v.sep && forall i :: 0 <= i < 7 ==> Store(c.order, c.sep)[i] == 0
  {
    ModelsIs(c, v);
  }

  lemma SeparatorIs(c: Cipher, v: Variant, s: State)
    requires Models(c, v)
    ensures Store(c.order, c.sep)[7] == v.sep
    ensures Flat(c.order, s.(w4 := XorW(s.w4, c.sep))) == XorAt(Flat(c.order, s), STATE - 1, [v.sep])
  {
    SeparatorByte(c, v);
    Fold4(c.order, s, c.sep);
    FoldLastByte(Flat(c.order, s), Store(c.order, c.sep));
  }

  lemma FoldLastByte(f: Bytes, b: Bytes)
    requires |f| == STATE && |b| == 8 && forall i :: 0 <= i < 7 ==> b[i] == 0
    ensures XorAt(f, 32, b) == XorAt(f, STATE - 1, [b[7]])
  {
    assert b == b[..7] + [b[7]];
    FoldAfterZeros(f, 32, b[..7], [b[7]]);
  }

  /** From each state to the next: a block folded into the rate, then the permutation. */
  ghost predicate Run(c: Cipher, ts: seq<Bytes>, bs: seq<Bytes>)
    requires c.Valid()
  {
    && |ts| == |bs| + 1
    && (forall i :: 0 <= i < |bs| ==> |bs[i]| == c.rate)
    && (forall i :: 0 <= i < |ts| ==> |ts[i]| == STATE)
    && forall i :: 0 <= i < |bs| ==> ts[i + 1] == Flat(c.order, c.pb(Unflat(c.order, XorAt(ts[i], 0, bs[i]))))
  }

  /** The data in blocks, behind it the padding byte and zeros. */
  ghost predicate PaddedTo(c: Cipher, data: Bytes, bs: seq<Bytes>)
    requires c.Valid()
  {
    && |bs| == |data| / c.rate + 1
    && (forall i :: 0 <= i < |bs| ==> |bs[i]| == c.rate)
    && Joined(bs) == data + [c.pad] + seq(c.rate - |data| % c.rate - 1, _ => 0)
  }

  method StartWords(c: Cipher, nonce: Bytes, aad: Bytes, ghost v: Variant)
    returns (s: State, ghost states: seq<Bytes>, ghost blocks: seq<Bytes>)
    requires Models(c, v) && |nonce| == 16
    ensures Flat(c.order, s) == Start(v, nonce, aad)
    ensures Run(c, states, blocks) && if |aad| == 0 then blocks == [] else PaddedTo(c, aad, blocks)
    ensures states[0] == Flat(c.order, InitWords(c, nonce))
    ensures Flat(c.order, s) == XorAt(states[|blocks|], STATE - 1, [Store(c.order, c.sep)[7]])
  {
    s, states, blocks := AbsorbAd(c, InitWords(c, nonce), aad, v);
    ModelsIs(c, v);
    InitIs(c, nonce);
  }

  // ---------------------------------------------------------- whole blocks

  /** The bytes that fill whole blocks. */
  function Full(rate: nat, n: nat): (full: nat)
    requires rate > 0
    ensures full <= n < full + rate && full % rate == 0
  {
    var q := n / rate;
    DivNonNegative(n, rate);
    MulNonNegative(q, rate);
    DivModIs(q * rate, q, 0, rate);
    assert n == rate * q + n % rate;
    n / rate * rate
  }

  /** The text done so far, then the phase run on the rest. */
  ghost predicate Resumes(done: Bytes, rest: Phase, whole: Phase) {
    whole == Phase(done + rest.text, rest.state)
  }

  lemma EncryptStep(v: Variant, s: Bytes, done: Bytes, p: Bytes, whole: Phase)
    requires v.Valid() && |s| == STATE && |p| >= v.rate && Resumes(done, Encrypted(v, s, p), whole)
    ensures var r := Xor(s[..v.rate], p[..v.rate]);
            Resumes(done + r, Encrypted(v, v.pb(SetRate(s, r)), p[v.rate..]), whole)
  {
    var r := Xor(s[..v.rate], p[..v.rate]);
    var rest := Encrypted(v, v.pb(SetRate(s, r)), p[v.rate..]);
    assert done + (r + rest.text) == (done + r) + rest.text;
  }

  lemma DecryptStep(v: Variant, s: Bytes, done: Bytes, c: Bytes, whole: Phase)
    requires v.Valid() && |s| == STATE && |c| >= v.rate && Resumes(done, Decrypted(v, s, c), whole)
    ensures var r := Xor(s[..v.rate], c[..v.rate]);
            Resumes(done + r, Decrypted(v, v.pb(SetRate(s, c[..v.rate])), c[v.rate..]), whole)
  {
    var r := Xor(s[..v.rate], c[..v.rate]);
    var rest := Decrypted(v, v.pb(SetRate(s, c[..v.rate])), c[v.rate..]);
    assert done + (r + rest.text) == (done + r) + rest.text;
  }

  /** A buffer whose first `i` bytes are done, with the rest as it started. */
  ghost predicate Encrypting(v: Variant, f: Bytes, now: Bytes, start: Bytes, i: nat, whole: Phase) {
    && v.Valid() && |f| == STATE && |now| == |start| && i <= |now| && now[i..] == start[i..]
    && Resumes(now[..i], Encrypted(v, f, start[i..]), whole)
  }

  lemma EncryptingFirst(v: Variant, f: Bytes, start: Bytes) returns (whole: Phase)
    requires v.Valid() && |f| == STATE
    ensures whole == Encrypted(v, f, start) && Encrypting(v, f, start, start, 0, whole)
  {
    whole := Encrypted(v, f, start);
    assert start[0..] == start && start[..0] == [];
  }

  lemma EncryptingLast(v: Variant, f: Bytes, now: Bytes, start: Bytes, i: nat, whole: Phase)
    requires Encrypting(v, f, now, start, i, whole) && |now[i..]| < v.rate
    ensures var r := Xor(f[..v.rate], Padded(v, now[i..]));
            whole == Phase(now[..i] + r[..|now[i..]|], SetRate(f, r))
  {
  }

  lemma EncryptingNext(v: Variant, f: Bytes, now: Bytes, after: Bytes, start: Bytes, i: nat, whole: Phase)
    requires Encrypting(v, f, now, start, i, whole) && i + v.rate <= |now|
    requires after == now[..i] + Xor(f[..v.rate], now[i..i + v.rate]) + now[i + v.rate..]
    ensures Encrypting(v, v.pb(SetRate(f, Xor(f[..v.rate], now[i..i + v.rate]))), after, start, i + v.rate, whole)
  {
    BlockAt(now, after, i, Xor(f[..v.rate], now[i..i + v.rate]));
    BlockRead(now, start, i, v.rate);
    EncryptStep(v, f, now[..i], start[i..], whole);
  }

  ghost predicate Decrypting(v: Variant, f: Bytes, now: Bytes, start: Bytes, i: nat, whole: Phase) {
    && v.Valid() && |f| == STATE && |now| == |start| && i <= |now| && now[i..] == start[i..]
    && Resumes(now[..i], Decrypted(v, f, start[i..]), whole)
  }

  lemma DecryptingFirst(v: Variant, f: Bytes, start: Bytes) returns (whole: Phase)
    requires v.Valid() && |f| == STATE
    ensures whole == Decrypted(v, f, start) && Decrypting(v, f, start, start, 0, whole)
  {
    whole := Decrypted(v, f, start);
    assert start[0..] == start && start[..0] == [];
  }

  lemma DecryptingNext(v: Variant, f: Bytes, now: Bytes, after: Bytes, start: Bytes, i: nat, whole: Phase)
    requires Decrypting(v, f, now, start, i, whole) && i + v.rate <= |now|
    requires after == now[..i] + Xor(f[..v.rate], now[i..i + v.rate]) + now[i + v.rate..]
    ensures Decrypting(v, v.pb(SetRate(f, now[i..i + v.rate])), after, start, i + v.rate, whole)
  {
    BlockAt(now, after, i, Xor(f[..v.rate], now[i..i + v.rate]));
    BlockRead(now, start, i, v.rate);
    DecryptStep(v, f, now[..i], start[i..], whole);
  }

  /** The buffer around a block just written. */
  lemma BlockAt(before: Bytes, after: Bytes, i: nat, r: Bytes)
    requires i + |r| <= |before| && after == before[..i] + r + before[i + |r|..]
    ensures after[..i + |r|] == before[..i] + r && after[i + |r|..] == before[i + |r|..]
  {
  }

  /** A block about to be read is still the original one. */
  lemma BlockRead(now: Bytes, start: Bytes, i: nat, n: nat)
    requires |now| == |start| && i + n <= |now| && now[i..] == start[i..]
    ensures start[i..][..n] == now[i..i + n] && start[i..][n..] == start[i + n..] == now[i + n..]
  {
    assert now[i..][..n] == now[i..i + n] && now[i..][n..] == now[i + n..];
  }

  lemma NextBlock(rate: nat, n: nat, i: nat)
    requires (rate == 8 || rate == 16) && i < Full(rate, n) && i % rate == 0
    ensures i + rate <= Full(rate, n) && (i + rate) % rate == 0
  {
  }

  /** Encrypts the whole blocks; the tail is not touched. */
  method EncryptFull(c: Cipher, s0: State, buf: array<bv8>, ghost v: Variant) returns (s: State)
    requires Models(c, v)
    modifies buf
    ensures Encrypting(v, Flat(c.order, s), buf[..], old(buf[..]), Full(c.rate, buf.Length),
                       Encrypted(v, Flat(c.order, s0), old(buf[..])))
  {
    s := s0;
    ghost var start := buf[..];
    ghost var whole := EncryptingFirst(v, Flat(c.order, s0), start);
    var full, i := Full(c.rate, buf.Length), 0;
    while i < full
      invariant 0 <= i <= full && i % c.rate == 0
      invariant Encrypting(v, Flat(c.order, s), buf[..], start, i, whole)
    {
      NextBlock(c.rate, buf.Length, i);
      s := EncryptAt(c, s, buf, i, v, start, whole);
      i := i + c.rate;
    }
  }

  method EncryptAt(c: Cipher, s0: State, buf: array<bv8>, i: nat, ghost v: Variant, ghost start: Bytes,
                   ghost whole: Phase) returns (s: State)
    requires Models(c, v) && i + c.rate <= buf.Length && Encrypting(v, Flat(c.order, s0), buf[..], start, i, whole)
    modifies buf
    ensures Encrypting(v, Flat(c.order, s), buf[..], start, i + c.rate, whole)
  {
    s := EncryptBlock(c, s0, buf, i, v);
    EncryptingNext(v, Flat(c.order, s0), old(buf[..]), buf[..], start, i, whole);
  }

  /** One block: fold it into the rate, write the rate out over it, permute. */
  method EncryptBlock(c: Cipher, s0: State, buf: array<bv8>, i: nat, ghost v: Variant) returns (s: State)
    requires Models(c, v) && i + c.rate <= buf.Length
    modifies buf
    ensures var f := Flat(c.order, s0);
            var r := Xor(f[..c.rate], old(buf[..])[i..i + c.rate]);
            && buf[..] == old(buf[..])[..i] + r + old(buf[..])[i + c.rate..]
            && Flat(c.order, s) == v.pb(SetRate(f, r))
  {
    var block := buf[i..i + c.rate];
    var r;
    r, s := EncryptWords(c, s0, block, v);
    WriteAt(buf, i, r);
  }

  method EncryptWords(c: Cipher, s0: State, block: Bytes, ghost v: Variant) returns (r: Bytes, s: State)
    requires Models(c, v) && |block| == c.rate
    ensures r == Xor(Flat(c.order, s0)[..c.rate], block) && Flat(c.order, s) == v.pb(SetRate(Flat(c.order, s0), r))
  {
    EncryptOne(c, s0, block);
    s := XorRate(c, s0, block);
    r := RateBytes(c, s)[..c.rate];
    PermutedAs(c, v, s);
    s := c.pb(s);
  }

  /** Decrypts the whole blocks; the tail is not touched. */
  method DecryptFull(c: Cipher, s0: State, buf: array<bv8>, ghost v: Variant) returns (s: State)
    requires Models(c, v)
    modifies buf
    ensures Decrypting(v, Flat(c.order, s), buf[..], old(buf[..]), Full(c.rate, buf.Length),
                       Decrypted(v, Flat(c.order, s0), old(buf[..])))
  {
    s := s0;
    ghost var start := buf[..];
    ghost var whole := DecryptingFirst(v, Flat(c.order, s0), start);
    var full, i := Full(c.rate, buf.Length), 0;
    while i < full
      invariant 0 <= i <= full && i % c.rate == 0
      invariant Decrypting(v, Flat(c.order, s), buf[..], start, i, whole)
    {
      NextBlock(c.rate, buf.Length, i);
      s := DecryptAt(c, s, buf, i, v, start, whole);
      i := i + c.rate;
    }
  }

  method DecryptAt(c: Cipher, s0: State, buf: array<bv8>, i: nat, ghost v: Variant, ghost start: Bytes,
                   ghost whole: Phase) returns (s: State)
    requires Models(c, v) && i + c.rate <= buf.Length && Decrypting(v, Flat(c.order, s0), buf[..], start, i, whole)
    modifies buf
    ensures Decrypting(v, Flat(c.order, s), buf[..], start, i + c.rate, whole)
  {
    s := DecryptBlock(c, s0, buf, i, v);
    DecryptingNext(v, Flat(c.order, s0), old(buf[..]), buf[..], start, i, whole);
  }

  /** One block: key stream over it, the ciphertext into the rate, permute. */
  method DecryptBlock(c: Cipher, s0: State, buf: array<bv8>, i: nat, ghost v: Variant) returns (s: State)
    requires Models(c, v) && i + c.rate <= buf.Length
    modifies buf
    ensures var (f, ct) := (Flat(c.order, s0), old(buf[..])[i..i + c.rate]);
            && buf[..] == old(buf[..])[..i] + Xor(f[..c.rate], ct) + old(buf[..])[i + c.rate..]
            && Flat(c.order, s) == v.pb(SetRate(f, ct))
  {
    var block := buf[i..i + c.rate];
    var r;
    r, s := DecryptWords(c, s0, block, v);
    WriteAt(buf, i, r);
  }

  method DecryptWords(c: Cipher, s0: State, block: Bytes, ghost v: Variant) returns (r: Bytes, s: State)
    requires Models(c, v) && |block| == c.rate
    ensures r == Xor(Flat(c.order, s0)[..c.rate], block) && Flat(c.order, s) == v.pb(SetRate(Flat(c.order, s0), block))
  {
    DecryptOne(c, s0, block);
    r := Xor(RateBytes(c, s0)[..c.rate], block);
    s := SetRateWords(c, s0, block + seq(16 - c.rate, _ => 0));
    PermutedAs(c, v, s);
    s := c.pb(s);
  }

  // ---------------------------------------------------------------- sealing

  /** The data phase's run, on words. */
  lemma DataWords(c: Cipher, v: Variant, p: Bytes, us: seq<Bytes>, bs: seq<Bytes>)
    requires Models(c, v) && |us| == |bs| == |p| / v.rate + 1 && Joined(bs) == PaddedData(v, p)
    requires |bs[|bs| - 1]| == v.rate && Chain(v.pb, v.rate, us, bs[..|bs| - 1])
    ensures PaddedTo(c, p, bs) && Run(c, us, bs[..|bs| - 1])
  {
    var front := bs[..|bs| - 1];
    ChainWords(c, v, us, front);
    PaddedWords(c, v, p);
    forall i | 0 <= i < |bs| ensures |bs[i]| == c.rate { if i < |bs| - 1 { assert front[i] == bs[i]; } }
  }

  /**
   * The data phase in place, tail included. The run: `states` are the states before each block of the
   * padded text, every byte written is the byte read masked by the rate of its state, and the last
   * block is folded in without a permutation.
   */
  method EncryptData(c: Cipher, s0: State, buf: array<bv8>, ghost v: Variant)
    returns (s: State, ghost states: seq<Bytes>, ghost blocks: seq<Bytes>)
    requires Models(c, v)
    modifies buf
    ensures Phase(buf[..], Flat(c.order, s)) == Encrypted(v, Flat(c.order, s0), old(buf[..]))
    ensures PaddedTo(c, old(buf[..]), blocks) && Run(c, states, blocks[..|blocks| - 1])
    ensures states[0] == Flat(c.order, s0)
    ensures Flat(c.order, s) == XorAt(states[|blocks| - 1], 0, blocks[|blocks| - 1])
    ensures buf.Length <= |Rates(c.rate, states)|
            && forall i :: 0 <= i < buf.Length ==> buf[i] == Rates(c.rate, states)[i] ^ old(buf[i])
  {
    ghost var start := buf[..];
    s := EncryptInPlace(c, s0, buf, v);
    states, blocks := EncryptRun(v, Flat(c.order, s0), start);
    DataWords(c, v, start, states, blocks);
    assert forall i :: 0 <= i < buf.Length ==> buf[i] == buf[..][i] && old(buf[i]) == start[i];
  }

  method EncryptInPlace(c: Cipher, s0: State, buf: array<bv8>, ghost v: Variant) returns (s: State)
    requires Models(c, v)
    modifies buf
    ensures Phase(buf[..], Flat(c.order, s)) == Encrypted(v, Flat(c.order, s0), old(buf[..]))
  {
    var full := Full(c.rate, buf.Length);
    s := EncryptFull(c, s0, buf, v);
    ghost var before, whole := buf[..], Encrypted(v, Flat(c.order, s0), old(buf[..]));
    EncryptingLast(v, Flat(c.order, s), before, old(buf[..]), full, whole);
    var r;
    r, s := EncryptTail(c, s, buf[full..], v);
    WriteAt(buf, full, r);
    assert buf[..] == before[..full] + r;
  }

  /** The tail: padded, folded into the rate, and as much of the rate written out as there was text. */
  method EncryptTail(c: Cipher, s0: State, rem: Bytes, ghost v: Variant) returns (r: Bytes, s: State)
    requires Models(c, v) && |rem| < c.rate
    ensures var f := Flat(c.order, s0);
            var x := Xor(f[..c.rate], Padded(v, rem));
            r == x[..|rem|] && Flat(c.order, s) == SetRate(f, x)
  {
    var padded := PadBlock(c, rem)[..c.rate];
    PadBlockIs(c, v, rem);
    EncryptOne(c, s0, padded);
    s := XorRate(c, s0, padded);
    r := RateBytes(c, s)[..|rem|];
    assert r == RateBytes(c, s)[..c.rate][..|rem|];
  }

  /** The key folded in behind the rate, permuted, and the last sixteen bytes masked by the end of the key. */
  ghost predicate TagFrom(c: Cipher, f: Bytes, tag: Bytes)
    requires c.Valid() && |f| == STATE
  {
    var (o, key) := (c.order, c.Key());
    var y := Flat(o, c.p12(Unflat(o, XorAt(f, c.rate, key))));
    |tag| == 16 && forall i :: 0 <= i < 16 ==> tag[i] == y[STATE - 16 + i] ^ key[|key| - 16 + i]
  }

  method Finish(c: Cipher, s: State, ghost v: Variant) returns (tag: Bytes)
    requires Models(c, v)
    ensures tag == Tag(v, Flat(c.order, s)) && TagFrom(c, Flat(c.order, s), tag)
  {
    ModelsIs(c, v);
    TagIs(c, s);
    tag := FinalizeWords(c, s);
  }

  /**
   * Encrypts in place and returns the tag. The whole run, in terms of the two permutations: from the
   * initial state, the blocks of the padded associated data and the separator lead to the first of
   * `states`; these are the states before each block of the padded plaintext; every ciphertext byte
   * is the plaintext byte masked by the rate of its state; and the tag comes from the last state with
   * the last block and the key folded in.
   */
  method Encrypt(c: Cipher, nonce: Bytes, aad: Bytes, buf: array<bv8>)
    returns (tag: Bytes, ghost adStates: seq<Bytes>, ghost adBlocks: seq<Bytes>,
             ghost states: seq<Bytes>, ghost blocks: seq<Bytes>)
    requires c.Valid() && |nonce| == 16
    modifies buf
    ensures (buf[..], tag) == Seal(c.Bytewise(), nonce, aad, old(buf[..]))
    ensures Run(c, adStates, adBlocks) && if |aad| == 0 then adBlocks == [] else PaddedTo(c, aad, adBlocks)
    ensures adStates[0] == Flat(c.order, InitWords(c, nonce))
    ensures PaddedTo(c, old(buf[..]), blocks) && Run(c, states, blocks[..|blocks| - 1])
    ensures states[0] == XorAt(adStates[|adBlocks|], STATE - 1, [Store(c.order, c.sep)[7]])
    ensures buf.Length <= |Rates(c.rate, states)|
            && forall i :: 0 <= i < buf.Length ==> buf[i] == Rates(c.rate, states)[i] ^ old(buf[i])
    ensures TagFrom(c, XorAt(states[|blocks| - 1], 0, blocks[|blocks| - 1]), tag)
  {
    ghost var v := c.Bytewise();
    BytewiseModels(c);
    var s;
    s, adStates, adBlocks := StartWords(c, nonce, aad, v);
    s, states, blocks := EncryptData(c, s, buf, v);
    tag := Finish(c, s, v);
  }

  // ---------------------------------------------------------------- opening

  /** The result of opening in place: plaintext on success, the ciphertext back on failure. */
  ghost predicate Opened(v: Variant, nonce: Bytes, aad: Bytes, before: Bytes, tag: Bytes, after: Bytes, ok: bool)
    requires v.Valid() && |nonce| == 16
  {
    var r := Open(v, nonce, aad, before, tag);
    (ok <==> r.Some?) && after == if ok then r.value else before
  }

  /** In terms of sealing: success is the text that seals to the input, failure that none does. */
  lemma OpenedSeals(v: Variant, nonce: Bytes, aad: Bytes, before: Bytes, tag: Bytes, after: Bytes, ok: bool)
    requires v.Valid() && |nonce| == 16 && Opened(v, nonce, aad, before, tag, after, ok)
    ensures ok ==> Seal(v, nonce, aad, after) == (before, tag)
    ensures !ok ==> after == before && forall p: Bytes :: Seal(v, nonce, aad, p) != (before, tag)
  {
    if ok {
      OpenIsSeal(v, nonce, aad, after, before, tag);
    } else {
      forall p: Bytes ensures Seal(v, nonce, aad, p) != (before, tag) { OpenIsSeal(v, nonce, aad, p, before, tag); }
    }
  }

  /** Whole blocks of the text depend only on whole blocks of the input. */
  lemma {:induction false} PrefixOnly(v: Variant, s: Bytes, p: Bytes, q: Bytes, full: nat)
    requires v.Valid() && |s| == STATE && |p| == |q| && full <= |p| && full % v.rate == 0 && p[..full] == q[..full]
    ensures Encrypted(v, s, p).text[..full] == Encrypted(v, s, q).text[..full]
    decreases full
  {
    if full > 0 {
      var k := v.rate;
      WholeBlock(full, k);
      assert p[..k] == p[..full][..k] && q[..k] == q[..full][..k];
      var r := Xor(s[..k], p[..k]);
      var t := v.pb(SetRate(s, r));
      assert p[k..][..full - k] == p[..full][k..] && q[k..][..full - k] == q[..full][k..];
      PrefixOnly(v, t, p[k..], q[k..], full - k);
      assert Encrypted(v, s, p).text[..full] == r + Encrypted(v, t, p[k..]).text[..full - k];
      assert Encrypted(v, s, q).text[..full] == r + Encrypted(v, t, q[k..]).text[..full - k];
    }
  }

  lemma WholeBlock(full: nat, k: nat)
    requires (k == 8 || k == 16) && full > 0 && full % k == 0
    ensures full >= k && (full - k) % k == 0
  {
  }

  /** Whole blocks in place; the tail's plaintext apart, and the final state. */
  method DecryptBlocks(c: Cipher, s0: State, buf: array<bv8>, ghost v: Variant) returns (plain: Bytes, s: State)
    requires Models(c, v)
    modifies buf
    ensures var full := Full(c.rate, buf.Length);
            && buf[full..] == old(buf[full..]) && |plain| == buf.Length - full
            && Decrypted(v, Flat(c.order, s0), old(buf[..])) == Phase(buf[..full] + plain, Flat(c.order, s))
  {
    var full := Full(c.rate, buf.Length);
    s := DecryptFull(c, s0, buf, v);
    var rem := buf[full..];
    var ks := RateBytes(c, s);
    TailBytesIs(c, v, s, rem);
    plain := Xor(ks[..|rem|], rem);
    s := SetRateWords(c, s, TailBytes(c, ks, rem));
  }

  /** SP 800-232: the tail is held back until the tag is checked, and only whole blocks are restored. */
  method Decrypt(c: Cipher, nonce: Bytes, aad: Bytes, buf: array<bv8>, tag: Bytes) returns (ok: bool)
    requires c.Valid() && |nonce| == 16
    modifies buf
    ensures Opened(c.Bytewise(), nonce, aad, old(buf[..]), tag, buf[..], ok)
    ensures ok ==> Seal(c.Bytewise(), nonce, aad, buf[..]) == (old(buf[..]), tag)
    ensures !ok ==> buf[..] == old(buf[..])
    ensures !ok ==> forall p: Bytes :: Seal(c.Bytewise(), nonce, aad, p) != (old(buf[..]), tag)
  {
    var full := Full(c.rate, buf.Length);
    ghost var start, v := buf[..], c.Bytewise();
    BytewiseModels(c);
    var s0, _, _ := StartWords(c, nonce, aad, v);
    var plain, s := DecryptBlocks(c, s0, buf, v);
    TagIs(c, s);
    ok := FinalizeWords(c, s) == tag;
    ghost var partial := buf[..];
    if ok {
      WriteAt(buf, full, plain);
      assert buf[..] == partial[..full] + plain;
    } else {
      var s2, _, _ := StartWords(c, nonce, aad, v);
      s2 := EncryptFull(c, s2, buf, v);
      Restored(v, Flat(c.order, s0), start, partial, buf[..], full);
    }
    OpenedSeals(v, nonce, aad, start, tag, buf[..], ok);
  }

  /** Re-encrypting the whole blocks over an untouched tail gives the ciphertext back. */
  lemma Restored(v: Variant, s: Bytes, start: Bytes, partial: Bytes, after: Bytes, full: nat)
    requires v.Valid() && |s| == STATE && full == Full(v.rate, |start|) && |partial| == |after| == |start|
    requires partial[..full] == Decrypted(v, s, start).text[..full] && partial[full..] == start[full..]
    requires after[..full] == Encrypted(v, s, partial).text[..full] && after[full..] == partial[full..]
    ensures after == start
  {
    var d := Decrypted(v, s, start).text;
    EncryptDecrypted(v, s, start);
    PrefixOnly(v, s, partial, d, full);
    SameParts(after, start, full);
  }

  lemma SameParts(a: Bytes, b: Bytes, k: nat)
    requires k <= |a| && k <= |b| && a[..k] == b[..k] && a[k..] == b[k..]
    ensures a == b
  {
    assert a == a[..k] + a[k..] && b == b[..k] + b[k..];
  }

  /** Version 1.2: everything is decrypted first, and the encryption pass restores all of it. */
  method DecryptV12(c: Cipher, nonce: Bytes, aad: Bytes, buf: array<bv8>, tag: Bytes) returns (ok: bool)
    requires c.Valid() && |nonce| == 16
    modifies buf
    ensures Opened(c.Bytewise(), nonce, aad, old(buf[..]), tag, buf[..], ok)
    ensures ok ==> Seal(c.Bytewise(), nonce, aad, buf[..]) == (old(buf[..]), tag)
    ensures !ok ==> buf[..] == old(buf[..])
    ensures !ok ==> forall p: Bytes :: Seal(c.Bytewise(), nonce, aad, p) != (old(buf[..]), tag)
  {
    ghost var start, v := buf[..], c.Bytewise();
    BytewiseModels(c);
    var s0, _, _ := StartWords(c, nonce, aad, v);
    var plain, s := DecryptBlocks(c, s0, buf, v);
    ghost var blocks := buf[..Full(c.rate, buf.Length)];
    WriteAt(buf, Full(c.rate, buf.Length), plain);
    assert buf[..] == blocks + plain;
    TagIs(c, s);
    ok := FinalizeWords(c, s) == tag;
    if !ok {
      EncryptDecrypted(v, Flat(c.order, s0), start);
      var again, _, _ := StartWords(c, nonce, aad, v);
      var _, _, _ := EncryptData(c, again, buf, v);
    }
    OpenedSeals(v, nonce, aad, start, tag, buf[..], ok);
  }
}
