/** The Ascon AEAD over any permutation: SP 800-232 and the version 1.2 variants. */
module Ascon {
  import opened Options

  type Bytes = seq<bv8>

  /** The 320-bit state, as the bytes its words are loaded from. */
  const STATE: nat := 40

  /**
   * One parameter set with its key. `pa` and `pb` are the full and the data-phase permutation,
   * arbitrary functions here; `pad` and `sep` are the padding and domain-separation bytes in the
   * byte order of the variant.
   */
  datatype Variant = Variant(rate: nat, iv: Bytes, key: Bytes, pad: bv8, sep: bv8, pa: Bytes -> Bytes,
                             pb: Bytes -> Bytes)
  {
    ghost predicate Valid() {
      && (rate == 8 || rate == 16) && (|key| == 16 || (|key| == 20 && rate == 8)) && |iv| + |key| == 24
      && OnStates(pa) && OnStates(pb)
    }
  }

  /** A function on 40-byte states. */
  ghost predicate OnStates(f: Bytes -> Bytes) {
    forall s {:trigger f(s)} :: |s| == STATE ==> |f(s)| == STATE
  }

  // ------------------------------------------------------------- byte strings

  function Xor(a: Bytes, b: Bytes): (r: Bytes)
    requires |a| == |b|
    ensures |r| == |a| && forall i :: 0 <= i < |r| ==> r[i] == a[i] ^ b[i]
  {
    seq(|a|, i requires 0 <= i < |a| => a[i] ^ b[i])
  }

  lemma ByteXorCancels(a: bv8, b: bv8)
    ensures a ^ (a ^ b) == b && a ^ 0 == a
  {
  }

  /** Exclusive-or with the same mask twice restores. */
  lemma XorCancels(a: Bytes, b: Bytes)
    requires |a| == |b|
    ensures Xor(a, Xor(a, b)) == b
  {
    forall i | 0 <= i < |a| ensures Xor(a, Xor(a, b))[i] == b[i] { ByteXorCancels(a[i], b[i]); }
  }

  /** `b` folded into `s` from byte `off`. */
  function XorAt(s: Bytes, off: nat, b: Bytes): (r: Bytes)
    requires off + |b| <= |s|
    ensures |r| == |s|
  {
    s[..off] + Xor(s[off..off + |b|], b) + s[off + |b|..]
  }

  /** Byte by byte. */
  lemma XorAtByte(s: Bytes, off: nat, b: Bytes, i: nat)
    requires off + |b| <= |s| && i < |s|
    ensures XorAt(s, off, b)[i] == if off <= i < off + |b| then s[i] ^ b[i - off] else s[i]
  {
  }

  // ----------------------------------------------------- the phases, as values

  /** `IV ‖ K ‖ N`, permuted, with the key folded into the end. */
  function Init(v: Variant, nonce: Bytes): (s: Bytes)
    requires v.Valid() && |nonce| == 16
    ensures |s| == STATE
  {
    XorAt(v.pa(v.iv + v.key + nonce), STATE - |v.key|, v.key)
  }

  /** `rem ‖ pad ‖ 0*`, one full block. */
  function Padded(v: Variant, rem: Bytes): (b: Bytes)
    requires |rem| < v.rate
    ensures |b| == v.rate
  {
    rem + [v.pad] + seq(v.rate - |rem| - 1, _ => 0)
  }

  function AbsorbBlocks(v: Variant, s: Bytes, aad: Bytes): (t: Bytes)
    requires v.Valid() && |s| == STATE
    ensures |t| == STATE
    decreases |aad|
  {
    if |aad| >= v.rate then AbsorbBlocks(v, v.pb(XorAt(s, 0, aad[..v.rate])), aad[v.rate..])
    else v.pb(XorAt(s, 0, Padded(v, aad)))
  }

  /** Associated data, if any, then the domain separator always. */
  function Absorbed(v: Variant, s: Bytes, aad: Bytes): (t: Bytes)
    requires v.Valid() && |s| == STATE
    ensures |t| == STATE
  {
    XorAt(if |aad| == 0 then s else AbsorbBlocks(v, s, aad), STATE - 1, [v.sep])
  }

  /** The tag of a finished state: key behind the rate, permute, last 16 bytes masked by the key. */
  function Tag(v: Variant, s: Bytes): (t: Bytes)
    requires v.Valid() && |s| == STATE
    ensures |t| == 16
  {
    Xor(v.pa(XorAt(s, v.rate, v.key))[STATE - 16..], v.key[|v.key| - 16..])
  }

  /** Text and state after a data phase. */
  datatype Phase = Phase(text: Bytes, state: Bytes)

  /** The rate replaced. */
  function SetRate(s: Bytes, r: Bytes): (t: Bytes)
    requires |r| <= |s|
    ensures |t| == |s|
  {
    r + s[|r|..]
  }

  function Encrypted(v: Variant, s: Bytes, p: Bytes): (e: Phase)
    requires v.Valid() && |s| == STATE
    ensures |e.text| == |p| && |e.state| == STATE
    decreases |p|
  {
    if |p| >= v.rate then
      var r := Xor(s[..v.rate], p[..v.rate]);
      var rest := Encrypted(v, v.pb(SetRate(s, r)), p[v.rate..]);
      Phase(r + rest.text, rest.state)
    else
      var r := Xor(s[..v.rate], Padded(v, p));
      Phase(r[..|p|], SetRate(s, r))
  }

  /** The rate after a partial ciphertext: its bytes, then the padding folded into the old rate. */
  function TailRate(v: Variant, s: Bytes, c: Bytes): (r: Bytes)
    requires |c| < v.rate <= |s|
    ensures |r| == v.rate
  {
    c + [s[|c|] ^ v.pad] + s[|c| + 1..v.rate]
  }

  function Decrypted(v: Variant, s: Bytes, c: Bytes): (d: Phase)
    requires v.Valid() && |s| == STATE
    ensures |d.text| == |c| && |d.state| == STATE
    decreases |c|
  {
    if |c| >= v.rate then
      var rest := Decrypted(v, v.pb(SetRate(s, c[..v.rate])), c[v.rate..]);
      Phase(Xor(s[..v.rate], c[..v.rate]) + rest.text, rest.state)
    else
      Phase(Xor(s[..|c|], c), SetRate(s, TailRate(v, s, c)))
  }

  // ------------------------------------------- the phases, as runs of states

  /** Byte strings one after the other. */
  function Joined(bs: seq<Bytes>): Bytes { if bs == [] then [] else bs[0] + Joined(bs[1..]) }

  /** Each state is the permutation of the one before with a block folded into its front. */
  ghost predicate Chain(pb: Bytes -> Bytes, rate: nat, ts: seq<Bytes>, bs: seq<Bytes>) {
    && rate <= STATE && |ts| == |bs| + 1
    && (forall i :: 0 <= i < |bs| ==> |bs[i]| == rate) && (forall i :: 0 <= i < |ts| ==> |ts[i]| == STATE)
    && forall i :: 0 <= i < |bs| ==> ts[i + 1] == pb(XorAt(ts[i], 0, bs[i]))
  }

  lemma ChainFirst(pb: Bytes -> Bytes, rate: nat, s: Bytes, b: Bytes, ts: seq<Bytes>, bs: seq<Bytes>)
    requires Chain(pb, rate, ts, bs) && |s| == STATE && |b| == rate && ts[0] == pb(XorAt(s, 0, b))
    ensures Chain(pb, rate, [s] + ts, [b] + bs)
  {
  }

  /** `data ‖ pad ‖ 0*` up to a whole number of blocks. */
  function PaddedData(v: Variant, data: Bytes): Bytes
    requires v.rate > 0
  {
    data + [v.pad] + seq(v.rate - |data| % v.rate - 1, _ => 0)
  }

  lemma PaddedRest(v: Variant, data: Bytes)
    requires v.Valid() && |data| >= v.rate
    ensures data[..v.rate] + PaddedData(v, data[v.rate..]) == PaddedData(v, data)
    ensures |data[v.rate..]| / v.rate + 1 == |data| / v.rate
  {
    OneBlockLess(|data|, v.rate);
    assert data[..v.rate] + data[v.rate..] == data;
  }

  lemma OneBlockLess(n: nat, k: nat)
    requires (k == 8 || k == 16) && n >= k
    ensures (n - k) % k == n % k && (n - k) / k + 1 == n / k
  {
  }

  lemma PaddedLast(v: Variant, data: Bytes)
    requires v.Valid() && |data| < v.rate
    ensures Padded(v, data) == PaddedData(v, data) && |data| / v.rate == 0
    ensures Joined([Padded(v, data)]) == Padded(v, data)
  {
    assert |data| % v.rate == |data|;
    assert [Padded(v, data)][1..] == [];
    assert Padded(v, data) + [] == Padded(v, data);
  }

  lemma JoinedFirst(b: Bytes, bs: seq<Bytes>)
    ensures Joined([b] + bs) == b + Joined(bs)
  {
    assert ([b] + bs)[1..] == bs;
  }

  /** Absorption is a run over the padded data. */
  lemma {:induction false} AbsorbRun(v: Variant, s: Bytes, data: Bytes) returns (ts: seq<Bytes>, bs: seq<Bytes>)
    requires v.Valid() && |s| == STATE
    ensures |bs| == |data| / v.rate + 1 && Chain(v.pb, v.rate, ts, bs) && Joined(bs) == PaddedData(v, data)
    ensures ts[0] == s && ts[|bs|] == AbsorbBlocks(v, s, data)
    decreases |data|
  {
    if |data| >= v.rate {
      var b := data[..v.rate];
      var us, cs := AbsorbRun(v, v.pb(XorAt(s, 0, b)), data[v.rate..]);
      ts, bs := [s] + us, [b] + cs;
      ChainFirst(v.pb, v.rate, s, b, us, cs);
      JoinedFirst(b, cs);
      PaddedRest(v, data);
    } else {
      bs := [Padded(v, data)];
      ts := [s, v.pb(XorAt(s, 0, Padded(v, data)))];
      PaddedLast(v, data);
    }
  }

  /** The rates of some states, one after the other. */
  function Rates(rate: nat, us: seq<Bytes>): Bytes
    requires rate <= STATE && forall i :: 0 <= i < |us| ==> |us[i]| == STATE
  {
    if us == [] then [] else us[0][..rate] + Rates(rate, us[1..])
  }

  lemma RatesFirst(rate: nat, s: Bytes, us: seq<Bytes>)
    requires rate <= STATE && |s| == STATE && forall i :: 0 <= i < |us| ==> |us[i]| == STATE
    ensures Rates(rate, [s] + us) == s[..rate] + Rates(rate, us)
  {
    assert ([s] + us)[1..] == us;
  }

  /** The text is masked by the rates met on the way: byte by byte. */
  ghost predicate Masked(text: Bytes, p: Bytes, stream: Bytes) {
    |text| == |p| <= |stream| && forall i :: 0 <= i < |p| ==> text[i] == stream[i] ^ p[i]
  }

  lemma MaskedFirst(r: Bytes, b: Bytes, text: Bytes, p: Bytes, stream: Bytes)
    requires |r| == |b| && Masked(text, p, stream)
    ensures Masked(Xor(r, b) + text, b + p, r + stream)
  {
  }

  /** Encryption is a run over the padded plaintext, its ciphertext masked by the rates before each block. */
  lemma {:induction false} EncryptRun(v: Variant, s: Bytes, p: Bytes) returns (us: seq<Bytes>, bs: seq<Bytes>)
    requires v.Valid() && |s| == STATE
    ensures |us| == |bs| == |p| / v.rate + 1 && Joined(bs) == PaddedData(v, p) && |bs[|bs| - 1]| == v.rate
    ensures Chain(v.pb, v.rate, us, bs[..|bs| - 1]) && us[0] == s
    ensures Masked(Encrypted(v, s, p).text, p, Rates(v.rate, us))
    ensures Encrypted(v, s, p).state == XorAt(us[|us| - 1], 0, bs[|bs| - 1])
    decreases |p|
  {
    if |p| >= v.rate {
      var b := p[..v.rate];
      BlockFolded(v, s, b);
      var t := v.pb(XorAt(s, 0, b));
      var ts, cs := EncryptRun(v, t, p[v.rate..]);
      us, bs := [s] + ts, [b] + cs;
      ChainFirst(v.pb, v.rate, s, b, ts, cs[..|cs| - 1]);
      assert bs[..|bs| - 1] == [b] + cs[..|cs| - 1];
      JoinedFirst(b, cs);
      PaddedRest(v, p);
      RatesFirst(v.rate, s, ts);
      MaskedFirst(s[..v.rate], b, Encrypted(v, t, p[v.rate..]).text, p[v.rate..], Rates(v.rate, ts));
      assert b + p[v.rate..] == p;
    } else {
      us, bs := [s], [Padded(v, p)];
      PaddedLast(v, p);
      RatesFirst(v.rate, s, []);
      BlockFolded(v, s, Padded(v, p));
    }
  }

  /** Folding a block into the front is replacing the rate. */
  lemma BlockFolded(v: Variant, s: Bytes, b: Bytes)
    requires |s| == STATE && |b| == v.rate <= STATE
    ensures XorAt(s, 0, b) == SetRate(s, Xor(s[..v.rate], b))
  {
    assert s[0..v.rate] == s[..v.rate];
  }

  // ------------------------------------------------------ what tells data apart

  /** No two states have the same image. */
  ghost predicate Injective(f: Bytes -> Bytes) {
    forall s, t {:trigger f(s), f(t)} :: |s| == STATE && |t| == STATE && f(s) == f(t) ==> s == t
  }

  /** Padding keeps data apart. */
  lemma PaddedDiffers(v: Variant, a: Bytes, b: Bytes)
    requires v.pad != 0 && |a| < v.rate && |b| < v.rate && a != b
    ensures Padded(v, a) != Padded(v, b)
  {
    var x, y := Padded(v, a), Padded(v, b);
    assert x[..|a|] == a && y[..|b|] == b;
    if |a| < |b| {
      assert x[|b|] == 0 && y[|b|] == v.pad;
    } else if |b| < |a| {
      assert y[|a|] == 0 && x[|a|] == v.pad;
    }
  }

  lemma FoldDiffers(s: Bytes, off: nat, a: Bytes, b: Bytes)
    requires |a| == |b| && off + |a| <= |s| && a != b
    ensures XorAt(s, off, a) != XorAt(s, off, b)
  {
    var i :| 0 <= i < |a| && a[i] != b[i];
    XorAtByte(s, off, a, off + i);
    XorAtByte(s, off, b, off + i);
    ByteXorCancels(s[off + i], a[i]);
    ByteXorCancels(s[off + i], b[i]);
  }

  lemma FoldSame(s: Bytes, t: Bytes, off: nat, b: Bytes)
    requires |s| == |t| && off + |b| <= |s| && XorAt(s, off, b) == XorAt(t, off, b)
    ensures s == t
  {
    forall i | 0 <= i < |s| ensures s[i] == t[i] {
      XorAtByte(s, off, b, i);
      XorAtByte(t, off, b, i);
      if off <= i < off + |b| {
        XorUndone(s[i], b[i - off]);
        XorUndone(t[i], b[i - off]);
      }
    }
  }

  lemma XorUndone(x: bv8, y: bv8)
    ensures (x ^ y) ^ y == x
  {
  }

  lemma {:induction false} AbsorbPrefix(v: Variant, s: Bytes, x: Bytes, a: Bytes, b: Bytes)
    requires v.Valid() && Injective(v.pb) && v.pad != 0 && |s| == STATE
    requires |x| % v.rate == 0 && |a| < v.rate && |b| < v.rate && a != b
    ensures AbsorbBlocks(v, s, x + a) != AbsorbBlocks(v, s, x + b)
    decreases |x|
  {
    if |x| == 0 {
      assert x + a == a && x + b == b;
      PaddedDiffers(v, a, b);
      FoldDiffers(s, 0, Padded(v, a), Padded(v, b));
    } else {
      var k := v.rate;
      OneBlockLess(|x|, k);
      assert (x + a)[..k] == x[..k] && (x + b)[..k] == x[..k];
      assert (x + a)[k..] == x[k..] + a && (x + b)[k..] == x[k..] + b;
      AbsorbPrefix(v, v.pb(XorAt(s, 0, x[..k])), x[k..], a, b);
    }
  }

  /**
   * With an injective data-phase permutation, associated data that differ only after a common run of
   * whole blocks lead to different states; in particular any two shorter than the rate.
   */
  lemma AbsorbedDiffers(v: Variant, s: Bytes, x: Bytes, a: Bytes, b: Bytes)
    requires v.Valid() && Injective(v.pb) && v.pad != 0 && |s| == STATE
    requires |x| % v.rate == 0 && |a| < v.rate && |b| < v.rate && a != b && |x + a| > 0 && |x + b| > 0
    ensures Absorbed(v, s, x + a) != Absorbed(v, s, x + b)
  {
    AbsorbPrefix(v, s, x, a, b);
    if Absorbed(v, s, x + a) == Absorbed(v, s, x + b) {
      FoldSame(AbsorbBlocks(v, s, x + a), AbsorbBlocks(v, s, x + b), STATE - 1, [v.sep]);
    }
  }

  /** No data at all is taken for a short block exactly when the permutation undoes folding that block. */
  lemma NoDataDiffers(v: Variant, s: Bytes, b: Bytes)
    requires v.Valid() && |s| == STATE && 0 < |b| < v.rate
    ensures Absorbed(v, s, []) == Absorbed(v, s, b) <==> v.pb(XorAt(s, 0, Padded(v, b))) == s
  {
    if Absorbed(v, s, []) == Absorbed(v, s, b) { FoldSame(s, AbsorbBlocks(v, s, b), STATE - 1, [v.sep]); }
  }

  // -------------------------------------------------------- the two inverses

  lemma TailByte(v: Variant, s: Bytes, p: Bytes, i: nat)
    requires |s| == STATE && |p| < v.rate <= STATE && i < v.rate
    ensures s[i] ^ Padded(v, p)[i] == TailRate(v, s, Xor(s[..|p|], p))[i]
  {
    if i < |p| {
    } else if i == |p| {
    } else {
      assert Padded(v, p)[i] == 0;
      ByteXorCancels(s[i], 0);
    }
  }

  /** A padded partial block leaves the same rate on both sides. */
  lemma TailAgrees(v: Variant, s: Bytes, p: Bytes)
    requires v.Valid() && |s| == STATE && |p| < v.rate
    ensures Xor(s[..v.rate], Padded(v, p)) == TailRate(v, s, Xor(s[..|p|], p))
  {
    var r := Xor(s[..v.rate], Padded(v, p));
    var t := TailRate(v, s, Xor(s[..|p|], p));
    forall i | 0 <= i < v.rate ensures r[i] == t[i] { TailByte(v, s, p, i); }
  }

  /** Decryption undoes encryption, and ends in the same state. */
  lemma {:induction false} DecryptEncrypted(v: Variant, s: Bytes, p: Bytes)
    requires v.Valid() && |s| == STATE
    ensures Decrypted(v, s, Encrypted(v, s, p).text) == Phase(p, Encrypted(v, s, p).state)
    decreases |p|
  {
    var c := Encrypted(v, s, p).text;
    if |p| >= v.rate {
      var r := Xor(s[..v.rate], p[..v.rate]);
      assert c[..v.rate] == r && c[v.rate..] == Encrypted(v, v.pb(SetRate(s, r)), p[v.rate..]).text;
      DecryptEncrypted(v, v.pb(SetRate(s, r)), p[v.rate..]);
      XorCancels(s[..v.rate], p[..v.rate]);
      assert p == p[..v.rate] + p[v.rate..];
    } else {
      TailAgrees(v, s, p);
      assert c == Xor(s[..|p|], p);
      XorCancels(s[..|p|], p);
    }
  }

  /** Encryption undoes decryption: the pass that restores a rejected buffer. */
  lemma {:induction false} EncryptDecrypted(v: Variant, s: Bytes, c: Bytes)
    requires v.Valid() && |s| == STATE
    ensures Encrypted(v, s, Decrypted(v, s, c).text) == Phase(c, Decrypted(v, s, c).state)
    decreases |c|
  {
    var p := Decrypted(v, s, c).text;
    if |c| >= v.rate {
      var b := c[..v.rate];
      assert p[..v.rate] == Xor(s[..v.rate], b) && p[v.rate..] == Decrypted(v, v.pb(SetRate(s, b)), c[v.rate..]).text;
      XorCancels(s[..v.rate], b);
      EncryptDecrypted(v, v.pb(SetRate(s, b)), c[v.rate..]);
      assert c == b + c[v.rate..];
    } else {
      TailAgrees(v, s, p);
      XorCancels(s[..|c|], c);
      assert Xor(s[..v.rate], Padded(v, p))[..|p|] == c;
    }
  }

  // ----------------------------------------------------- the whole cipher

  function Start(v: Variant, nonce: Bytes, aad: Bytes): (s: Bytes)
    requires v.Valid() && |nonce| == 16
    ensures |s| == STATE
  {
    Absorbed(v, Init(v, nonce), aad)
  }

  /** Ciphertext and tag. */
  function Seal(v: Variant, nonce: Bytes, aad: Bytes, p: Bytes): (Bytes, Bytes)
    requires v.Valid() && |nonce| == 16
  {
    var e := Encrypted(v, Start(v, nonce, aad), p);
    (e.text, Tag(v, e.state))
  }

  /** The plaintext, if the tag is the one the ciphertext leads to. */
  function Open(v: Variant, nonce: Bytes, aad: Bytes, c: Bytes, tag: Bytes): Option<Bytes>
    requires v.Valid() && |nonce| == 16
  {
    var d := Decrypted(v, Start(v, nonce, aad), c);
    if Tag(v, d.state) == tag then Some(d.text) else None
  }

  /** Opening accepts exactly what sealing produces, and returns what was sealed. */
  lemma OpenIsSeal(v: Variant, nonce: Bytes, aad: Bytes, p: Bytes, c: Bytes, tag: Bytes)
    requires v.Valid() && |nonce| == 16
    ensures Open(v, nonce, aad, c, tag) == Some(p) <==> Seal(v, nonce, aad, p) == (c, tag)
  {
    var s := Start(v, nonce, aad);
    if Open(v, nonce, aad, c, tag) == Some(p) { EncryptDecrypted(v, s, c); }
    if Seal(v, nonce, aad, p) == (c, tag) { DecryptEncrypted(v, s, p); }
  }
}
