/** Ascon's state as five 64-bit words, loaded and stored in either byte order. */
module AsconWords {
  import opened Ascon

  // ------------------------------------------------------- words and bytes

  datatype Order = Little | Big

  /** A 64-bit word as its eight bytes, least significant first. */
  type Word = b: Bytes | |b| == 8 witness [0, 0, 0, 0, 0, 0, 0, 0]

  const ZERO: Word := [0, 0, 0, 0, 0, 0, 0, 0]

  function XorW(x: Word, y: Word): Word { Xor(x, y) }

  function OrW(x: Word, y: Word): (r: Word)
    ensures forall i :: 0 <= i < 8 ==> r[i] == x[i] | y[i]
  {
    seq(8, i requires 0 <= i < 8 => x[i] | y[i])
  }

  /** `w << 32` and `w >> 32`. */
  function Shl32(w: Word): Word { [0, 0, 0, 0] + w[..4] }

  function Shr32(w: Word): Word { w[4..] + [0, 0, 0, 0] }

  function Reversed(b: Bytes): (r: Bytes)
    ensures |r| == |b| && forall i :: 0 <= i < |b| ==> r[i] == b[|b| - 1 - i]
  {
    seq(|b|, i requires 0 <= i < |b| => b[|b| - 1 - i])
  }

  lemma ReversedTwice(b: Bytes)
    ensures Reversed(Reversed(b)) == b
  {
  }

  function Store(o: Order, w: Word): (b: Bytes)
    ensures |b| == 8
  {
    if o.Little? then w else Reversed(w)
  }

  function Load(o: Order, b: Bytes): Word
    requires |b| == 8
  {
    if o.Little? then b else Reversed(b)
  }

  /** A byte as a number. */
  function Byte(x: bv8): (n: nat)
    ensures n < 0x100
  {
    x as nat
  }

  /** The number a word stands for. */
  function Number(w: Word): nat {
    Byte(w[0]) + 0x100 * Byte(w[1]) + 0x1_0000 * Byte(w[2]) + 0x100_0000 * Byte(w[3])
    + 0x1_0000_0000 * Byte(w[4]) + 0x100_0000_0000 * Byte(w[5]) + 0x1_0000_0000_0000 * Byte(w[6])
    + 0x100_0000_0000_0000 * Byte(w[7])
  }

  /** The bytes of a number, by place value from either end. */
  lemma LoadNumber(b: Bytes)
    requires |b| == 8
    ensures Number(Load(Little, b)) ==
              Byte(b[0]) + 0x100 * Byte(b[1]) + 0x1_0000 * Byte(b[2]) + 0x100_0000 * Byte(b[3])
              + 0x1_0000_0000 * Byte(b[4]) + 0x100_0000_0000 * Byte(b[5]) + 0x1_0000_0000_0000 * Byte(b[6])
              + 0x100_0000_0000_0000 * Byte(b[7])
    ensures Number(Load(Big, b)) ==
              Byte(b[7]) + 0x100 * Byte(b[6]) + 0x1_0000 * Byte(b[5]) + 0x100_0000 * Byte(b[4])
              + 0x1_0000_0000 * Byte(b[3]) + 0x100_0000_0000 * Byte(b[2]) + 0x1_0000_0000_0000 * Byte(b[1])
              + 0x100_0000_0000_0000 * Byte(b[0])
  {
  }

  /** The shifts are multiplication and division by `2^32`. */
  lemma ShiftNumber(w: Word)
    ensures Number(Shl32(w)) == Number(w) * 0x1_0000_0000 % 0x1_0000_0000_0000_0000
    ensures Number(Shr32(w)) == Number(w) / 0x1_0000_0000
  {
    ZeroHalf();
    NumberHalves(w);
    ShlHalves(w);
    ShrHalves(w);
    ShiftParts(Number(w), Half(w[..4]), Half(w[4..]));
  }

  lemma ZeroHalf()
    ensures Half([0, 0, 0, 0]) == 0
  {
    assert Byte(0) == 0;
  }

  lemma ShlHalves(w: Word)
    ensures Number(Shl32(w)) == Half(w[..4]) * 0x1_0000_0000
  {
    ZeroHalf();
    NumberHalves(Shl32(w));
    assert Shl32(w)[4..] == w[..4] && Shl32(w)[..4] == [0, 0, 0, 0];
  }

  lemma ShrHalves(w: Word)
    ensures Number(Shr32(w)) == Half(w[4..])
  {
    ZeroHalf();
    NumberHalves(Shr32(w));
    assert Shr32(w)[..4] == w[4..] && Shr32(w)[4..] == [0, 0, 0, 0];
  }

  /** Four bytes as a number. */
  function Half(b: Bytes): (n: nat)
    requires |b| == 4
    ensures n < 0x1_0000_0000
  {
    Byte(b[0]) + 0x100 * Byte(b[1]) + 0x1_0000 * Byte(b[2]) + 0x100_0000 * Byte(b[3])
  }

  lemma NumberHalves(w: Word)
    ensures Number(w) == Half(w[4..]) * 0x1_0000_0000 + Half(w[..4])
  {
  }

  lemma ShiftParts(n: nat, lo: nat, hi: nat)
    requires n == hi * 0x1_0000_0000 + lo && lo < 0x1_0000_0000
    ensures n * 0x1_0000_0000 % 0x1_0000_0000_0000_0000 == lo * 0x1_0000_0000 && n / 0x1_0000_0000 == hi
  {
  }

  /** Loading and storing are inverse. */
  lemma StoreLoad(o: Order, b: Bytes)
    requires |b| == 8
    ensures Store(o, Load(o, b)) == b && Load(o, Store(o, b)) == b
  {
    ReversedTwice(b);
  }

  /** Exclusive-or of words is exclusive-or of their bytes. */
  lemma StoreXor(o: Order, x: Word, y: Word)
    ensures Store(o, XorW(x, y)) == Xor(Store(o, x), Store(o, y))
  {
    assert Reversed(Xor(x, y)) == Xor(Reversed(x), Reversed(y));
  }

  // ------------------------------------------------------------- the state

  datatype State = State(w0: Word, w1: Word, w2: Word, w3: Word, w4: Word)

  /** The state's forty bytes. */
  function Flat(o: Order, s: State): (b: Bytes)
    ensures |b| == STATE
  {
    Join(Store(o, s.w0), Store(o, s.w1), Store(o, s.w2), Store(o, s.w3), Store(o, s.w4))
  }

  /** Byte `i` of five words. */
  function Pick(a: Bytes, b: Bytes, c: Bytes, d: Bytes, e: Bytes, i: nat): bv8
    requires |a| == |b| == |c| == |d| == |e| == 8 && i < STATE
  {
    if i < 8 then a[i] else if i < 16 then b[i - 8] else if i < 24 then c[i - 16]
    else if i < 32 then d[i - 24] else e[i - 32]
  }

  /** Five words' bytes, one after the other. */
  function Join(a: Bytes, b: Bytes, c: Bytes, d: Bytes, e: Bytes): (r: Bytes)
    requires |a| == |b| == |c| == |d| == |e| == 8
    ensures |r| == STATE
  {
    seq(STATE, i requires 0 <= i < STATE => Pick(a, b, c, d, e, i))
  }

  lemma JoinIs(a: Bytes, b: Bytes, c: Bytes, d: Bytes, e: Bytes)
    requires |a| == |b| == |c| == |d| == |e| == 8
    ensures Join(a, b, c, d, e) == a + b + c + d + e
  {
  }

  lemma JoinParts(a: Bytes, b: Bytes, c: Bytes, d: Bytes, e: Bytes)
    requires |a| == |b| == |c| == |d| == |e| == 8
    ensures var r := Join(a, b, c, d, e);
            r[0..8] == a && r[8..16] == b && r[16..24] == c && r[24..32] == d && r[32..40] == e
  {
  }

  function Unflat(o: Order, b: Bytes): State
    requires |b| == STATE
  {
    State(Load(o, b[0..8]), Load(o, b[8..16]), Load(o, b[16..24]), Load(o, b[24..32]), Load(o, b[32..40]))
  }

  lemma UnflatFlat(o: Order, s: State)
    ensures Unflat(o, Flat(o, s)) == s
  {
    StoreLoad(o, s.w0);
    StoreLoad(o, s.w1);
    StoreLoad(o, s.w2);
    StoreLoad(o, s.w3);
    StoreLoad(o, s.w4);
    JoinParts(Store(o, s.w0), Store(o, s.w1), Store(o, s.w2), Store(o, s.w3), Store(o, s.w4));
  }

  /** A word permutation, seen on bytes. */
  function OnBytes(o: Order, p: State -> State): Bytes -> Bytes {
    (b: Bytes) => if |b| == STATE then Flat(o, p(Unflat(o, b))) else b
  }

  lemma Permuted(o: Order, p: State -> State, s: State)
    ensures OnBytes(o, p)(Flat(o, s)) == Flat(o, p(s))
  {
    UnflatFlat(o, s);
  }

  lemma OnBytesStates(o: Order, p: State -> State)
    ensures OnStates(OnBytes(o, p))
  {
    forall b: Bytes | |b| == STATE ensures |OnBytes(o, p)(b)| == STATE {
      assert OnBytes(o, p)(b) == Flat(o, p(Unflat(o, b)));
    }
  }

  /** Folding into the middle of a concatenation. */
  lemma FoldMiddle(pre: Bytes, m: Bytes, post: Bytes, x: Bytes)
    requires |m| == |x|
    ensures XorAt(pre + m + post, |pre|, x) == pre + Xor(m, x) + post
  {
    var s := pre + m + post;
    assert s[..|pre|] == pre && s[|pre|..|pre| + |x|] == m && s[|pre| + |x|..] == post;
  }

  /** Folding eight bytes in at a word's place changes that word only. */
  lemma FoldJoin(a: Bytes, b: Bytes, c: Bytes, d: Bytes, e: Bytes, x: Bytes)
    requires |a| == |b| == |c| == |d| == |e| == |x| == 8
    ensures XorAt(Join(a, b, c, d, e), 0, x) == Join(Xor(a, x), b, c, d, e)
    ensures XorAt(Join(a, b, c, d, e), 8, x) == Join(a, Xor(b, x), c, d, e)
    ensures XorAt(Join(a, b, c, d, e), 16, x) == Join(a, b, Xor(c, x), d, e)
    ensures XorAt(Join(a, b, c, d, e), 24, x) == Join(a, b, c, Xor(d, x), e)
    ensures XorAt(Join(a, b, c, d, e), 32, x) == Join(a, b, c, d, Xor(e, x))
  {
    JoinParts(a, b, c, d, e);
  }

  /** Folding a word in folds its bytes in at the word's place. */
  lemma Fold0(o: Order, s: State, x: Word)
    ensures Flat(o, s.(w0 := XorW(s.w0, x))) == XorAt(Flat(o, s), 0, Store(o, x))
  {
    StoreXor(o, s.w0, x);
    FoldJoin(Store(o, s.w0), Store(o, s.w1), Store(o, s.w2), Store(o, s.w3), Store(o, s.w4), Store(o, x));
  }

  lemma Fold1(o: Order, s: State, x: Word)
    ensures Flat(o, s.(w1 := XorW(s.w1, x))) == XorAt(Flat(o, s), 8, Store(o, x))
  {
    StoreXor(o, s.w1, x);
    FoldJoin(Store(o, s.w0), Store(o, s.w1), Store(o, s.w2), Store(o, s.w3), Store(o, s.w4), Store(o, x));
  }

  lemma Fold2(o: Order, s: State, x: Word)
    ensures Flat(o, s.(w2 := XorW(s.w2, x))) == XorAt(Flat(o, s), 16, Store(o, x))
  {
    StoreXor(o, s.w2, x);
    FoldJoin(Store(o, s.w0), Store(o, s.w1), Store(o, s.w2), Store(o, s.w3), Store(o, s.w4), Store(o, x));
  }

  lemma Fold3(o: Order, s: State, x: Word)
    ensures Flat(o, s.(w3 := XorW(s.w3, x))) == XorAt(Flat(o, s), 24, Store(o, x))
  {
    StoreXor(o, s.w3, x);
    FoldJoin(Store(o, s.w0), Store(o, s.w1), Store(o, s.w2), Store(o, s.w3), Store(o, s.w4), Store(o, x));
  }

  lemma Fold4(o: Order, s: State, x: Word)
    ensures Flat(o, s.(w4 := XorW(s.w4, x))) == XorAt(Flat(o, s), 32, Store(o, x))
  {
    StoreXor(o, s.w4, x);
    FoldJoin(Store(o, s.w0), Store(o, s.w1), Store(o, s.w2), Store(o, s.w3), Store(o, s.w4), Store(o, x));
  }

  lemma XorConcat(m: Bytes, n: Bytes, a: Bytes, b: Bytes)
    requires |m| == |a| && |n| == |b|
    ensures Xor(m + n, a + b) == Xor(m, a) + Xor(n, b)
  {
  }

  /** Adjacent folds combine. */
  lemma FoldTwo(pre: Bytes, m: Bytes, n: Bytes, post: Bytes, a: Bytes, b: Bytes)
    requires |m| == |a| && |n| == |b|
    ensures XorAt(XorAt(pre + m + n + post, |pre|, a), |pre| + |a|, b) == XorAt(pre + m + n + post, |pre|, a + b)
  {
    Regroup(pre, m, n, post);
    FoldMiddle(pre, m, n + post, a);
    FoldMiddle(pre, m + n, post, a + b);
    Regroup(pre, Xor(m, a), n, post);
    FoldMiddle(pre + Xor(m, a), n, post, b);
    XorConcat(m, n, a, b);
    Regroup(pre, Xor(m, a), Xor(n, b), post);
  }

  lemma Regroup(a: Bytes, b: Bytes, c: Bytes, d: Bytes)
    ensures a + b + (c + d) == a + b + c + d && a + (b + c) + d == a + b + c + d
  {
  }

  lemma FoldPair(s: Bytes, off: nat, a: Bytes, b: Bytes)
    requires off + |a| + |b| <= |s|
    ensures XorAt(XorAt(s, off, a), off + |a|, b) == XorAt(s, off, a + b)
  {
    var i, j := off + |a|, off + |a| + |b|;
    assert s == s[..off] + s[off..i] + s[i..j] + s[j..];
    FoldTwo(s[..off], s[off..i], s[i..j], s[j..], a, b);
  }

  lemma FoldZero(s: Bytes, off: nat, z: Bytes)
    requires off + |z| <= |s| && forall i :: 0 <= i < |z| ==> z[i] == 0
    ensures XorAt(s, off, z) == s
  {
    var m := s[off..off + |z|];
    forall i | 0 <= i < |z| ensures Xor(m, z)[i] == m[i] { ByteXorCancels(m[i], 0); }
    assert Xor(m, z) == m;
    assert s == s[..off] + m + s[off + |z|..];
  }

  // ------------------------------------------------------ ciphers on words

  /** One parameter set and key, as words; `kh` holds the extra half word of a 160-bit key. */
  datatype Cipher = Cipher(order: Order, rate: nat, keyLen: nat, iv: Word, kh: Word, k1: Word, k2: Word,
                           pad: bv8, sep: Word, p12: State -> State, pb: State -> State)
  {
    ghost predicate Valid() {
      && (rate == 8 || rate == 16)
      && (keyLen == 16 ==> kh == ZERO)
      && (keyLen == 20 ==> rate == 8 && order.Big? && kh[4..] == [0, 0, 0, 0] && iv[..4] == [0, 0, 0, 0])
      && (keyLen == 16 || keyLen == 20)
      && Store(order, sep)[..7] == [0, 0, 0, 0, 0, 0, 0]
    }

    /** The key's bytes. */
    ghost function Key(): (k: Bytes) {
      (if keyLen == 20 then Store(order, kh)[4..] else []) + Store(order, k1) + Store(order, k2)
    }

    /** The same cipher on bytes. */
    ghost function Bytewise(): (v: Variant)
      requires Valid()
      ensures v.Valid()
    {
      OnBytesStates(order, p12);
      OnBytesStates(order, pb);
      Variant(rate, Store(order, iv)[..24 - |Key()|], Key(), pad, Store(order, sep)[7], OnBytes(order, p12),
              OnBytes(order, pb))
    }
  }

  /** Names a use of what `Models` says. */
  ghost predicate Use(n: nat) { true }

  /** `v` is the cipher on bytes; the equation itself is applied through `Use`. */
  ghost predicate Models(c: Cipher, v: Variant) {
    c.Valid() && v.Valid() && v.rate == c.rate && v.pad == c.pad && forall n: nat {:trigger Use(n)} :: v == c.Bytewise()
  }

  lemma ModelsIs(c: Cipher, v: Variant)
    requires Models(c, v)
    ensures v == c.Bytewise()
  {
    assert Use(0);
  }

  lemma BytewiseModels(c: Cipher)
    requires c.Valid()
    ensures Models(c, c.Bytewise())
  {
  }

  /** The Ascon permutation by its number of rounds. */
  type Permutation = nat -> State -> State

  /** Ascon-AEAD128 of SP 800-232: version 1, rounds 12 and 8, a 128-bit tag, a 16-byte rate. */
  function Aead128(key: Bytes, p: Permutation): (c: Cipher)
    requires |key| == 16
    ensures c.Valid() && c.Key() == key && c.order == Little && c.rate == 16 && c.keyLen == |key|
    ensures c.p12 == p(12) && c.pb == p(8) && c.pad == 0x01
    ensures Number(c.iv) == 0x0000_1000_808c_0001 && Number(c.sep) == 0x8000_0000_0000_0000
    ensures Store(Little, c.iv) == [1, 0, 8 * 16 + 12, 128, 0, 16, 0, 0]
  {
    StoreLoad(Little, key[..8]);
    StoreLoad(Little, key[8..]);
    Cipher(Little, 16, 16, [0x01, 0x00, 0x8c, 0x80, 0x00, 0x10, 0x00, 0x00], ZERO, Load(Little, key[..8]),
           Load(Little, key[8..]), 0x01, [0, 0, 0, 0, 0, 0, 0, 0x80], p(12), p(8))
  }

  // The initialization values of version 1.2: key bits, rate bits and the two round counts, then zeros.

  /** Ascon-128 of version 1.2. */
  function Ascon128(key: Bytes, p: Permutation): (c: Cipher)
    requires |key| == 16
    ensures c.Valid() && c.Key() == key && c.order == Big && c.rate == 8 && c.keyLen == |key|
    ensures c.p12 == p(12) && c.pb == p(6) && c.pad == 0x80
    ensures Number(c.iv) == 0x8040_0c06_0000_0000 && Number(c.sep) == 1
    ensures Store(Big, c.iv) == [128, 64, 12, 6, 0, 0, 0, 0]
  {
    StoreLoad(Big, key[..8]);
    StoreLoad(Big, key[8..]);
    Cipher(Big, 8, 16, [0, 0, 0, 0, 0x06, 0x0c, 0x40, 0x80], ZERO, Load(Big, key[..8]), Load(Big, key[8..]),
           0x80, [1, 0, 0, 0, 0, 0, 0, 0], p(12), p(6))
  }

  /** Ascon-128a. */
  function Ascon128a(key: Bytes, p: Permutation): (c: Cipher)
    requires |key| == 16
    ensures c.Valid() && c.Key() == key && c.order == Big && c.rate == 16 && c.keyLen == |key|
    ensures c.p12 == p(12) && c.pb == p(8) && c.pad == 0x80
    ensures Number(c.iv) == 0x8080_0c08_0000_0000 && Number(c.sep) == 1
    ensures Store(Big, c.iv) == [128, 128, 12, 8, 0, 0, 0, 0]
  {
    StoreLoad(Big, key[..8]);
    StoreLoad(Big, key[8..]);
    Cipher(Big, 16, 16, [0, 0, 0, 0, 0x08, 0x0c, 0x80, 0x80], ZERO, Load(Big, key[..8]), Load(Big, key[8..]),
           0x80, [1, 0, 0, 0, 0, 0, 0, 0], p(12), p(8))
  }

  /** Ascon-80pq, with its 160-bit key. */
  function Ascon80pq(key: Bytes, p: Permutation): (c: Cipher)
    requires |key| == 20
    ensures c.Valid() && c.Key() == key && c.order == Big && c.rate == 8 && c.keyLen == |key|
    ensures c.p12 == p(12) && c.pb == p(6) && c.pad == 0x80
    ensures Number(c.iv) == 0xa040_0c06_0000_0000 && Number(c.sep) == 1
    ensures Store(Big, c.iv) == [160, 64, 12, 6, 0, 0, 0, 0]
  {
    StoreLoad(Big, key[4..12]);
    StoreLoad(Big, key[12..]);
    var kh: Word := [key[3], key[2], key[1], key[0], 0, 0, 0, 0];
    assert Store(Big, kh)[4..] == key[..4];
    Cipher(Big, 8, 20, [0, 0, 0, 0, 0x06, 0x0c, 0x40, 0xa0], kh, Load(Big, key[4..12]), Load(Big, key[12..]),
           0x80, [1, 0, 0, 0, 0, 0, 0, 0], p(12), p(6))
  }

  // ------------------------------------------------------------ the rate

  /** Folds one block into the rate words. */
  function XorRate(c: Cipher, s: State, block: Bytes): State
    requires |block| == c.rate && (c.rate == 8 || c.rate == 16)
  {
    var t := s.(w0 := XorW(s.w0, Load(c.order, block[..8])));
    if c.rate == 16 then t.(w1 := XorW(t.w1, Load(c.order, block[8..]))) else t
  }

  lemma XorRateIs(c: Cipher, s: State, block: Bytes)
    requires |block| == c.rate && (c.rate == 8 || c.rate == 16)
    ensures Flat(c.order, XorRate(c, s, block)) == XorAt(Flat(c.order, s), 0, block)
  {
    if c.rate == 16 {
      XorBoth(c.order, s, block[..8], block[8..]);
      assert block[..8] + block[8..] == block;
    } else {
      StoreLoad(c.order, block);
      Fold0(c.order, s, Load(c.order, block));
      assert block[..8] == block;
    }
  }

  lemma XorBoth(o: Order, s: State, a: Bytes, b: Bytes)
    requires |a| == 8 && |b| == 8
    ensures var t := s.(w0 := XorW(s.w0, Load(o, a)));
            Flat(o, t.(w1 := XorW(t.w1, Load(o, b)))) == XorAt(Flat(o, s), 0, a + b)
  {
    StoreLoad(o, a);
    StoreLoad(o, b);
    Fold0(o, s, Load(o, a));
    Fold1(o, s.(w0 := XorW(s.w0, Load(o, a))), Load(o, b));
    FoldPair(Flat(o, s), 0, a, b);
  }

  /** Overwrites the rate words. */
  function SetRateWords(c: Cipher, s: State, bytes: Bytes): State
    requires |bytes| == 16
  {
    var t := s.(w0 := Load(c.order, bytes[..8]));
    if c.rate == 16 then t.(w1 := Load(c.order, bytes[8..])) else t
  }

  lemma SetRateIs(c: Cipher, s: State, bytes: Bytes)
    requires |bytes| == 16 && (c.rate == 8 || c.rate == 16)
    ensures Flat(c.order, SetRateWords(c, s, bytes)) == SetRate(Flat(c.order, s), bytes[..c.rate])
  {
    var o := c.order;
    StoreLoad(o, bytes[..8]);
    StoreLoad(o, bytes[8..]);
    JoinTail(Store(o, s.w0), Store(o, s.w1), Store(o, s.w2), Store(o, s.w3), Store(o, s.w4), bytes);
  }

  lemma JoinTail(a: Bytes, b: Bytes, d: Bytes, e: Bytes, f: Bytes, x: Bytes)
    requires |a| == |b| == |d| == |e| == |f| == 8 && |x| == 16
    ensures Join(x[..8], b, d, e, f) == SetRate(Join(a, b, d, e, f), x[..8])
    ensures Join(x[..8], x[8..], d, e, f) == SetRate(Join(a, b, d, e, f), x[..16])
  {
    JoinIs(a, b, d, e, f);
    JoinIs(x[..8], b, d, e, f);
    JoinIs(x[..8], x[8..], d, e, f);
    assert Join(a, b, d, e, f)[8..] == b + d + e + f && Join(a, b, d, e, f)[16..] == d + e + f;
    assert x[..16] == x[..8] + x[8..];
  }

  /** The sixteen bytes of the first two words. */
  function RateBytes(c: Cipher, s: State): (b: Bytes)
    ensures |b| == 16
  {
    Store(c.order, s.w0) + Store(c.order, s.w1)
  }

  lemma RateBytesIs(c: Cipher, s: State)
    ensures RateBytes(c, s) == Flat(c.order, s)[..16]
  {
    JoinFront(Store(c.order, s.w0), Store(c.order, s.w1), Store(c.order, s.w2), Store(c.order, s.w3),
              Store(c.order, s.w4));
  }

  lemma JoinFront(a: Bytes, b: Bytes, d: Bytes, e: Bytes, f: Bytes)
    requires |a| == |b| == |d| == |e| == |f| == 8
    ensures Join(a, b, d, e, f)[..16] == a + b && Join(a, b, d, e, f)[24..] == e + f
  {
    JoinIs(a, b, d, e, f);
  }

  // ------------------------------------------------------- initialization

  /** `IV ‖ K ‖ N`, permuted, with the key folded into the last words. */
  function InitWords(c: Cipher, nonce: Bytes): State
    requires |nonce| == 16
  {
    var s := c.p12(State(OrW(c.iv, c.kh), c.k1, c.k2, Load(c.order, nonce[..8]), Load(c.order, nonce[8..])));
    FoldKeyEnd(c, s)
  }

  function FoldKeyEnd(c: Cipher, s: State): State {
    s.(w2 := XorW(s.w2, c.kh)).(w3 := XorW(s.w3, c.k1)).(w4 := XorW(s.w4, c.k2))
  }

  /** Three folds at 16, 24 and 32. */
  lemma FoldLast(o: Order, s: State, x: Word, y: Word, z: Word)
    ensures Flat(o, s.(w2 := XorW(s.w2, x)).(w3 := XorW(s.w3, y)).(w4 := XorW(s.w4, z)))
            == XorAt(Flat(o, s), 16, Store(o, x) + (Store(o, y) + Store(o, z)))
  {
    var t := s.(w2 := XorW(s.w2, x));
    Fold2(o, s, x);
    Fold3(o, t, y);
    Fold4(o, t.(w3 := XorW(s.w3, y)), z);
    FoldPair(Flat(o, t), 24, Store(o, y), Store(o, z));
    FoldPair(Flat(o, s), 16, Store(o, x), Store(o, y) + Store(o, z));
  }

  /** Leading zero bytes fold nothing. */
  lemma FoldAfterZeros(s: Bytes, off: nat, z: Bytes, b: Bytes)
    requires off + |z| + |b| <= |s| && forall i :: 0 <= i < |z| ==> z[i] == 0
    ensures XorAt(s, off, z + b) == XorAt(s, off + |z|, b)
  {
    FoldPair(s, off, z, b);
    FoldZero(s, off, z);
  }

  lemma FoldBeforeZeros(s: Bytes, off: nat, b: Bytes, z: Bytes)
    requires off + |b| + |z| <= |s| && forall i :: 0 <= i < |z| ==> z[i] == 0
    ensures XorAt(s, off, b + z) == XorAt(s, off, b)
  {
    FoldPair(s, off, b, z);
    FoldZero(XorAt(s, off, b), off + |b|, z);
  }

  /** The key at the end of the state, for either key size. */
  lemma FoldKeyEndIs(c: Cipher, s: State)
    requires c.Valid()
    ensures Flat(c.order, FoldKeyEnd(c, s)) == XorAt(Flat(c.order, s), STATE - |c.Key()|, c.Key())
  {
    FoldLast(c.order, s, c.kh, c.k1, c.k2);
    KeyShape(c);
    KeyEnd(Flat(c.order, s), Store(c.order, c.kh), Store(c.order, c.k1) + Store(c.order, c.k2));
  }

  /** The key, and the zero bytes of its extra word. */
  lemma KeyShape(c: Cipher)
    requires c.Valid()
    ensures c.keyLen == 16 ==> Store(c.order, c.kh) == ZERO && c.Key() == Store(c.order, c.k1) + Store(c.order, c.k2)
    ensures c.keyLen == 20 ==> Store(c.order, c.kh)[..4] == [0, 0, 0, 0]
    ensures c.keyLen == 20 ==> c.Key() == Store(c.order, c.kh)[4..] + (Store(c.order, c.k1) + Store(c.order, c.k2))
  {
    assert Reversed(ZERO) == ZERO;
    HighBytes(c.kh);
    assert Reversed([0, 0, 0, 0]) == [0, 0, 0, 0];
  }

  lemma KeyEnd(s: Bytes, h: Bytes, k: Bytes)
    requires |s| == STATE && |h| == 8 && |k| == 16
    ensures h == ZERO ==> XorAt(s, 16, h + k) == XorAt(s, 24, k)
    ensures h[..4] == [0, 0, 0, 0] ==> XorAt(s, 16, h + k) == XorAt(s, 20, h[4..] + k)
  {
    if h == ZERO { FoldAfterZeros(s, 16, h, k); }
    if h[..4] == [0, 0, 0, 0] {
      assert h + k == h[..4] + (h[4..] + k);
      FoldAfterZeros(s, 16, h[..4], h[4..] + k);
    }
  }

  lemma OrZeroW(x: Word)
    ensures OrW(x, ZERO) == x
  {
  }

  /** The union of a high half and a low half. */
  lemma OrHalves(x: Word, y: Word)
    requires x[..4] == [0, 0, 0, 0] && y[4..] == [0, 0, 0, 0]
    ensures OrW(x, y) == y[..4] + x[4..]
  {
    var r := OrW(x, y);
    forall i | 0 <= i < 8 ensures r[i] == (y[..4] + x[4..])[i] {
      if i < 4 { assert x[..4][i] == 0; } else { assert y[4..][i - 4] == 0; }
    }
  }

  lemma ReversedConcat(a: Bytes, b: Bytes)
    ensures Reversed(a + b) == Reversed(b) + Reversed(a)
  {
  }

  /** The first word holds the initialization value, and the key's extra half if there is one. */
  lemma FirstWord(c: Cipher)
    requires c.Valid()
    ensures Store(c.order, OrW(c.iv, c.kh))
            == Store(c.order, c.iv)[..24 - |c.Key()|] + (if c.keyLen == 20 then Store(c.order, c.kh)[4..] else [])
  {
    if c.keyLen == 16 {
      OrZeroW(c.iv);
      assert Store(c.order, c.iv)[..8] == Store(c.order, c.iv);
    } else {
      OrHalves(c.iv, c.kh);
      ReversedConcat(c.kh[..4], c.iv[4..]);
      HighBytes(c.iv);
      HighBytes(c.kh);
    }
  }

  /** The big-endian halves of a word. */
  lemma HighBytes(w: Word)
    ensures Store(Big, w)[..4] == Reversed(w[4..]) && Store(Big, w)[4..] == Reversed(w[..4])
  {
    ReversedConcat(w[..4], w[4..]);
    assert w == w[..4] + w[4..];
  }

  lemma InitIs(c: Cipher, nonce: Bytes)
    requires c.Valid() && |nonce| == 16
    ensures Flat(c.order, InitWords(c, nonce)) == Init(c.Bytewise(), nonce)
  {
    var s := State(OrW(c.iv, c.kh), c.k1, c.k2, Load(c.order, nonce[..8]), Load(c.order, nonce[8..]));
    StartBytes(c, nonce);
    Permuted(c.order, c.p12, s);
    FoldKeyEndIs(c, c.p12(s));
  }

  /**
   * The state after initialization: the permutation of initialization value, key and nonce, with the
   * key folded into its last bytes.
   */
  lemma InitBytes(c: Cipher, nonce: Bytes)
    requires c.Valid() && |nonce| == 16
    ensures var (o, key) := (c.order, c.Key());
            var (f, at) := (Flat(o, InitWords(c, nonce)), STATE - |key|);
            var x := Flat(o, c.p12(Unflat(o, Store(o, c.iv)[..24 - |key|] + key + nonce)));
            forall i :: 0 <= i < STATE ==> f[i] == if i < at then x[i] else x[i] ^ key[i - at]
  {
    var o, key, f := c.order, c.Key(), Flat(c.order, InitWords(c, nonce));
    InitIs(c, nonce);
    var x := Flat(o, c.p12(Unflat(o, Store(o, c.iv)[..24 - |key|] + key + nonce)));
    InitAs(c, nonce, x);
    FoldedEnd(f, x, key);
  }

  lemma InitAs(c: Cipher, nonce: Bytes, x: Bytes)
    requires c.Valid() && |nonce| == 16
    requires x == Flat(c.order, c.p12(Unflat(c.order, Store(c.order, c.iv)[..24 - |c.Key()|] + c.Key() + nonce)))
    ensures Init(c.Bytewise(), nonce) == XorAt(x, STATE - |c.Key()|, c.Key())
  {
  }

  lemma FoldedEnd(f: Bytes, x: Bytes, b: Bytes)
    requires |x| == STATE && |b| <= STATE && f == XorAt(x, STATE - |b|, b)
    ensures |f| == STATE && forall i :: 0 <= i < STATE ==>
              f[i] == if i < STATE - |b| then x[i] else x[i] ^ b[i - (STATE - |b|)]
  {
    forall i | 0 <= i < STATE
      ensures f[i] == if i < STATE - |b| then x[i] else x[i] ^ b[i - (STATE - |b|)]
    {
      XorAtByte(x, STATE - |b|, b, i);
    }
  }

  /** Before the permutation: initialization value, key and nonce in order. */
  lemma StartBytes(c: Cipher, nonce: Bytes)
    requires c.Valid() && |nonce| == 16
    ensures Flat(c.order, State(OrW(c.iv, c.kh), c.k1, c.k2, Load(c.order, nonce[..8]), Load(c.order, nonce[8..])))
            == c.Bytewise().iv + c.Key() + nonce
  {
    var o := c.order;
    FirstWord(c);
    StoreLoad(o, nonce[..8]);
    StoreLoad(o, nonce[8..]);
    JoinIs(Store(o, OrW(c.iv, c.kh)), Store(o, c.k1), Store(o, c.k2), nonce[..8], nonce[8..]);
    var h := if c.keyLen == 20 then Store(o, c.kh)[4..] else [];
    StartOrder(c.Bytewise().iv, h, Store(o, c.k1), Store(o, c.k2), nonce[..8], nonce[8..]);
    assert nonce == nonce[..8] + nonce[8..];
  }

  lemma StartOrder(iv: Bytes, h: Bytes, a: Bytes, b: Bytes, x: Bytes, y: Bytes)
    ensures (iv + h) + a + b + x + y == iv + (h + a + b) + (x + y)
  {
  }

  // --------------------------------------------------------- finalization

  /** The key folded in behind the rate, for each rate and key size. */
  function FoldKeyRate(c: Cipher, s: State): State {
    if c.keyLen == 20 then
      s.(w1 := XorW(s.w1, OrW(Shl32(c.kh), Shr32(c.k1)))).(w2 := XorW(s.w2, OrW(Shl32(c.k1), Shr32(c.k2))))
       .(w3 := XorW(s.w3, Shl32(c.k2)))
    else if c.rate == 8 then s.(w1 := XorW(s.w1, c.k1)).(w2 := XorW(s.w2, c.k2))
    else s.(w2 := XorW(s.w2, c.k1)).(w3 := XorW(s.w3, c.k2))
  }

  function FinalizeWords(c: Cipher, s: State): (tag: Bytes)
    ensures |tag| == 16
  {
    var t := c.p12(FoldKeyRate(c, s));
    Store(c.order, XorW(t.w3, c.k1)) + Store(c.order, XorW(t.w4, c.k2))
  }

  lemma FoldTwelve(o: Order, s: State, x: Word, y: Word)
    ensures Flat(o, s.(w1 := XorW(s.w1, x)).(w2 := XorW(s.w2, y))) == XorAt(Flat(o, s), 8, Store(o, x) + Store(o, y))
    ensures Flat(o, s.(w2 := XorW(s.w2, x)).(w3 := XorW(s.w3, y))) == XorAt(Flat(o, s), 16, Store(o, x) + Store(o, y))
  {
    Fold1(o, s, x);
    Fold2(o, s.(w1 := XorW(s.w1, x)), y);
    FoldPair(Flat(o, s), 8, Store(o, x), Store(o, y));
    Fold2(o, s, x);
    Fold3(o, s.(w2 := XorW(s.w2, x)), y);
    FoldPair(Flat(o, s), 16, Store(o, x), Store(o, y));
  }

  /** The shifted key words of a 160-bit key are its bytes in order. */
  lemma ShiftedKey(c: Cipher)
    requires c.Valid() && c.keyLen == 20
    ensures Store(Big, OrW(Shl32(c.kh), Shr32(c.k1)))
            + (Store(Big, OrW(Shl32(c.k1), Shr32(c.k2))) + Store(Big, Shl32(c.k2)))
            == c.Key() + [0, 0, 0, 0]
  {
    ShiftedPair(c.kh, c.k1);
    ShiftedPair(c.k1, c.k2);
    ShiftedLow(c.k2);
    HighBytes(c.k1);
    HighBytes(c.k2);
    var x, y1, y2, z1, z2 := Store(Big, c.kh)[4..], Store(Big, c.k1)[..4], Store(Big, c.k1)[4..], Store(Big, c.k2)[..4],
      Store(Big, c.k2)[4..];
    assert Store(Big, c.k1) == y1 + y2 && Store(Big, c.k2) == z1 + z2;
    KeyOrder(x, y1, y2, z1, z2, [0, 0, 0, 0]);
  }

  lemma KeyOrder(x: Bytes, y1: Bytes, y2: Bytes, z1: Bytes, z2: Bytes, o: Bytes)
    ensures (x + y1) + ((y2 + z1) + (z2 + o)) == x + (y1 + y2) + (z1 + z2) + o
  {
  }

  /** `(a << 32) | (b >> 32)`, big-endian: the low half of `a`, then the high half of `b`. */
  lemma ShiftedPair(a: Word, b: Word)
    ensures Store(Big, OrW(Shl32(a), Shr32(b))) == Store(Big, a)[4..] + Store(Big, b)[..4]
  {
    OrHalves(Shl32(a), Shr32(b));
    assert Shr32(b)[..4] == b[4..] && Shl32(a)[4..] == a[..4];
    ReversedConcat(b[4..], a[..4]);
    HighBytes(a);
    HighBytes(b);
  }

  lemma ShiftedLow(a: Word)
    ensures Store(Big, Shl32(a)) == Store(Big, a)[4..] + [0, 0, 0, 0]
  {
    ReversedConcat([0, 0, 0, 0], a[..4]);
    assert Reversed([0, 0, 0, 0]) == [0, 0, 0, 0];
    HighBytes(a);
  }

  lemma FoldKeyRateIs(c: Cipher, s: State)
    requires c.Valid()
    ensures Flat(c.order, FoldKeyRate(c, s)) == XorAt(Flat(c.order, s), c.rate, c.Key())
  {
    var o := c.order;
    if c.keyLen == 20 {
      var x, y, z := OrW(Shl32(c.kh), Shr32(c.k1)), OrW(Shl32(c.k1), Shr32(c.k2)), Shl32(c.k2);
      FoldThree(o, s, x, y, z);
      ShiftedKey(c);
      FoldBeforeZeros(Flat(o, s), 8, c.Key(), [0, 0, 0, 0]);
    } else {
      FoldTwelve(o, s, c.k1, c.k2);
      assert c.Key() == Store(o, c.k1) + Store(o, c.k2);
    }
  }

  lemma FoldThree(o: Order, s: State, x: Word, y: Word, z: Word)
    ensures Flat(o, s.(w1 := XorW(s.w1, x)).(w2 := XorW(s.w2, y)).(w3 := XorW(s.w3, z)))
            == XorAt(Flat(o, s), 8, Store(o, x) + (Store(o, y) + Store(o, z)))
  {
    var t := s.(w1 := XorW(s.w1, x));
    Fold1(o, s, x);
    Fold2(o, t, y);
    Fold3(o, t.(w2 := XorW(s.w2, y)), z);
    FoldPair(Flat(o, t), 16, Store(o, y), Store(o, z));
    FoldPair(Flat(o, s), 8, Store(o, x), Store(o, y) + Store(o, z));
  }

  /**
   * The tag: the last sixteen bytes of the permuted state, its key folded in behind the rate, masked
   * by the last sixteen bytes of the key.
   */
  lemma TagIs(c: Cipher, s: State)
    requires c.Valid()
    ensures FinalizeWords(c, s) == Tag(c.Bytewise(), Flat(c.order, s))
    ensures var (o, key, tag) := (c.order, c.Key(), FinalizeWords(c, s));
            var y := Flat(o, c.p12(Unflat(o, XorAt(Flat(o, s), c.rate, key))));
            forall i :: 0 <= i < 16 ==> tag[i] == y[STATE - 16 + i] ^ key[|key| - 16 + i]
  {
    var o, v := c.order, c.Bytewise();
    var t := c.p12(FoldKeyRate(c, s));
    FoldKeyRateIs(c, s);
    Permuted(o, c.p12, FoldKeyRate(c, s));
    JoinFront(Store(o, t.w0), Store(o, t.w1), Store(o, t.w2), Store(o, t.w3), Store(o, t.w4));
    StoreXor(o, t.w3, c.k1);
    StoreXor(o, t.w4, c.k2);
    XorConcat(Store(o, t.w3), Store(o, t.w4), Store(o, c.k1), Store(o, c.k2));
    assert v.key[|v.key| - 16..] == Store(o, c.k1) + Store(o, c.k2);
  }
}
