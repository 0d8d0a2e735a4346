/** Remainders by a precomputed reciprocal, without a division of the dividend. */
module Reciprocal {
  import opened Arith
  import opened Limbs
  import opened Bits

  /** `⌈w/p⌉`, formed as `(w - 1)/p + 1`. */
  function CeilReciprocal(w: int, p: int): (c: int)
    requires w > 0 && p >= 1
    ensures w <= c * p < w + p
  {
    assert w - 1 == p * ((w - 1) / p) + (w - 1) % p;
    assert ((w - 1) / p + 1) * p == p * ((w - 1) / p) + p;
    (w - 1) / p + 1
  }

  /** The fractional part of `v/p`, scaled to a word, times `p`: exact while the error fits. */
  lemma ReciprocalExact(w: int, c: int, p: int, v: nat)
    requires w > 0 && p >= 1 && w <= c * p < w + p && (c * p - w) * v < w
    ensures (c * v % w) * p / w == v % p
  {
    var e := c * p - w;
    var q, r := v / p, v % p;
    DivNonNegative(v, p);
    var low := q * e + c * r;
    assert v == p * q + r;
    LowProduct(w, c, p, e, q, r);
    MulNonNegative(e, v);
    assert low * p == r * w + e * v;
    LowFits(w, p, e, v, r, low);
    DivModIs(c * v, q, low, w);
    DivModIs(low * p, r, e * v, w);
  }

  lemma LowProduct(w: int, c: int, p: int, e: int, q: int, r: int)
    requires c * p == w + e
    ensures c * (p * q + r) == q * w + (q * e + c * r)
    ensures (q * e + c * r) * p == r * w + e * (p * q + r)
  {
    assert c * (p * q + r) == (c * p) * q + c * r;
    assert (w + e) * q == q * w + q * e;
    assert (q * e + c * r) * p == e * (p * q) + (c * p) * r;
    assert (w + e) * r == r * w + e * r;
  }

  lemma LowFits(w: int, p: int, e: int, v: nat, r: int, low: int)
    requires w > 0 && p >= 1 && 0 <= e && 0 <= e * v < w && 0 <= r < p && low * p == r * w + e * v
    ensures 0 <= low < w
  {
    MulMono(r + 1, p, w);
    assert (r + 1) * w == r * w + w;
    assert p * w == w * p;
    MulCancelLess(low, w, p);
    MulNonNegative(r, w);
    if low < 0 { MulMono(low, -1, p); }
  }

  // ----------------------------------------------------- 32-bit dividends

  const H: int := 0x1_0000_0000

  /** The reciprocal as stored: one past `(w - 1)/p`, wrapped to the word. */
  function Recip(w: int, p: int): (c: int)
    requires w > 1 && 1 <= p < w
    ensures 0 <= c < w && (p >= 2 ==> c == CeilReciprocal(w, p)) && (p == 1 ==> c == 0)
  {
    RecipFits(w, p);
    if p == 1 then DivModIs(w, 1, 0, w); CeilReciprocal(w, p) % w
    else DivModIs(CeilReciprocal(w, p), 0, CeilReciprocal(w, p), w); CeilReciprocal(w, p) % w
  }

  /** The increment overflows the word exactly for `p = 1`. */
  lemma RecipFits(w: int, p: int)
    requires w > 1 && 1 <= p < w
    ensures 0 < CeilReciprocal(w, p) <= w && (CeilReciprocal(w, p) < w <==> p >= 2)
    ensures p == 1 ==> CeilReciprocal(w, p) == w
  {
    var c := CeilReciprocal(w, p);
    if c <= 0 { MulMono(c, 0, p); }
    if p >= 2 {
      MulMono(2, p, w);
      assert w * p == p * w;
      if c >= w { MulMono(w, c, p); }
    } else {
      assert c * p == c;
    }
  }

  /** The 64-bit reciprocal. */
  function Recip32(p: int): (c: int)
    requires 1 <= p < H
    ensures 0 <= c < B
  {
    Recip(B, p)
  }

  /** `v mod p` as one wrapping and one widening multiplication. */
  function ModWithRecip(v: nat, p: int, c: int): (r: int) { (c * v % B) * p / B }

  /** The remainder is right even where the reciprocal has wrapped to zero. */
  lemma ModWithRecipIs(v: nat, p: int)
    requires 1 <= p < H && v < H
    ensures ModWithRecip(v, p, Recip32(p)) == v % p
  {
    var c := Recip32(p);
    if p == 1 {
      DivModIs(0, 0, 0, B);
    } else {
      var e := c * p - B;
      MulMono(e, H - 1, v);
      MulMono(v, H - 1, H - 1);
      assert (H - 1) * v == v * (H - 1);
      ReciprocalExact(B, c, p, v);
    }
  }

  // ------------------------------------------------- dividends of any width

  const W128: int := 0x1_0000_0000_0000_0000_0000_0000_0000_0000

  /** High part of a 128-bit by 32-bit product, from two 64-bit halves. */
  function MulHi(a: int, b: int): int {
    var lo, hi := (a % B) * b, (a / B) * b;
    (hi + lo / B) / B
  }

  lemma MulHiIs(a: int, b: int)
    ensures MulHi(a, b) == a * b / W128
  {
    var lo, hi := a % B, a / B;
    assert a * b == (hi * b) * B + lo * b by { assert a == hi * B + lo; }
    AddMultiple(lo * b, hi * b, B);
    DivTwice(a * b, B, B);
  }

  /** One 32-bit chunk of the Horner pass. */
  lemma ChunkStep(rem: nat, chunk: nat, p: int)
    requires 1 <= p < H && rem < p && chunk < H
    ensures MulHi(Recip(W128, p) * (rem * H + chunk) % W128, p) == (rem * H + chunk) % p
  {
    var c, v := Recip(W128, p), rem * H + chunk;
    if p == 1 {
      DivModIs(0, 0, 0, W128);
    } else {
      var e := c * p - W128;
      MulMono(e, H - 1, v);
      assert v < H * H;
      ReciprocalExact(W128, c, p, v);
    }
    MulHiIs(c * v % W128, p);
  }

  lemma HornerMod(hi: int, rem: int, chunk: int, p: int)
    requires p > 0 && rem == hi % p
    ensures (rem * H + chunk) % p == (hi * H + chunk) % p
  {
    CongMod(hi, p);
    CongScale(rem, hi, H, p);
    CongSelf(chunk, p);
    CongAdd(rem * H, hi * H, chunk, chunk, p);
    CongIsMod(rem * H + chunk, hi * H + chunk, p);
  }

  /** `n mod p` by Horner's rule over 32-bit chunks, most significant first. */
  method ModSmallLimbs(n: seq<Limb>, p: int) returns (rem: nat)
    requires 1 <= p < H
    ensures rem == Nat(n) % p
  {
    var c := Recip(W128, p);
    rem := 0;
    DivModIs(0, 0, 0, p);
    var i := |n|;
    assert n[i..] == [];
    while i > 0
      invariant 0 <= i <= |n| && 0 <= rem < p && rem == Val(B, n[i..], |n| - i) % p
    {
      ghost var above := Val(B, n[i..], |n| - i);
      i := i - 1;
      var hi, lo := n[i] / H, n[i] % H;
      ChunkStep(rem, hi, p);
      HornerMod(above, rem, hi, p);
      rem := MulHi(c * (rem * H + hi) % W128, p);
      CongMod(above * H + hi, p);
      ChunkStep(rem, lo, p);
      HornerMod(above * H + hi, rem, lo, p);
      rem := MulHi(c * (rem * H + lo) % W128, p);
      CongMod((above * H + hi) * H + lo, p);
      ValAt(n, i);
      assert (above * H + hi) * H + lo == n[i] + above * B;
    }
    assert n[0..] == n;
  }
}
