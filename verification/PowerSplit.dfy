/** Splitting `x = d·2^s` with `d` odd, without branching on `x`. */
module PowerSplit {
  import opened Arith
  import opened Limbs
  import opened Bits
  import opened BitOps
  import opened Radix

  // --------------------------------------------------- counting in one word

  /** Trailing zero bits of a positive number. */
  function TwoAdic(x: nat): (s: nat)
    requires x > 0
    decreases x
  {
    if x % 2 == 1 then 0 else 1 + TwoAdic(x / 2)
  }

  ghost function OddPart(x: nat): int
    requires x > 0
  {
    x / Pow2(TwoAdic(x))
  }

  /** The split is exact, and it is the only one with an odd part. */
  lemma {:induction false} SplitIs(x: nat, d: int, s: nat)
    requires d > 0 && d % 2 == 1 && x == d * Pow2(s)
    ensures x > 0 && TwoAdic(x) == s && OddPart(x) == d
    decreases s
  {
    MulPositive(d, Pow2(s));
    DivModIs(x, d, 0, Pow2(s));
    if s > 0 {
      assert Pow2(s) == 2 * Pow2(s - 1);
      assert d * (2 * Pow2(s - 1)) == 2 * (d * Pow2(s - 1));
      SplitIs(x / 2, d, s - 1);
    } else {
      assert Pow2(0) == 1;
    }
  }

  lemma {:induction false} SplitExists(x: nat) returns (d: int)
    requires x > 0
    ensures d > 0 && d % 2 == 1 && x == d * Pow2(TwoAdic(x))
    decreases x
  {
    if x % 2 == 1 {
      d := x;
      assert Pow2(0) == 1;
    } else {
      d := SplitExists(x / 2);
      var s := TwoAdic(x / 2);
      assert Pow2(s + 1) == 2 * Pow2(s);
      assert d * (2 * Pow2(s)) == 2 * (d * Pow2(s));
    }
  }

  /** `x | -x` in a `w`-bit word. */
  function Spread(x: nat, w: nat): nat
    requires x < Pow2(w)
  {
    Or(x, (Pow2(w) - x) % Pow2(w))
  }

  lemma {:induction false} AllOnes(y: nat, w: nat)
    requires y < Pow2(w)
    ensures Or(y, Pow2(w) - 1 - y) == Pow2(w) - 1 && PopCount(Pow2(w) - 1) == w
    decreases w
  {
    if w == 0 {
      assert Pow2(0) == 1;
      assert Or(0, 0) == 0;
    } else {
      var p := Pow2(w - 1);
      assert Pow2(w) == 2 * p;
      AllOnes(y / 2, w - 1);
      assert (2 * p - 1 - y) / 2 == p - 1 - y / 2 && (2 * p - 1 - y) % 2 == 1 - y % 2;
      assert (2 * p - 1) / 2 == p - 1 && (2 * p - 1) % 2 == 1;
    }
  }

  lemma SpreadOdd(x: nat, w: nat)
    requires x < Pow2(w) && x % 2 == 1
    ensures Spread(x, w) == Pow2(w) - 1
  {
    assert Pow2(0) == 1;
    var p := Pow2(w - 1);
    assert Pow2(w) == 2 * p;
    DivModIs(2 * p - x, 0, 2 * p - x, 2 * p);
    AllOnes(x / 2, w - 1);
    assert (2 * p - x) / 2 == p - 1 - x / 2 && (2 * p - x) % 2 == 1;
  }

  lemma SpreadEven(x: nat, w: nat)
    requires 0 < x < Pow2(w) && x % 2 == 0
    ensures w >= 2 && x / 2 < Pow2(w - 1) && Spread(x, w) == 2 * Spread(x / 2, w - 1)
  {
    assert Pow2(0) == 1 && Pow2(1) == 2;
    var p := Pow2(w - 1);
    assert Pow2(w) == 2 * p;
    DivModIs(2 * p - x, 0, 2 * p - x, 2 * p);
    DivModIs(p - x / 2, 0, p - x / 2, p);
    assert (2 * p - x) / 2 == p - x / 2 && (2 * p - x) % 2 == 0;
  }

  /** A nonzero word spreads to ones from its lowest set bit up: the rest counts its zeros. */
  lemma {:induction false} SpreadCount(x: nat, w: nat)
    requires 0 < x < Pow2(w)
    ensures w >= 1 && PopCount(Spread(x, w)) == w - TwoAdic(x)
    ensures Pow2(w - 1) <= Spread(x, w) < Pow2(w)
    decreases w
  {
    assert Pow2(0) == 1;
    assert Pow2(w) == 2 * Pow2(w - 1);
    if x % 2 == 1 {
      SpreadOdd(x, w);
      AllOnes(0, w);
    } else {
      SpreadEven(x, w);
      SpreadCount(x / 2, w - 1);
      DoubledCount(Spread(x / 2, w - 1));
      assert Pow2(w - 1) == 2 * Pow2(w - 2);
    }
  }

  lemma DoubledCount(y: nat)
    ensures PopCount(2 * y) == PopCount(y)
  {
    assert 2 * y / 2 == y && 2 * y % 2 == 0;
  }

  lemma SpreadZero(w: nat)
    ensures Spread(0, w) == 0 && PopCount(0) == 0
  {
    DivModIs(Pow2(w), 1, 0, Pow2(w));
    assert Or(0, 0) == 0;
  }

  // ------------------------------------------------------- folding the limbs

  /** The zeros below the lowest set bit of a limb, as a population count. */
  function WordZeros(x: Limb): (z: nat)
    ensures z == if x == 0 then 64 else TwoAdic(x)
  {
    Pow2Limb();
    SpreadZero(64);
    if x > 0 then SpreadCount(x, 64); 64 - PopCount(Spread(x, 64)) else 64 - PopCount(Spread(x, 64))
  }

  /** The inverted top bit of the spread word: one exactly for a zero limb. */
  function WordIsZero(x: Limb): (z: nat)
    ensures z == if x == 0 then 1 else 0
  {
    Pow2Limb();
    SpreadZero(64);
    assert Pow2(64) == 2 * Pow2(63);
    if x > 0 then SpreadCount(x, 64); 1 - Spread(x, 64) / (B / 2) else 1 - Spread(x, 64) / (B / 2)
  }

  /** One limb of the fold: the count so far, and one while every lower limb was zero. */
  function TrailingZerosStep(limb: Limb, acc: nat, still: nat): (nat, nat) {
    (acc + WordZeros(limb) * still, WordIsZero(limb) * still)
  }

  lemma TwoAdicBelow(x: nat, w: nat)
    requires 0 < x < Pow2(w)
    ensures TwoAdic(x) < w
  {
    var d := SplitExists(x);
    if TwoAdic(x) >= w {
      PowMonotone(2, w, TwoAdic(x));
      MulMono(1, d, Pow2(TwoAdic(x)));
    }
  }

  lemma FirstLimbValue(x: seq<Limb>, i: nat) returns (h: int)
    requires i < |x| && forall k :: 0 <= k < i ==> x[k] == 0
    ensures h >= 0 && Nat(x) == Pow(B, i) * (x[i] + B * h)
  {
    ValSplit(B, x, i, |x|);
    ValZeroTail(B, x, 0, i);
    var t := x[i..];
    ValHead(B, t, |t|);
    h := Val(B, t[1..], |t| - 1);
    ValBound(B, t[1..], |t| - 1);
  }

  /** The first nonzero limb fixes the split of the whole value. */
  lemma FirstLimb(x: seq<Limb>, i: nat)
    requires i < |x| && x[i] > 0 && forall k :: 0 <= k < i ==> x[k] == 0
    ensures Nat(x) > 0 && TwoAdic(Nat(x)) == 64 * i + TwoAdic(x[i])
  {
    var h := FirstLimbValue(x, i);
    Pow2Limb();
    TwoAdicBelow(x[i], 64);
    LimbSplit(Nat(x), x[i], h, i, TwoAdic(x[i]));
  }

  lemma LimbSplit(v: nat, x: Limb, h: int, i: nat, s: nat)
    requires x > 0 && h >= 0 && v == Pow(B, i) * (x + B * h) && s == TwoAdic(x) < 64
    ensures v > 0 && TwoAdic(v) == 64 * i + s
  {
    var d := SplitExists(x);
    var q := Pow2(64 - s);
    Pow2Limb();
    Pow2OfLimbs(i);
    Pow2Add(64 * i, s);
    Pow2Add(s, 64 - s);
    WholeSplit(v, x, h, d, Pow2(s), q, Pow(B, i));
    OddCarry(d, h, q, Pow2(63 - s));
    SplitIs(v, d + h * q, 64 * i + s);
  }

  lemma OddCarry(d: int, h: int, q: int, r: int)
    requires d > 0 && d % 2 == 1 && h >= 0 && q == 2 * r && r >= 0
    ensures d + h * q > 0 && (d + h * q) % 2 == 1
  {
    assert h * (2 * r) == 2 * (h * r);
    MulNonNegative(h, r);
  }

  lemma WholeSplit(v: int, x: int, h: int, d: int, p: int, q: int, r: int)
    requires v == r * (x + B * h) && x == d * p && p * q == B
    ensures v == (d + h * q) * (r * p)
  {
    assert B * h == (h * q) * p by { assert (p * q) * h == (h * q) * p; }
    assert d * p + (h * q) * p == (d + h * q) * p;
    assert r * ((d + h * q) * p) == (d + h * q) * (r * p);
  }

  /** The trailing zeros of a multi-limb value. */
  method TrailingZeros(x: seq<Limb>) returns (s: nat)
    requires Nat(x) > 0
    ensures s == TwoAdic(Nat(x)) && s < 64 * |x|
  {
    s := 0;
    var still := 1;
    var i := 0;
    while i < |x|
      invariant 0 <= i <= |x| && 0 <= still <= 1
      invariant still == 1 ==> s == 64 * i && forall k :: 0 <= k < i ==> x[k] == 0
      invariant still == 0 ==> s == TwoAdic(Nat(x))
    {
      if still == 1 && x[i] > 0 { FirstLimb(x, i); }
      var r := TrailingZerosStep(x[i], s, still);
      s, still := r.0, r.1;
      i := i + 1;
    }
    if still == 1 { ValZeroTail(B, x, 0, |x|); }
    Pow2OfLimbs(|x|);
    TwoAdicBelow(Nat(x), 64 * |x|);
  }

  // ---------------------------------------------------------- the shift ladder

  /** A right shift by any number of bits, at the same width. */
  method ShrBits(x: seq<Limb>, n: nat) returns (out: seq<Limb>)
    ensures |out| == |x| && Nat(out) == Nat(x) / Pow2(n)
  {
    Pow2Limb();
    out := [];
    ghost var y := Nat(x) / Pow2(n);
    for i := 0 to |x|
      invariant |out| == i && forall k :: 0 <= k < i ==> out[k] == Field(y, 64 * k, 64)
    {
      ReadDigitIsField(x, 64 * i + n, 64);
      Pow2Add(n, 64 * i);
      DivTwice(Nat(x), Pow2(n), Pow2(64 * i));
      out := out + [ReadDigit(x, 64 * i + n, 64)];
    }
    FieldsValue(y, out, 64, |x|);
    DivNonNegative(Nat(x), Pow2(n));
    Pow2OfLimbs(|x|);
    DivModIs(y, 0, y, Pow2(64 * |x|));
  }

  /** The bits of `s` below `k`, plus bit `k`. */
  lemma NextBit(s: nat, k: nat)
    ensures s % Pow2(k + 1) == s % Pow2(k) + (s / Pow2(k) % 2) * Pow2(k)
  {
    assert Pow2(k + 1) == 2 * Pow2(k);
    ModSplit(s, Pow2(k), 2);
    assert Pow2(k) * 2 == 2 * Pow2(k);
  }

  /** `x >> s` as masked shifts by `1, 2, 4, ...`, then the split. */
  method SplitPow2(x: seq<Limb>) returns (d: seq<Limb>, s: nat)
    requires Nat(x) > 0
    ensures |d| == |x| && Nat(x) == Nat(d) * Pow2(s) && Nat(d) % 2 == 1
    ensures s == TwoAdic(Nat(x)) && Nat(d) == OddPart(Nat(x)) && s < 64 * |x|
  {
    s := TrailingZeros(x);
    d := x;
    var width := 64 * |x|;
    var k := 0;
    assert Pow2(0) == 1;
    DivModIs(s, s, 0, 1);
    while Pow2(k) < width
      invariant k >= 0 && |d| == |x| && s % Pow2(k) >= 0 && Nat(d) == Nat(x) / Pow2(s % Pow2(k))
      decreases width - Pow2(k)
    {
      var shifted := ShrBits(d, Pow2(k));
      NextBit(s, k);
      CongMod(s, Pow2(k));
      if s / Pow2(k) % 2 == 1 {
        Pow2Add(s % Pow2(k), Pow2(k));
        DivTwice(Nat(x), Pow2(s % Pow2(k)), Pow2(Pow2(k)));
        d := shifted;
      }
      assert Pow2(k + 1) == 2 * Pow2(k);
      k := k + 1;
    }
    DivModIs(s, 0, s, Pow2(k));
    ghost var e := SplitExists(Nat(x));
    DivModIs(Nat(x), e, 0, Pow2(s));
  }
}
