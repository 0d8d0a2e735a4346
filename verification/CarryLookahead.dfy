/** Resolving deferred carries in 52-bit lanes with a carry-lookahead addition over lane masks. */
module CarryLookahead {
  import opened Arith
  import opened Limbs
  import opened Bits
  import opened BitOps

  /** The digit radix, 2^52. */
  const E: int := 0x10_0000_0000_0000

  // ------------------------------------------------ the ripple it replaces

  /** The carry into lane `j` of a sequential ripple over lanes below `2E - 1`. */
  function Ripple(x: seq<int>, j: nat): (c: int)
    requires j <= |x|
    ensures 0 <= c <= 1
  {
    if j == 0 then 0 else if x[j - 1] + Ripple(x, j - 1) >= E then 1 else 0
  }

  /** The digits a sequential ripple leaves. */
  function Rippled(x: seq<int>): (r: seq<int>)
    ensures |r| == |x|
  {
    seq(|x|, j requires 0 <= j < |x| => (x[j] + Ripple(x, j)) % E)
  }

  lemma {:induction false} RippleValue(x: seq<int>, j: nat)
    requires j <= |x| && forall i :: 0 <= i < |x| ==> 0 <= x[i] < 2 * E - 1
    ensures Val(E, Rippled(x), j) + Ripple(x, j) * Pow(E, j) == Val(E, x, j)
  {
    if j > 0 {
      RippleValue(x, j - 1);
      var k, k' := Ripple(x, j - 1), Ripple(x, j);
      assert x[j - 1] + k == Rippled(x)[j - 1] + E * k';
      RippleAlgebra(Val(E, Rippled(x), j - 1), Val(E, x, j - 1), k, k', x[j - 1], Rippled(x)[j - 1], Pow(E, j - 1));
    }
  }

  lemma RippleAlgebra(r: int, v: int, k: int, k': int, x: int, d: int, p: int)
    requires r + k * p == v && x + k == d + E * k'
    ensures (r + d * p) + k' * (E * p) == v + x * p
  {
    assert p * (x + k) == p * (d + E * k');
  }

  // ------------------------------------------------------- the lane masks

  /** Lanes that generate a carry, as bits. */
  function Generates(x: seq<int>): (g: seq<int>)
    ensures |g| == |x| && Digits(2, g, |g|)
  {
    seq(|x|, j requires 0 <= j < |x| => if x[j] > E - 1 then 1 else 0)
  }

  /** Lanes that propagate one, as bits. */
  function Propagates(x: seq<int>): (p: seq<int>)
    ensures |p| == |x| && Digits(2, p, |p|)
  {
    seq(|x|, j requires 0 <= j < |x| => if x[j] == E - 1 then 1 else 0)
  }

  /** The carries of the ripple, as bits. */
  function Carries(x: seq<int>): (c: seq<int>)
    ensures |c| == |x| && Digits(2, c, |c|)
  {
    seq(|x|, j requires 0 <= j < |x| => Ripple(x, j))
  }

  /** Bitwise difference of two bit strings. */
  function BitXor(s: seq<int>, t: seq<int>): (r: seq<int>)
    requires |s| == |t|
    ensures |r| == |s| && Digits(2, r, |r|)
  {
    seq(|s|, j requires 0 <= j < |s| => if s[j] == t[j] then 0 else 1)
  }

  /** The addition `2G + P` produces `P xor carries`, with the last ripple carry on top. */
  lemma {:induction false} LookaheadSum(x: seq<int>, j: nat)
    requires j <= |x|
    ensures 2 * Val(2, Generates(x), j) + Val(2, Propagates(x), j)
            == Val(2, BitXor(Propagates(x), Carries(x)), j) + Ripple(x, j) * Pow2(j)
  {
    if j > 0 {
      LookaheadSum(x, j - 1);
      var i := j - 1;
      var g, p, k := Generates(x)[i], Propagates(x)[i], Ripple(x, i);
      assert k + p + 2 * g == BitXor(Propagates(x), Carries(x))[i] + 2 * Ripple(x, j);
      LookaheadAlgebra(Val(2, Generates(x), i), Val(2, Propagates(x), i), Val(2, BitXor(Propagates(x), Carries(x)), i),
                       g, p, k, BitXor(Propagates(x), Carries(x))[i], Ripple(x, j), Pow(2, i));
    }
  }

  lemma LookaheadAlgebra(gv: int, pv: int, sv: int, g: int, p: int, k: int, s: int, k': int, w: int)
    requires 2 * gv + pv == sv + k * w && k + p + 2 * g == s + 2 * k'
    ensures 2 * (gv + g * w) + (pv + p * w) == (sv + s * w) + k' * (2 * w)
  {
    assert w * (k + p + 2 * g) == w * (s + 2 * k');
  }

  /** Numeric exclusive-or agrees with the bitwise one. */
  lemma {:induction false} XorOfBits(s: seq<int>, t: seq<int>)
    requires |s| == |t| && Digits(2, s, |s|) && Digits(2, t, |t|)
    ensures Val(2, s, |s|) >= 0 && Val(2, t, |t|) >= 0
    ensures Xor(Val(2, s, |s|), Val(2, t, |t|)) == Val(2, BitXor(s, t), |s|)
  {
    if |s| == 0 {
      assert Xor(0, 0) == 0;
    } else {
      XorOfBits(s[1..], t[1..]);
      HeadBit(s);
      HeadBit(t);
      HeadBit(BitXor(s, t));
      assert BitXor(s, t)[1..] == BitXor(s[1..], t[1..]);
      XorStep(s[0], Val(2, s[1..], |s| - 1), t[0], Val(2, t[1..], |t| - 1));
    }
  }

  lemma HeadBit(s: seq<int>)
    requires |s| > 0
    ensures Val(2, s, |s|) == s[0] + 2 * Val(2, s[1..], |s[1..]|)
  {
    ValHead(2, s, |s|);
  }

  lemma XorStep(a: int, x: nat, b: int, y: nat)
    requires 0 <= a < 2 && 0 <= b < 2
    ensures a + 2 * x >= 0 && b + 2 * y >= 0
    ensures Xor(a + 2 * x, b + 2 * y) == (if a == b then 0 else 1) + 2 * Xor(x, y)
  {
    var u, v := a + 2 * x, b + 2 * y;
    assert u % 2 == a && v % 2 == b && u / 2 == x && v / 2 == y;
    if u == 0 && v == 0 { assert Xor(0, 0) == 0; }
  }

  lemma XorCancels(p: seq<int>, c: seq<int>)
    requires |p| == |c| && Digits(2, p, |p|) && Digits(2, c, |c|)
    ensures BitXor(BitXor(p, c), p) == c
  {
  }

  /** Bit `j` of a bit string's value. */
  lemma BitOfValue(s: seq<int>, j: nat)
    requires j < |s| && Digits(2, s, |s|)
    ensures Val(2, s, |s|) / Pow2(j) % 2 == s[j]
  {
    ValSplit(2, s, j, |s|);
    ValBound(2, s, j);
    var t := s[j..];
    DivExact(Val(2, s, |s|), Val(2, s, j), Pow2(j), Val(2, t, |t|));
    ValHead(2, t, |t|);
  }

  // ------------------------------------------------------------- normalize

  /** Bits above 52 moved one lane up: `lane mod E` plus the previous lane's overflow. */
  function Spread(l: seq<Limb>): (x: seq<int>)
    ensures |x| == |l|
  {
    seq(|l|, j requires 0 <= j < |l| => l[j] % E + (if j == 0 then 0 else l[j - 1] / E))
  }

  lemma {:induction false} SpreadValue(l: seq<Limb>, j: nat)
    requires j <= |l|
    ensures Val(E, Spread(l), j) + (if j == 0 then 0 else l[j - 1] / E) * Pow(E, j) == Val(E, l, j)
  {
    if j > 0 {
      SpreadValue(l, j - 1);
      var c := if j == 1 then 0 else l[j - 2] / E;
      RippleAlgebra(Val(E, Spread(l), j - 1), Val(E, l, j - 1), c, l[j - 1] / E, l[j - 1], l[j - 1] % E + c,
                    Pow(E, j - 1));
    }
  }

  /** The machine carry word for `w`-bit masks. */
  function CarryWord(g: nat, p: nat, w: nat): nat { Xor((2 * g % Pow2(w) + p) % Pow2(w), p) }

  /** With the value fitting the lanes, the carry word is exactly the ripple's carries. */
  lemma CarryWordIsRipple(x: seq<int>, w: nat)
    requires |x| <= w && Ripple(x, |x|) == 0
    ensures var (g, p) := (Val(2, Generates(x), |x|), Val(2, Propagates(x), |x|));
            g >= 0 && p >= 0 && CarryWord(g, p, w) == Val(2, Carries(x), |x|)
  {
    MaskSum(x, w);
    MaskXor(x);
    CarryWordValue(Val(2, Generates(x), |x|), Val(2, Propagates(x), |x|),
                   Val(2, BitXor(Propagates(x), Carries(x)), |x|), w);
  }

  lemma MaskSum(x: seq<int>, w: nat)
    requires |x| <= w && Ripple(x, |x|) == 0
    ensures Val(2, Generates(x), |x|) >= 0 && Val(2, Propagates(x), |x|) >= 0
    ensures 2 * Val(2, Generates(x), |x|) + Val(2, Propagates(x), |x|)
            == Val(2, BitXor(Propagates(x), Carries(x)), |x|) < Pow2(w)
  {
    var n := |x|;
    ValBound(2, Generates(x), n);
    ValBound(2, Propagates(x), n);
    ValBound(2, BitXor(Propagates(x), Carries(x)), n);
    PowMonotone(2, n, w);
    LookaheadSum(x, n);
    assert Ripple(x, n) * Pow2(n) == 0;
  }

  lemma MaskXor(x: seq<int>)
    ensures var (s, p) := (Val(2, BitXor(Propagates(x), Carries(x)), |x|), Val(2, Propagates(x), |x|));
            s >= 0 && p >= 0 && Xor(s, p) == Val(2, Carries(x), |x|)
  {
    XorOfBits(BitXor(Propagates(x), Carries(x)), Propagates(x));
    XorCancels(Propagates(x), Carries(x));
  }

  /** The wrapping addition does not wrap when the sum is below `2^w`. */
  lemma CarryWordValue(g: nat, p: nat, s: nat, w: nat)
    requires 2 * g + p == s < Pow2(w)
    ensures CarryWord(g, p, w) == Xor(s, p)
  {
    DivModIs(2 * g, 0, 2 * g, Pow2(w));
    DivModIs(s, 0, s, Pow2(w));
  }

  /**
   * Lanes of up to 64 bits whose total fits `|l|` digits become the canonical 52-bit digits:
   * one spreading pass, then a single mask addition instead of the ripple.
   */
  method Normalize(l: seq<Limb>, w: nat) returns (out: seq<int>)
    requires |l| <= w && Val(E, l, |l|) < Pow(E, |l|)
    ensures |out| == |l| && Digits(E, out, |l|) && Val(E, out, |l|) == Val(E, l, |l|)
    ensures out == Rippled(Spread(l))
  {
    var x := Spread(l);
    NoCarryOut(l, x);
    CarryWordIsRipple(x, w);
    var g: nat, p: nat := Val(2, Generates(x), |x|), Val(2, Propagates(x), |x|);
    var cin := CarryWord(g, p, w);
    forall j | 0 <= j < |x| ensures cin / Pow2(j) % 2 == Ripple(x, j) {
      BitOfValue(Carries(x), j);
    }
    out := seq(|l|, j requires 0 <= j < |l| => (x[j] + cin / Pow2(j) % 2) % E);
    assert out == Rippled(x);
  }

  /** A total below `E^n` leaves no carry above the top lane in either pass. */
  lemma NoCarryOut(l: seq<Limb>, x: seq<int>)
    requires x == Spread(l) && Val(E, l, |l|) < Pow(E, |l|)
    ensures Ripple(x, |x|) == 0 && Val(E, Rippled(x), |x|) == Val(E, l, |l|)
  {
    var n := |l|;
    SpreadValue(l, n);
    RippleValue(x, n);
    var r := Rippled(x);
    ValBound(E, r, n);
    var top := if n == 0 then 0 else l[n - 1] / E;
    PowPositive(E, n);
    TopIsZero(Val(E, r, n), Ripple(x, n), top, Pow(E, n), Val(E, l, n));
  }

  lemma TopIsZero(r: int, k: int, top: int, p: int, v: int)
    requires 0 <= r && 0 <= k && 0 <= top && p > 0 && r + k * p + top * p == v < p
    ensures k == 0 && top == 0
  {
    if k + top >= 1 {
      assert (k + top) * p == k * p + top * p;
      MulMono(1, k + top, p);
    }
  }
}
