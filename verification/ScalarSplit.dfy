/** Splitting a 256-bit scalar by a divisor below `2^128` with masked restoring division. */
module ScalarSplit {
  import opened Arith
  import opened Limbs
  import opened Bits
  import opened BitOps
  import opened LongDivide

  /** The 128-bit word. */
  const W: int := B * B

  /** One step on a 128-bit remainder: shifted left with the next bit, the overflow kept apart. */
  function WideStep(rem: nat, d: nat, b: Limb): (r: (bool, int))
    requires rem < d < W && b <= 1
    ensures r.0 <==> 2 * rem + b >= d
    ensures r.1 == 2 * rem + b - (if r.0 then d else 0) && 0 <= r.1 < d
  {
    var top := rem / (W / 2);
    var r2 := 2 * rem % W + b;
    var (lo, bo) := Sbb(r2 % B, d % B, 0);
    var (hi, borrow) := Sbb(r2 / B, d / B, bo);
    var diff := hi * B + lo;
    var ge := top == 1 || borrow == 0;
    Shifted(rem, b, top, r2);
    Compared(r2, d, lo, bo, hi, borrow);
    (ge, if ge then diff else r2)
  }

  lemma Shifted(rem: nat, b: int, top: int, r2: int)
    requires rem < W && 0 <= b <= 1 && top == rem / (W / 2) && r2 == 2 * rem % W + b
    ensures 0 <= top <= 1 && 0 <= r2 < W && r2 + top * W == 2 * rem + b
  {
  }

  lemma Compared(r2: int, d: int, lo: int, bo: int, hi: int, borrow: int)
    requires 0 <= r2 < W && 0 <= d < W && 0 <= lo < B && 0 <= hi < B && 0 <= bo <= 1 && 0 <= borrow <= 1
    requires lo - B * bo == r2 % B - d % B && hi - B * borrow == r2 / B - d / B - bo
    ensures hi * B + lo - borrow * W == r2 - d
  {
  }

  /** Quotient bits below `bit` are still clear. */
  ghost predicate Clear(q: seq<Limb>, bit: nat) {
    forall j :: 0 <= j < |q| ==>
      (64 * j + 64 <= bit ==> q[j] == 0) && (64 * j < bit < 64 * j + 64 ==> q[j] % Pow2(bit - 64 * j) == 0)
  }

  lemma ClearNext(q: seq<Limb>, bit: nat, w: Limb)
    requires Clear(q, bit + 1) && bit < 64 * |q| && w % Pow2(bit % 64) == 0
    ensures Clear(q[bit / 64 := w], bit)
  {
  }

  lemma ClearHere(q: seq<Limb>, bit: nat)
    requires Clear(q, bit + 1) && bit < 64 * |q|
    ensures q[bit / 64] % Pow2(bit % 64 + 1) == 0
  {
    if bit % 64 == 63 { DivModIs(0, 0, 0, Pow2(64)); }
  }

  /** `k = q·d + rem` with `rem < d`, for every nonzero `d` below `2^128`. */
  method DivRemCt(k: seq<Limb>, d: nat) returns (q: seq<Limb>, rem: nat)
    requires |k| == 4 && 0 < d < W
    ensures |q| == 4 && Nat(k) == Nat(q) * d + rem && rem < d
  {
    q := [0, 0, 0, 0];
    rem := 0;
    ValZeroTail(B, q, 0, 4);
    DividedStart(k, d);
    var bit := 256;
    while bit > 0
      invariant 0 <= bit <= 256 && |q| == 4 && Clear(q, bit) && rem < d
      invariant Divided(k, bit, Nat(q), d, rem)
    {
      bit := bit - 1;
      q, rem := DivideStep(k, d, q, rem, bit);
    }
    DividedAll(k, Nat(q), d, rem);
  }

  method DivideStep(k: seq<Limb>, d: nat, q0: seq<Limb>, rem0: nat, bit: nat) returns (q: seq<Limb>, rem: nat)
    requires |k| == 4 && rem0 < d < W && |q0| == 4 && bit < 256
    requires Clear(q0, bit + 1) && Divided(k, bit + 1, Nat(q0), d, rem0)
    ensures |q| == 4 && rem < d && Clear(q, bit) && Divided(k, bit, Nat(q), d, rem)
  {
    var i, sh := bit / 64, bit % 64;
    assert Pow2(1) == 2 by { Pow2Limb(); }
    var b: Limb := Field(k[i], sh, 1);
    var (ge, r) := WideStep(rem0, d, b);
    DividedStep(k, i, sh, Nat(q0), d, rem0, r, ge);
    ClearHere(q0, bit);
    QuotientBit(q0[i], sh);
    var w: Limb := Or(q0[i], if ge then Pow2(sh) else 0);
    QuotientValue(q0, i, w, sh, ge);
    ClearNext(q0, bit, w);
    q, rem := q0[i := w], r;
  }

  lemma DividedStart(k: seq<Limb>, d: int)
    requires |k| == 4
    ensures Divided(k, 256, 0, d, 0)
  {
    Pow2OfLimbs(4);
    DivModIs(Nat(k), 0, Nat(k), Pow2(256));
    assert 0 == Times(0, Pow2(256));
    assert Top(k, 256) == 0 * d + 0;
  }
}
