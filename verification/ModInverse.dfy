/** Constant-time modular inverses: odd moduli, powers of two, and any modulus by exact division. */
module ModInverse {
  import opened Arith
  import opened Limbs
  import opened Bits
  import opened LimbOps
  import opened Gcd
  import opened Newton
  import opened BinaryGcd
  import opened UintOps
  import opened LongDivide
  import opened Ladders
  import opened XgcdBoxed
  import opened Options

  /** The result every inversion routine promises. */
  ghost predicate IsInverse(r: Option<nat>, a: nat, m: nat) {
    && (r.None? <==> GcdOf(a, m) != 1)
    && (r.Some? ==> r.value < m && Cong(r.value * a, 1, m))
  }

  /** The promise for limbs: the value is right, and it has `width` limbs. */
  ghost predicate IsInverseLimbs(r: Option<seq<Limb>>, a: nat, m: nat, width: nat) {
    IsInverse(ValueOf(r), a, m) && (r.Some? ==> |r.value| == width)
  }

  ghost function ValueOf(r: Option<seq<Limb>>): Option<nat> {
    if r.Some? then Some(Nat(r.value)) else None
  }

  /** The promise determines the result: any two routines agree. */
  lemma InverseDetermined(r: Option<nat>, s: Option<nat>, a: nat, m: nat)
    requires IsInverse(r, a, m) && IsInverse(s, a, m)
    ensures r == s
  {
    if r.Some? && s.Some? { InverseUnique(a, m, r.value, s.value); }
  }

  /** At one width, down to the limbs. */
  lemma LimbsDetermined(r: Option<seq<Limb>>, s: Option<seq<Limb>>, a: nat, m: nat, width: nat)
    requires IsInverseLimbs(r, a, m, width) && IsInverseLimbs(s, a, m, width)
    ensures r == s
  {
    InverseDetermined(ValueOf(r), ValueOf(s), a, m);
    if r.Some? {
      ValUnique(B, r.value, s.value, width);
      assert r.value == s.value;
    }
  }

  // ------------------------------------------------------------- odd moduli

  /** `(a - b) mod m` on equal-width limbs. */
  method SubModLimbs(a: seq<Limb>, b: seq<Limb>, m: seq<Limb>) returns (out: seq<Limb>)
    requires |a| == |b| == |m| && Nat(a) < Nat(m) && Nat(b) < Nat(m)
    ensures |out| == |m| && Nat(out) == SubMod(Nat(a), Nat(b), Nat(m))
  {
    var diff, bo := SbbLimbs(a, b, 0);
    var fixed, c := AdcLimbs(diff, m, 0);
    out := if bo == 1 then fixed else diff;
    SubModWraps(Nat(a), Nat(b), Nat(m), Nat(diff), bo, Nat(fixed), c, Nat(m), Pow(B, |m|));
  }

  /** `x / 2 mod m`: the carry out of `x + m` is shifted back in. */
  method HalfModLimbs(x: seq<Limb>, m: seq<Limb>) returns (out: seq<Limb>)
    requires |x| == |m| >= 1
    ensures |out| == |m| && Nat(out) == HalfMod(Nat(x), Nat(m))
  {
    ParityOfLow(x, |x|);
    var sum, carry := AdcLimbs(x, m, 0);
    var sumHalf := HalveWith(sum, carry);
    var half := HalveWith(x, 0);
    out := if x[0] % 2 == 1 then sumHalf else half;
  }

  /** Two remainders and their coefficients, as limbs. */
  datatype Sides = Sides(u: seq<Limb>, v: seq<Limb>, a: seq<Limb>, c: seq<Limb>)

  ghost function StateOf(s: Sides): State { State(Nat(s.u), Nat(s.v), Nat(s.a), Nat(s.c)) }

  ghost predicate Wide(s: Sides, n: nat) { |s.u| == |s.v| == |s.a| == |s.c| == n }

  /** The halves of `u`, `v`, and of whichever difference is not negative. */
  method Halves(u: seq<Limb>, v: seq<Limb>)
    returns (uHalf: seq<Limb>, vHalf: seq<Limb>, uv: seq<Limb>, vu: seq<Limb>, less: bool)
    requires |u| == |v| >= 1
    ensures |uHalf| == |vHalf| == |uv| == |vu| == |u| && (less <==> Nat(u) < Nat(v))
    ensures Nat(uHalf) == Nat(u) / 2 && Nat(vHalf) == Nat(v) / 2
    ensures if less then Nat(vu) == (Nat(v) - Nat(u)) / 2 else Nat(uv) == (Nat(u) - Nat(v)) / 2
  {
    uHalf := HalveWith(u, 0);
    vHalf := HalveWith(v, 0);
    var d, e, lt := [], [], false;
    d, less := WrappingSub(u, v);
    e, lt := WrappingSub(v, u);
    uv := HalveWith(d, 0);
    vu := HalveWith(e, 0);
  }

  /** The halves of the coefficients and of their differences modulo `m`. */
  method CoefficientHalves(a: seq<Limb>, c: seq<Limb>, m: seq<Limb>)
    returns (aHalf: seq<Limb>, cHalf: seq<Limb>, ac: seq<Limb>, ca: seq<Limb>)
    requires |a| == |c| == |m| >= 1 && Nat(a) < Nat(m) && Nat(c) < Nat(m)
    ensures |aHalf| == |cHalf| == |ac| == |ca| == |m|
    ensures Nat(aHalf) == HalfMod(Nat(a), Nat(m)) && Nat(cHalf) == HalfMod(Nat(c), Nat(m))
    ensures Nat(ac) == HalfMod(SubMod(Nat(a), Nat(c), Nat(m)), Nat(m))
    ensures Nat(ca) == HalfMod(SubMod(Nat(c), Nat(a), Nat(m)), Nat(m))
  {
    aHalf := HalfModLimbs(a, m);
    cHalf := HalfModLimbs(c, m);
    var d := SubModLimbs(a, c, m);
    var e := SubModLimbs(c, a, m);
    ac := HalfModLimbs(d, m);
    ca := HalfModLimbs(e, m);
  }

  /** One round of the fixed-width form: all candidates, then four masks. */
  method SelectStep(s: Sides, m: seq<Limb>) returns (t: Sides)
    requires Wide(s, |m|) && |m| >= 1 && Nat(s.a) < Nat(m) && Nat(s.c) < Nat(m)
    ensures Wide(t, |m|) && StateOf(t) == Step(StateOf(s), Nat(m))
  {
    ParityOfLow(s.u, |m|);
    ParityOfLow(s.v, |m|);
    var uHalf, vHalf, uv, vu, less := Halves(s.u, s.v);
    var aHalf, cHalf, ac, ca := CoefficientHalves(s.a, s.c, m);
    var uOdd, vOdd := s.u[0] % 2 == 1, s.v[0] % 2 == 1;
    var c1, c2 := !uOdd, uOdd && !vOdd;
    var c3, c4 := uOdd && vOdd && !less, uOdd && vOdd && less;
    t := Sides(if c1 then uHalf else if c3 then uv else s.u,
               if c2 then vHalf else if c4 then vu else s.v,
               if c1 then aHalf else if c3 then ac else s.a,
               if c2 then cHalf else if c4 then ca else s.c);
  }

  /** The fixed-width form: `2·bits(m)` rounds of masked selection. */
  method InvModOddCt(a: seq<Limb>, m: seq<Limb>) returns (r: Option<seq<Limb>>)
    requires |a| == |m| >= 1 && m[0] % 2 == 1 && Nat(m) > 1
    ensures IsInverseLimbs(r, Nat(a), Nat(m), |m|)
  {
    var n := |m|;
    ParityOfLow(m, n);
    StartInv(Nat(a), Nat(m));
    var _, u := DivRemFixed(a, m);
    var one: seq<Limb>, zero: seq<Limb> := Resized([1], n), seq(n, _ => 0);
    assert Nat([1]) == 1 by { assert Val(B, [1], 1) == Val(B, [1], 0) + 1 * Pow(B, 0); }
    ValZeroTail(B, zero, 0, n);
    var bits := BitLen(m);
    var s := Sides(u, m, one, zero);
    s := RunSelect(s, m, 2 * bits, Nat(a));
    EnoughRounds(Nat(a), Nat(m), bits);
    var isOne := IsOne(s.v);
    r := if isOne then Some(s.c) else None;
  }

  method RunSelect(s0: Sides, m: seq<Limb>, count: nat, ghost a: nat) returns (s: Sides)
    requires Wide(s0, |m|) && |m| >= 1 && Nat(m) % 2 == 1 && Inv(StateOf(s0), a, Nat(m))
    ensures Wide(s, |m|) && StateOf(s) == Rounds(StateOf(s0), Nat(m), a, count)
  {
    s := s0;
    for k := 0 to count
      invariant Wide(s, |m|) && StateOf(s) == Rounds(StateOf(s0), Nat(m), a, k)
    {
      s := SelectStep(s, m);
    }
  }

  /** The runtime-sized form. */
  method InvModOddCtBoxed(a: seq<Limb>, m: seq<Limb>) returns (r: Option<seq<Limb>>)
    requires |m| >= 1 && m[0] % 2 == 1 && Nat(m) > 1
    ensures IsInverseLimbs(r, Nat(a), Nat(m), |m|)
  {
    var inv, ok := Xgcd(a, m);
    r := if ok then Some(inv) else None;
  }

  // -------------------------------------------------------- powers of two

  lemma WrapNewton(n: int, x: int, w: int)
    requires w > 0
    ensures x * ((2 - n * x % w) % w) % w == x * (2 - n * x) % w
  {
    CongMod(n * x, w);
    CongSelf(2, w);
    CongSub(2, 2, n * x % w, n * x, w);
    CongMod(2 - n * x % w, w);
    CongTrans((2 - n * x % w) % w, 2 - n * x % w, 2 - n * x, w);
    CongScale((2 - n * x % w) % w, 2 - n * x, x, w);
    CongIsMod(x * ((2 - n * x % w) % w), x * (2 - n * x), w);
  }

  function Least(a: nat, b: nat): nat { if a <= b then a else b }

  lemma NewtonDoubles(e: int, x: int, c: nat, bits: nat)
    requires 3 <= c < bits && Cong(e * x, 1, Pow2(c))
    ensures Cong(e * (x * (2 - e * x) % Pow2(bits)), 1, Pow2(Least(2 * c, bits)))
  {
    Pow2Add(c, c);
    if 2 * c <= bits {
      Pow2Add(2 * c, bits - 2 * c);
      NewtonMachineStep(e, x, Pow2(c), Pow2(bits), Pow2(bits - 2 * c));
    } else {
      Pow2Add(bits, 2 * c - bits);
      NewtonLastStep(e, x, Pow2(c), Pow2(bits), Pow2(2 * c - bits));
    }
  }

  /** `e^-1` modulo the width: three correct bits, doubling every step. */
  method InvModPow2(e: seq<Limb>) returns (inv: seq<Limb>)
    requires |e| >= 1 && e[0] % 2 == 1
    ensures |inv| == |e| && Cong(Nat(e) * Nat(inv), 1, Pow(B, |e|))
  {
    var n := |e|;
    var bits := 64 * n;
    Pow2OfLimbs(n);
    ParityOfLow(e, n);
    inv := e;
    OddSquare(Nat(e));
    assert Pow2(3) == 8;
    var two: seq<Limb> := Resized([2], n);
    assert Nat([2]) == 2 by { assert Val(B, [2], 1) == Val(B, [2], 0) + 2 * Pow(B, 0); }
    var correct := 3;
    while correct < bits
      invariant 3 <= correct && |inv| == n && Cong(Nat(e) * Nat(inv), 1, Pow2(Least(correct, bits)))
      decreases bits - correct
    {
      inv := NewtonLimbs(e, inv, two, correct);
      correct := 2 * correct;
    }
  }

  method NewtonLimbs(e: seq<Limb>, x: seq<Limb>, two: seq<Limb>, ghost correct: nat) returns (y: seq<Limb>)
    requires |x| == |two| == |e| && Nat(two) == 2 && 3 <= correct < 64 * |e|
    requires Cong(Nat(e) * Nat(x), 1, Pow2(correct))
    ensures |y| == |e| && Cong(Nat(e) * Nat(y), 1, Pow2(Least(2 * correct, 64 * |e|)))
  {
    Pow2OfLimbs(|e|);
    var ex, _ := MulWide(e, x);
    var f, _ := WrappingSub(two, ex);
    var low, _ := MulWide(x, f);
    y := low;
    WrapNewton(Nat(e), Nat(x), Pow(B, |e|));
    NewtonDoubles(Nat(e), Nat(x), correct, 64 * |e|);
  }

  // ------------------------------------------------------------ any modulus

  /** `n` is `-phi` modulo `e`. */
  lemma NegativeResidue(phi: nat, e: nat)
    requires e > 0
    ensures Cong(SubMod(0, phi % e, e), 0 - phi, e)
  {
    SubModIs(0, phi % e, e);
    CongMod(phi, e);
    CongSelf(0, e);
    CongSub(0, 0, phi % e, phi, e);
    CongTrans(SubMod(0, phi % e, e), 0 - phi % e, 0 - phi, e);
  }

  lemma NegativeCong(y: int, n: int, phi: int, e: int)
    requires Cong(n, 0 - phi, e)
    ensures Cong(y * n, 1, e) <==> Cong((-y) * phi, 1, e)
  {
    CongScale(n, 0 - phi, y, e);
    assert y * (0 - phi) == (-y) * phi;
    CongSym(y * n, (-y) * phi, e);
    if Cong(y * n, 1, e) { CongTrans((-y) * phi, y * n, 1, e); }
    if Cong((-y) * phi, 1, e) { CongTrans(y * n, (-y) * phi, 1, e); }
  }

  /** Invertibility modulo `e` of `-phi`, of `phi`, and of `e` modulo `phi` are the same question. */
  lemma SameCoprime(n: nat, phi: nat, e: nat)
    requires Cong(n, 0 - phi, e) && e > 0 && phi > 0
    ensures GcdOf(n, e) == 1 <==> GcdOf(e, phi) == 1
  {
    CommonSwap(e, phi);
    SameGcd(e, phi, phi, e);
    var x := CoprimeInverse(n, e);
    var y := CoprimeInverse(phi, e);
    if GcdOf(n, e) == 1 {
      NegativeCong(x, n, phi, e);
      InverseCoprime(phi, e, -x);
    }
    if GcdOf(phi, e) == 1 {
      NegativeCong(-y, n, phi, e);
      InverseCoprime(n, e, -y);
    }
  }

  /** `1 + phi·y` is an exact multiple of `e`; its quotient is the inverse, and it is in range. */
  lemma ExactQuotient(e: nat, phi: nat, y: nat, n: int) returns (d: int)
    requires Cong(n, 0 - phi, e) && Cong(y * n, 1, e) && y < e < phi
    ensures e * d == 1 + phi * y && 0 <= d < phi && Cong(d * e, 1, phi)
  {
    NegativeCong(y, n, phi, e);
    var k := CongWitness((0 - y) * phi, 1, e);
    d := -k;
    assert (0 - y) * phi == 0 - phi * y && (-k) * e == -(k * e);
    assert e * d == d * e == 1 + phi * y;
    assert phi * y == y * phi;
    CongBy(d * e, 1, phi, y);
    QuotientRange(e, phi, y, d);
  }

  lemma QuotientRange(e: nat, phi: nat, y: nat, d: int)
    requires e * d == 1 + phi * y && y < e < phi
    ensures 0 <= d < phi
  {
    MulNonNegative(phi, y);
    if d < 0 { MulMono(d, -1, e); }
    MulMono(y, e - 1, phi);
    assert (e - 1) * phi == phi * e - phi && phi * y == y * phi && e * d == d * e;
    if d >= phi { MulMono(phi, d, e); }
  }

  /** Dividing by `e` exactly is multiplying by its inverse modulo the word. */
  lemma ExactDivision(e: int, inv: int, d: int, num: int, w: int)
    requires w > 0 && Cong(e * inv, 1, w) && Cong(num, e * d, w) && 0 <= d < w
    ensures num * inv % w == d
  {
    CongScale(num, e * d, inv, w);
    assert e * d * inv == (e * inv) * d;
    CongScale(e * inv, 1, d, w);
    CongTrans(num * inv, e * d * inv, d, w);
    CongSym(num * inv, d, w);
    ModIs(num * inv, d, w);
  }

  lemma Numerator(p: int, w: int)
    requires w > 0
    ensures Cong((p % w + 1) % w, 1 + p, w)
  {
    CongMod(p, w);
    CongMod(p % w + 1, w);
    CongSelf(1, w);
    CongAdd(p % w, p, 1, 1, w);
    CongTrans((p % w + 1) % w, p % w + 1, p + 1, w);
  }

  /** `(1 + phi·y) / e` as a product with `e^-1` modulo the width of `phi`. */
  method DivideExactly(e: seq<Limb>, phi: seq<Limb>, y: seq<Limb>) returns (d: seq<Limb>)
    requires |e| == |phi| >= 1 && e[0] % 2 == 1
    ensures |d| == |phi|
    ensures forall q: int :: Nat(e) * q == 1 + Nat(phi) * Nat(y) && 0 <= q < Pow(B, |phi|) ==> Nat(d) == q
  {
    var w := |phi|;
    var inv := InvModPow2(e);
    var product := Multiply(phi, y);
    var one: seq<Limb> := Resized([1], w);
    assert Nat([1]) == 1 by { assert Val(B, [1], 1) == Val(B, [1], 0) + 1 * Pow(B, 0); }
    var num := WrappingAdd(Resized(product, w), one);
    var low, _ := MulWide(num, inv);
    d := low;
    ghost var p := Pow(B, w);
    Numerator(Nat(phi) * Nat(y), p);
    forall q: int | Nat(e) * q == 1 + Nat(phi) * Nat(y) && 0 <= q < p
      ensures Nat(d) == q
    {
      ExactDivision(Nat(e), Nat(inv), q, Nat(num), p);
    }
  }

  /** The exact quotient is the inverse, given the inverse `y` of `n`, which is `-phi` modulo `e`. */
  lemma QuotientIsInverse(e: nat, phi: nat, y: nat, n: nat, d: nat, p: int)
    requires 3 <= e < phi < p && Cong(n, 0 - phi, e) && y < e && Cong(y * n, 1, e)
    requires forall q: int :: e * q == 1 + phi * y && 0 <= q < p ==> d == q
    ensures IsInverse(Some(d), e, phi)
  {
    var q := ExactQuotient(e, phi, y, n);
    InverseCoprime(e, phi, q);
  }

  /** `-phi mod e`. */
  method Negated(t: seq<Limb>, e: seq<Limb>, ghost phi: nat) returns (negT: seq<Limb>)
    requires |t| == |e| && Nat(e) > 0 && Nat(t) == phi % Nat(e)
    ensures |negT| == |e| && Cong(Nat(negT), 0 - phi, Nat(e))
  {
    var zero: seq<Limb> := seq(|e|, _ => 0);
    ValZeroTail(B, zero, 0, |e|);
    negT := SubModLimbs(zero, t, e);
    NegativeResidue(phi, Nat(e));
  }

  /** `e^-1 mod phi` for odd `e >= 3` and any larger `phi`, of either parity; fixed width. */
  method InvModCt(e: seq<Limb>, phi: seq<Limb>) returns (r: Option<seq<Limb>>)
    requires |e| == |phi| >= 1 && e[0] % 2 == 1 && 3 <= Nat(e) < Nat(phi)
    ensures IsInverseLimbs(r, Nat(e), Nat(phi), |phi|)
  {
    var w := |phi|;
    var _, t := DivRemFixed(phi, e);
    var negT := Negated(t, e, Nat(phi));
    SameCoprime(Nat(negT), Nat(phi), Nat(e));
    var inverse := InvModOddCt(negT, e);
    var y: seq<Limb> := if inverse.Some? then inverse.value else seq(w, _ => 0);
    var d := DivideExactly(e, phi, y);
    if inverse.Some? {
      QuotientIsInverse(Nat(e), Nat(phi), Nat(y), Nat(negT), Nat(d), Pow(B, w));
      r := Some(d);
    } else {
      r := None;
    }
  }

  /** The runtime-sized form: `e` and `phi` of any widths. */
  method InvModCtBoxed(e: seq<Limb>, phi: seq<Limb>) returns (r: Option<seq<Limb>>)
    requires |e| >= 1 && e[0] % 2 == 1 && 3 <= Nat(e) < Nat(phi) && |phi| >= 1
    ensures IsInverseLimbs(r, Nat(e), Nat(phi), |phi|)
  {
    var w := |phi|;
    var _, t := DivRem(phi, e);
    var negT := Negated(Resized(t, |e|), e, Nat(phi));
    SameCoprime(Nat(negT), Nat(phi), Nat(e));
    var y, ok := Xgcd(negT, e);
    var eLow := Resized(e, w);
    DivModIs(Nat(e), 0, Nat(e), Pow(B, w));
    ParityOfLow(e, |e|);
    ParityOfLow(eLow, w);
    var d := DivideExactly(eLow, phi, y);
    if ok {
      QuotientIsInverse(Nat(e), Nat(phi), Nat(y), Nat(negT), Nat(d), Pow(B, w));
      r := Some(d);
    } else {
      r := None;
    }
  }
}
