/** The quadratic extension `Fp[u]/(u^2 + 1)` for a prime `p ≡ 3 (mod 4)`. */
module Fp2 {
  import opened Arith
  import opened Primes
  import opened Options

  /** `c0 + c1·u`. */
  datatype Elem = Elem(c0: nat, c1: nat)

  ghost predicate Field(p: int) { IsPrime(p) && p % 4 == 3 }

  ghost predicate In(a: Elem, p: int) { a.c0 < p && a.c1 < p }

  /** `a` and `(x, y)` are the same element. */
  ghost predicate Is(a: Elem, x: int, y: int, p: int) { Cong(a.c0, x, p) && Cong(a.c1, y, p) }

  // ---------------------------------------------------------- base operations

  function Neg(x: nat, p: nat): nat
    requires x < p
  {
    if x == 0 then 0 else p - x
  }

  function HalfOf(p: int): int { (p + 1) / 2 }

  /** Each coefficient a two-term sum of products, the subtraction as a negated factor. */
  function Mul(a: Elem, b: Elem, p: nat): Elem
    requires a.c0 < p && a.c1 < p && b.c0 < p && b.c1 < p
  {
    Elem((a.c0 * b.c0 + a.c1 * Neg(b.c1, p)) % p, (a.c0 * b.c1 + a.c1 * b.c0) % p)
  }

  /** The two-multiplication square. */
  function Square(a: Elem, p: nat): Elem
    requires a.c0 < p && a.c1 < p
  {
    var ab := a.c0 * a.c1 % p;
    var sum, diff := (a.c0 + a.c1) % p, (a.c0 + p - a.c1) % p;
    Elem(sum * diff % p, (ab + ab) % p)
  }

  lemma NegIs(x: nat, p: nat)
    requires x < p
    ensures Cong(Neg(x, p), 0 - x, p)
  {
    CongBy(Neg(x, p), 0 - x, p, if x == 0 then 0 else 1);
  }

  /** The product is that of `(a0 + a1·u)(b0 + b1·u)` with `u^2 = -1`. */
  lemma MulIs(a: Elem, b: Elem, p: nat)
    requires p > 0 && In(a, p) && In(b, p)
    ensures In(Mul(a, b, p), p)
    ensures Is(Mul(a, b, p), a.c0 * b.c0 - a.c1 * b.c1, a.c0 * b.c1 + a.c1 * b.c0, p)
  {
    NegIs(b.c1, p);
    CongScale(Neg(b.c1, p), 0 - b.c1, a.c1, p);
    CongSelf(a.c0 * b.c0, p);
    CongAdd(a.c0 * b.c0, a.c0 * b.c0, a.c1 * Neg(b.c1, p), a.c1 * (0 - b.c1), p);
    assert a.c0 * b.c0 + a.c1 * (0 - b.c1) == a.c0 * b.c0 - a.c1 * b.c1;
    CongMod(a.c0 * b.c0 + a.c1 * Neg(b.c1, p), p);
    CongTrans(Mul(a, b, p).c0, a.c0 * b.c0 + a.c1 * Neg(b.c1, p), a.c0 * b.c0 - a.c1 * b.c1, p);
    CongMod(a.c0 * b.c1 + a.c1 * b.c0, p);
  }

  lemma SquareIs(a: Elem, p: nat)
    requires p > 0 && In(a, p)
    ensures In(Square(a, p), p) && Is(Square(a, p), a.c0 * a.c0 - a.c1 * a.c1, 2 * (a.c0 * a.c1), p)
  {
    DifferenceOfSquares(a.c0, a.c1, p);
    DoubledProduct(a.c0, a.c1, p);
  }

  lemma DoubledProduct(x: nat, y: nat, p: nat)
    requires p > 0
    ensures var ab := x * y % p; 0 <= (ab + ab) % p < p && Cong((ab + ab) % p, 2 * (x * y), p)
  {
    var ab := x * y % p;
    CongMod(x * y, p);
    CongAdd(ab, x * y, ab, x * y, p);
    CongMod(ab + ab, p);
    CongTrans((ab + ab) % p, ab + ab, 2 * (x * y), p);
  }

  lemma DifferenceOfSquares(x: nat, y: nat, p: nat)
    requires y < p
    ensures var r := (x + y) % p * ((x + p - y) % p) % p; 0 <= r < p && Cong(r, x * x - y * y, p)
  {
    var sum, diff := (x + y) % p, (x + p - y) % p;
    CongMod(x + y, p);
    CongMod(x + p - y, p);
    CongBy(x + p - y, x - y, p, 1);
    CongTrans(diff, x + p - y, x - y, p);
    CongMul(sum, x + y, diff, x - y, p);
    assert (x + y) * (x - y) == x * x - y * y;
    CongMod(sum * diff, p);
    CongTrans(sum * diff % p, sum * diff, x * x - y * y, p);
  }

  /** Reduced elements with congruent coefficients are equal. */
  lemma IsUnique(a: Elem, b: Elem, x: int, y: int, p: nat)
    requires In(a, p) && In(b, p) && Is(a, x, y, p) && Is(b, x, y, p)
    ensures a == b
  {
    CongSym(b.c0, x, p);
    CongSym(b.c1, y, p);
    CongTrans(a.c0, x, b.c0, p);
    CongTrans(a.c1, y, b.c1, p);
    CongUnique(a.c0, b.c0, p);
    CongUnique(a.c1, b.c1, p);
  }

  lemma SquareIsMul(a: Elem, p: nat)
    requires p > 0 && In(a, p)
    ensures Square(a, p) == Mul(a, a, p)
  {
    SquareIs(a, p);
    MulIs(a, a, p);
    assert a.c0 * a.c1 + a.c1 * a.c0 == 2 * (a.c0 * a.c1);
    IsUnique(Square(a, p), Mul(a, a, p), a.c0 * a.c0 - a.c1 * a.c1, 2 * (a.c0 * a.c1), p);
  }

  // ---------------------------------------------------------------- inversion

  /** `x^e` in the base field. */
  function PowMod(x: nat, e: nat, p: nat): nat
    requires p > 0
  {
    CongMod(Pow(x, e), p);
    Pow(x, e) % p
  }

  function Norm(a: Elem, p: nat): (n: nat)
    requires p > 0
  {
    (a.c0 * a.c0 % p + a.c1 * a.c1 % p) % p
  }

  lemma NormIs(a: Elem, p: nat)
    requires p > 0
    ensures Cong(Norm(a, p), a.c0 * a.c0 + a.c1 * a.c1, p) && Norm(a, p) < p
  {
    CongMod(a.c0 * a.c0, p);
    CongMod(a.c1 * a.c1, p);
    CongAdd(a.c0 * a.c0 % p, a.c0 * a.c0, a.c1 * a.c1 % p, a.c1 * a.c1, p);
    CongMod(a.c0 * a.c0 % p + a.c1 * a.c1 % p, p);
    CongTrans(Norm(a, p), a.c0 * a.c0 % p + a.c1 * a.c1 % p, a.c0 * a.c0 + a.c1 * a.c1, p);
  }

  /** Minus one is not a square, so a norm vanishes only at zero. */
  lemma NormZero(a: Elem, p: int)
    requires Field(p) && In(a, p) && Norm(a, p) == 0
    ensures a == Elem(0, 0)
  {
    NormIs(a, p);
    CongSym(0, a.c0 * a.c0 + a.c1 * a.c1, p);
    DivModIs(a.c0, 0, a.c0, p);
    DivModIs(a.c1, 0, a.c1, p);
    if a.c1 != 0 {
      NoRootOfMinusOne(a.c0, a.c1, p);
    } else {
      PrimeDividesProduct(p, a.c0, a.c0);
    }
  }

  /** No two squares, one of them nonzero, cancel. */
  lemma NoRootOfMinusOne(x: nat, y: nat, p: int)
    requires Field(p) && y % p != 0
    ensures !Cong(x * x + y * y, 0, p)
  {
    if Cong(x * x + y * y, 0, p) {
      var i := PrimeUnit(p, y);
      MinusOneSquare(x, y, i, p);
      var z := (x * i) % p;
      CongMod(x * i, p);
      CongMul(z, x * i, z, x * i, p);
      CongTrans(z * z, (x * i) * (x * i), -1, p);
      OddHalfPower(z, p);
    }
  }

  lemma MinusOneSquare(x: int, y: int, i: int, p: int)
    requires Cong(x * x + y * y, 0, p) && Cong(i * y, 1, p)
    ensures Cong((x * i) * (x * i), -1, p)
  {
    CongScale(x * x + y * y, 0, i * i, p);
    assert (x * x + y * y) * (i * i) == (x * i) * (x * i) + (i * y) * (i * y);
    CongMul(i * y, 1, i * y, 1, p);
    CongSub((x * i) * (x * i) + (i * y) * (i * y), 0 * (i * i), (i * y) * (i * y), 1, p);
    assert 0 * (i * i) - 1 == -1;
  }

  /** A square root of minus one would contradict Fermat, `(p - 1)/2` being odd. */
  lemma OddHalfPower(z: nat, p: int)
    requires Field(p)
    ensures !Cong(z * z, -1, p)
  {
    if Cong(z * z, -1, p) {
      if z % p == 0 {
        ZeroNotMinusOne(z, p);
      } else {
        Fermat(p, z);
        var h := (p - 1) / 2;
        assert Pow(z, 2) == z * z by { assert Pow(z, 2) == z * Pow(z, 1); }
        PowMul(z, 2, h);
        CongPow(z * z, -1, h, p);
        MinusOneOdd(h);
        CongSym(Pow(z, p - 1), 1, p);
        CongTrans(1, Pow(z, p - 1), -1, p);
        OneNotMinusOne(p);
      }
    }
  }

  lemma OneNotMinusOne(p: int)
    requires p >= 3
    ensures !Cong(1, -1, p)
  {
    CongIsMod(1, -1, p);
    DivModIs(1, 0, 1, p);
    DivModIs(-1, -1, p - 1, p);
  }

  lemma ZeroNotMinusOne(z: nat, p: int)
    requires p >= 3 && z % p == 0
    ensures !Cong(z * z, -1, p)
  {
    DivParts(z, p);
    var k := z / p;
    assert z * z == (k * z) * p + 0 by { assert z == p * k; }
    DivModIs(z * z, k * z, 0, p);
    CongIsMod(z * z, -1, p);
    DivModIs(-1, -1, p - 1, p);
  }

  lemma {:induction false} MinusOneOdd(h: nat)
    requires h % 2 == 1
    ensures Pow(-1, h) == -1
    decreases h
  {
    if h == 1 {
      assert Pow(-1, 0) == 1;
    } else {
      MinusOneOdd(h - 2);
      assert Pow(-1, h) == -1 * Pow(-1, h - 1) && Pow(-1, h - 1) == -1 * Pow(-1, h - 2);
    }
  }

  /** The conjugate over the norm; none for zero. */
  function Invert(a: Elem, p: nat): Option<Elem>
    requires p >= 2 && a.c0 < p && a.c1 < p
  {
    var n := Norm(a, p);
    if n == 0 then None
    else
      var i := PowMod(n, p - 2, p);
      Some(Elem(a.c0 * i % p, Neg(a.c1, p) * i % p))
  }

  /** Every element but zero has its inverse. */
  lemma InvertIs(a: Elem, p: int)
    requires Field(p) && In(a, p)
    ensures Invert(a, p).None? <==> a == Elem(0, 0)
    ensures Invert(a, p).Some? ==> In(Invert(a, p).value, p) && Mul(a, Invert(a, p).value, p) == Elem(1, 0)
  {
    NormIs(a, p);
    if Norm(a, p) == 0 {
      NormZero(a, p);
    } else {
      DivModIs(Norm(a, p), 0, Norm(a, p), p);
      InverseProduct(a, PowMod(Norm(a, p), p - 2, p), p);
    }
    if a == Elem(0, 0) { DivModIs(0, 0, 0, p); }
  }

  lemma FermatInverse(n: nat, p: int)
    requires IsPrime(p) && n % p != 0
    ensures Cong(n * PowMod(n, p - 2, p), 1, p)
  {
    Fermat(p, n);
    CongMod(Pow(n, p - 2), p);
    CongScale(PowMod(n, p - 2, p), Pow(n, p - 2), n, p);
    assert n * Pow(n, p - 2) == Pow(n, p - 1);
    CongTrans(n * PowMod(n, p - 2, p), Pow(n, p - 1), 1, p);
  }

  lemma InverseProduct(a: Elem, i: nat, p: int)
    requires IsPrime(p) && In(a, p) && Norm(a, p) % p != 0 && i == PowMod(Norm(a, p), p - 2, p)
    ensures var b := Elem(a.c0 * i % p, Neg(a.c1, p) * i % p);
            In(b, p) && Mul(a, b, p) == Elem(1, 0)
  {
    var x, y := a.c0, a.c1;
    var b := Elem(x * i % p, Neg(y, p) * i % p);
    FermatInverse(Norm(a, p), p);
    NormIs(a, p);
    CongScale(Norm(a, p), x * x + y * y, i, p);
    CongSym(Norm(a, p) * i, (x * x + y * y) * i, p);
    CongTrans((x * x + y * y) * i, Norm(a, p) * i, 1, p);
    CongMod(x * i, p);
    CongMod(Neg(y, p) * i, p);
    NegIs(y, p);
    CongScale(Neg(y, p), 0 - y, i, p);
    CongTrans(b.c1, Neg(y, p) * i, (0 - y) * i, p);
    MulIs(a, b, p);
    InverseAlgebra(x, y, i, b.c0, b.c1, p);
    CongTrans(Mul(a, b, p).c0, x * b.c0 - y * b.c1, 1, p);
    CongTrans(Mul(a, b, p).c1, x * b.c1 + y * b.c0, 0, p);
    CongUnique(Mul(a, b, p).c0, 1, p);
    CongUnique(Mul(a, b, p).c1, 0, p);
  }

  lemma InverseAlgebra(x: int, y: int, i: int, b0: int, b1: int, p: int)
    requires Cong(b0, x * i, p) && Cong(b1, (0 - y) * i, p) && Cong((x * x + y * y) * i, 1, p)
    ensures Cong(x * b0 - y * b1, 1, p) && Cong(x * b1 + y * b0, 0, p)
  {
    CongScale(b0, x * i, x, p);
    CongScale(b1, (0 - y) * i, y, p);
    CongSub(x * b0, x * (x * i), y * b1, y * ((0 - y) * i), p);
    NormTimes(x, y, i);
    CongTrans(x * b0 - y * b1, (x * x + y * y) * i, 1, p);
    CongScale(b1, (0 - y) * i, x, p);
    CongScale(b0, x * i, y, p);
    CongAdd(x * b1, x * ((0 - y) * i), y * b0, y * (x * i), p);
  }

  lemma NormTimes(x: int, y: int, i: int)
    ensures x * (x * i) - y * ((0 - y) * i) == (x * x + y * y) * i
    ensures x * ((0 - y) * i) + y * (x * i) == 0
  {
  }

  // ------------------------------------------------------------- square roots

  /** `a` is the square of some element. */
  ghost predicate IsSquare(a: Elem, p: int)
    requires p > 0
  {
    exists z: Elem :: In(z, p) && Square(z, p) == a
  }

  datatype Trace = Trace(s: nat, delta: nat, d: nat, w: nat, chi: nat, t: nat, x1: nat)

  /** The intermediate values of the norm method. */
  function SqrtTrace(a: Elem, p: nat): Trace
    requires p >= 3
  {
    var s := PowMod(Norm(a, p), (p + 1) / 4, p);
    var delta := (a.c0 + s) % p * HalfOf(p) % p;
    var d := if delta == 0 then s else delta;
    var w := PowMod(d, (3 * p - 5) / 4, p);
    var chi := d * (w * w % p) % p;
    var t := chi * d % p * w % p;
    var x1 := a.c1 * w % p * HalfOf(p) % p;
    Trace(s, delta, d, w, chi, t, x1)
  }

  /** One of the two shapes, selected by the character of `d`, kept only if it squares back. */
  function Sqrt(a: Elem, p: nat): Option<Elem>
    requires p >= 3
  {
    var r := SqrtTrace(a, p);
    var cand := if r.chi != 1 || r.delta == 0 then Elem(r.x1, r.t) else Elem(r.t, r.x1);
    CongMod(r.chi * r.d % p * r.w, p);
    CongMod(a.c1 * r.w % p * HalfOf(p), p);
    if Square(cand, p) == a then Some(cand) else None
  }

  /** What the trace satisfies, in congruences. */
  ghost predicate Traced(a: Elem, r: Trace, p: int) {
    && Cong(2 * r.delta, a.c0 + r.s, p)
    && Cong(r.t, r.chi * r.d * r.w, p) && Cong(2 * r.x1, a.c1 * r.w, p)
    && Cong(r.d * (r.w * r.w), r.chi, p)
  }

  lemma TwoHalves(p: int)
    requires p % 2 == 1
    ensures Cong(2 * HalfOf(p), 1, p)
  {
    CongBy(2 * HalfOf(p), 1, p, 1);
  }

  /** `x·half`, doubled. */
  lemma DoubleHalf(x: int, p: int)
    requires p > 0 && p % 2 == 1
    ensures Cong(2 * (x % p * HalfOf(p) % p), x, p)
  {
    var h := HalfOf(p);
    CongMod(x, p);
    CongMod(x % p * h, p);
    CongScale(x % p, x, h, p);
    CongTrans(x % p * h % p, x % p * h, x * h, p);
    TwoHalves(p);
    DoubleOf(x % p * h % p, x, h, p);
  }

  lemma DoubleOf(y: int, x: int, h: int, p: int)
    requires Cong(y, x * h, p) && Cong(2 * h, 1, p)
    ensures Cong(2 * y, x, p)
  {
    CongScale(y, x * h, 2, p);
    CongScale(2 * h, 1, x, p);
    assert 2 * (x * h) == x * (2 * h);
    CongTrans(2 * y, x * (2 * h), x * 1, p);
  }

  lemma TripleProduct(x: int, y: int, z: int, p: int)
    requires p > 0
    ensures Cong(x * y % p * z % p, x * y * z, p)
  {
    CongMod(x * y, p);
    CongScale(x * y % p, x * y, z, p);
    CongMod(x * y % p * z, p);
    CongTrans(x * y % p * z % p, x * y % p * z, x * y * z, p);
  }

  lemma TraceIs(a: Elem, p: int)
    requires Field(p)
    ensures Traced(a, SqrtTrace(a, p), p)
  {
    var r := SqrtTrace(a, p);
    DoubleHalf(a.c0 + r.s, p);
    DoubleHalf(a.c1 * r.w, p);
    TripleProduct(r.chi, r.d, r.w, p);
    CharacterIs(r.d, r.w, p);
  }

  lemma CharacterIs(d: int, w: int, p: int)
    requires p > 0
    ensures Cong(d * (w * w), d * (w * w % p) % p, p)
  {
    var chi := d * (w * w % p) % p;
    CongMod(w * w, p);
    CongScale(w * w % p, w * w, d, p);
    CongMod(d * (w * w % p), p);
    CongTrans(chi, d * (w * w % p), d * (w * w), p);
    CongSym(chi, d * (w * w), p);
  }

  /** `2·t·x1 = a1` and `t^2 = chi·d`, whatever the sign of `chi`. */
  lemma CrossTerm(a1: int, d: int, w: int, chi: int, t: int, x1: int, p: int)
    requires Cong(d * (w * w), chi, p) && Cong(chi * chi, 1, p)
    requires Cong(t, chi * d * w, p) && Cong(2 * x1, a1 * w, p)
    ensures Cong(2 * (t * x1), a1, p)
  {
    CongMul(t, chi * d * w, 2 * x1, a1 * w, p);
    assert t * (2 * x1) == 2 * (t * x1);
    CrossAlgebra(a1, d, w, chi);
    CongScale(d * (w * w), chi, chi * a1, p);
    CongTrans(2 * (t * x1), (chi * a1) * (d * (w * w)), (chi * a1) * chi, p);
    assert (chi * a1) * chi == a1 * (chi * chi);
    CongScale(chi * chi, 1, a1, p);
    CongTrans(2 * (t * x1), a1 * (chi * chi), a1 * 1, p);
  }

  lemma CrossAlgebra(a1: int, d: int, w: int, chi: int)
    ensures (chi * d * w) * (a1 * w) == (chi * a1) * (d * (w * w))
  {
  }

  lemma TSquared(d: int, w: int, chi: int, t: int, p: int)
    requires Cong(d * (w * w), chi, p) && Cong(chi * chi, 1, p) && Cong(t, chi * d * w, p)
    ensures Cong(t * t, chi * d, p)
  {
    CongMul(t, chi * d * w, t, chi * d * w, p);
    TSquaredAlgebra(d, w, chi);
    CongMul(chi * chi, 1, d * (w * w), chi, p);
    CongScale((chi * chi) * (d * (w * w)), 1 * chi, d, p);
    CongTrans(t * t, ((chi * chi) * (d * (w * w))) * d, chi * d, p);
  }

  lemma TSquaredAlgebra(d: int, w: int, chi: int)
    ensures (chi * d * w) * (chi * d * w) == ((chi * chi) * (d * (w * w))) * d
  {
    assert (chi * d * w) * (chi * d * w) == (chi * chi) * ((d * w) * (d * w));
    assert (d * w) * (d * w) == (d * (w * w)) * d;
  }

  /** `4·d·x1^2 = chi·a1^2`. */
  lemma XSquared(a1: int, d: int, w: int, chi: int, x1: int, p: int)
    requires Cong(d * (w * w), chi, p) && Cong(2 * x1, a1 * w, p)
    ensures Cong(4 * d * (x1 * x1), chi * (a1 * a1), p)
  {
    CongMul(2 * x1, a1 * w, 2 * x1, a1 * w, p);
    CongScale((2 * x1) * (2 * x1), (a1 * w) * (a1 * w), d, p);
    XSquaredAlgebra(a1, d, w, x1);
    CongScale(d * (w * w), chi, a1 * a1, p);
    CongTrans(4 * d * (x1 * x1), (d * (w * w)) * (a1 * a1), chi * (a1 * a1), p);
  }

  lemma XSquaredAlgebra(a1: int, d: int, w: int, x1: int)
    ensures d * ((2 * x1) * (2 * x1)) == 4 * d * (x1 * x1)
    ensures d * ((a1 * w) * (a1 * w)) == (d * (w * w)) * (a1 * a1)
  {
    assert (a1 * w) * (a1 * w) == (w * w) * (a1 * a1);
  }

  /** `4d^2 - a1^2 = 4·d·a0`, from `2d = a0 + s` and `s^2 = a0^2 + a1^2`. */
  lemma DeltaEquation(a0: int, a1: int, d: int, s: int, p: int)
    requires Cong(2 * d, a0 + s, p) && Cong(s * s, a0 * a0 + a1 * a1, p)
    ensures Cong(4 * d * d - a1 * a1, 4 * d * a0, p)
  {
    var k, l := CongWitness(2 * d, a0 + s, p), CongWitness(s * s, a0 * a0 + a1 * a1, p);
    DeltaAlgebra(a0, a1, d, s, k * p, l * p);
    assert l * p + 2 * s * (k * p) + (k * p) * (k * p) == (l + 2 * s * k + k * (k * p)) * p;
    CongBy(4 * d * d - a1 * a1, 4 * d * a0, p, l + 2 * s * k + k * (k * p));
  }

  lemma DeltaAlgebra(a0: int, a1: int, d: int, s: int, e: int, f: int)
    requires 2 * d == a0 + s + e && s * s == a0 * a0 + a1 * a1 + f
    ensures 4 * d * d - a1 * a1 == 4 * d * a0 + (f + 2 * s * e + e * e)
  {
    assert (2 * d) * (2 * d) - (2 * d) * (2 * a0) == (2 * d) * (2 * d - 2 * a0);
    assert (a0 + s + e) * (s + e - a0) == s * s - a0 * a0 + 2 * s * e + e * e;
  }

  /** The real part, up to the sign of the character. */
  lemma RealPart(a0: int, a1: int, d: nat, s: int, w: int, chi: int, t: int, x1: int, p: int)
    requires Field(p) && d % p != 0 && Cong(chi * chi, 1, p)
    requires Cong(2 * d, a0 + s, p) && Cong(s * s, a0 * a0 + a1 * a1, p)
    requires Cong(d * (w * w), chi, p) && Cong(t, chi * d * w, p) && Cong(2 * x1, a1 * w, p)
    ensures Cong(chi * (t * t - x1 * x1), a0, p)
  {
    TSquared(d, w, chi, t, p);
    XSquared(a1, d, w, chi, x1, p);
    DeltaEquation(a0, a1, d, s, p);
    RealProduct(a1, d, chi, t * t, x1 * x1, p);
    CongTrans(4 * d * (chi * (t * t - x1 * x1)), 4 * d * d - a1 * a1, 4 * d * a0, p);
    FourTimes(d, p);
    CancelNonMultiple(p, 4 * d, chi * (t * t - x1 * x1), a0);
  }

  lemma RealProduct(a1: int, d: int, chi: int, tt: int, xx: int, p: int)
    requires Cong(chi * chi, 1, p) && Cong(tt, chi * d, p) && Cong(4 * d * xx, chi * (a1 * a1), p)
    ensures Cong(4 * d * (chi * (tt - xx)), 4 * d * d - a1 * a1, p)
  {
    var u := 4 * d * chi;
    CongScale(tt, chi * d, u, p);
    CongScale(4 * d * xx, chi * (a1 * a1), chi, p);
    CongSub(u * tt, u * (chi * d), chi * (4 * d * xx), chi * (chi * (a1 * a1)), p);
    CongScale(chi * chi, 1, 4 * d * d - a1 * a1, p);
    RealAlgebra(a1, d, chi, tt, xx);
    CongTrans(4 * d * (chi * (tt - xx)), (chi * chi) * (4 * d * d - a1 * a1), 4 * d * d - a1 * a1, p);
  }

  lemma RealAlgebra(a1: int, d: int, chi: int, tt: int, xx: int)
    ensures (4 * d * chi) * tt - chi * (4 * d * xx) == 4 * d * (chi * (tt - xx))
    ensures (4 * d * chi) * (chi * d) - chi * (chi * (a1 * a1)) == (chi * chi) * (4 * d * d - a1 * a1)
  {
    var e, b := chi * chi, a1 * a1;
    assert (4 * d * chi) * (chi * d) == e * (4 * d * d);
    assert chi * (chi * b) == e * b;
    assert e * (4 * d * d - b) == e * (4 * d * d) - e * b;
    assert 4 * d * (chi * (tt - xx)) == (4 * d * chi) * tt - (4 * d * chi) * xx;
    assert chi * (4 * d * xx) == (4 * d * chi) * xx;
  }

  lemma FourTimes(d: nat, p: int)
    requires Field(p) && d % p != 0
    ensures (4 * d) % p != 0
  {
    if (4 * d) % p == 0 {
      CongIsMod(2 * (2 * d), 0, p);
      DivModIs(2, 0, 2, p);
      DivModIs(0, 0, 0, p);
      PrimeDividesProduct(p, 2, 2 * d);
      CongIsMod(2 * d, 0, p);
      PrimeDividesProduct(p, 2, d);
    }
  }

  // -------------------------------------------------- quadratic characters

  /** A nonzero square to the half power is one, and its root is a quarter power. */
  lemma SquarePower(n: nat, r: nat, p: int)
    requires Field(p) && Cong(n, r * r, p)
    ensures n % p != 0 ==> Cong(Pow(n, (p - 1) / 2), 1, p)
    ensures Cong(Pow(n, (p + 1) / 2), n, p)
  {
    var h := (p - 1) / 2;
    assert Pow(n, h + 1) == n * Pow(n, h);
    if n % p != 0 {
      SquareHalfPower(p, h, n, r);
      CongScale(Pow(n, h), 1, n, p);
    } else {
      CongIsMod(n, 0, p);
      DivModIs(0, 0, 0, p);
      CongScale(n, 0, Pow(n, h), p);
      CongSym(n, 0, p);
      CongTrans(n * Pow(n, h), 0 * Pow(n, h), n, p);
    }
  }

  /** With a square norm, `s` is its root. */
  lemma NormRoot(n: nat, r: nat, p: int)
    requires Field(p) && Cong(n, r * r, p)
    ensures var s := PowMod(n, (p + 1) / 4, p); Cong(s * s, n, p)
  {
    var e := (p + 1) / 4;
    var s := PowMod(n, e, p);
    CongMod(Pow(n, e), p);
    CongMul(s, Pow(n, e), s, Pow(n, e), p);
    PowAdd(n, e, e);
    assert e + e == (p + 1) / 2;
    SquarePower(n, r, p);
    CongTrans(s * s, Pow(n, (p + 1) / 2), n, p);
  }

  /** `d·w^2` is the character of `d`: the cube of its half power. */
  lemma CharacterPower(d: nat, w: nat, chi: int, p: int)
    requires Field(p) && w == PowMod(d, (3 * p - 5) / 4, p) && Cong(d * (w * w), chi, p)
    ensures Cong(chi, Pow(Pow(d, (p - 1) / 2), 3), p)
  {
    CharacterCube(d, w, p);
    CongSym(d * (w * w), chi, p);
    CongTrans(chi, d * (w * w), Pow(Pow(d, (p - 1) / 2), 3), p);
  }

  lemma CharacterCube(d: nat, w: nat, p: int)
    requires Field(p) && w == PowMod(d, (3 * p - 5) / 4, p)
    ensures Cong(d * (w * w), Pow(Pow(d, (p - 1) / 2), 3), p)
  {
    var k, h := (3 * p - 5) / 4, (p - 1) / 2;
    CongMod(Pow(d, k), p);
    CongMul(w, Pow(d, k), w, Pow(d, k), p);
    PowAdd(d, k, k);
    CongScale(w * w, Pow(d, k + k), d, p);
    assert d * Pow(d, k + k) == Pow(d, k + k + 1);
    PowMul(d, h, 3);
    assert k + k + 1 == h * 3;
  }

  lemma CubeOfSign(x: int, e: int, p: int)
    requires Cong(x, e, p) && (e == 1 || e == -1)
    ensures Cong(Pow(x, 3), e, p)
  {
    CongPow(x, e, 3, p);
    assert Pow(e, 3) == e * Pow(e, 2) && Pow(e, 2) == e * Pow(e, 1) && Pow(e, 1) == e * Pow(e, 0);
  }

  /** The character is one or minus one away from zero. */
  lemma CharacterSign(d: nat, w: nat, chi: nat, p: int)
    requires Field(p) && 0 < d < p && w == PowMod(d, (3 * p - 5) / 4, p) && Cong(d * (w * w), chi, p) && chi < p
    ensures (chi == 1 || chi == p - 1) && Cong(chi * chi, 1, p)
    ensures Cong(Pow(d, (p - 1) / 2), 1, p) ==> chi == 1
  {
    CharacterPower(d, w, chi, p);
    HalfSign(d, p);
    SignCases(Pow(d, (p - 1) / 2), chi, p);
  }

  lemma HalfSign(d: nat, p: int)
    requires Field(p) && 0 < d < p
    ensures var x := Pow(d, (p - 1) / 2); Cong(x, 1, p) || Cong(x, -1, p)
  {
    HalfPower(p, (p - 1) / 2, d);
  }

  lemma SignCases(x: int, chi: nat, p: int)
    requires (Cong(x, 1, p) || Cong(x, -1, p)) && Cong(chi, Pow(x, 3), p) && chi < p && p >= 3
    ensures (chi == 1 || chi == p - 1) && Cong(chi * chi, 1, p) && (Cong(x, 1, p) ==> chi == 1)
  {
    if Cong(x, 1, p) { PlusCase(x, chi, p); } else { MinusCase(x, chi, p); }
  }

  lemma PlusCase(x: int, chi: nat, p: int)
    requires Cong(x, 1, p) && Cong(chi, Pow(x, 3), p) && chi < p && p >= 3
    ensures chi == 1 && Cong(chi * chi, 1, p)
  {
    CubeOfSign(x, 1, p);
    CongTrans(chi, Pow(x, 3), 1, p);
    CongUnique(chi, 1, p);
    CongSelf(1, p);
  }

  lemma MinusCase(x: int, chi: nat, p: int)
    requires Cong(x, -1, p) && Cong(chi, Pow(x, 3), p) && chi < p && p >= 3
    ensures chi == p - 1 && Cong(chi * chi, 1, p)
  {
    CubeOfSign(x, -1, p);
    CongTrans(chi, Pow(x, 3), -1, p);
    MinusOneSquared(chi, p);
    CongBy(-1, p - 1, p, -1);
    CongTrans(chi, -1, p - 1, p);
    CongUnique(chi, p - 1, p);
  }

  // ------------------------------------------------------ completeness

  /** The norm of a square is a square. */
  lemma NormOfSquare(z: Elem, a: Elem, p: int)
    requires Field(p) && In(z, p) && In(a, p) && Square(z, p) == a
    ensures var r := z.c0 * z.c0 + z.c1 * z.c1; Cong(Norm(a, p), r * r, p)
  {
    var x: int, y: int := z.c0, z.c1;
    SquareIs(z, p);
    NormIs(a, p);
    CongMul(a.c0, x * x - y * y, a.c0, x * x - y * y, p);
    CongMul(a.c1, 2 * (x * y), a.c1, 2 * (x * y), p);
    CongAdd(a.c0 * a.c0, (x * x - y * y) * (x * x - y * y), a.c1 * a.c1, (2 * (x * y)) * (2 * (x * y)), p);
    SumOfSquares(x, y);
    var r := x * x + y * y;
    CongTrans(Norm(a, p), a.c0 * a.c0 + a.c1 * a.c1, r * r, p);
  }

  lemma SumOfSquares(x: int, y: int)
    ensures (x * x - y * y) * (x * x - y * y) + (2 * (x * y)) * (2 * (x * y)) == (x * x + y * y) * (x * x + y * y)
  {
    var u, v := x * x, y * y;
    assert (2 * (x * y)) * (2 * (x * y)) == 4 * (u * v);
    assert (u - v) * (u - v) + 4 * (u * v) == (u + v) * (u + v);
  }

  /** With `s^2` the norm and `delta` nonzero, the selected shape squares to `a`. */
  lemma RegularRoot(a: Elem, p: int)
    requires Field(p) && In(a, p)
    requires var r := SqrtTrace(a, p); r.delta != 0 && Cong(r.s * r.s, Norm(a, p), p)
    ensures Sqrt(a, p).Some?
  {
    var r := SqrtTrace(a, p);
    TraceIs(a, p);
    TraceRange(a, p);
    CharacterSign(r.d, r.w, r.chi, p);
    NormIs(a, p);
    CongTrans(r.s * r.s, Norm(a, p), a.c0 * a.c0 + a.c1 * a.c1, p);
    RegularShape(a, r, p);
  }

  lemma RegularShape(a: Elem, r: Trace, p: int)
    requires Field(p) && In(a, p) && 0 < r.d < p && r.d == r.delta && r.t < p && r.x1 < p && Traced(a, r, p)
    requires (r.chi == 1 || r.chi == p - 1) && Cong(r.chi * r.chi, 1, p)
    requires Cong(r.s * r.s, a.c0 * a.c0 + a.c1 * a.c1, p)
    ensures Square(if r.chi == 1 then Elem(r.t, r.x1) else Elem(r.x1, r.t), p) == a
  {
    DivModIs(r.d, 0, r.d, p);
    RealPart(a.c0, a.c1, r.d, r.s, r.w, r.chi, r.t, r.x1, p);
    CrossTerm(a.c1, r.d, r.w, r.chi, r.t, r.x1, p);
    if r.chi == 1 {
      SquaresTo(Elem(r.t, r.x1), a, p);
    } else {
      FlipSign(r.chi, r.t * r.t - r.x1 * r.x1, a.c0, p);
      assert r.x1 * r.t == r.t * r.x1;
      SquaresTo(Elem(r.x1, r.t), a, p);
    }
  }

  lemma TraceRange(a: Elem, p: int)
    requires p >= 3
    ensures var r := SqrtTrace(a, p); r.s < p && r.delta < p && r.d < p && r.w < p && r.chi < p && r.t < p && r.x1 < p
  {
  }

  lemma FlipSign(chi: int, v: int, a0: int, p: int)
    requires chi == p - 1 && Cong(chi * v, a0, p)
    ensures Cong(-v, a0, p)
  {
    assert (p - 1) * v == v * p - v;
    CongBy(-v, chi * v, p, -v);
    assert (-v) * p == -(v * p);
    CongTrans(-v, chi * v, a0, p);
  }

  lemma SquaresTo(c: Elem, a: Elem, p: int)
    requires p > 0 && In(c, p) && In(a, p)
    requires Cong(c.c0 * c.c0 - c.c1 * c.c1, a.c0, p) && Cong(2 * (c.c0 * c.c1), a.c1, p)
    ensures Square(c, p) == a
  {
    SquareIs(c, p);
    var q := Square(c, p);
    CongTrans(q.c0, c.c0 * c.c0 - c.c1 * c.c1, a.c0, p);
    CongTrans(q.c1, 2 * (c.c0 * c.c1), a.c1, p);
    CongUnique(q.c0, a.c0, p);
    CongUnique(q.c1, a.c1, p);
  }

  /** `delta = 0` leaves the subfield: `a1 = 0` and `s = -a0`. */
  lemma SpecialShape(a: Elem, s: nat, p: int)
    requires Field(p) && In(a, p) && Cong(0, a.c0 + s, p) && Cong(s * s, a.c0 * a.c0 + a.c1 * a.c1, p)
    ensures a.c1 == 0 && Cong(0 - s, a.c0, p)
  {
    var x, y := a.c0, a.c1;
    var k := CongWitness(0, x + s, p);
    assert 0 - s == x + k * p;
    CongBy(0 - s, x, p, k);
    CongMul(0 - s, x, 0 - s, x, p);
    assert (0 - s) * (0 - s) == s * s;
    CongSub(s * s, x * x + y * y, s * s, x * x, p);
    CongSym(0, y * y, p);
    PrimeDividesProduct(p, y, y);
    DivModIs(y, 0, y, p);
  }

  /** The character of `s`, a quarter power of a square, is one. */
  lemma RootCharacter(n: nat, s: nat, p: int)
    requires Field(p) && s == PowMod(n, (p + 1) / 4, p) && Cong(Pow(n, (p - 1) / 2), 1, p)
    ensures Cong(Pow(s, (p - 1) / 2), 1, p)
  {
    var e, h := (p + 1) / 4, (p - 1) / 2;
    CongMod(Pow(n, e), p);
    CongPow(s, Pow(n, e), h, p);
    PowMul(n, e, h);
    PowMul(n, h, e);
    assert e * h == h * e;
    CongPow(Pow(n, h), 1, e, p);
    PowOne(e);
    CongTrans(Pow(s, h), Pow(n, e * h), 1, p);
  }

  lemma ZeroFromDouble(x: nat, w: int, p: int)
    requires Field(p) && x < p && Cong(2 * x, 0 * w, p)
    ensures x == 0
  {
    PrimeDividesProduct(p, 2, x);
    DivModIs(2, 0, 2, p);
    DivModIs(x, 0, x, p);
  }

  /** `t·u` squares to `-t^2`. */
  lemma SpecialSquares(a: Elem, t: nat, s: nat, p: int)
    requires p > 0 && In(a, p) && a.c1 == 0 && t < p && Cong(t * t, s, p) && Cong(0 - s, a.c0, p)
    ensures Square(Elem(0, t), p) == a
  {
    CongSelf(0, p);
    CongSub(0, 0, t * t, s, p);
    CongTrans(0 * 0 - t * t, 0 - s, a.c0, p);
    SquaresTo(Elem(0, t), a, p);
  }

  lemma SpecialT(r: Trace, p: int)
    requires Field(p) && r.d == r.s < p && r.chi < p && r.t < p && r.w == PowMod(r.d, (3 * p - 5) / 4, p)
    requires Cong(r.t, r.chi * r.d * r.w, p) && Cong(r.d * (r.w * r.w), r.chi, p)
    requires r.s > 0 ==> Cong(Pow(r.s, (p - 1) / 2), 1, p)
    ensures Cong(r.t * r.t, r.s, p)
  {
    if r.s == 0 {
      ZeroT(r.t, r.chi, r.w, p);
    } else {
      CharacterSign(r.d, r.w, r.chi, p);
      TSquared(r.d, r.w, r.chi, r.t, p);
    }
  }

  lemma ZeroT(t: nat, chi: int, w: int, p: int)
    requires t < p && Cong(t, chi * 0 * w, p)
    ensures Cong(t * t, 0, p)
  {
    CongScale(t, 0, t, p);
  }

  /** `delta = 0`: the second shape, with `s` in place of `delta`. */
  lemma SpecialRoot(a: Elem, p: int, n: nat)
    requires Field(p) && In(a, p) && n == Norm(a, p) && (n % p != 0 ==> Cong(Pow(n, (p - 1) / 2), 1, p))
    requires var r := SqrtTrace(a, p); r.delta == 0 && Cong(r.s * r.s, n, p)
    ensures Sqrt(a, p).Some?
  {
    var r := SqrtTrace(a, p);
    TraceIs(a, p);
    TraceRange(a, p);
    NormIs(a, p);
    CongTrans(r.s * r.s, n, a.c0 * a.c0 + a.c1 * a.c1, p);
    SpecialShape(a, r.s, p);
    ZeroFromDouble(r.x1, r.w, p);
    if r.s > 0 {
      SquareNonzero(r.s, n, p);
      RootCharacter(n, r.s, p);
    }
    SpecialT(r, p);
    SpecialSquares(a, r.t, r.s, p);
  }

  lemma SquareNonzero(s: nat, n: nat, p: int)
    requires Field(p) && 0 < s < p && Cong(s * s, n, p)
    ensures n % p != 0
  {
    if n % p == 0 {
      DivModIs(0, 0, 0, p);
      CongIsMod(n, 0, p);
      CongTrans(s * s, n, 0, p);
      DivModIs(s, 0, s, p);
      PrimeDividesProduct(p, s, s);
    }
  }

  /** A square has its root found. */
  lemma SqrtComplete(a: Elem, z: Elem, p: int)
    requires Field(p) && In(a, p) && In(z, p) && Square(z, p) == a
    ensures Sqrt(a, p).Some?
  {
    var r, n := z.c0 * z.c0 + z.c1 * z.c1, Norm(a, p);
    NormOfSquare(z, a, p);
    NormRoot(n, r, p);
    SquarePower(n, r, p);
    var delta := SqrtTrace(a, p).delta;
    if delta == 0 { SpecialRoot(a, p, n); } else { RegularRoot(a, p); }
  }

  /** What is returned is a root. */
  lemma SqrtSound(a: Elem, p: int)
    requires Field(p) && Sqrt(a, p).Some?
    ensures var z := Sqrt(a, p).value; In(z, p) && Square(z, p) == a
  {
    TraceRange(a, p);
  }

  /** A root is returned exactly for the squares, and it is a root. */
  lemma SqrtExact(a: Elem, p: int)
    requires Field(p) && In(a, p)
    ensures Sqrt(a, p).Some? <==> IsSquare(a, p)
    ensures Sqrt(a, p).Some? ==> In(Sqrt(a, p).value, p) && Mul(Sqrt(a, p).value, Sqrt(a, p).value, p) == a
  {
    if Sqrt(a, p).Some? {
      SqrtSound(a, p);
      SquareIsMul(Sqrt(a, p).value, p);
    }
    if IsSquare(a, p) {
      var z: Elem :| In(z, p) && Square(z, p) == a;
      SqrtComplete(a, z, p);
    }
  }
}
