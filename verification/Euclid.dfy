/** Extended Euclid with sign-magnitude coefficients. */
module Euclid {
  import opened Arith
  import opened Limbs
  import opened LimbOps
  import opened Gcd
  import opened BinaryGcd
  import opened UintOps
  import opened LongDivide
  import opened ModInverse
  import opened Options

  /** A sign-magnitude integer. */
  function Signed(mag: nat, neg: bool): int { if neg then -(mag as int) else mag }

  /** `(±a) - (±b)` in sign-magnitude, additions wrapping at `w`. */
  function SignedSub(a: nat, an: bool, b: nat, bn: bool, w: nat): (nat, bool)
    requires w > 0
  {
    if an == bn then
      if a >= b then (a - b, an) else (b - a, !an)
    else ((a + b) % w, an)
  }

  /** With opposite signs, or a zero, the magnitudes add, and the difference is exact if they fit. */
  lemma SignedSubIs(a: nat, an: bool, b: nat, bn: bool, w: nat)
    requires a + b < w && (a == 0 || b == 0 || an != bn)
    ensures var r := SignedSub(a, an, b, bn, w);
            Signed(r.0, r.1) == Signed(a, an) - Signed(b, bn) && r.0 == a + b
    ensures var r := SignedSub(a, an, b, bn, w);
            a != 0 ==> r.1 == an
    ensures var r := SignedSub(a, an, b, bn, w);
            a == 0 && b != 0 ==> r.1 == !bn
    ensures var r := SignedSub(a, an, b, bn, w);
            r.0 == 0 && !an && !bn ==> !r.1
  {
    if an != bn { DivModIs(a + b, 0, a + b, w); }
  }

  /**
   * Remainders and Bezout coefficients: congruences, the conserved sum `r·|s'| + r'·|s|`, the
   * common divisors, and coefficients of alternating sign.
   */
  ghost predicate Bezout(a: nat, m: nat, r0: nat, r: nat, s0: nat, n0: bool, s: nat, n: bool) {
    && Cong(Signed(s0, n0) * a, r0, m) && Cong(Signed(s, n) * a, r, m)
    && r * s0 + r0 * s == m
    && SameCommon(r0, r, a, m)
    && (s0 == 0 || s == 0 || n0 != n) && (n0 ==> s0 > 0) && (n ==> s > 0)
  }

  /** Before the first division, or after one: then the coefficient to return is at most half `m`. */
  ghost predicate Reach(m: nat, r0: nat, r: nat, s0: nat, n0: bool, s: nat) {
    || (r == m && s0 == 1 && !n0 && s == 0)
    || (r0 > r && (s0 == 0 || 2 * s0 <= m))
  }

  /** The next coefficient is exact and at most `m`. */
  lemma NoOverflow(m: nat, r0: nat, r: nat, s0: nat, s: nat)
    requires r > 0 && r * s0 + r0 * s == m
    ensures s0 + (r0 / r) * s <= m && (r0 / r) * s >= 0
    ensures (r0 % r) * s + r * (s0 + (r0 / r) * s) == m
  {
    var q, e := r0 / r, r0 % r;
    DivNonNegative(r0, r);
    MulNonNegative(q, s);
    assert r0 == r * q + e;
    assert (r * q + e) * s == r * (q * s) + e * s;
    assert r * (s0 + q * s) == r * s0 + r * (q * s);
    MulNonNegative(e, s);
    MulMono(1, r, s0 + q * s);
    assert r * (s0 + q * s) == (s0 + q * s) * r;
  }

  lemma DivisionKeepsCong(a: int, m: int, r0: int, r: int, x0: int, x: int, q: int)
    requires Cong(x0 * a, r0, m) && Cong(x * a, r, m)
    ensures Cong((x0 - q * x) * a, r0 - q * r, m)
  {
    CongScale(x * a, r, q, m);
    CongSub(x0 * a, r0, q * (x * a), q * r, m);
    assert (x0 - q * x) * a == x0 * a - q * (x * a);
  }

  lemma DivisionKeepsCommon(a: int, m: int, r0: nat, r: nat)
    requires r > 0 && SameCommon(r0, r, a, m)
    ensures SameCommon(r, r0 % r, a, m)
  {
    var q := r0 / r;
    assert r0 + (-q) * r == r0 % r by { assert r0 == r * q + r0 % r; assert (-q) * r == -(r * q); }
    CommonAdd(r0, r, -q);
    CommonSwap(r0 % r, r);
    SameCommonTrans(r, r0 % r, r0, r, a, m);
  }

  lemma SignedScale(s: nat, n: bool, q: nat)
    ensures q * s >= 0 && Signed(q * s, n) == q * Signed(s, n)
  {
    MulNonNegative(q, s);
    if n { assert q * (-(s as int)) == -(q * s); }
  }

  /** One division keeps everything. */
  lemma DivisionKeeps(a: nat, m: nat, r0: nat, r: nat, s0: nat, n0: bool, s: nat, n: bool, w: nat)
    requires r > 0 && m < w && Bezout(a, m, r0, r, s0, n0, s, n)
    ensures (r0 / r) * s >= 0 && (r0 / r) * s % w == (r0 / r) * s
    ensures var t := SignedSub(s0, n0, (r0 / r) * s, n, w);
            Bezout(a, m, r, r0 % r, s, n, t.0, t.1)
  {
    var q := r0 / r;
    DivNonNegative(r0, r);
    NoOverflow(m, r0, r, s0, s);
    DivModIs(q * s, 0, q * s, w);
    SignedScale(s, n, q);
    if s0 != 0 && q * s != 0 { assert s != 0; }
    SignedSubIs(s0, n0, q * s, n, w);
    DivisionKeepsCong(a, m, r0, r, Signed(s0, n0), Signed(s, n), q);
    assert r0 - q * r == r0 % r by { assert r0 == r * q + r0 % r; }
    DivisionKeepsCommon(a, m, r0, r);
    NextSigns(s0, n0, s, n, q, w);
    assert (r0 % r) * s + r * (s0 + q * s) == m;
  }

  lemma NextSigns(s0: nat, n0: bool, s: nat, n: bool, q: nat, w: nat)
    requires q * s >= 0 && s0 + q * s < w && (s0 == 0 || s == 0 || n0 != n) && (n0 ==> s0 > 0) && (n ==> s > 0)
    ensures var t := SignedSub(s0, n0, q * s, n, w);
            (s == 0 || t.0 == 0 || n != t.1) && (t.1 ==> t.0 > 0)
  {
    assert s == 0 ==> q * s == 0;
    SignedSubIs(s0, n0, q * s, n, w);
  }

  lemma ReachNext(m: nat, r0: nat, r: nat, s0: nat, n0: bool, s: nat, e: nat, t: nat)
    requires r > e && r * s0 + r0 * s == m && Reach(m, r0, r, s0, n0, s)
    ensures Reach(m, r, e, s, false, t)
  {
    if s > 0 {
      assert r0 >= 2;
      MulMono(2, r0, s);
      MulNonNegative(r, s0);
    }
  }

  /** The loop variables: two remainders, and the coefficient of each. */
  datatype Rows = Rows(r0: nat, r: nat, s0: nat, n0: bool, s: nat, n: bool)

  ghost predicate EuclidInv(x: Rows, a: nat, m: nat) {
    Bezout(a, m, x.r0, x.r, x.s0, x.n0, x.s, x.n) && Reach(m, x.r0, x.r, x.s0, x.n0, x.s)
  }

  /** One division, with the coefficient product cut to the word `w`. */
  function Divide(x: Rows, w: nat): Rows
    requires x.r > 0 && w > 0
  {
    var t := SignedSub(x.s0, x.n0, (x.r0 / x.r) * x.s % w, x.n, w);
    Rows(x.r, x.r0 % x.r, x.s, x.n, t.0, t.1)
  }

  lemma DivideKeeps(x: Rows, a: nat, m: nat, w: nat)
    requires x.r > 0 && m < w && EuclidInv(x, a, m)
    ensures EuclidInv(Divide(x, w), a, m)
  {
    DivisionKeeps(a, m, x.r0, x.r, x.s0, x.n0, x.s, x.n, w);
    ReachNext(m, x.r0, x.r, x.s0, x.n0, x.s, x.r0 % x.r, Divide(x, w).s);
  }

  lemma EuclidStart(a: nat, m: nat)
    requires m > 0
    ensures Bezout(a, m, a % m, m, 1, false, 0, false)
  {
    var q := a / m;
    assert a % m + q * m == a by { assert q * m == m * q; }
    CommonAdd(a % m, m, q);
    CommonSwap(a % m, m);
    CongMod(a, m);
    CongSym(a % m, a, m);
    assert 1 * a == a && 0 * a == 0;
    CongBy(0, m, m, -1);
  }

  /** Once the remainder is zero: the gcd, the coefficient returned, and the last one formed. */
  lemma EuclidEnd(a: nat, m: nat, r0: nat, s0: nat, n0: bool, s: nat, n: bool)
    requires m > 0 && Bezout(a, m, r0, 0, s0, n0, s, n) && Reach(m, r0, 0, s0, n0, s)
    ensures r0 == GcdOf(a, m) && s0 < m && r0 * s == m && (s == m <==> GcdOf(a, m) == 1)
    ensures r0 == 1 ==> var x := if n0 then m - s0 else s0; 0 <= x < m && Cong(x * a, 1, m)
  {
    CommonSwap(r0, 0);
    SameCommonTrans(0, r0, r0, 0, a, m);
    ExhaustedGcd(r0, a, m);
    CofactorWhole(r0, s, m);
    if r0 == 1 && n0 {
      assert (m - s0) * a == (0 - s0) * a + a * m;
      CongBy((m - s0) * a, (0 - s0) * a, m, a);
      CongTrans((m - s0) * a, (0 - s0) * a, 1, m);
    }
  }

  lemma CofactorWhole(g: nat, s: nat, m: nat)
    requires g * s == m && m > 0
    ensures s <= m && (s == m <==> g == 1)
  {
    if g >= 2 {
      MulMono(2, g, s);
    }
  }

  // ------------------------------------- how large the coefficients grow

  /** The state before the first division. */
  function Start(a: nat, m: nat): Rows
    requires m > 0
  {
    Rows(a % m, m, 1, false, 0, false)
  }

  /** The magnitudes of the coefficients formed, one for each division left. */
  ghost function Coefficients(x: Rows, w: nat): seq<nat>
    requires w > 0
    decreases x.r
  {
    if x.r == 0 then [] else [Divide(x, w).s] + Coefficients(Divide(x, w), w)
  }

  /** The products of quotient and coefficient, before they are cut to the word. */
  ghost function Products(x: Rows, w: nat): seq<int>
    requires w > 0
    decreases x.r
  {
    if x.r == 0 then [] else [(x.r0 / x.r) * x.s] + Products(Divide(x, w), w)
  }

  ghost predicate AllBelow(xs: seq<int>, m: int) {
    forall i :: 0 <= i < |xs| ==> xs[i] < m
  }

  /** A division adds its product to the older magnitude. */
  lemma DivideMagnitude(x: Rows, a: nat, m: nat, w: nat)
    requires x.r > 0 && m < w && EuclidInv(x, a, m)
    ensures Divide(x, w).s == x.s0 + (x.r0 / x.r) * x.s <= m
  {
    DivisionKeeps(a, m, x.r0, x.r, x.s0, x.n0, x.s, x.n, w);
    NoOverflow(m, x.r0, x.r, x.s0, x.s);
    if x.s == 0 { assert (x.r0 / x.r) * x.s == 0; }
    SignedSubIs(x.s0, x.n0, (x.r0 / x.r) * x.s, x.n, w);
  }

  /** Every coefficient but the last is below `m`, and the last times the gcd is `m`. */
  lemma {:induction false} CoefficientsEnd(x: Rows, a: nat, m: nat, w: nat)
    requires x.r > 0 && 0 < m < w && EuclidInv(x, a, m)
    ensures var cs := Coefficients(x, w);
            |cs| > 0 && AllBelow(cs[..|cs| - 1], m) && GcdOf(a, m) * cs[|cs| - 1] == m
    decreases x.r
  {
    var y := Divide(x, w);
    DivideKeeps(x, a, m, w);
    if y.r == 0 {
      EuclidEnd(a, m, y.r0, y.s0, y.n0, y.s, y.n);
    } else {
      CoefficientsEnd(y, a, m, w);
      InnerCoefficient(m, y.r0, y.r, y.s0, y.s);
      var cs := Coefficients(y, w);
      assert Coefficients(x, w)[..|cs|] == [y.s] + cs[..|cs| - 1];
    }
  }

  lemma InnerCoefficient(m: nat, r0: nat, r: nat, s0: nat, s: nat)
    requires 0 < r < r0 && r * s0 + r0 * s == m && m > 0
    ensures s < m
  {
    MulNonNegative(r, s0);
    MulMono(2, r0, s);
  }

  /**
   * The magnitudes, the two initial ones included, all stay below `m` exactly when `a` and `m` are
   * not coprime: for every inverse computed, the last coefficient formed is `m`.
   */
  lemma CoefficientsBelow(a: nat, m: nat, w: nat)
    requires 0 < m < w
    ensures AllBelow([1, 0] + Coefficients(Start(a, m), w), m) <==> GcdOf(a, m) != 1
  {
    EuclidStart(a, m);
    CoefficientsEnd(Start(a, m), a, m, w);
    var cs: seq<int> := Coefficients(Start(a, m), w);
    var last := |cs| - 1;
    CofactorWhole(GcdOf(a, m), cs[last], m);
    assert ([1, 0] + cs)[2 + last] == cs[last];
    if GcdOf(a, m) != 1 {
      assert cs == cs[..last] + [cs[last]];
    }
  }

  /** From the third division on, the product is at least one below the coefficient it forms. */
  lemma {:induction false} LaterProducts(x: Rows, a: nat, m: nat, w: nat)
    requires 0 < m < w && EuclidInv(x, a, m) && x.s0 >= 1 && x.s >= 1
    ensures AllBelow(Products(x, w), m)
    decreases x.r
  {
    if x.r > 0 {
      DivideKeeps(x, a, m, w);
      DivideMagnitude(x, a, m, w);
      DivNonNegative(x.r0, x.r);
      MulNonNegative(x.r0 / x.r, x.s);
      LaterProducts(Divide(x, w), a, m, w);
    }
  }

  /** The products all stay below `m` exactly when `a mod m` is not one; then the second one is `m`. */
  lemma ProductsBelow(a: nat, m: nat, w: nat)
    requires 0 < m < w
    ensures AllBelow(Products(Start(a, m), w), m) <==> a % m != 1
  {
    var x := Start(a, m);
    EuclidStart(a, m);
    DivideKeeps(x, a, m, w);
    FirstDivision(a, m, w);
    var y := Divide(x, w);
    assert Products(x, w) == [0] + Products(y, w);
    if y.r > 0 {
      SecondProduct(m, y.r);
      DivideKeeps(y, a, m, w);
      DivideMagnitude(y, a, m, w);
      var z := Divide(y, w);
      assert Products(x, w) == [0, m / y.r] + Products(z, w);
      assert Products(x, w)[1] == m / y.r;
      if y.r > 1 { LaterProducts(z, a, m, w); }
    } else {
      assert Products(y, w) == [];
    }
  }

  lemma FirstDivision(a: nat, m: nat, w: nat)
    requires 0 < m < w
    ensures Divide(Start(a, m), w) == Rows(m, a % m, 0, false, 1, false)
    ensures ((a % m) / m) * 0 == 0
  {
    DivModIs(a % m, 0, a % m, m);
    DivModIs(0, 0, 0, w);
  }

  lemma SecondProduct(m: nat, r: nat)
    requires 0 < r < m
    ensures m / r >= 1 && (m / r < m <==> r != 1)
  {
    var q := m / r;
    assert m == r * q + m % r;
    if q <= 0 { MulMono(q, 0, r); }
    if r >= 2 { MulMono(2, r, q); }
  }

  lemma DivideAt(x: Rows, q: nat, r: nat, w: nat)
    requires x.r0 == q * x.r + r && r < x.r && x.s0 + q * x.s < w
    ensures x.r0 / x.r == q
    ensures var t := if x.n0 == x.n then x.s0 - q * x.s else x.s0 + q * x.s;
            Divide(x, w) == Rows(x.r, r, x.s, x.n, if t < 0 then -t else t, x.n0 != (t < 0))
  {
    DivModIs(x.r0, q, r, x.r);
    MulNonNegative(q, x.s);
    DivModIs(q * x.s, 0, q * x.s, w);
    DivModIs(x.s0 + q * x.s, 0, x.s0 + q * x.s, w);
  }

  /** The inverse of two modulo five ends at five. */
  lemma CoprimeExample(w: nat)
    requires w > 5
    ensures Coefficients(Start(2, 5), w) == [1, 2, 5]
  {
    DivideAt(Rows(2, 5, 1, false, 0, false), 0, 2, w);
    DivideAt(Rows(5, 2, 0, false, 1, false), 2, 1, w);
    DivideAt(Rows(2, 1, 1, false, 2, true), 2, 0, w);
    assert Coefficients(Rows(1, 0, 2, true, 5, false), w) == [];
    assert Coefficients(Rows(2, 1, 1, false, 2, true), w) == [5];
    assert Coefficients(Rows(5, 2, 0, false, 1, false), w) == [2, 5];
  }

  /** Two and four share a factor, and the coefficients stop at two. */
  lemma CommonFactorExample(w: nat)
    requires w > 4
    ensures Coefficients(Start(2, 4), w) == [1, 2]
  {
    DivideAt(Rows(2, 4, 1, false, 0, false), 0, 2, w);
    DivideAt(Rows(4, 2, 0, false, 1, false), 2, 0, w);
    assert Coefficients(Rows(2, 0, 1, false, 2, true), w) == [];
    assert Coefficients(Rows(4, 2, 0, false, 1, false), w) == [2];
  }

  /** One modulo three forms the product three. */
  lemma ProductExample(w: nat)
    requires w > 3
    ensures Products(Start(1, 3), w) == [0, 3]
  {
    DivideAt(Rows(1, 3, 1, false, 0, false), 0, 1, w);
    DivideAt(Rows(3, 1, 0, false, 1, false), 3, 0, w);
    assert Products(Rows(1, 0, 1, false, 3, true), w) == [];
    assert Products(Rows(3, 1, 0, false, 1, false), w) == [3];
  }

  // ------------------------------------------------------------ on limbs

  /** The loop variables as limbs. */
  datatype LimbRows = LimbRows(r0: seq<Limb>, r: seq<Limb>, s0: seq<Limb>, n0: bool, s: seq<Limb>, n: bool)

  ghost function RowsOf(x: LimbRows): Rows { Rows(Nat(x.r0), Nat(x.r), Nat(x.s0), x.n0, Nat(x.s), x.n) }

  ghost predicate RowsWide(x: LimbRows, n: nat) { |x.r0| == |x.r| == |x.s0| == |x.s| == n }

  /** Sign-magnitude subtraction on fixed-width limbs. */
  method SignedSubFixed(a: seq<Limb>, an: bool, b: seq<Limb>, bn: bool) returns (mag: seq<Limb>, neg: bool)
    requires |a| == |b|
    ensures |mag| == |a| && Pow(B, |a|) > 0 && (Nat(mag), neg) == SignedSub(Nat(a), an, Nat(b), bn, Pow(B, |a|))
  {
    if an == bn {
      var less;
      mag, less := WrappingSub(a, b);
      neg := an;
      if less {
        mag, less := WrappingSub(b, a);
        neg := !an;
      }
    } else {
      mag := WrappingAdd(a, b);
      neg := an;
    }
  }

  /** One division on fixed-width limbs. */
  method DivideFixed(x: LimbRows, n: nat) returns (y: LimbRows)
    requires RowsWide(x, n) && n >= 1 && Nat(x.r) > 0
    ensures RowsWide(y, n) && Pow(B, n) > 0 && RowsOf(y) == Divide(RowsOf(x), Pow(B, n))
  {
    var q, rem := DivRemFixed(x.r0, x.r);
    var qs, _ := MulWide(q, x.s);
    var s, neg := SignedSubFixed(x.s0, x.n0, qs, x.n);
    y := LimbRows(x.r, rem, x.s, x.n, s, neg);
  }

  /**
   * `a^-1 mod m` for any modulus, none when an argument is zero or they are not coprime; the
   * intermediate products and sums never leave the width.
   */
  method InvMod(a: seq<Limb>, m: seq<Limb>) returns (res: Option<seq<Limb>>)
    requires |a| == |m| >= 1
    ensures Nat(a) == 0 || Nat(m) == 0 ==> res.None?
    ensures Nat(a) > 0 && Nat(m) > 0 ==> IsInverseLimbs(res, Nat(a), Nat(m), |m|)
  {
    if Nat(a) == 0 || Nat(m) == 0 { return None; }
    var n := |m|;
    var _, rem := DivRemFixed(a, m);
    var one: seq<Limb>, zero: seq<Limb> := Resized([1], n), seq(n, _ => 0);
    assert Nat([1]) == 1 by { assert Val(B, [1], 1) == Val(B, [1], 0) + 1 * Pow(B, 0); }
    ValZeroTail(B, zero, 0, n);
    var x := LimbRows(rem, m, one, false, zero, false);
    EuclidStart(Nat(a), Nat(m));
    while Nat(x.r) > 0
      invariant RowsWide(x, n) && EuclidInv(RowsOf(x), Nat(a), Nat(m))
      decreases Nat(x.r)
    {
      DivideKeeps(RowsOf(x), Nat(a), Nat(m), Pow(B, n));
      x := DivideFixed(x, n);
    }
    EuclidEnd(Nat(a), Nat(m), Nat(x.r0), Nat(x.s0), x.n0, Nat(x.s), x.n);
    if Nat(x.r0) != 1 { return None; }
    if x.n0 {
      var d, _ := WrappingSub(m, x.s0);
      res := Some(d);
    } else {
      res := Some(x.s0);
    }
  }

  /** Sign-magnitude subtraction at growing widths: exact, so the same for every word that fits. */
  method SignedSubBoxed(a: seq<Limb>, an: bool, b: seq<Limb>, bn: bool, ghost w: nat)
    returns (mag: seq<Limb>, neg: bool)
    requires Nat(a) + Nat(b) < w
    ensures (Nat(mag), neg) == SignedSub(Nat(a), an, Nat(b), bn, w)
  {
    if an == bn {
      var less;
      mag, less := Sub(a, b);
      neg := an;
      if less {
        mag, less := Sub(b, a);
        neg := !an;
      }
    } else {
      mag := Add(a, b);
      neg := an;
      DivModIs(Nat(a) + Nat(b), 0, Nat(a) + Nat(b), w);
    }
  }

  /** One division at growing widths, the new coefficient trimmed to `n` limbs: nothing is lost. */
  method DivideBoxed(x: LimbRows, n: nat, ghost a: nat, ghost m: nat) returns (y: LimbRows)
    requires |x.r| >= 1 && Nat(x.r) > 0 && m < Pow(B, n) && EuclidInv(RowsOf(x), a, m)
    ensures |y.s| == n && |y.r0| >= 1 && Pow(B, n) > 0 && RowsOf(y) == Divide(RowsOf(x), Pow(B, n))
  {
    ghost var v, w := RowsOf(x), Pow(B, n);
    var q, rem := DivRem(x.r0, x.r);
    var qs := Multiply(q, x.s);
    DivideMagnitude(v, a, m, w);
    NoOverflow(m, v.r0, v.r, v.s0, v.s);
    DivModIs(Nat(qs), 0, Nat(qs), w);
    var s, neg := SignedSubBoxed(x.s0, x.n0, qs, x.n, w);
    DivModIs(Nat(s), 0, Nat(s), w);
    y := LimbRows(x.r, rem, x.s, x.n, Resized(s, n), neg);
  }

  /** The runtime-sized form, for operands of any widths. */
  method InvModBoxed(a: seq<Limb>, m: seq<Limb>) returns (res: Option<seq<Limb>>)
    ensures Nat(a) == 0 || Nat(m) == 0 ==> res.None?
    ensures Nat(a) > 0 && Nat(m) > 0 ==> IsInverse(ValueOf(res), Nat(a), Nat(m))
    ensures res.Some? ==> |res.value| <= |m|
  {
    if Nat(a) == 0 || Nat(m) == 0 { return None; }
    var n := |m|;
    var _, rem := DivRem(a, m);
    var zero: seq<Limb> := seq(n, _ => 0);
    assert Nat([1]) == 1 by { assert Val(B, [1], 1) == Val(B, [1], 0) + 1 * Pow(B, 0); }
    ValZeroTail(B, zero, 0, n);
    var x := LimbRows(rem, m, [1], false, zero, false);
    EuclidStart(Nat(a), Nat(m));
    while Nat(x.r) > 0
      invariant EuclidInv(RowsOf(x), Nat(a), Nat(m))
      decreases Nat(x.r)
    {
      DivideKeeps(RowsOf(x), Nat(a), Nat(m), Pow(B, n));
      x := DivideBoxed(x, n, Nat(a), Nat(m));
    }
    EuclidEnd(Nat(a), Nat(m), Nat(x.r0), Nat(x.s0), x.n0, Nat(x.s), x.n);
    if Nat(x.r0) != 1 { return None; }
    var d := x.s0;
    if x.n0 {
      var diff, _ := Sub(m, x.s0);
      d := diff;
    }
    var _, r := DivRem(d, m);
    DivModIs(Nat(d), 0, Nat(d), Nat(m));
    res := Some(r);
  }
}
