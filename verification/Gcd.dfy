/** Divisibility and greatest common divisors. */
module Gcd {
  import opened Arith

  /** `d` divides `x`. */
  ghost predicate Divides(d: int, x: int) { exists k: int :: x == Times(k, d) }

  lemma DividesBy(d: int, x: int, k: int)
    requires x == k * d
    ensures Divides(d, x)
  {
    assert x == Times(k, d);
  }

  ghost function Quotient(d: int, x: int): (k: int)
    requires Divides(d, x)
    ensures x == k * d
  {
    var k :| x == Times(k, d);
    k
  }

  /** Common divisors pass to integer combinations. */
  lemma DividesCombination(d: int, x: int, y: int, a: int, b: int)
    requires Divides(d, x) && Divides(d, y)
    ensures Divides(d, a * x + b * y)
  {
    var k, l := Quotient(d, x), Quotient(d, y);
    assert a * (k * d) + b * (l * d) == (a * k + b * l) * d;
    DividesBy(d, a * x + b * y, a * k + b * l);
  }

  lemma DividesTrans(d: int, e: int, x: int)
    requires Divides(d, e) && Divides(e, x)
    ensures Divides(d, x)
  {
    var k, l := Quotient(d, e), Quotient(e, x);
    assert l * (k * d) == (l * k) * d;
    DividesBy(d, x, l * k);
  }

  lemma DividesBound(d: int, x: int)
    requires Divides(d, x) && x > 0
    ensures d <= x
  {
    var k := Quotient(d, x);
    if d > x {
      if k >= 1 { MulMono(1, k, d); } else { MulMono(k, 0, d); }
    }
  }

  /** A divisor of an odd number that divides `2x` divides `x`. */
  lemma OddHalf(d: int, f: int, x: int)
    requires f % 2 == 1 && Divides(d, f) && Divides(d, 2 * x)
    ensures Divides(d, x)
  {
    var k, j := Quotient(d, f), Quotient(d, 2 * x);
    ProductParity(k, d);
    ProductParity(j, d);
    assert j == 2 * (j / 2);
    assert j * d == 2 * ((j / 2) * d);
    DividesBy(d, x, j / 2);
  }

  lemma ProductParity(x: int, y: int)
    ensures (x * y) % 2 == 1 <==> x % 2 == 1 && y % 2 == 1
  {
    ParityAlgebra(x, y, x / 2, y / 2, x % 2, y % 2);
  }

  lemma ParityAlgebra(x: int, y: int, a: int, b: int, i: int, j: int)
    requires x == 2 * a + i && y == 2 * b + j && 0 <= i < 2 && 0 <= j < 2
    ensures (x * y) % 2 == 1 <==> i == 1 && j == 1
  {
    assert (2 * a + i) * (2 * b + j) == 2 * (2 * (a * b) + a * j + b * i) + i * j;
    assert i * j == if i == 1 && j == 1 then 1 else 0;
  }

  /** Euclid's greatest common divisor. */
  function GcdOf(a: nat, b: nat): (g: nat)
    decreases b
  {
    if b == 0 then a else GcdOf(b, a % b)
  }

  /** It divides both arguments, and it is an integer combination of them. */
  lemma {:induction false} GcdBezout(a: nat, b: nat) returns (x: int, y: int)
    ensures Divides(GcdOf(a, b), a) && Divides(GcdOf(a, b), b)
    ensures GcdOf(a, b) == x * a + y * b
    decreases b
  {
    if b == 0 {
      x, y := 1, 0;
      DividesBy(a, a, 1);
      DividesBy(a, b, 0);
    } else {
      var g := GcdOf(a, b);
      var u, v := GcdBezout(b, a % b);
      x, y := v, u - v * (a / b);
      EuclidStep(g, a, b, a / b, a % b, u, v);
    }
  }

  lemma EuclidStep(g: int, a: int, b: int, q: int, r: int, u: int, v: int)
    requires a == b * q + r && Divides(g, b) && Divides(g, r) && g == u * b + v * r
    ensures Divides(g, a) && g == v * a + (u - v * q) * b
  {
    DividesCombination(g, b, r, q, 1);
    assert q * b + 1 * r == a;
    assert v * (b * q + r) + (u - v * q) * b == u * b + v * r;
  }

  /** Every common divisor divides the greatest one. */
  lemma GcdGreatest(a: nat, b: nat, d: int)
    requires Divides(d, a) && Divides(d, b)
    ensures Divides(d, GcdOf(a, b))
  {
    var x, y := GcdBezout(a, b);
    DividesCombination(d, a, b, x, y);
  }

  /** A gcd characterised by its two properties. */
  lemma GcdIs(a: nat, b: nat, g: int)
    requires g > 0 && Divides(g, a) && Divides(g, b)
    requires forall d: int :: Divides(d, a) && Divides(d, b) ==> Divides(d, g)
    ensures GcdOf(a, b) == g
  {
    var x, y := GcdBezout(a, b);
    GcdGreatest(a, b, g);
    var h := GcdOf(a, b);
    assert Divides(h, g);
    if h == 0 {
      var k := Quotient(h, a);
      var l := Quotient(h, b);
      var j := Quotient(h, g);
    } else {
      DividesBound(g, h);
      DividesBound(h, g);
    }
  }

  /** Coprime numbers have an inverse, and only they do. */
  lemma CoprimeInverse(a: nat, m: nat) returns (x: int)
    requires m > 0
    ensures GcdOf(a, m) == 1 ==> Cong(x * a, 1, m)
  {
    var y: int;
    x, y := GcdBezout(a, m);
    if GcdOf(a, m) == 1 {
      CongBy(x * a, 1, m, -y);
      assert (-y) * m == -(y * m);
    }
  }

  lemma InverseCoprime(a: nat, m: nat, x: int)
    requires m > 0 && Cong(x * a, 1, m)
    ensures GcdOf(a, m) == 1
  {
    var g := GcdOf(a, m);
    var u, v := GcdBezout(a, m);
    var k := CongWitness(x * a, 1, m);
    DividesCombination(g, a, m, x, -k);
    assert x * a + (-k) * m == 1 by { assert (-k) * m == -(k * m); }
    DividesBound(g, 1);
  }

  /** Inverses modulo `m` are unique in `[0, m)`. */
  lemma InverseUnique(a: int, m: int, x: int, y: int)
    requires Cong(x * a, 1, m) && Cong(y * a, 1, m) && 0 <= x < m && 0 <= y < m
    ensures x == y
  {
    CongScale(y * a, 1, x, m);
    CongScale(x * a, 1, y, m);
    assert x * (y * a) == y * (x * a);
    CongSym(x * (y * a), x * 1, m);
    CongTrans(x, x * (y * a), y, m);
    CongUnique(x, y, m);
  }

  // ------------------------------------------------- steps that keep the gcd

  /** The two pairs have the same common divisors. */
  ghost predicate SameCommon(a: int, b: int, u: int, v: int) {
    forall d: int :: Divides(d, a) && Divides(d, b) <==> Divides(d, u) && Divides(d, v)
  }

  lemma SameCommonTrans(a: int, b: int, u: int, v: int, x: int, y: int)
    requires SameCommon(a, b, u, v) && SameCommon(u, v, x, y)
    ensures SameCommon(a, b, x, y)
  {
  }

  /** Then they have the same gcd. */
  lemma SameGcd(a: nat, b: nat, u: nat, v: nat)
    requires SameCommon(a, b, u, v) && b > 0
    ensures GcdOf(a, b) == GcdOf(u, v)
  {
    var g, h := GcdOf(a, b), GcdOf(u, v);
    var _, _ := GcdBezout(a, b);
    var _, _ := GcdBezout(u, v);
    assert Divides(g, u) && Divides(g, v);
    assert Divides(h, a) && Divides(h, b);
    GcdGreatest(u, v, g);
    GcdGreatest(a, b, h);
    GcdPositive(a, b);
    DividesBound(h, g);
    if h == 0 { DividesZero(h, g); } else { DividesBound(g, h); }
  }

  lemma DividesZero(d: int, x: int)
    requires d == 0 && Divides(d, x)
    ensures x == 0
  {
    var k := Quotient(d, x);
  }

  lemma GcdPositive(a: nat, b: nat)
    requires b > 0
    ensures GcdOf(a, b) > 0
  {
    var _, _ := GcdBezout(a, b);
    if GcdOf(a, b) == 0 { DividesZero(GcdOf(a, b), b); }
  }

  lemma CommonSwap(u: int, v: int)
    ensures SameCommon(u, v, v, u)
  {
  }

  /** Halving an even argument beside an odd one. */
  lemma CommonHalve(h: int, v: int)
    requires v % 2 == 1
    ensures SameCommon(2 * h, v, h, v) && SameCommon(v, 2 * h, v, h)
  {
    forall d: int ensures Divides(d, 2 * h) && Divides(d, v) <==> Divides(d, h) && Divides(d, v) {
      if Divides(d, 2 * h) && Divides(d, v) { OddHalf(d, v, h); }
      if Divides(d, h) && Divides(d, v) { DividesCombination(d, h, h, 1, 1); }
    }
  }

  /** Adding a multiple of one argument to the other. */
  lemma CommonAdd(u: int, v: int, k: int)
    ensures SameCommon(u, v, u + k * v, v) && SameCommon(v, u, v, u + k * v)
  {
    var w := u + k * v;
    assert w + (-k) * v == u;
    forall d: int ensures Divides(d, u) && Divides(d, v) <==> Divides(d, w) && Divides(d, v) {
      if Divides(d, u) && Divides(d, v) { DividesCombination(d, u, v, 1, k); }
      if Divides(d, w) && Divides(d, v) { DividesCombination(d, w, v, 1, -k); }
    }
  }
}
