/** Integer facts shared by every component: powers, congruences and remainders. */
module Arith {

  function Pow(b: int, e: nat): int {
    if e == 0 then 1 else b * Pow(b, e - 1)
  }

  lemma {:induction false} PowPositive(b: int, e: nat)
    requires b > 0
    ensures Pow(b, e) > 0
  {
    if e > 0 {
      PowPositive(b, e - 1);
      MulPositive(b, Pow(b, e - 1));
    }
  }

  lemma MulPositive(x: int, y: int)
    requires x > 0 && y > 0
    ensures x * y > 0
  {
  }

  lemma MulNonNegative(x: int, y: int)
    requires x >= 0 && y >= 0
    ensures x * y >= 0
  {
  }

  lemma MulMono(x: int, y: int, z: int)
    requires x <= y && z >= 0
    ensures x * z <= y * z
  {
    MulNonNegative(y - x, z);
    assert (y - x) * z == y * z - x * z;
  }

  lemma MulStrict(x: int, y: int, z: int)
    requires x < y && z > 0
    ensures x * z < y * z
  {
    MulPositive(y - x, z);
    assert (y - x) * z == y * z - x * z;
  }

  /** Cancelling a positive factor in an inequality. */
  lemma MulCancelLess(x: int, y: int, z: int)
    requires x * z < y * z && z > 0
    ensures x < y
  {
    if y <= x { MulMono(y, x, z); }
  }

  lemma MulCancelLeq(x: int, y: int, z: int)
    requires x * z <= y * z && z > 0
    ensures x <= y
  {
    if y < x { MulStrict(y, x, z); }
  }

  lemma MulCancel(x: int, y: int, z: int)
    requires x * z == y * z && z != 0
    ensures x == y
  {
    if z > 0 {
      MulCancelLeq(x, y, z);
      MulCancelLeq(y, x, z);
    } else {
      assert x * (-z) == y * (-z);
      MulCancelLeq(x, y, -z);
      MulCancelLeq(y, x, -z);
    }
  }

  lemma {:induction false} PowAdd(b: int, e: nat, f: nat)
    ensures Pow(b, e + f) == Pow(b, e) * Pow(b, f)
  {
    if e > 0 {
      PowAdd(b, e - 1, f);
      var x, y := Pow(b, e - 1), Pow(b, f);
      assert b * (x * y) == (b * x) * y;
    }
  }

  lemma {:induction false} PowMul(b: int, e: nat, f: nat)
    ensures Pow(Pow(b, e), f) == Pow(b, e * f)
    decreases f
  {
    if f == 0 {
      assert e * f == 0;
    } else {
      PowMul(b, e, f - 1);
      assert e * f == e + e * (f - 1);
      MulNonNegative(e, f - 1);
      PowAdd(b, e, e * (f - 1));
    }
  }

  lemma {:induction false} PowBase(a: int, b: int, e: nat)
    ensures Pow(a * b, e) == Pow(a, e) * Pow(b, e)
  {
    if e > 0 {
      PowBase(a, b, e - 1);
      MulSwap(a, b, Pow(a, e - 1), Pow(b, e - 1));
    }
  }

  lemma {:induction false} PowNonNegative(a: nat, e: nat)
    ensures Pow(a, e) >= 0
  {
    if e > 0 {
      PowNonNegative(a, e - 1);
      MulNonNegative(a, Pow(a, e - 1));
    }
  }

  lemma MulSwap(a: int, b: int, x: int, y: int)
    ensures (a * b) * (x * y) == (a * x) * (b * y)
  {
  }

  lemma {:induction false} PowMonotone(b: int, e: nat, f: nat)
    requires b >= 1 && e <= f
    ensures 1 <= Pow(b, e) <= Pow(b, f)
  {
    PowPositive(b, e);
    PowPositive(b, f - e);
    PowAdd(b, e, f - e);
    MulMono(1, Pow(b, f - e), Pow(b, e));
  }

  lemma {:induction false} PowOne(e: nat)
    ensures Pow(1, e) == 1
  {
    if e > 0 { PowOne(e - 1); }
  }

  // ------------------------------------------------------------ congruences

  /** The product as a term the solver can match a quantifier on. */
  function Times(k: int, n: int): int { k * n }

  /** `a` and `b` differ by a multiple of `n`. */
  ghost predicate Cong(a: int, b: int, n: int) {
    exists k: int :: a == b + Times(k, n)
  }

  lemma CongBy(a: int, b: int, n: int, k: int)
    requires a == b + k * n
    ensures Cong(a, b, n)
  {
    assert a == b + Times(k, n);
  }

  /** How many times `n` separates two congruent values. */
  ghost function CongWitness(a: int, b: int, n: int): (k: int)
    requires Cong(a, b, n)
    ensures a == b + k * n
  {
    var k :| a == b + Times(k, n);
    k
  }

  lemma CongSelf(a: int, n: int)
    ensures Cong(a, a, n)
  {
    CongBy(a, a, n, 0);
  }

  lemma CongSym(a: int, b: int, n: int)
    requires Cong(a, b, n)
    ensures Cong(b, a, n)
  {
    var k := CongWitness(a, b, n);
    CongBy(b, a, n, -k);
  }

  lemma CongTrans(a: int, b: int, c: int, n: int)
    requires Cong(a, b, n) && Cong(b, c, n)
    ensures Cong(a, c, n)
  {
    var k, l := CongWitness(a, b, n), CongWitness(b, c, n);
    assert k * n + l * n == (k + l) * n;
    CongBy(a, c, n, k + l);
  }

  lemma CongAdd(a: int, b: int, c: int, d: int, n: int)
    requires Cong(a, b, n) && Cong(c, d, n)
    ensures Cong(a + c, b + d, n)
  {
    var k, l := CongWitness(a, b, n), CongWitness(c, d, n);
    assert k * n + l * n == (k + l) * n;
    CongBy(a + c, b + d, n, k + l);
  }

  lemma CongSub(a: int, b: int, c: int, d: int, n: int)
    requires Cong(a, b, n) && Cong(c, d, n)
    ensures Cong(a - c, b - d, n)
  {
    var k, l := CongWitness(a, b, n), CongWitness(c, d, n);
    assert k * n - l * n == (k - l) * n;
    CongBy(a - c, b - d, n, k - l);
  }

  lemma CongMul(a: int, b: int, c: int, d: int, n: int)
    requires Cong(a, b, n) && Cong(c, d, n)
    ensures Cong(a * c, b * d, n)
  {
    var k, l := CongWitness(a, b, n), CongWitness(c, d, n);
    CongMulWitness(a, b, c, d, n, k, l);
    CongBy(a * c, b * d, n, b * l + k * d + k * l * n);
  }

  lemma CongMulWitness(a: int, b: int, c: int, d: int, n: int, k: int, l: int)
    requires a == b + k * n && c == d + l * n
    ensures a * c == b * d + (b * l + k * d + k * l * n) * n
  {
    assert a * c == (b + k * n) * (d + l * n);
  }

  lemma CongScale(a: int, b: int, c: int, n: int)
    requires Cong(a, b, n)
    ensures Cong(a * c, b * c, n) && Cong(c * a, c * b, n)
  {
    CongSelf(c, n);
    CongMul(a, b, c, c, n);
    assert a * c == c * a && b * c == c * b;
  }

  lemma {:induction false} CongPow(a: int, b: int, e: nat, n: int)
    requires Cong(a, b, n)
    ensures Cong(Pow(a, e), Pow(b, e), n)
  {
    if e == 0 {
      CongSelf(1, n);
    } else {
      CongPow(a, b, e - 1, n);
      CongMul(a, b, Pow(a, e - 1), Pow(b, e - 1), n);
    }
  }

  /** A remainder is congruent to its dividend. */
  lemma CongMod(a: int, n: int)
    requires n > 0
    ensures Cong(a % n, a, n)
    ensures 0 <= a % n < n
  {
    var q := a / n;
    assert a == n * q + a % n;
    assert (-q) * n == -(n * q);
    CongBy(a % n, a, n, -q);
  }

  /** Two residues in one complete system agree when they are congruent. */
  lemma CongUnique(a: int, b: int, n: int)
    requires Cong(a, b, n) && 0 <= a < n && 0 <= b < n
    ensures a == b
  {
    var k := CongWitness(a, b, n);
    if k >= 1 { MulMono(1, k, n); } else if k <= -1 { MulMono(k, -1, n); }
  }

  lemma CongIsMod(a: int, b: int, n: int)
    requires n > 0
    ensures Cong(a, b, n) <==> a % n == b % n
  {
    CongMod(a, n);
    CongMod(b, n);
    CongSym(b % n, b, n);
    CongSym(a % n, a, n);
    if Cong(a, b, n) {
      CongTrans(a % n, a, b, n);
      CongTrans(a % n, b, b % n, n);
      CongUnique(a % n, b % n, n);
    }
    if a % n == b % n {
      CongTrans(a, a % n, b, n);
    }
  }

  /** The remainder is the only value of `[0, n)` in its class. */
  lemma ModIs(a: int, r: int, n: int)
    requires 0 <= r < n && Cong(r, a, n)
    ensures a % n == r
  {
    CongMod(a, n);
    CongSym(a % n, a, n);
    CongTrans(r, a, a % n, n);
    CongUnique(r, a % n, n);
  }

  /** Exact quotient and remainder from a division identity. */
  lemma DivModIs(a: int, q: int, r: int, n: int)
    requires a == q * n + r && 0 <= r < n
    ensures a / n == q && a % n == r
  {
    CongBy(r, a, n, -q);
    assert (-q) * n == -(q * n);
    ModIs(a, r, n);
    assert a == n * (a / n) + a % n;
    assert n * (a / n) == (a / n) * n;
    MulCancel(a / n, q, n);
  }

  lemma AddMultiple(x: int, k: int, n: int)
    requires n > 0
    ensures (x + k * n) / n == x / n + k && (x + k * n) % n == x % n
  {
    var q, r := x / n, x % n;
    assert x == n * q + r;
    assert (q + k) * n == n * q + k * n;
    DivModIs(x + k * n, q + k, r, n);
  }

  lemma DivParts(x: int, n: int)
    requires n > 0
    ensures x == n * (x / n) + x % n && 0 <= x % n < n
  {
  }

  /** Two divisions in a row are one division with a combined remainder. */
  lemma SplitAlgebra(x: int, a: int, b: int, q: int, r: int, s: int, t: int)
    requires x == a * q + r && q == b * s + t && 0 <= r < a && 0 <= t < b
    ensures x == s * (a * b) + (a * t + r) && 0 <= a * t + r < a * b
  {
    assert a * (b * s + t) == s * (a * b) + a * t;
    MulMono(0, t, a);
    MulMono(t + 1, b, a);
    assert t * a == a * t && (t + 1) * a == a * t + a && b * a == a * b;
  }

  lemma DivTwice(x: int, a: int, b: int)
    requires a > 0 && b > 0
    ensures a * b > 0 && (x / a) / b == x / (a * b)
  {
    MulPositive(a, b);
    DivParts(x, a);
    DivParts(x / a, b);
    SplitAlgebra(x, a, b, x / a, x % a, x / a / b, x / a % b);
    DivModIs(x, x / a / b, a * (x / a % b) + x % a, a * b);
  }

  /** The remainder by a multiple refines the remainder by a factor. */
  lemma ModSplit(x: int, a: int, b: int)
    requires a >= 1 && b >= 1
    ensures a * b >= 1 && x % (a * b) == x % a + ((x / a) % b) * a
  {
    MulPositive(a, b);
    DivParts(x, a);
    DivParts(x / a, b);
    SplitAlgebra(x, a, b, x / a, x % a, x / a / b, x / a % b);
    DivModIs(x, x / a / b, a * (x / a % b) + x % a, a * b);
    assert a * (x / a % b) == (x / a % b) * a;
  }

  lemma ModOfMod(x: int, a: int, b: int)
    requires a > 0 && b > 0
    ensures a * b > 0 && (x % (a * b)) % a == x % a
  {
    MulPositive(a, b);
    var q := x / (a * b);
    assert x == (a * b) * q + x % (a * b);
    assert (a * b) * q == (b * q) * a;
    AddMultiple(x % (a * b), b * q, a);
  }

  lemma DivNonNegative(x: int, n: int)
    requires x >= 0 && n > 0
    ensures 0 <= x / n <= x
  {
    assert x == n * (x / n) + x % n;
    MulMono(1, n, x / n);
  }

  /** `x / n < q` when `x < q·n`. */
  lemma DivBelow(x: int, q: int, n: int)
    requires n > 0 && x < q * n
    ensures x / n < q
  {
    assert x == n * (x / n) + x % n;
    if x / n >= q { MulMono(q, x / n, n); }
  }

  /** A unit cancels on both sides of a congruence. */
  lemma CancelUnit(x: int, y: int, r: int, k: int, n: int)
    requires Cong(r * k, 1, n) && Cong(x * r, y * r, n)
    ensures Cong(x, y, n)
  {
    CongScale(x * r, y * r, k, n);
    assert x * r * k == x * (r * k) && y * r * k == y * (r * k);
    CongScale(r * k, 1, x, n);
    CongScale(r * k, 1, y, n);
    CongSym(x * (r * k), x * 1, n);
    CongTrans(x, x * (r * k), y * (r * k), n);
    CongTrans(x, y * (r * k), y, n);
  }

  /** A congruence modulo a multiple holds modulo the factor. */
  lemma CongFactor(a: int, b: int, m: int, q: int)
    requires Cong(a, b, m * q)
    ensures Cong(a, b, m)
  {
    var k := CongWitness(a, b, m * q);
    assert k * (m * q) == (k * q) * m;
    CongBy(a, b, m, k * q);
  }
}
