/** Prime numbers: factors, Fermat and a converse, square roots of one, and the squares modulo a prime. */
module Primes {
  import opened Arith
  import opened Gcd

  ghost predicate IsPrime(p: int) { p >= 2 && forall d: int :: 2 <= d < p ==> !Divides(d, p) }

  lemma DividesIsMod(d: int, x: int)
    requires d > 0
    ensures Divides(d, x) <==> x % d == 0
  {
    if Divides(d, x) {
      var k := Quotient(d, x);
      DivModIs(x, k, 0, d);
    }
    if x % d == 0 { DividesBy(d, x, x / d); assert x == d * (x / d); }
  }

  // ---------------------------------------------------------------- factors

  /** Every `n >= 2` has a least divisor, and it is prime; a composite's is at most its root. */
  lemma {:induction false} LeastFactor(n: int, d: int) returns (p: int)
    requires n >= 2 && 2 <= d <= n && forall e: int :: 2 <= e < d ==> !Divides(e, n)
    ensures IsPrime(p) && Divides(p, n) && d <= p <= n && (p < n ==> p * p <= n)
    decreases n - d
  {
    DividesBy(n, n, 1);
    if Divides(d, n) {
      p := d;
      forall e: int | 2 <= e < p ensures !Divides(e, p) {
        if Divides(e, p) { DividesTrans(e, p, n); }
      }
      if p < n { CofactorAtLeast(n, p); }
    } else {
      p := LeastFactor(n, d + 1);
    }
  }

  lemma CofactorAtLeast(n: int, p: int)
    requires n >= 2 && 2 <= p < n && Divides(p, n) && forall e: int :: 2 <= e < p ==> !Divides(e, n)
    ensures p * p <= n
  {
    var k := Quotient(p, n);
    assert n == p * k;
    DividesBy(k, n, p);
    if k < 2 {
      MulMono(k, 1, p);
    } else if k >= p {
      MulMono(p, k, p);
    }
  }

  /** A number with no prime factor up to its root is prime. */
  lemma NoSmallFactor(n: int)
    requires n >= 2 && forall p: int :: IsPrime(p) && p * p <= n && p < n ==> !Divides(p, n)
    ensures IsPrime(n)
  {
    var p := LeastFactor(n, 2);
  }

  // ------------------------------------------------------- residues of a prime

  /** Non-multiples of a prime are units. */
  lemma PrimeUnit(p: int, a: nat) returns (x: int)
    requires IsPrime(p) && a % p != 0
    ensures Cong(x * a, 1, p)
  {
    var g := GcdOf(a, p);
    var u, v := GcdBezout(a, p);
    GcdPositive(a, p);
    DividesBound(g, p);
    DivisorOfPrime(g, p);
    if g == p { DividesIsMod(p, a); }
    x := CoprimeInverse(a, p);
  }

  lemma CancelNonMultiple(p: int, a: nat, x: int, y: int)
    requires IsPrime(p) && a % p != 0 && Cong(a * x, a * y, p)
    ensures Cong(x, y, p)
  {
    var k := PrimeUnit(p, a);
    assert a * k == k * a && a * x == x * a && a * y == y * a;
    CancelUnit(x, y, a, k, p);
  }

  /** A product that is a multiple of a prime has a factor that is. */
  lemma PrimeDividesProduct(p: int, a: nat, b: nat)
    requires IsPrime(p) && Cong(a * b, 0, p)
    ensures a % p == 0 || b % p == 0
  {
    if a % p != 0 {
      assert a * 0 == 0;
      CancelNonMultiple(p, a, b, 0);
      CongIsMod(b, 0, p);
    }
  }

  /** The only square roots of one modulo a prime are one and minus one. */
  lemma RootsOfOne(p: int, x: nat)
    requires IsPrime(p) && Cong(x * x, 1, p)
    ensures Cong(x, 1, p) || Cong(x, -1, p)
  {
    if x == 0 {
      CongIsMod(0, 1, p);
      DivModIs(0, 0, 0, p);
      DivModIs(1, 0, 1, p);
    } else {
      assert (x - 1) * (x + 1) == x * x - 1;
      CongSelf(1, p);
      CongSub(x * x, 1, 1, 1, p);
      PrimeDividesProduct(p, x - 1, x + 1);
      if (x - 1) % p == 0 {
        CongIsMod(x - 1, 0, p);
        CongAdd(x - 1, 0, 1, 1, p);
      } else {
        CongIsMod(x + 1, 0, p);
        CongSub(x + 1, 0, 1, 1, p);
      }
    }
  }

  // ---------------------------------------------- permutations of 1 .. n

  /** Product of a sequence. */
  function Prod(s: seq<int>): int { if |s| == 0 then 1 else Prod(s[..|s| - 1]) * s[|s| - 1] }

  function Factorial(n: nat): int { if n == 0 then 1 else Factorial(n - 1) * n }

  predicate Distinct(s: seq<int>) { forall i, j :: 0 <= i < j < |s| ==> s[i] != s[j] }

  predicate Within(s: seq<int>, n: int) { forall i :: 0 <= i < |s| ==> 1 <= s[i] <= n }

  function Without(s: seq<int>, i: nat): seq<int>
    requires i < |s|
  {
    s[..i] + s[i + 1..]
  }

  lemma {:induction false} ProdWithout(s: seq<int>, i: nat)
    requires i < |s|
    ensures Prod(s) == s[i] * Prod(Without(s, i))
  {
    var n := |s|;
    if i == n - 1 {
      assert Without(s, i) == s[..n - 1];
    } else {
      var t := s[..n - 1];
      ProdWithout(t, i);
      assert Without(s, i)[..n - 2] == Without(t, i);
      assert Without(s, i)[n - 2] == s[n - 1];
    }
  }

  lemma WithoutTop(s: seq<int>, i: nat, n: int)
    requires i < |s| && Distinct(s) && Within(s, n) && s[i] == n
    ensures Distinct(Without(s, i)) && Within(Without(s, i), n - 1)
  {
    var t := Without(s, i);
    forall j | 0 <= j < |t| ensures 1 <= t[j] <= n - 1 {
      assert t[j] == s[if j < i then j else j + 1];
    }
    forall j, k | 0 <= j < k < |t| ensures t[j] != t[k] {
      assert t[j] == s[if j < i then j else j + 1] && t[k] == s[if k < i then k else k + 1];
    }
  }

  /** Distinct numbers in `1 .. n` are at most `n`; if they are `n`, none is missing. */
  lemma {:induction false} Pigeonhole(s: seq<int>, n: nat)
    requires Distinct(s) && Within(s, n)
    ensures |s| <= n
    ensures |s| == n ==> forall x :: 1 <= x <= n ==> x in s
    decreases n
  {
    if |s| == 0 {
    } else if s[0] <= n && n in s {
      var i :| 0 <= i < |s| && s[i] == n;
      WithoutTop(s, i, n);
      Pigeonhole(Without(s, i), n - 1);
      forall x | |s| == n && 1 <= x <= n ensures x in s {
        if x < n { assert x in Without(s, i); }
      }
    } else {
      Pigeonhole(s, n - 1);
    }
  }

  lemma {:induction false} PermutationProduct(s: seq<int>, n: nat)
    requires Distinct(s) && Within(s, n) && |s| == n
    ensures Prod(s) == Factorial(n)
    decreases n
  {
    if n > 0 {
      var i := TopIndex(s, n);
      var t := Without(s, i);
      WithoutTop(s, i, n);
      ProdWithout(s, i);
      PermutationProduct(t, n - 1);
      assert Factorial(n) == Factorial(n - 1) * n;
    }
  }

  lemma TopIndex(s: seq<int>, n: nat) returns (i: nat)
    requires Distinct(s) && Within(s, n) && |s| == n > 0
    ensures i < |s| && s[i] == n
  {
    Pigeonhole(s, n);
    assert n in s;
    i :| 0 <= i < |s| && s[i] == n;
  }

  // ------------------------------------------------ Fermat's little theorem

  /** The first `k` multiples of `a`, reduced. */
  function Multiples(a: nat, p: int, k: nat): (s: seq<int>)
    requires p > 0
    ensures |s| == k && forall i :: 0 <= i < k ==> s[i] == a * (i + 1) % p
  {
    if k == 0 then [] else Multiples(a, p, k - 1) + [a * k % p]
  }

  lemma {:induction false} MultiplesProduct(a: nat, p: int, k: nat)
    requires p > 0
    ensures Cong(Prod(Multiples(a, p, k)), Pow(a, k) * Factorial(k), p)
  {
    if k == 0 {
      CongSelf(1, p);
    } else {
      MultiplesProduct(a, p, k - 1);
      var s := Multiples(a, p, k);
      assert s[..k - 1] == Multiples(a, p, k - 1);
      CongMod(a * k, p);
      CongMul(Prod(s[..k - 1]), Pow(a, k - 1) * Factorial(k - 1), a * k % p, a * k, p);
      ProductStep(a, Pow(a, k - 1), Factorial(k - 1), k);
    }
  }

  lemma ProductStep(a: int, x: int, f: int, k: int)
    ensures (x * f) * (a * k) == (a * x) * (f * k)
  {
  }

  lemma MultiplesPermute(a: nat, p: int)
    requires IsPrime(p) && a % p != 0
    ensures Distinct(Multiples(a, p, p - 1)) && Within(Multiples(a, p, p - 1), p - 1)
  {
    var s := Multiples(a, p, p - 1);
    forall i | 0 <= i < |s| ensures 1 <= s[i] <= p - 1 {
      CongMod(a * (i + 1), p);
      if s[i] == 0 {
        CongIsMod(a * (i + 1), 0, p);
        DivModIs(i + 1, 0, i + 1, p);
        PrimeDividesProduct(p, a, i + 1);
      }
    }
    forall i, j | 0 <= i < j < |s| ensures s[i] != s[j] {
      if s[i] == s[j] {
        CongIsMod(a * (i + 1), a * (j + 1), p);
        CancelNonMultiple(p, a, i + 1, j + 1);
        CongUnique(i + 1, j + 1, p);
      }
    }
  }

  lemma {:induction false} FactorialUnit(p: int, k: nat)
    requires IsPrime(p) && k < p
    ensures Factorial(k) > 0 && Factorial(k) % p != 0
  {
    if k == 0 {
      DivModIs(1, 0, 1, p);
    } else {
      FactorialUnit(p, k - 1);
      MulPositive(Factorial(k - 1), k);
      if Factorial(k) % p == 0 {
        CongIsMod(Factorial(k), 0, p);
        DivModIs(k, 0, k, p);
        PrimeDividesProduct(p, Factorial(k - 1), k);
      }
    }
  }

  lemma Fermat(p: int, a: nat)
    requires IsPrime(p) && a % p != 0
    ensures Cong(Pow(a, p - 1), 1, p)
  {
    var f := Factorial(p - 1);
    MultiplesPermute(a, p);
    PermutationProduct(Multiples(a, p, p - 1), p - 1);
    MultiplesProduct(a, p, p - 1);
    FactorialUnit(p, p - 1);
    CongSym(f, Pow(a, p - 1) * f, p);
    assert f * Pow(a, p - 1) == Pow(a, p - 1) * f && f * 1 == f;
    CancelNonMultiple(p, f, Pow(a, p - 1), 1);
  }

  // ------------------------------------------- exponents that give one

  lemma {:induction false} PowerOfGcd(a: int, k: nat, n: nat, m: int)
    requires Cong(Pow(a, k), 1, m) && Cong(Pow(a, n), 1, m)
    ensures Cong(Pow(a, GcdOf(k, n)), 1, m)
    decreases n
  {
    if n > 0 {
      PowerOfRemainder(a, k, n, m);
      PowerOfGcd(a, n, k % n, m);
    }
  }

  lemma PowerOfRemainder(a: int, k: nat, n: nat, m: int)
    requires n > 0 && Cong(Pow(a, k), 1, m) && Cong(Pow(a, n), 1, m)
    ensures Cong(Pow(a, k % n), 1, m)
  {
    var q, r := k / n, k % n;
    DivNonNegative(k, n);
    assert k == n * q + r;
    MulNonNegative(n, q);
    PowAdd(a, n * q, r);
    PowMul(a, n, q);
    CongPow(Pow(a, n), 1, q, m);
    PowOne(q);
    CongScale(Pow(a, n * q), 1, Pow(a, r), m);
    CongSym(Pow(a, k), 1 * Pow(a, r), m);
    CongTrans(Pow(a, r), Pow(a, k), 1, m);
  }

  /** The divisors of twice an odd prime. */
  lemma DivisorsOfTwicePrime(g: int, q: int)
    requires g > 0 && IsPrime(q) && q % 2 == 1 && Divides(g, 2 * q)
    ensures g == 1 || g == 2 || g == q || g == 2 * q
  {
    var k := Quotient(g, 2 * q);
    ProductParity(k, g);
    if g % 2 == 0 {
      assert k * (2 * (g / 2)) == 2 * (k * (g / 2));
      DividesBy(g / 2, q, k);
      DivisorOfPrime(g / 2, q);
    } else {
      assert (2 * (k / 2)) * g == 2 * ((k / 2) * g);
      DividesBy(g, q, k / 2);
      DivisorOfPrime(g, q);
    }
  }

  lemma DivisorOfPrime(g: int, q: int)
    requires g > 0 && IsPrime(q) && Divides(g, q)
    ensures g == 1 || g == q
  {
    DividesBound(g, q);
  }

  // -------------------------------------------- the safe-prime certificate

  /** A witness that `p = 2q + 1` has an element of order `p - 1`. */
  ghost predicate Witness(p: int, q: nat, a: nat) { 2 <= a <= p - 2 && Cong(Pow(a, q), -1, p) }

  lemma MinusOneSquared(x: int, p: int)
    requires Cong(x, -1, p)
    ensures Cong(x * x, 1, p)
  {
    CongMul(x, -1, x, -1, p);
  }

  /** The witness to twice the power is one. */
  lemma FullPower(p: int, q: nat, a: nat)
    requires Witness(p, q, a)
    ensures Cong(Pow(a, 2 * q), 1, p)
  {
    MinusOneSquared(Pow(a, q), p);
    PowAdd(a, q, q);
  }

  /** No exponent among the proper divisors of `2q` gives one. */
  lemma ProperDivisor(p: int, q: int, a: nat, g: nat)
    requires p >= 5 && IsPrime(q) && q % 2 == 1 && Witness(p, q, a) && Cong(Pow(a, g), 1, p)
    ensures g != 1 && g != 2 && g != q
  {
    if g == q {
      CongSym(Pow(a, q), 1, p);
      CongTrans(1, Pow(a, q), -1, p);
      NotTwo(p);
    } else if g == 1 {
      assert Pow(a, 1) == a * Pow(a, 0);
      CongUnique(a, 1, p);
    } else if g == 2 {
      SquareIsOne(p, q, a);
    }
  }

  lemma NotTwo(p: int)
    requires p >= 5
    ensures !Cong(1, -1, p)
  {
    if Cong(1, -1, p) {
      var k := CongWitness(1, -1, p);
      DividesBy(p, 2, k);
      DividesBound(p, 2);
    }
  }

  /** If the square were one, the odd power would be `a` itself. */
  lemma SquareIsOne(p: int, q: int, a: nat)
    requires p >= 5 && q >= 1 && q % 2 == 1 && 2 <= a <= p - 2 && Cong(Pow(a, 2), 1, p)
    ensures !Cong(Pow(a, q), -1, p)
  {
    var h := q / 2;
    PowMul(a, 2, h);
    CongPow(Pow(a, 2), 1, h, p);
    PowOne(h);
    assert Pow(a, q) == a * Pow(a, 2 * h);
    CongScale(Pow(a, 2 * h), 1, a, p);
    CongSym(Pow(a, q), a * 1, p);
    if Cong(Pow(a, q), -1, p) {
      CongTrans(a, Pow(a, q), -1, p);
      CongBy(-1, p - 1, p, -1);
      CongTrans(a, -1, p - 1, p);
      CongUnique(a, p - 1, p);
    }
  }

  /** The order of a witness is the whole `2q`. */
  lemma FullOrder(p: int, q: int, a: nat, k: nat)
    requires p >= 5 && IsPrime(q) && q % 2 == 1 && Witness(p, q, a) && 1 <= k < 2 * q
    ensures !Cong(Pow(a, k), 1, p)
  {
    if Cong(Pow(a, k), 1, p) {
      FullPower(p, q, a);
      PowerOfGcd(a, k, 2 * q, p);
      var g := GcdOf(k, 2 * q);
      var _, _ := GcdBezout(k, 2 * q);
      GcdPositive(k, 2 * q);
      DivisorsOfTwicePrime(g, q);
      ProperDivisor(p, q, a, g);
      DividesBound(g, k);
    }
  }

  /** The powers `a^0 .. a^(k-1)`, reduced. */
  function Powers(a: nat, p: int, k: nat): (s: seq<int>)
    requires p > 0
    ensures |s| == k && forall i :: 0 <= i < k ==> s[i] == Pow(a, i) % p
  {
    if k == 0 then [] else Powers(a, p, k - 1) + [Pow(a, k - 1) % p]
  }

  /** Below exponent `2q` every power has an inverse, the complementary power. */
  lemma PowerUnit(p: int, q: nat, a: nat, i: nat)
    requires Witness(p, q, a) && i <= 2 * q
    ensures Cong(Pow(a, i) * Pow(a, 2 * q - i), 1, p)
  {
    FullPower(p, q, a);
    PowAdd(a, i, 2 * q - i);
  }

  lemma PowersDiffer(p: int, q: int, a: nat, i: nat, j: nat)
    requires p >= 5 && IsPrime(q) && q % 2 == 1 && Witness(p, q, a) && i < j < 2 * q
    ensures Pow(a, i) % p != Pow(a, j) % p
  {
    if Pow(a, i) % p == Pow(a, j) % p {
      CongIsMod(Pow(a, i), Pow(a, j), p);
      PowerUnit(p, q, a, i);
      PowAdd(a, j - i, i);
      CongSym(Pow(a, i), Pow(a, j), p);
      assert Pow(a, i) == 1 * Pow(a, i);
      CancelUnit(Pow(a, j - i), 1, Pow(a, i), Pow(a, 2 * q - i), p);
      FullOrder(p, q, a, j - i);
    }
  }

  lemma PowerNonzero(p: int, q: nat, a: nat, i: nat)
    requires p >= 5 && Witness(p, q, a) && i < 2 * q
    ensures 1 <= Pow(a, i) % p <= p - 1
  {
    CongMod(Pow(a, i), p);
    if Pow(a, i) % p == 0 {
      var x, y := Pow(a, i), Pow(a, 2 * q - i);
      CongIsMod(x, 0, p);
      PowerUnit(p, q, a, i);
      CongScale(x, 0, y, p);
      CongSym(x * y, 1, p);
      CongTrans(1, x * y, 0 * y, p);
      var k := CongWitness(1, 0, p);
      DividesBy(p, 1, k);
      DividesBound(p, 1);
    }
  }

  /** Every nonzero residue is a power of the witness. */
  lemma IsPower(p: int, q: int, a: nat, d: int) returns (i: nat)
    requires p == 2 * q + 1 && p >= 5 && IsPrime(q) && q % 2 == 1 && Witness(p, q, a) && 1 <= d < p
    ensures i < 2 * q && Pow(a, i) % p == d
  {
    var s := Powers(a, p, 2 * q);
    forall k | 0 <= k < |s| ensures 1 <= s[k] <= p - 1 { PowerNonzero(p, q, a, k); }
    forall j, k | 0 <= j < k < |s| ensures s[j] != s[k] { PowersDiffer(p, q, a, j, k); }
    Pigeonhole(s, p - 1);
    assert d in s;
    i :| 0 <= i < |s| && s[i] == d;
  }

  /** Hence a unit, hence no divisor of `p`. */
  lemma ResidueNoDivisor(p: int, q: int, a: nat, d: int)
    requires p == 2 * q + 1 && p >= 5 && IsPrime(q) && q % 2 == 1 && Witness(p, q, a) && 2 <= d < p
    ensures !Divides(d, p)
  {
    var i := IsPower(p, q, a, d);
    var x, y := Pow(a, i), Pow(a, 2 * q - i);
    PowerUnit(p, q, a, i);
    CongMod(x, p);
    CongScale(d, x, y, p);
    CongTrans(d * y, x * y, 1, p);
    UnitNoDivisor(d, y, p);
  }

  lemma UnitNoDivisor(d: int, y: int, p: int)
    requires d >= 2 && Cong(d * y, 1, p)
    ensures !Divides(d, p)
  {
    if Divides(d, p) {
      var k := CongWitness(d * y, 1, p);
      DividesBy(d, d, 1);
      DividesCombination(d, d, p, y, -k);
      assert y * d + (-k) * p == 1 by { assert y * d == d * y && (-k) * p == -(k * p); }
      DividesBound(d, 1);
    }
  }

  /** With `q` prime, one witness proves `p = 2q + 1` prime. */
  lemma Lucas(p: int, q: int, a: nat)
    requires p == 2 * q + 1 && IsPrime(q) && q % 2 == 1 && Witness(p, q, a)
    ensures IsPrime(p)
  {
    forall d: int | 2 <= d < p ensures !Divides(d, p) {
      ResidueNoDivisor(p, q, a, d);
    }
  }

  /** For a prime `p` the power is always one or minus one. */
  lemma HalfPower(p: int, q: nat, a: nat)
    requires p == 2 * q + 1 && IsPrime(p) && 1 <= a < p
    ensures Cong(Pow(a, q), 1, p) || Cong(Pow(a, q), -1, p)
  {
    DivModIs(a, 0, a, p);
    Fermat(p, a);
    PowAdd(a, q, q);
    PowPositive(a, q);
    RootsOfOne(p, Pow(a, q));
  }

  // ------------------------------------------------------------- squares

  /** `r` is a square root of `a` modulo `p`. */
  ghost predicate Root(r: nat, a: int, p: int) { Cong(a, r * r, p) }

  ghost predicate IsSquare(a: int, p: int) { exists r: nat :: Root(r, a, p) }

  lemma RootNonzero(n: nat, r: nat, p: int)
    requires p > 0 && Root(r, n, p) && n % p != 0
    ensures r % p != 0
  {
    if r % p == 0 {
      DivModIs(0, 0, 0, p);
      CongIsMod(r, 0, p);
      CongScale(r, 0, r, p);
      CongTrans(n, r * r, 0 * r, p);
      CongIsMod(n, 0, p);
    }
  }

  /** A nonzero square to the half power is one. */
  lemma SquareHalfPower(p: int, q: nat, a: nat, r: nat)
    requires p == 2 * q + 1 && IsPrime(p) && a % p != 0 && Root(r, a, p)
    ensures Cong(Pow(a, q), 1, p)
  {
    RootNonzero(a, r, p);
    Fermat(p, r);
    assert Pow(r, 2) == r * r by { assert Pow(r, 2) == r * Pow(r, 1); }
    PowMul(r, 2, q);
    CongPow(a, r * r, q, p);
    CongTrans(Pow(a, q), Pow(r, p - 1), 1, p);
  }

  /** With `q` odd and `a^q = 1`, the power `a^((q+1)/2)` is a root of `a`. */
  lemma HalfPowerRoot(p: int, q: nat, a: nat)
    requires q % 2 == 1 && Cong(Pow(a, q), 1, p)
    ensures IsSquare(a, p)
  {
    var e := (q + 1) / 2;
    PowAdd(a, e, e);
    assert Pow(a, q + 1) == a * Pow(a, q);
    CongScale(Pow(a, q), 1, a, p);
    CongSym(a * Pow(a, q), a, p);
    PowNonNegative(a, e);
    assert Root(Pow(a, e), a, p);
  }

  /** Euler's criterion for `p = 2q + 1` with `q` odd. */
  lemma EulerCriterion(p: int, q: nat, a: nat)
    requires p == 2 * q + 1 && IsPrime(p) && q % 2 == 1 && a % p != 0
    ensures Cong(Pow(a, q), 1, p) <==> IsSquare(a, p)
  {
    if Cong(Pow(a, q), 1, p) { HalfPowerRoot(p, q, a); }
    if IsSquare(a, p) {
      var r: nat :| Root(r, a, p);
      SquareHalfPower(p, q, a, r);
    }
  }
}
