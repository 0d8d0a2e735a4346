/** Montgomery moduli: parameters, domain conversion, and the value-level laws of the kernels. */
module Montgomery {
  import opened Arith
  import opened Limbs
  import opened LimbOps
  import opened Bits
  import opened MontKernel
  import opened MontSquare

  // ------------------------------------------------------------ the modulus

  /**
   * Parameters for one odd modulus. `n` may be wider than its significant limbs `s`, the width
   * every kernel runs at; a runtime-width modulus has `s == |n|`.
   */
  datatype MontModulus = MontModulus(n: seq<Limb>, np: Limb, r2: seq<Limb>, s: nat) {

    ghost predicate Shape() {
      && 1 <= s <= |n| && n[0] % 2 == 1 && IsNPrime(n[0], np)
      && (forall k :: s <= k < |n| ==> n[k] == 0)
    }

    ghost function N(): int
      requires s <= |n|
    {
      Val(B, n, s)
    }

    ghost function R(): int { Pow(B, s) }

    /** `r2` is `R^2 mod N`, stored at the width of `n`. */
    ghost predicate Valid() {
      && Shape() && |r2| == |n|
      && 0 <= Val(B, r2, s) < N() && Cong(Val(B, r2, s), R() * R(), N())
    }

    /** The Montgomery form of `x`. */
    ghost predicate InMont(v: int, x: int)
      requires s <= |n|
    {
      0 <= v < N() && Cong(v, x * R(), N())
    }
  }

  lemma ModulusPositive(m: MontModulus)
    requires m.Shape()
    ensures 0 < m.N() < m.R() && m.N() % 2 == 1
  {
    ValBound(B, m.n, m.s);
    ParityOfLow(m.n, m.s);
  }

  /** `n'` makes the radix, hence `R`, invertible modulo `N`. */
  lemma RInverse(m: MontModulus) returns (k: int)
    requires m.Shape()
    ensures Cong(m.R() * k, 1, m.N())
  {
    ValHead(B, m.n, m.s);
    var h, c := Val(B, m.n[1..], m.s - 1), (m.n[0] * m.np + 1) / B;
    var j := RadixInverse(B, m.N(), m.n[0], h, m.np, c);
    CongPow(B * j, 1, m.s, m.N());
    PowBase(B, j, m.s);
    PowOne(m.s);
    k := Pow(j, m.s);
  }

  /** A digit radix is a unit as soon as the low digit has a negated inverse `np`. */
  lemma RadixInverse(b: int, n: int, n0: int, h: int, np: int, c: int) returns (j: int)
    requires n == n0 + b * h && n0 * np + 1 == b * c
    ensures Cong(b * j, 1, n)
  {
    j := c + h * np;
    assert b * (c + h * np) == b * c + (b * h) * np;
    assert (n0 + b * h) * np == n0 * np + (b * h) * np;
    assert b * j == 1 + np * n;
    CongBy(b * j, 1, n, np);
  }

  /** `R` cancels on both sides of a congruence modulo `N`. */
  lemma CancelR(m: MontModulus, x: int, y: int)
    requires m.Shape() && Cong(x * m.R(), y * m.R(), m.N())
    ensures Cong(x, y, m.N())
  {
    var k := RInverse(m);
    CancelUnit(x, y, m.R(), k, m.N());
  }

  /** The reduced Montgomery product is unique: any two routines meeting the specification agree. */
  lemma MontProductUnique(m: MontModulus, v: int, w: int, x: int, y: int)
    requires m.Shape() && IsMontProduct(v, x, y, m.N(), m.R()) && IsMontProduct(w, x, y, m.N(), m.R())
    ensures v == w
  {
    CongSym(w * m.R(), x * y, m.N());
    CongTrans(v * m.R(), x * y, w * m.R(), m.N());
    CancelR(m, v, w);
    CongUnique(v, w, m.N());
  }

  /** Squaring and multiplying produce the same limbs. */
  lemma KernelsAgree(m: MontModulus, a: int, o: seq<Limb>, o': seq<Limb>)
    requires m.Shape() && |o| == |o'| == m.s
    requires IsMontProduct(Val(B, o, m.s), a, a, m.N(), m.R())
    requires IsMontProduct(Val(B, o', m.s), a, a, m.N(), m.R())
    ensures o == o'
  {
    MontProductUnique(m, Val(B, o, m.s), Val(B, o', m.s), a, a);
    ValUnique(B, o, o', m.s);
  }

  // -------------------------------------------------------- domain laws

  lemma MontOfProduct(m: MontModulus, v: int, a: int, b: int, x: int, y: int)
    requires m.Shape() && IsMontProduct(v, a, b, m.N(), m.R())
    requires Cong(a, x * m.R(), m.N()) && Cong(b, y * m.R(), m.N())
    ensures m.InMont(v, x * y)
  {
    var r := m.R();
    CongMul(a, x * r, b, y * r, m.N());
    CongTrans(v * r, a * b, (x * r) * (y * r), m.N());
    assert (x * r) * (y * r) == ((x * y) * r) * r;
    CancelR(m, v, (x * y) * r);
  }

  /** Multiplying by `R^2` enters the domain, for any operand. */
  lemma MontOfR2(m: MontModulus, v: int, x: int, r2: int)
    requires m.Shape() && Cong(r2, m.R() * m.R(), m.N())
    requires IsMontProduct(v, x, r2, m.N(), m.R())
    ensures m.InMont(v, x)
  {
    var r := m.R();
    CongScale(r2, r * r, x, m.N());
    CongTrans(v * r, x * r2, x * (r * r), m.N());
    assert x * (r * r) == (x * r) * r;
    CancelR(m, v, x * r);
  }

  /** Multiplying by 1 leaves the domain, fully reduced. */
  lemma MontOfOne(m: MontModulus, v: int, a: int, x: int)
    requires m.Shape() && Cong(a, x * m.R(), m.N()) && IsMontProduct(v, a, 1, m.N(), m.R())
    ensures v == x % m.N()
  {
    CongTrans(v * m.R(), a, x * m.R(), m.N());
    CancelR(m, v, x);
    ModIs(x, v, m.N());
  }

  // --------------------------------------------------------- Uint wrappers

  /** Montgomery multiplication at the significant width; limbs above it are zero. */
  method MontMul(m: MontModulus, a: seq<Limb>, b: seq<Limb>) returns (out: seq<Limb>)
    requires m.Shape() && m.s <= |a| && m.s <= |b|
    requires Val(B, a, m.s) <= m.N() || Val(B, b, m.s) <= m.N()
    ensures |out| == |m.n| && (forall k :: m.s <= k < |out| ==> out[k] == 0)
    ensures IsMontProduct(Val(B, out, m.s), Val(B, a, m.s), Val(B, b, m.s), m.N(), m.R())
  {
    ModulusPositive(m);
    var t := new Limb[m.s](_ => 0);
    var o := new Limb[|m.n|](_ => 0);
    ValAgree(B, m.n, m.n[..m.s], m.s);
    MontMulKernel(m.n[..m.s], m.np, a, b, t, o);
    out := o[..];
  }

  /** Montgomery squaring: same result as `MontMul(m, a, a)`, through the squaring kernel. */
  method MontSqr(m: MontModulus, a: seq<Limb>) returns (out: seq<Limb>)
    requires m.Shape() && m.s <= |a| && Val(B, a, m.s) <= m.N()
    ensures |out| == |m.n| && (forall k :: m.s <= k < |out| ==> out[k] == 0)
    ensures IsMontProduct(Val(B, out, m.s), Val(B, a, m.s), Val(B, a, m.s), m.N(), m.R())
  {
    ModulusPositive(m);
    var p := new Limb[2 * m.s](_ => 0);
    var o := new Limb[|m.n|](_ => 0);
    ValAgree(B, m.n, m.n[..m.s], m.s);
    MontSqrKernel(m.n[..m.s], m.np, a, p, o);
    out := o[..];
  }

  /** Both kernels on the same operand: the limbs are the same. */
  method SquareBothWays(m: MontModulus, a: seq<Limb>) returns (sqr: seq<Limb>, mul: seq<Limb>)
    requires m.Shape() && m.s <= |a| && Val(B, a, m.s) <= m.N()
    ensures sqr == mul && |sqr| == m.s && IsMontProduct(Nat(sqr), Val(B, a, m.s), Val(B, a, m.s), m.N(), m.R())
  {
    ModulusPositive(m);
    var n := m.n[..m.s];
    ValAgree(B, m.n, n, m.s);
    var p, t := new Limb[2 * m.s](_ => 0), new Limb[m.s](_ => 0);
    var o, o' := new Limb[m.s](_ => 0), new Limb[m.s](_ => 0);
    MontSqrKernel(n, m.np, a, p, o);
    sqr := o[..];
    MontMulKernel(n, m.np, a, a, t, o');
    mul := o'[..];
    KernelsAgree(m, Val(B, a, m.s), sqr, mul);
  }

  // ------------------------------------------------------ modular addition

  /** When the sum of two residues needs one subtraction of `n`. */
  lemma AddModSelect(a: int, b: int, n: int, sum: int, carry: int, diff: int, borrow: int, p: int)
    requires 0 <= a <= n && 0 <= b <= n && 0 <= n < p && 0 <= sum < p && 0 <= diff < p
    requires 0 <= carry <= 1 && 0 <= borrow <= 1
    requires sum + carry * p == a + b && diff - borrow * p == sum - n
    ensures if carry == 1 || borrow == 0 then a + b >= n && diff == a + b - n else a + b < n && sum == a + b
  {
  }

  /** `(a + b) mod n` by one trial subtraction; operands up to `n` itself stay at most `n`. */
  method AddMod(n: seq<Limb>, a: seq<Limb>, b: seq<Limb>) returns (out: seq<Limb>)
    requires |n| == |a| == |b| && Nat(a) <= Nat(n) && Nat(b) <= Nat(n)
    ensures |out| == |n|
    ensures Nat(out) == if Nat(a) + Nat(b) >= Nat(n) then Nat(a) + Nat(b) - Nat(n) else Nat(a) + Nat(b)
  {
    var sum, carry := AdcLimbs(a, b, 0);
    var diff, borrow := SbbLimbs(sum, n, 0);
    ValBound(B, a, |a|);
    ValBound(B, b, |b|);
    ValBound(B, n, |n|);
    ValBound(B, sum, |n|);
    ValBound(B, diff, |n|);
    AddModSelect(Nat(a), Nat(b), Nat(n), Nat(sum), carry, Nat(diff), borrow, Pow(B, |n|));
    out := if carry == 1 || borrow == 0 then diff else sum;
  }

  /** `(a - b) mod n` for residues `a, b < n`. */
  method SubMod(n: seq<Limb>, a: seq<Limb>, b: seq<Limb>) returns (out: seq<Limb>)
    requires |n| == |a| == |b| && Nat(a) < Nat(n) && Nat(b) < Nat(n)
    ensures |out| == |n|
    ensures Nat(out) == (Nat(a) - Nat(b)) % Nat(n)
  {
    var diff, borrow := SbbLimbs(a, b, 0);
    var wrapped, carry := AdcLimbs(diff, n, 0);
    ValBound(B, a, |a|);
    ValBound(B, b, |b|);
    ValBound(B, n, |n|);
    ValBound(B, diff, |n|);
    ValBound(B, wrapped, |n|);
    SubModSelect(Nat(a), Nat(b), Nat(n), Nat(diff), borrow, Nat(wrapped), carry, Pow(B, |n|));
    out := if borrow == 1 then wrapped else diff;
  }

  lemma SubModSelect(a: int, b: int, n: int, diff: int, borrow: int, wrapped: int, carry: int, p: int)
    requires 0 <= a < n && 0 <= b < n && n < p && 0 <= diff < p && 0 <= wrapped < p
    requires 0 <= carry <= 1 && 0 <= borrow <= 1
    requires diff - borrow * p == a - b && wrapped + carry * p == diff + n
    ensures (a - b) % n == if borrow == 1 then wrapped else diff
  {
    if borrow == 1 {
      CongBy(wrapped, a - b, n, 1);
      ModIs(a - b, wrapped, n);
    } else {
      CongSelf(diff, n);
      ModIs(a - b, diff, n);
    }
  }

  // ---------------------------------------------------------- the R^2 chain

  /** The scan for the significant width. */
  method SignificantLimbs(n: seq<Limb>) returns (s: nat)
    requires |n| >= 1
    ensures 1 <= s <= |n| && (forall k :: s <= k < |n| ==> n[k] == 0) && (s > 1 ==> n[s - 1] != 0)
  {
    s := |n|;
    while s > 1 && n[s - 1] == 0
      invariant 1 <= s <= |n| && forall k :: s <= k < |n| ==> n[k] == 0
    {
      s := s - 1;
    }
  }

  /** The negated inverse, with the wrap of zero. */
  function NegLimb(x: Limb): Limb { (B - x) % B }

  lemma NPrimeOfInverse(n0: Limb, x: Limb)
    requires n0 * x % B == 1
    ensures IsNPrime(n0, NegLimb(x))
  {
    var k := n0 * x / B;
    DivParts(n0 * x, B);
    assert n0 * 0 == 0;
    NegatedInverse(n0, x, k, B);
    DivModIs(n0 * (B - x) + 1, n0 - k, 0, B);
    NegLimbIs(x);
  }

  lemma NegLimbIs(x: Limb)
    requires x > 0
    ensures NegLimb(x) == B - x
  {
  }

  lemma NegatedInverse(n: int, x: int, k: int, w: int)
    requires n * x == w * k + 1
    ensures n * (w - x) + 1 == (n - k) * w
  {
    assert n * (w - x) == n * w - n * x && (n - k) * w == n * w - w * k;
  }

  /** `2^e mod n` and its double. */
  lemma DoublingStep(x: int, y: int, e: nat, n: int)
    requires Cong(x, Pow2(e), n) && (y == x + x || y == x + x - n)
    ensures Cong(y, Pow2(e + 1), n)
  {
    CongAdd(x, Pow2(e), x, Pow2(e), n);
    assert Pow2(e + 1) == Pow2(e) + Pow2(e);
    if y == x + x - n {
      CongBy(y, x + x, n, -1);
      CongTrans(y, x + x, Pow2(e + 1), n);
    }
  }

  /** A Montgomery square of `M(2^e)` is `M(2^(2e))`. */
  lemma SquaringStep(m: MontModulus, v: int, x: int, e: nat)
    requires m.Shape() && Cong(x, Pow2(e) * m.R(), m.N()) && IsMontProduct(v, x, x, m.N(), m.R())
    ensures m.InMont(v, Pow2(2 * e))
  {
    MontOfProduct(m, v, x, x, Pow2(e), Pow2(e));
    Pow2Add(e, e);
  }
}
