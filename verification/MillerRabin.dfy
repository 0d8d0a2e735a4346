/** Miller-Rabin with masked squarings, and the choice of its bases. */
module MillerRabin {
  import opened Arith
  import opened Limbs
  import opened LimbOps
  import opened Bits
  import opened Gcd
  import opened Primes
  import opened Montgomery
  import opened BoxedMont
  import opened Ladders
  import opened XgcdBoxed
  import opened PowerSplit

  // ------------------------------------------------- the textbook condition

  /** Squaring `a^d` fewer than `bound` times meets minus one. */
  ghost predicate MeetsMinusOne(n: int, d: nat, a: nat, bound: nat) {
    exists j: nat :: j < bound && ReachesMinusOne(n, d, a, j)
  }

  /** `a^d` after `j` squarings. */
  ghost function Squared(a: nat, d: nat, j: nat): int {
    MulNonNegative(d, Pow2(j));
    Pow(a, d * Pow2(j))
  }

  ghost predicate ReachesMinusOne(n: int, d: nat, a: nat, j: nat) { Cong(Squared(a, d, j), -1, n) }

  /** `n` is a strong probable prime to base `a`. */
  ghost predicate StrongProbable(n: int, a: nat)
    requires n > 1
  {
    var d, s := OddPart(n - 1), TwoAdic(n - 1);
    d >= 0 && (Cong(Pow(a, d), 1, n) || MeetsMinusOne(n, d, a, s))
  }

  /** Squaring doubles the exponent. */
  lemma SquareExponent(a: nat, d: nat, j: nat)
    ensures Squared(a, d, j) * Squared(a, d, j) == Squared(a, d, j + 1)
  {
    MulNonNegative(d, Pow2(j));
    MulNonNegative(d, Pow2(j + 1));
    assert Pow2(j + 1) == 2 * Pow2(j);
    assert d * (2 * Pow2(j)) == d * Pow2(j) + d * Pow2(j);
    PowAdd(a, d * Pow2(j), d * Pow2(j));
  }

  /** The power after `j` squarings is not a square root of one other than one and minus one. */
  ghost predicate TrivialAt(n: int, d: nat, a: nat, j: nat) {
    var x := Squared(a, d, j);
    Cong(x * x, 1, n) ==> Cong(x, 1, n) || Cong(x, -1, n)
  }

  /** A power that is one descends through trivial square roots of one. */
  lemma {:induction false} Descent(n: int, d: nat, a: nat, j: nat)
    requires Cong(Squared(a, d, j), 1, n) && forall i: nat :: i < j ==> TrivialAt(n, d, a, i)
    ensures Cong(Pow(a, d), 1, n) || MeetsMinusOne(n, d, a, j)
  {
    if j == 0 {
      assert Pow2(0) == 1;
    } else {
      SquareExponent(a, d, j - 1);
      assert TrivialAt(n, d, a, j - 1);
      if Cong(Squared(a, d, j - 1), -1, n) {
        assert ReachesMinusOne(n, d, a, j - 1);
      } else {
        Descent(n, d, a, j - 1);
        if MeetsMinusOne(n, d, a, j - 1) {
          var i: nat :| i < j - 1 && ReachesMinusOne(n, d, a, i);
          assert i < j && ReachesMinusOne(n, d, a, i);
        }
      }
    }
  }

  /** Once one, always one. */
  lemma {:induction false} StaysOne(n: int, d: nat, a: nat, i: nat, j: nat)
    requires i <= j && Cong(Squared(a, d, i), 1, n)
    ensures Cong(Squared(a, d, j), 1, n)
  {
    if i < j {
      StaysOne(n, d, a, i, j - 1);
      SquareExponent(a, d, j - 1);
      CongMul(Squared(a, d, j - 1), 1, Squared(a, d, j - 1), 1, n);
    }
  }

  /** From minus one on, the next power and all later ones are one. */
  lemma AfterMinusOne(n: int, d: nat, a: nat, i: nat, j: nat)
    requires i < j && ReachesMinusOne(n, d, a, i)
    ensures Cong(Squared(a, d, j), 1, n)
  {
    MinusOneSquared(Squared(a, d, i), n);
    SquareExponent(a, d, i);
    StaysOne(n, d, a, i + 1, j);
  }

  /** A chain that meets minus one ends in one and has only trivial roots. */
  lemma TrivialChain(n: int, d: nat, a: nat, i: nat, j: nat)
    requires n > 2 && ReachesMinusOne(n, d, a, i)
    ensures TrivialAt(n, d, a, j)
  {
    SquareExponent(a, d, j);
    if j > i {
      AfterMinusOne(n, d, a, i, j);
    } else if j < i && Cong(Squared(a, d, j + 1), 1, n) {
      StaysOne(n, d, a, j + 1, i);
      OneIsNotMinusOne(Squared(a, d, i), n);
    }
  }

  lemma OneIsNotMinusOne(x: int, n: int)
    requires n > 2
    ensures !(Cong(x, 1, n) && Cong(x, -1, n))
  {
    ResidueTests(x, n);
  }

  /**
   * The strong test, in powers alone: `a^(n-1)` is one, and squaring from `a^d` up to it meets no
   * square root of one other than one and minus one.
   */
  lemma StrongExactly(n: int, a: nat, d: nat, s: nat)
    requires n > 2 && d % 2 == 1 && n - 1 == d * Pow2(s)
    ensures StrongProbable(n, a) <==>
              && Cong(Pow(a, n - 1), 1, n)
              && forall j: nat :: j < s ==>
                   var x := Pow(Pow(a, d), Pow2(j)); Cong(x * x, 1, n) ==> Cong(x, 1, n) || Cong(x, -1, n)
  {
    SplitIs(n - 1, d, s);
    StrongChain(n, a, d, s);
    assert Squared(a, d, s) == Pow(a, n - 1);
    forall j: nat | j < s
      ensures TrivialAt(n, d, a, j) <==>
                var x := Pow(Pow(a, d), Pow2(j)); Cong(x * x, 1, n) ==> Cong(x, 1, n) || Cong(x, -1, n)
    {
      SquaredIs(a, d, j);
    }
  }

  lemma SquaredIs(a: nat, d: nat, j: nat)
    ensures Squared(a, d, j) == Pow(Pow(a, d), Pow2(j))
  {
    MulNonNegative(d, Pow2(j));
    PowMul(a, d, Pow2(j));
  }

  lemma StrongChain(n: int, a: nat, d: nat, s: nat)
    requires n > 2
    ensures Cong(Pow(a, d), 1, n) || MeetsMinusOne(n, d, a, s) <==>
              Cong(Squared(a, d, s), 1, n) && forall j: nat :: j < s ==> TrivialAt(n, d, a, j)
  {
    if Cong(Pow(a, d), 1, n) || MeetsMinusOne(n, d, a, s) {
      StrongHasRoots(n, a, d, s);
    } else if Cong(Squared(a, d, s), 1, n) && forall j: nat :: j < s ==> TrivialAt(n, d, a, j) {
      Descent(n, d, a, s);
    }
  }

  lemma StrongHasRoots(n: int, a: nat, d: nat, s: nat)
    requires n > 2 && (Cong(Pow(a, d), 1, n) || MeetsMinusOne(n, d, a, s))
    ensures Cong(Squared(a, d, s), 1, n) && forall j: nat :: j < s ==> TrivialAt(n, d, a, j)
  {
    if Cong(Pow(a, d), 1, n) {
      assert Pow2(0) == 1;
      assert Squared(a, d, 0) == Pow(a, d);
      forall j: nat ensures Cong(Squared(a, d, j), 1, n) { StaysOne(n, d, a, 0, j); }
    } else {
      var i: nat :| i < s && ReachesMinusOne(n, d, a, i);
      AfterMinusOne(n, d, a, i, s);
      forall j: nat | j < s ensures TrivialAt(n, d, a, j) { TrivialChain(n, d, a, i, j); }
    }
  }

  /** A prime passes to every base. */
  lemma PrimePasses(n: int, a: nat)
    requires IsPrime(n) && n > 2 && a % n != 0
    ensures StrongProbable(n, a)
  {
    var d, s := OddPart(n - 1), TwoAdic(n - 1);
    var e := SplitExists(n - 1);
    DivModIs(n - 1, e, 0, Pow2(s));
    Fermat(n, a);
    forall i: nat | i < s ensures TrivialAt(n, d, a, i) {
      MulNonNegative(d, Pow2(i));
      PowNonNegative(a, d * Pow2(i));
      if Cong(Squared(a, d, i) * Squared(a, d, i), 1, n) { RootsOfOne(n, Squared(a, d, i)); }
    }
    Descent(n, d, a, s);
  }

  /** A base that shares a factor with `n` fails. */
  lemma SharedFactorFails(n: int, a: nat, p: int)
    requires n > 2 && 2 <= p && Divides(p, n) && Divides(p, a)
    ensures !StrongProbable(n, a)
  {
    if StrongProbable(n, a) {
      var d := SplitExists(n - 1);
      StrongExactly(n, a, d, TwoAdic(n - 1));
      var k: int :| a == Times(k, p);
      assert Pow(a, n - 1) == a * Pow(a, n - 2);
      assert (k * p) * Pow(a, n - 2) == p * (k * Pow(a, n - 2));
      UnitNoDivisor(p, k * Pow(a, n - 2), n);
    }
  }

  /** All bases decide: an odd number is prime exactly when every base in `[2, n - 2]` passes. */
  lemma AllBasesDecide(n: int)
    requires n >= 5 && n % 2 == 1
    ensures IsPrime(n) <==> forall a: nat :: 2 <= a <= n - 2 ==> StrongProbable(n, a)
  {
    if IsPrime(n) {
      forall a: nat | 2 <= a <= n - 2 ensures StrongProbable(n, a) {
        DivModIs(a, 0, a, n);
        PrimePasses(n, a);
      }
    } else {
      var p: int :| 2 <= p < n && Divides(p, n);
      DividesBy(p, p, 1);
      if p == n - 1 {
        DividesCombination(p, n, p, 1, -1);
        DividesBound(p, 1);
      }
      SharedFactorFails(n, p, p);
    }
  }

  // ------------------------------------------------- one base, masked

  /** Equality of reduced Montgomery forms is equality of the residues. */
  lemma SameResidue(m: MontModulus, v: seq<Limb>, w: seq<Limb>, x: int, y: int)
    requires Tight(m) && Holds(m, v, x) && Holds(m, w, y)
    ensures v == w <==> Cong(x, y, m.N())
  {
    var p, q := Val(B, v, m.s), Val(B, w, m.s);
    if v == w {
      CongSym(p, x * m.R(), m.N());
      CongTrans(x * m.R(), p, y * m.R(), m.N());
      CancelR(m, x, y);
    }
    if Cong(x, y, m.N()) {
      CongScale(x, y, m.R(), m.N());
      CongTrans(p, x * m.R(), y * m.R(), m.N());
      CongSym(q, y * m.R(), m.N());
      CongTrans(p, y * m.R(), q, m.N());
      CongUnique(p, q, m.N());
      ValUnique(B, v, w, m.s);
    }
  }

  lemma HoldsCong(m: MontModulus, v: seq<Limb>, x: int, y: int)
    requires Holds(m, v, x) && Cong(x, y, m.N())
    ensures Holds(m, v, y)
  {
    CongScale(x, y, m.R(), m.N());
    CongTrans(Val(B, v, m.s), x * m.R(), y * m.R(), m.N());
  }

  /** Minus one is met at some squaring in `[from, to)` that the mask `j < s` lets through. */
  ghost predicate MetBetween(n: int, d: nat, a: nat, from: nat, to: nat, s: nat) {
    exists j: nat :: from <= j < to && j < s && ReachesMinusOne(n, d, a, j)
  }

  lemma MetExtend(n: int, d: nat, a: nat, from: nat, to: nat, s: nat)
    requires from <= to
    ensures MetBetween(n, d, a, from, to + 1, s) <==>
              MetBetween(n, d, a, from, to, s) || (to < s && ReachesMinusOne(n, d, a, to))
  {
    if MetBetween(n, d, a, from, to, s) {
      var j: nat :| from <= j < to && j < s && ReachesMinusOne(n, d, a, j);
      assert from <= j < to + 1;
    }
  }

  method SquareOnce(m: MontModulus, x: seq<Limb>, ghost a: nat, ghost d: nat, ghost j: nat) returns (y: seq<Limb>)
    requires m.Valid() && Holds(m, x, Squared(a, d, j))
    ensures Holds(m, y, Squared(a, d, j + 1))
  {
    ghost var p := Squared(a, d, j);
    y := MontSqr(m, x);
    MontOfProduct(m, Val(B, y, m.s), Val(B, x, m.s), Val(B, x, m.s), p, p);
    SquareExponent(a, d, j);
  }

  /** Squarings `from .. to - 1`, each compared with minus one under the mask `j < s`. */
  method MaskedSquarings(m: MontModulus, x: seq<Limb>, minusOne: seq<Limb>, from: nat, to: nat, s: nat, before: bool,
                         ghost a: nat, ghost d: nat)
    returns (y: seq<Limb>, pass: bool)
    requires Tight(m) && m.Valid() && 1 <= from <= to
    requires Holds(m, minusOne, -1) && Holds(m, x, Squared(a, d, from - 1))
    ensures Holds(m, y, Squared(a, d, to - 1))
    ensures pass <==> before || MetBetween(m.N(), d, a, from, to, s)
  {
    y, pass := x, before;
    var j := from;
    while j < to
      invariant from <= j <= to && Holds(m, y, Squared(a, d, j - 1))
      invariant pass <==> before || MetBetween(m.N(), d, a, from, j, s)
    {
      y := SquareOnce(m, y, a, d, j - 1);
      SameResidue(m, y, minusOne, Squared(a, d, j), -1);
      MetExtend(m.N(), d, a, from, j, s);
      pass := pass || (j < s && y == minusOne);
      j := j + 1;
    }
  }

  /** Squarings every base performs, whatever the split. */
  const FIXED_SQUARINGS: nat := 64

  /** `a^d`, compared with one and minus one, and its Montgomery form. */
  method StartRound(m: MontModulus, a: seq<Limb>, d: seq<Limb>) returns (x: seq<Limb>, pass: bool)
    requires Tight(m) && m.Valid() && m.N() > 2 && m.s == |a| && Nat(d) < Pow2(64 * m.s)
    ensures Holds(m, x, Squared(Nat(a), Nat(d), 0))
    ensures pass <==> Cong(Pow(Nat(a), Nat(d)), 1, m.N()) || ReachesMinusOne(m.N(), Nat(d), Nat(a), 0)
  {
    var r := PowBits(m, a, d, 64 * m.s);
    assert Nat(r) == Pow(Nat(a), Nat(d)) % m.N();
    pass := Nat(r) == 1 || Nat(r) == Nat(m.n) - 1;
    x := ToMont(m, r);
    StartIs(m, x, Pow(Nat(a), Nat(d)), Nat(a), Nat(d));
  }

  lemma StartIs(m: MontModulus, x: seq<Limb>, p: int, a: nat, d: nat)
    requires Tight(m) && m.N() > 2 && Holds(m, x, p % m.N()) && p == Pow(a, d)
    ensures Holds(m, x, Squared(a, d, 0))
    ensures p % m.N() == 1 || p % m.N() == m.N() - 1 <==> Cong(p, 1, m.N()) || ReachesMinusOne(m.N(), d, a, 0)
  {
    assert Pow2(0) == 1;
    assert Squared(a, d, 0) == p;
    CongMod(p, m.N());
    ResidueTests(p, m.N());
    HoldsCong(m, x, p % m.N(), p);
  }

  lemma ResidueTests(p: int, n: int)
    requires n > 2
    ensures (p % n == 1 <==> Cong(p, 1, n)) && (p % n == n - 1 <==> Cong(p, -1, n))
  {
    CongIsMod(p, 1, n);
    CongIsMod(p, -1, n);
    DivModIs(1, 0, 1, n);
    DivModIs(-1, -1, n - 1, n);
  }

  /**
   * One base: sixty-three fixed squarings, and the full-width tail only when the split is longer.
   * It passes exactly when `a^(n-1)` is one and the chain of squares leading to it meets no square
   * root of one other than one and minus one.
   */
  method Round(m: MontModulus, minusOne: seq<Limb>, a: seq<Limb>, d: seq<Limb>, s: nat) returns (pass: bool)
    requires Tight(m) && m.Valid() && m.N() > 2 && m.s == |a| && Holds(m, minusOne, -1)
    requires m.N() - 1 == Nat(d) * Pow2(s) && Nat(d) % 2 == 1 && 1 <= s < 64 * m.s && Nat(d) < Pow2(64 * m.s)
    ensures pass <==>
              && Cong(Pow(Nat(a), m.N() - 1), 1, m.N())
              && forall j: nat :: j < s ==>
                   var x := Pow(Pow(Nat(a), Nat(d)), Pow2(j));
                   Cong(x * x, 1, m.N()) ==> Cong(x, 1, m.N()) || Cong(x, -1, m.N())
    ensures pass <==> StrongProbable(m.N(), Nat(a))
  {
    ghost var b, e, n := Nat(a), Nat(d), m.N();
    SplitIs(n - 1, e, s);
    StrongExactly(n, b, e, s);
    var x, first := StartRound(m, a, d);
    x, pass := MaskedSquarings(m, x, minusOne, 1, FIXED_SQUARINGS, s, first, b, e);
    if s > FIXED_SQUARINGS {
      x, pass := MaskedSquarings(m, x, minusOne, FIXED_SQUARINGS, 64 * m.s, s, pass, b, e);
      MetJoin(n, e, b, FIXED_SQUARINGS, 64 * m.s, s);
      MetAll(n, e, b, 64 * m.s, s);
    } else {
      MetAll(n, e, b, FIXED_SQUARINGS, s);
    }
  }

  lemma MetJoin(n: int, d: nat, a: nat, mid: nat, to: nat, s: nat)
    requires 1 <= mid <= to
    ensures MetBetween(n, d, a, 1, mid, s) || MetBetween(n, d, a, mid, to, s) <==> MetBetween(n, d, a, 1, to, s)
  {
    if MetBetween(n, d, a, 1, mid, s) {
      var j: nat :| 1 <= j < mid && j < s && ReachesMinusOne(n, d, a, j);
      assert 1 <= j < to;
    }
    if MetBetween(n, d, a, mid, to, s) {
      var j: nat :| mid <= j < to && j < s && ReachesMinusOne(n, d, a, j);
      assert 1 <= j < to;
    }
    if MetBetween(n, d, a, 1, to, s) {
      var j: nat :| 1 <= j < to && j < s && ReachesMinusOne(n, d, a, j);
      if j < mid { assert 1 <= j < mid; } else { assert mid <= j < to; }
    }
  }

  /** The first comparison and all squarings below `s` are the textbook condition. */
  lemma MetAll(n: int, d: nat, a: nat, to: nat, s: nat)
    requires 1 <= s <= to
    ensures ReachesMinusOne(n, d, a, 0) || MetBetween(n, d, a, 1, to, s) <==> MeetsMinusOne(n, d, a, s)
  {
    if ReachesMinusOne(n, d, a, 0) { assert 0 < s; }
    if MetBetween(n, d, a, 1, to, s) {
      var j: nat :| 1 <= j < to && j < s && ReachesMinusOne(n, d, a, j);
      assert j < s;
    }
    if MeetsMinusOne(n, d, a, s) {
      var j: nat :| j < s && ReachesMinusOne(n, d, a, j);
      if j > 0 { assert 1 <= j < to; }
    }
  }

  // ------------------------------------------------------------ all the bases

  /** A draw reduced, with the useless `0`, `1`, `n - 1` mapped to two. */
  function BaseOf(n: nat, draw: nat): (a: nat)
    requires n >= 5
    ensures 2 <= draw % n <= n - 2 ==> a == draw % n
    ensures !(2 <= draw % n <= n - 2) ==> a == 2
  {
    var a := draw % n;
    if a == 0 || a == 1 || a == n - 1 then 2 else a
  }

  method RandomBase(m: MontModulus, draw: seq<Limb>) returns (a: seq<Limb>)
    requires Tight(m) && m.Valid() && m.N() >= 5 && |draw| >= 1
    ensures |a| == m.s
    ensures 2 <= Nat(draw) % m.N() <= m.N() - 2 ==> Nat(a) == Nat(draw) % m.N()
    ensures !(2 <= Nat(draw) % m.N() <= m.N() - 2) ==> Nat(a) == 2
  {
    a := Reduce(m, draw);
    var v := Nat(a);
    if v == 0 || v == 1 || v == Nat(m.n) - 1 {
      a := Resized([2], m.s);
      assert Nat([2]) == 2 by { assert Val(B, [2], 1) == Val(B, [2], 0) + 2 * Pow(B, 0); }
    }
  }

  /** `n - 1`, at the width of `n`. */
  method MinusOne(n: seq<Limb>) returns (r: seq<Limb>)
    requires |n| >= 1 && Nat(n) >= 1
    ensures |r| == |n| && Nat(r) == Nat(n) - 1
  {
    assert Nat([1]) == 1 by { assert Val(B, [1], 1) == Val(B, [1], 0) + 1 * Pow(B, 0); }
    var bo;
    r, bo := SbbLimbs(n, Resized([1], |n|), 0);
    BorrowIsZero(Nat(r), bo, Pow(B, |n|), Nat(n) - 1);
  }

  /**
   * The rounds, one per draw: accepted exactly when every drawn base finds a strong probable
   * prime. In particular a prime is never rejected, whatever is drawn.
   */
  method Rounds(n: seq<Limb>, draws: seq<seq<Limb>>) returns (res: bool)
    requires |n| >= 1 && Nat(n) >= 5 && n[0] % 2 == 1 && forall k :: 0 <= k < |draws| ==> |draws[k]| >= 1
    ensures res <==> forall k :: 0 <= k < |draws| ==> StrongProbable(Nat(n), BaseOf(Nat(n), Nat(draws[k])))
    ensures IsPrime(Nat(n)) ==> res
  {
    var m, minusOne, d, s := Prepare(n);
    res := true;
    var i := 0;
    while i < |draws|
      invariant 0 <= i <= |draws|
      invariant forall k :: 0 <= k < i ==> StrongProbable(Nat(n), BaseOf(Nat(n), Nat(draws[k])))
    {
      var a := RandomBase(m, draws[i]);
      var pass := Round(m, minusOne, a, d, s);
      if !pass {
        BaseNonzero(Nat(n), Nat(draws[i]));
        return false;
      }
      i := i + 1;
    }
  }

  /** What every round shares: the modulus, the Montgomery form of minus one, and the split. */
  method Prepare(n: seq<Limb>) returns (m: MontModulus, minusOne: seq<Limb>, d: seq<Limb>, s: nat)
    requires |n| >= 1 && Nat(n) >= 5 && n[0] % 2 == 1
    ensures Tight(m) && m.Valid() && m.N() == Nat(n) && Holds(m, minusOne, -1)
    ensures Nat(n) - 1 == Nat(d) * Pow2(s) && Nat(d) % 2 == 1 && 1 <= s < 64 * m.s && Nat(d) < Pow2(64 * m.s)
  {
    m := NewBoxed(n);
    ParityOfLow(n, |n|);
    var less := MinusOne(m.n);
    d, s := SplitPow2(less);
    SplitRange(Nat(n), Nat(less), Nat(d), s);
    minusOne := ToMont(m, less);
    CongBy(Nat(less), -1, m.N(), 1);
    HoldsCong(m, minusOne, Nat(less), -1);
    Pow2OfLimbs(m.s);
  }

  lemma SplitRange(n: nat, less: nat, d: nat, s: nat)
    requires n >= 5 && n % 2 == 1 && less == n - 1 && less == d * Pow2(s) && d % 2 == 1
    ensures s >= 1
  {
    assert Pow2(0) == 1;
  }

  /** A rejecting base would contradict primality. */
  lemma BaseNonzero(n: nat, draw: nat)
    requires n >= 5 && !StrongProbable(n, BaseOf(n, draw))
    ensures !IsPrime(n)
  {
    var a := BaseOf(n, draw);
    DivModIs(a, 0, a, n);
    if IsPrime(n) { PrimePasses(n, a); }
  }
}
