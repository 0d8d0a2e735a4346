/** The primality decision and the safe-prime test. */
module PrimeTests {
  import opened Arith
  import opened Limbs
  import opened Bits
  import opened Gcd
  import opened Primes
  import opened Montgomery
  import opened BoxedMont
  import opened Ladders
  import opened PowerSplit
  import opened TrialDivision
  import opened MillerRabin

  /** Bits below which the table alone decides. */
  const EXACT_BITS: nat := 28

  lemma ExactBound()
    ensures Pow2(EXACT_BITS) == BOUND * BOUND
  {
    assert Pow2(4) == 16 by { Pow2Limb(); }
    Pow2Add(4, 4);
    Pow2Add(8, 4);
    assert Pow2(2) == 4 by { Pow2Limb(); }
    Pow2Add(12, 2);
    Pow2Add(14, 14);
  }

  ghost predicate Draws(draws: seq<seq<Limb>>) { forall k :: 0 <= k < |draws| ==> |draws[k]| >= 1 }

  /** What is left of a composite that is accepted. */
  ghost predicate Undecided(n: nat, draws: seq<seq<Limb>>) {
    && n >= BOUND * BOUND && n % 2 == 1
    && (forall p: int :: IsPrime(p) && p < BOUND ==> !Divides(p, n))
    && forall k :: 0 <= k < |draws| ==> StrongProbable(n, BaseOf(n, Nat(draws[k])))
  }

  /**
   * Primes are always accepted; below `2^28` nothing else is; above, a composite is accepted exactly
   * when it has no factor below `2^14` and is a strong probable prime to every base drawn. So it
   * passes for the residue of every draw that has one in `[2, n - 2]`.
   */
  method IsPrimeWith(n: seq<Limb>, draws: seq<seq<Limb>>, td: Table) returns (res: bool)
    requires |n| >= 1 && td.Valid() && Draws(draws)
    ensures IsPrime(Nat(n)) ==> res
    ensures res <==> IsPrime(Nat(n)) || Undecided(Nat(n), draws)
    ensures res && !IsPrime(Nat(n)) ==> Nat(n) > 0 && forall k :: 0 <= k < |draws| ==>
              var x := Nat(draws[k]) % Nat(n); 2 <= x <= Nat(n) - 2 ==> StrongProbable(Nat(n), x)
  {
    ParityOfLow(n, |n|);
    var v := Nat(n);
    if v == 0 || v == 1 { return false; }
    if v == 2 {
      TwoIsPrime();
      return true;
    }
    if n[0] % 2 == 0 {
      EvenComposite(v);
      return false;
    }
    var f := SmallFactor(td, n);
    if f.Some? {
      FactorDecides(f.value, v);
      return v == f.value;
    }
    var high := ShrBits(n, EXACT_BITS);
    ExactBound();
    HighZero(v, BOUND * BOUND);
    if Nat(high) == 0 {
      NoFactorDecides(td.primes, v);
      return true;
    }
    res := Rounds(n, draws);
    NoSmallPrime(td.primes, v);
  }

  lemma TwoIsPrime()
    ensures IsPrime(2)
  {
  }

  lemma EvenComposite(n: nat)
    requires n > 2 && n % 2 == 0
    ensures !IsPrime(n)
  {
    DividesBy(2, n, n / 2);
  }

  lemma HighZero(v: nat, w: int)
    requires w > 0
    ensures v / w == 0 <==> v < w
  {
    if v < w { DivModIs(v, 0, v, w); }
    assert v == w * (v / w) + v % w;
  }

  lemma NoSmallPrime(ps: seq<int>, n: nat)
    requires OddPrimesBelow(ps, BOUND) && n % 2 == 1 && forall p: int :: p in ps ==> !Divides(p, n)
    ensures forall p: int :: IsPrime(p) && p < BOUND ==> !Divides(p, n)
  {
    forall p: int | IsPrime(p) && p < BOUND ensures !Divides(p, n) {
      if Divides(p, n) { OddFactor(p, n); }
    }
  }

  // --------------------------------------------------------- the safe primes

  /** Every drawn base has `a^q = 1`, so none of them is a witness. */
  ghost predicate AllOnes(p: nat, q: nat, draws: seq<seq<Limb>>)
    requires p >= 5
  {
    forall k :: 0 <= k < |draws| ==> Cong(Pow(BaseOf(p, Nat(draws[k])), q), 1, p)
  }

  /** Draw `k` is the first whose power is not one, and it is minus one. */
  ghost predicate Witnessed(p: nat, q: nat, draws: seq<seq<Limb>>, k: int)
    requires p >= 5 && 0 <= k < |draws|
  {
    AllOnes(p, q, draws[..k]) && Cong(Pow(BaseOf(p, Nat(draws[k])), q), -1, p)
  }

  /** Every drawn base is a square modulo `p`. */
  ghost predicate AllSquares(p: nat, draws: seq<seq<Limb>>)
    requires p >= 5
  {
    forall k :: 0 <= k < |draws| ==> IsSquare(BaseOf(p, Nat(draws[k])), p)
  }

  /** For a safe prime the two say the same, by Euler's criterion. */
  lemma OnesAreSquares(p: nat, q: nat, draws: seq<seq<Limb>>)
    requires p >= 7 && p == 2 * q + 1 && IsPrime(p) && IsPrime(q)
    ensures AllOnes(p, q, draws) <==> AllSquares(p, draws)
  {
    if q % 2 == 0 { EvenComposite(q); }
    forall k | 0 <= k < |draws|
      ensures Cong(Pow(BaseOf(p, Nat(draws[k])), q), 1, p) <==> IsSquare(BaseOf(p, Nat(draws[k])), p)
    {
      var a := BaseOf(p, Nat(draws[k]));
      DivModIs(a, 0, a, p);
      EulerCriterion(p, q, a);
    }
  }

  /**
   * Safe-prime test. An accept proves `p` prime as soon as `q` is. A safe prime is rejected exactly
   * when it has at least 29 bits and every base drawn was a square; so it is accepted as soon as some
   * draw has a residue in `[2, p - 2]` that is not a square. Below `2^28` the test is exact.
   */
  method IsSafePrime(p: seq<Limb>, drawsQ: seq<seq<Limb>>, drawsP: seq<seq<Limb>>) returns (res: bool)
    requires |p| >= 1 && Draws(drawsQ) && Draws(drawsP)
    ensures var v, q := Nat(p), Nat(p) / 2;
            && (res ==> v >= 5 && v == 2 * q + 1 && (IsPrime(q) || Undecided(q, drawsQ)) && (IsPrime(q) ==> IsPrime(v)))
            && (IsPrime(v) && IsPrime(q) ==> v >= 5 && (res <==> v < BOUND * BOUND || !AllSquares(v, drawsP)))
            && (v < BOUND * BOUND ==> (res <==> v >= 5 && v % 2 == 1 && IsPrime(q) && IsPrime(v)))
    ensures var v, q := Nat(p), Nat(p) / 2;
            v >= BOUND * BOUND ==> (res <==>
              && v % 2 == 1 && (forall r: int :: IsPrime(r) && r < BOUND ==> !Divides(r, v))
              && (IsPrime(q) || Undecided(q, drawsQ))
              && exists k :: 0 <= k < |drawsP| && Witnessed(v, q, drawsP, k))
    ensures IsPrime(Nat(p)) && IsPrime(Nat(p) / 2) && !res ==> forall k :: 0 <= k < |drawsP| ==>
              var x := Nat(drawsP[k]) % Nat(p); 2 <= x <= Nat(p) - 2 ==> IsSquare(x, Nat(p))
  {
    var v := Nat(p);
    ghost var q := v / 2;
    ParityOfLow(p, |p|);
    var bits := BitLen(p);
    SafeStart(v, bits);
    if p[0] % 2 == 0 || bits < 3 { return false; }
    var td := TrialDivision.New();
    var f := SmallFactor(td, p);
    if f.Some? && v != f.value {
      FactorDecides(f.value, v);
      return false;
    }
    if f.None? { NoSmallPrime(td.primes, v); }
    var less := MinusOne(p);
    var half := ShrBits(less, 1);
    assert Nat(half) == q by { assert Pow2(1) == 2 by { Pow2Limb(); } }
    var ok := IsPrimeWith(half, drawsQ, td);
    if !ok { return false; }
    ExactBound();
    BitBound(v, bits);
    if bits <= EXACT_BITS {
      if f.None? { NoFactorDecides(td.primes, v); }
      return true;
    }
    res := LucasRounds(p, half, drawsP);
    if IsPrime(v) && IsPrime(q) { OnesAreSquares(v, q, drawsP); }
  }

  /** Odd numbers of at least three bits are at least five; smaller ones are no safe primes. */
  lemma SafeStart(v: nat, bits: nat)
    requires bits == 0 <==> v == 0
    requires bits > 0 ==> Pow2(bits - 1) <= v < Pow2(bits)
    ensures bits < 3 <==> v < 4
    ensures v < 4 || v % 2 == 0 ==> !IsPrime(v) || !IsPrime(v / 2)
  {
    Pow2Limb();
    if bits < 3 {
      PowMonotone(2, bits, 2);
    } else {
      PowMonotone(2, 2, bits - 1);
    }
    if v % 2 == 0 && v > 2 { EvenComposite(v); }
  }

  lemma BitBound(v: nat, bits: nat)
    requires bits > 0 && Pow2(bits - 1) <= v < Pow2(bits)
    ensures bits <= EXACT_BITS <==> v < Pow2(EXACT_BITS)
  {
    if bits <= EXACT_BITS { PowMonotone(2, bits, EXACT_BITS); } else { PowMonotone(2, EXACT_BITS, bits - 1); }
  }

  /** One exponentiation decides each witness: minus one proves, one is inconclusive, else composite. */
  method LucasRounds(p: seq<Limb>, q: seq<Limb>, draws: seq<seq<Limb>>) returns (res: bool)
    requires |p| >= 1 && |q| == |p| && Nat(p) >= BOUND * BOUND && Nat(p) == 2 * Nat(q) + 1 && p[0] % 2 == 1
             && Draws(draws)
    ensures res <==> exists k :: 0 <= k < |draws| && Witnessed(Nat(p), Nat(q), draws, k)
    ensures res && IsPrime(Nat(q)) ==> IsPrime(Nat(p))
    ensures AllOnes(Nat(p), Nat(q), draws) ==> !res
    ensures IsPrime(Nat(p)) ==> (res <==> !AllOnes(Nat(p), Nat(q), draws))
    ensures IsPrime(Nat(p)) && !res ==> forall k :: 0 <= k < |draws| ==>
              var x := Nat(draws[k]) % Nat(p); 2 <= x <= Nat(p) - 2 ==> Cong(Pow(x, Nat(q)), 1, Nat(p))
  {
    var m := NewBoxed(p);
    Pow2OfLimbs(m.s);
    ExponentFits(m, Nat(q));
    ghost var v, e := Nat(p), Nat(q);
    var i := 0;
    while i < |draws|
      invariant 0 <= i <= |draws|
      invariant forall k :: 0 <= k < i ==> Cong(Pow(BaseOf(v, Nat(draws[k])), e), 1, v)
    {
      var a := RandomBase(m, draws[i]);
      var t := PowBits(m, a, q, 64 * m.s);
      ghost var x := Pow(Nat(a), e);
      assert Nat(t) == x % v;
      ResidueTests(x, v);
      if Nat(t) == Nat(m.n) - 1 {
        if IsPrime(e) { Certified(v, e, Nat(a)); }
        NotBoth(x, v);
        assert Witnessed(v, e, draws, i);
        return true;
      }
      if Nat(t) != 1 {
        if IsPrime(v) { HalfPower(v, e, Nat(a)); }
        NoWitness(v, e, draws, i);
        return false;
      }
      i := i + 1;
    }
    NoWitness(v, e, draws, |draws|);
    res := false;
  }

  /** After ones only, a power that is neither one nor minus one ends the search. */
  lemma NoWitness(p: nat, q: nat, draws: seq<seq<Limb>>, i: nat)
    requires p >= 5 && i <= |draws| && forall k :: 0 <= k < i ==> Cong(Pow(BaseOf(p, Nat(draws[k])), q), 1, p)
    requires i < |draws| ==> var x := Pow(BaseOf(p, Nat(draws[i])), q); !Cong(x, 1, p) && !Cong(x, -1, p)
    ensures !exists k :: 0 <= k < |draws| && Witnessed(p, q, draws, k)
  {
    forall k | 0 <= k < |draws| ensures !Witnessed(p, q, draws, k) {
      if k < i {
        if Witnessed(p, q, draws, k) { NotBoth(Pow(BaseOf(p, Nat(draws[k])), q), p); }
      } else if k > i {
        assert draws[..k][i] == draws[i];
      }
    }
  }

  lemma NotBoth(x: int, p: int)
    requires p >= 5 && Cong(x, -1, p)
    ensures !Cong(x, 1, p)
  {
    NotTwo(p);
    if Cong(x, 1, p) {
      CongSym(x, 1, p);
      CongTrans(1, x, -1, p);
    }
  }

  lemma ExponentFits(m: MontModulus, q: nat)
    requires Tight(m) && m.N() == 2 * q + 1
    ensures q < Pow2(64 * m.s)
  {
    Pow2OfLimbs(m.s);
    ModulusPositive(m);
  }

  lemma Certified(p: nat, q: nat, a: nat)
    requires p == 2 * q + 1 && p >= BOUND * BOUND && IsPrime(q) && Witness(p, q, a)
    ensures IsPrime(p)
  {
    if q % 2 == 0 { EvenComposite(q); }
    Lucas(p, q, a);
  }
}
