/** The trial-division table: sieve, batched residues, and what they decide. */
module TrialDivision {
  import opened Arith
  import opened Limbs
  import opened Gcd
  import opened Primes
  import opened Reciprocal
  import opened Options

  /** Exclusive bound of the table; every number below its square is decided by the table. */
  const BOUND: nat := 16384

  /** The primes of a table, ascending and complete: exactly the odd primes below `bound`. */
  ghost predicate OddPrimesBelow(ps: seq<int>, bound: int) {
    && (forall i, j :: 0 <= i < j < |ps| ==> ps[i] < ps[j])
    && forall x: int :: x in ps <==> x % 2 == 1 && x < bound && IsPrime(x)
  }

  datatype Table = Table(primes: seq<int>, recips: seq<int>)
  {
    ghost predicate Valid() {
      && OddPrimesBelow(primes, BOUND) && |recips| == |primes|
      && forall i :: 0 <= i < |primes| ==> 3 <= primes[i] < BOUND && recips[i] == Recip32(primes[i])
    }
  }

  // ---------------------------------------------------------------- the sieve

  /** Some `p` of the table has an odd multiple at `x`, at or above its square. */
  ghost predicate Struck(ps: seq<int>, x: int) {
    exists k :: 0 <= k < |ps| && StruckBy(ps[k], x)
  }

  ghost predicate StruckBy(p: int, x: int) { p * p <= x && Divides(p, x) }

  /** With all smaller odd primes in the table, an odd number is struck exactly when composite. */
  lemma StruckIsComposite(ps: seq<int>, i: int)
    requires OddPrimesBelow(ps, i) && i >= 3 && i % 2 == 1
    ensures Struck(ps, i) <==> !IsPrime(i)
  {
    if Struck(ps, i) {
      var k :| 0 <= k < |ps| && StruckBy(ps[k], i);
      assert ps[k] in ps;
      assert 2 <= ps[k] < i && Divides(ps[k], i);
    }
    if !IsPrime(i) {
      var p := LeastFactor(i, 2);
      assert p < i;
      OddFactor(p, i);
      assert p in ps;
      var k :| 0 <= k < |ps| && ps[k] == p;
      assert StruckBy(ps[k], i);
    }
  }

  lemma OddFactor(p: int, n: int)
    requires Divides(p, n) && n % 2 == 1
    ensures p % 2 == 1
  {
    var k := Quotient(p, n);
    ProductParity(k, p);
  }

  lemma StruckExtend(ps: seq<int>, i: int, x: int)
    ensures Struck(ps + [i], x) <==> Struck(ps, x) || StruckBy(i, x)
  {
    var qs := ps + [i];
    if Struck(ps, x) {
      var k :| 0 <= k < |ps| && StruckBy(ps[k], x);
      assert StruckBy(qs[k], x);
    }
    if StruckBy(i, x) { assert StruckBy(qs[|ps|], x); }
    if Struck(qs, x) {
      var k :| 0 <= k < |qs| && StruckBy(qs[k], x);
      if k < |ps| { assert StruckBy(ps[k], x); }
    }
  }

  lemma PrimesExtend(ps: seq<int>, i: int)
    requires OddPrimesBelow(ps, i) && i % 2 == 1
    ensures IsPrime(i) ==> OddPrimesBelow(ps + [i], i + 2)
    ensures !IsPrime(i) ==> OddPrimesBelow(ps, i + 2)
  {
    forall k | 0 <= k < |ps| ensures ps[k] < i { assert ps[k] in ps; }
    forall x: int ensures x in ps + [i] <==> x in ps || x == i { }
  }

  /** The marks on odd numbers: everything struck so far. */
  ghost predicate Marks(composite: seq<bool>, ps: seq<int>) {
    forall x :: 0 <= x < |composite| && x % 2 == 1 ==> (composite[x] <==> Struck(ps, x))
  }

  /** Struck so far: the odd multiples of `i` below `j = i·(i + 2t)`, the next one. */
  ghost predicate Striking(start: seq<bool>, now: seq<bool>, i: int, t: nat, j: int) {
    && |start| == |now| && j == i * (i + 2 * t)
    && forall x :: 0 <= x < |now| && x % 2 == 1 ==> (now[x] <==> start[x] || (x < j && StruckBy(i, x)))
  }

  lemma StrikeNext(start: seq<bool>, now: seq<bool>, i: nat, t: nat, j: nat)
    requires i >= 3 && i % 2 == 1 && Striking(start, now, i, t, j) && j < |now|
    ensures Striking(start, now[j := true], i, t + 1, j + 2 * i)
  {
    StruckAt(i, t, j);
    assert i * (i + 2 * t) + 2 * i == i * (i + 2 * (t + 1));
    var next := now[j := true];
    forall x | 0 <= x < |next| && x % 2 == 1
      ensures next[x] <==> start[x] || (x < j + 2 * i && StruckBy(i, x))
    {
      if x < j { } else if x == j { } else if x < j + 2 * i { assert !StruckBy(i, x); }
    }
  }

  /** Nothing is struck below the square. */
  lemma StrikeStart(start: seq<bool>, i: nat)
    ensures Striking(start, start, i, 0, i * i)
  {
  }

  /** Strikes the odd multiples of `i` from its square on. */
  method Strike(composite: array<bool>, i: nat)
    requires i >= 3 && i % 2 == 1
    modifies composite
    ensures forall x :: 0 <= x < composite.Length && x % 2 == 1 ==>
              (composite[x] <==> old(composite[x]) || StruckBy(i, x))
  {
    ghost var start := composite[..];
    var j := i * i;
    MulNonNegative(i, i);
    StrikeStart(start, i);
    ghost var t := 0;
    while j < composite.Length
      invariant t >= 0 && j >= 0 && Striking(start, composite[..], i, t, j)
      decreases composite.Length - j
    {
      ghost var now := composite[..];
      StrikeNext(start, now, i, t, j);
      composite[j] := true;
      assert composite[..] == now[j := true];
      j, t := j + 2 * i, t + 1;
    }
  }

  /** The next odd multiple struck after `j` is `j + 2i`. */
  lemma StruckAt(i: nat, t: nat, j: int)
    requires i >= 3 && i % 2 == 1 && j == i * (i + 2 * t)
    ensures StruckBy(i, j)
    ensures forall x: int :: j < x < j + 2 * i && x % 2 == 1 ==> !StruckBy(i, x)
  {
    var m := i + 2 * t;
    assert j == m * i && m % 2 == 1;
    DividesBy(i, j, m);
    MulMono(i, m, i);
    forall x: int | j < x < j + 2 * i && x % 2 == 1 ensures !StruckBy(i, x) {
      if Divides(i, x) { NextMultiple(i, m, x); }
    }
  }

  lemma NextMultiple(i: nat, m: int, x: int)
    requires i >= 3 && i % 2 == 1 && m % 2 == 1 && Divides(i, x) && x % 2 == 1 && m * i < x
    ensures x >= m * i + 2 * i
  {
    var k := Quotient(i, x);
    ProductParity(k, i);
    MulCancelLess(m, k, i);
    assert k >= m + 2;
    MulMono(m + 2, k, i);
    assert (m + 2) * i == m * i + 2 * i;
  }

  /** Eratosthenes over the odd numbers. */
  method Sieve(bound: nat) returns (ps: seq<int>)
    ensures OddPrimesBelow(ps, bound)
  {
    var composite := new bool[bound](_ => false);
    ps := [];
    var i := 3;
    NoPrimesBelowThree();
    while i < bound
      invariant i >= 3 && i % 2 == 1 && (i <= bound + 1 || i == 3)
      invariant OddPrimesBelow(ps, i) && Marks(composite[..], ps)
      decreases bound - i
    {
      StruckIsComposite(ps, i);
      PrimesExtend(ps, i);
      if !composite[i] {
        ghost var before := composite[..];
        Strike(composite, i);
        MarksExtend(before, composite[..], ps, i);
        ps := ps + [i];
      }
      i := i + 2;
    }
    Truncate(ps, i, bound);
  }

  lemma NoPrimesBelowThree()
    ensures OddPrimesBelow([], 3)
  {
    forall x: int | x % 2 == 1 && x < 3 ensures !IsPrime(x) { }
  }

  lemma MarksExtend(before: seq<bool>, after: seq<bool>, ps: seq<int>, i: int)
    requires |before| == |after| && Marks(before, ps)
    requires forall x :: 0 <= x < |after| && x % 2 == 1 ==> (after[x] <==> before[x] || StruckBy(i, x))
    ensures Marks(after, ps + [i])
  {
    forall x | 0 <= x < |after| && x % 2 == 1 ensures after[x] <==> Struck(ps + [i], x) {
      StruckExtend(ps, i, x);
    }
  }

  /** The loop ends on the first odd number at or past the bound. */
  lemma Truncate(ps: seq<int>, i: int, bound: nat)
    requires OddPrimesBelow(ps, i) && i >= bound && i % 2 == 1 && (i <= bound + 1 || i == 3)
    ensures OddPrimesBelow(ps, bound)
  {
    forall x: int ensures x in ps <==> x % 2 == 1 && x < bound && IsPrime(x) {
      if x % 2 == 1 && bound <= x < i { assert x < 3; }
    }
  }

  /** The table, with its reciprocals. */
  method New() returns (td: Table)
    ensures td.Valid()
  {
    var ps := Sieve(BOUND);
    forall k | 0 <= k < |ps| ensures 3 <= ps[k] < BOUND { assert ps[k] in ps; }
    td := Table(ps, seq(|ps|, k requires 0 <= k < |ps| => Recip32(ps[k])));
  }

  // ------------------------------------------------------- batched residues

  /** Every prime of the batch divides its product, so the batch remainder decides each residue. */
  lemma BatchResidue(n: nat, product: int, p: int)
    requires product > 0 && p > 0 && Divides(p, product)
    ensures (n % product) % p == n % p
  {
    var k := Quotient(p, product);
    assert product == p * k;
    if k <= 0 { MulMono(k, 0, p); }
    ModOfMod(n, p, k);
  }

  /** The longest run of primes from `start` whose product stays below `2^32`. */
  method Batch(td: Table, start: nat) returns (product: int, end: nat)
    requires td.Valid() && start < |td.primes|
    ensures start < end <= |td.primes| && 2 <= product < H
    ensures forall k :: start <= k < end ==> Divides(td.primes[k], product)
  {
    product, end := 1, start;
    while end < |td.primes| && product * td.primes[end] < H
      invariant start <= end <= |td.primes| && 1 <= product < H
      invariant end == start ==> product == 1
      invariant end > start ==> product >= 2
      invariant forall k :: start <= k < end ==> Divides(td.primes[k], product)
    {
      var p := td.primes[end];
      forall k | start <= k < end + 1 ensures Divides(td.primes[k], product * p) {
        if k < end {
          DividesBy(product, product * p, p);
          DividesTrans(td.primes[k], product, product * p);
        } else {
          DividesBy(p, product * p, product);
        }
      }
      MulMono(1, product, p);
      product, end := product * p, end + 1;
    }
  }

  /** `n mod p` for every prime of the table and every limb sequence. */
  method Residues(td: Table, n: seq<Limb>) returns (res: seq<int>)
    requires td.Valid()
    ensures |res| == |td.primes| && forall k :: 0 <= k < |res| ==> res[k] == Nat(n) % td.primes[k]
  {
    res := [];
    while |res| < |td.primes|
      invariant |res| <= |td.primes|
      invariant forall k :: 0 <= k < |res| ==> res[k] == Nat(n) % td.primes[k]
    {
      var product, end := Batch(td, |res|);
      var rem := ModSmallLimbs(n, product);
      CongMod(Nat(n), product);
      while |res| < end
        invariant |res| <= end
        invariant forall k :: 0 <= k < |res| ==> res[k] == Nat(n) % td.primes[k]
        decreases end - |res|
      {
        var p := td.primes[|res|];
        ModWithRecipIs(rem, p);
        BatchResidue(Nat(n), product, p);
        res := res + [ModWithRecip(rem, p, td.recips[|res|])];
      }
    }
  }

  lemma ShiftedResidue(n: nat, p: int, r: int, delta: nat)
    requires p > 0 && r == n % p
    ensures (r + delta) % p == (n + delta) % p
  {
    CongMod(n, p);
    CongSelf(delta, p);
    CongAdd(r, n, delta, delta, p);
    CongIsMod(r + delta, n + delta, p);
  }

  /** The top bit of the wrapping `m - 1`. */
  function TopOfBorrow(m: int): int { (m - 1) % B / (B / 2) }

  /** Set exactly when the prime divides the shifted candidate. */
  lemma SieveTest(n: nat, p: int, r: int, delta: nat)
    requires 3 <= p < BOUND && r == n % p && delta < 0x8000_0000
    ensures r + delta >= 0 && (TopOfBorrow(ModWithRecip(r + delta, p, Recip32(p))) == 1 <==> Divides(p, n + delta))
  {
    CongMod(n, p);
    ModWithRecipIs(r + delta, p);
    ShiftedResidue(n, p, r, delta);
    DividesIsMod(p, n + delta);
    CongMod(n + delta, p);
    BorrowTest((n + delta) % p);
  }

  lemma BorrowTest(m: int)
    requires 0 <= m < H
    ensures TopOfBorrow(m) == 1 <==> m == 0
  {
  }

  /** Whether `n + delta` has no factor in the table, from the residues of `n` alone. */
  method Passes(td: Table, res: seq<int>, delta: nat, ghost n: nat) returns (ok: bool)
    requires td.Valid() && delta < 0x8000_0000
    requires |res| == |td.primes| && forall k :: 0 <= k < |res| ==> res[k] == n % td.primes[k]
    ensures ok <==> forall k :: 0 <= k < |td.primes| ==> !Divides(td.primes[k], n + delta)
  {
    var anyZero := 0;
    for k := 0 to |res|
      invariant 0 <= anyZero <= 1
      invariant anyZero == 0 <==> forall i :: 0 <= i < k ==> !Divides(td.primes[i], n + delta)
    {
      var p := td.primes[k];
      SieveTest(n, p, res[k], delta);
      var m := ModWithRecip(res[k] + delta, p, td.recips[k]);
      if TopOfBorrow(m) == 1 { anyZero := 1; }
    }
    ok := anyZero == 0;
  }

  /** The smallest table prime dividing `n`, if any. */
  method SmallFactor(td: Table, n: seq<Limb>) returns (f: Option<int>)
    requires td.Valid()
    ensures f.Some? ==> f.value in td.primes && Divides(f.value, Nat(n))
    ensures f.Some? ==> forall p: int :: p in td.primes && p < f.value ==> !Divides(p, Nat(n))
    ensures f.None? ==> forall p: int :: p in td.primes ==> !Divides(p, Nat(n))
  {
    var res := Residues(td, n);
    for k := 0 to |res|
      invariant forall i :: 0 <= i < k ==> !Divides(td.primes[i], Nat(n))
    {
      DividesIsMod(td.primes[k], Nat(n));
      if res[k] == 0 { return Some(td.primes[k]); }
    }
    f := None;
  }

  // ------------------------------------------------- what the table decides

  /** A table prime dividing `n` decides it: prime only if it is that prime. */
  lemma FactorDecides(f: int, n: nat)
    requires IsPrime(f) && Divides(f, n) && n > 0
    ensures IsPrime(n) <==> n == f
  {
    DividesBound(f, n);
  }

  /** Below the square of the bound, an odd number without table factors is prime. */
  lemma NoFactorDecides(ps: seq<int>, n: nat)
    requires OddPrimesBelow(ps, BOUND) && n >= 3 && n % 2 == 1 && n < BOUND * BOUND
    requires forall p: int :: p in ps ==> !Divides(p, n)
    ensures IsPrime(n)
  {
    forall p: int | IsPrime(p) && p * p <= n && p < n ensures !Divides(p, n) {
      if Divides(p, n) {
        OddFactor(p, n);
        if p >= BOUND { MulMono(BOUND, p, BOUND); MulMono(BOUND, p, p); }
      }
    }
    NoSmallFactor(n);
  }
}
