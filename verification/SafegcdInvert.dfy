/** The safegcd modulus and the whole inversion run. */
module SafegcdInvert {
  import opened Arith
  import opened Limbs
  import opened Bits
  import opened Radix
  import opened Newton
  import opened Gcd
  import opened Divsteps
  import opened DivstepRate
  import opened Safegcd
  import opened Montgomery

  // ------------------------------------------------------------ the modulus

  /** Divsteps known to suffice for a `bits`-bit modulus. */
  function DivstepBound(bits: nat): nat { if bits <= 256 then 590 else (45907 * bits + 26313) / 19929 }

  /** Rounds of 59 covering the bound, with a spare round above 256 bits. */
  function RoundsFor(bits: nat): (r: nat)
    ensures 59 * r >= DivstepBound(bits)
  {
    var rounds := (DivstepBound(bits) + 58) / 59;
    if bits <= 256 then rounds else rounds + 1
  }

  /** Signed-62 digits for `l` limbs. */
  function DigitCount(l: nat): nat { 64 * l / 62 + 1 }

  datatype Modulus = Modulus(m: seq<I64>, minv: Limb, rounds: nat, limbs: nat) {
    ghost predicate Valid() {
      var n := DigitCount(limbs);
      && limbs >= 1 && |m| == n && Normal(m, n) && Digits(D, m, n) && m[0] * minv % D == 1
      && M() > 0 && M() % 2 == 1 && 4 * M() <= Pow(D, n) && M() < Pow(B, limbs)
    }

    ghost function M(): int { Val(D, m, |m|) }

    /** The round count is the built-in one for the bit length, of at most nine limbs. */
    ghost predicate Built() {
      limbs <= 9 && exists bits: nat :: BitsOf(M(), bits) && rounds == RoundsFor(bits)
    }
  }

  ghost predicate BitsOf(v: int, bits: nat) { v < Pow2(bits) && (bits > 0 ==> Pow2(bits - 1) <= v) }

  /** Five Newton steps from the odd number itself: three bits become ninety-six. */
  method InvertLow(l0: Limb) returns (x: Limb)
    requires l0 % 2 == 1
    ensures Cong(l0 * x, 1, B)
  {
    x := l0;
    OddSquare(l0);
    var i := 0;
    ghost var p := 8;
    while i < 5
      invariant 0 <= i <= 5
      invariant i == 0 ==> p == 8
      invariant i == 1 ==> p == 0x40
      invariant i == 2 ==> p == 0x1000
      invariant i == 3 ==> p == 0x100_0000
      invariant i == 4 ==> p == 0x1_0000_0000_0000
      invariant i == 5 ==> p == B
      invariant Cong(l0 * x, 1, p)
    {
      WrappingNewton(l0, x);
      if i < 4 {
        ghost var q := if i == 0 then 0x400_0000_0000_0000 else if i == 1 then 0x10_0000_0000_0000
                       else if i == 2 then 0x100_0000_0000 else 0x1_0000;
        NewtonMachineStep(l0, x, p, B, q);
        p := p * p;
      } else {
        NewtonLastStep(l0, x, p, B, 0x1_0000_0000);
        p := B;
      }
      x := MulLow(x, (2 - MulLow(l0, x)) % B);
      i := i + 1;
    }
  }

  /** The digits cover the limbs with two bits to spare. */
  lemma DigitRoom(l: nat, v: int)
    requires l >= 1 && 0 <= v < Pow(B, l)
    ensures DigitCount(l) >= 2 && 4 * v <= Pow(D, DigitCount(l)) && v % Pow2(62 * DigitCount(l)) == v
    ensures Pow(D, DigitCount(l)) == Pow2(62 * DigitCount(l))
  {
    var n := DigitCount(l);
    PowersOfTwo();
    PowMul(2, 62, n);
    Pow2OfLimbs(l);
    assert 62 * n >= 64 * l + 2;
    PowMonotone(2, 64 * l + 2, 62 * n);
    Pow2Add(64 * l, 2);
    assert Pow2(2) == 4 by { assert Pow(2, 2) == 4; }
    DivModIs(v, 0, v, Pow2(62 * n));
  }

  /** `l` limbs as signed-62 digits, all non-negative. */
  method ToSigned62(a: seq<Limb>, n: nat) returns (s: seq<I64>)
    requires |a| >= 1 && n == DigitCount(|a|)
    ensures |s| == n && Digits(D, s, n) && Normal(s, n) && Val(D, s, n) == Nat(a) && 4 * Nat(a) <= Pow(D, n)
  {
    PowersOfTwo();
    DigitRoom(|a|, Nat(a));
    var ds := ToDigits(a, n, 62);
    s := seq(n, i requires 0 <= i < n => ds[i]);
    ValAgree(D, ds, s, n);
  }

  /** Prepares an odd modulus of one to nine limbs. */
  method New(l: seq<Limb>) returns (sg: Modulus)
    requires 1 <= |l| <= 9 && l[0] % 2 == 1
    ensures sg.Valid() && sg.M() == Nat(l) && sg.limbs == |l|
    ensures sg.Built()
  {
    var x := InvertLow(l[0]);
    var s := SignificantLimbs(l);
    BitLength(l, s);
    ValZeroTail(B, l, s, |l|);
    var bits := 64 * (s - 1) + LimbBits(l[s - 1]);
    assert BitsOf(Nat(l), bits);
    var n := DigitCount(|l|);
    var m := ToSigned62(l, n);
    DigitRoom(|l|, Nat(l));
    LowInverse(l, m, n, x);
    ParityOfLow(l, |l|);
    sg := Modulus(m, x % D, RoundsFor(bits), |l|);
  }

  /** The masked word inverse is the inverse of the low digit. */
  lemma LowInverse(l: seq<Limb>, m: seq<int>, n: nat, x: Limb)
    requires |l| >= 1 && 1 <= n <= |m| && Val(D, m, n) == Nat(l) && l[0] % 2 == 1 && Cong(l[0] * x, 1, B)
    ensures m[0] * (x % D) % D == 1
  {
    ValHead(B, l, |l|);
    ValHead(D, m, n);
    LowInverseInts(l[0], Val(B, l[1..], |l| - 1), m[0], Val(D, m[1..], n - 1), x);
  }

  lemma LowInverseInts(l: int, a: int, m: int, b: int, x: int)
    requires l + B * a == m + D * b && Cong(l * x, 1, B)
    ensures m * (x % D) % D == 1
  {
    CongBy(m, l, D, 4 * a - b);
    CongMod(x, D);
    CongMul(m, l, x % D, x, D);
    assert B == D * 4;
    CongFactor(l * x, 1, D, 4);
    CongTrans(m * (x % D), l * x, 1, D);
    CongIsMod(m * (x % D), 1, D);
  }

  // ---------------------------------------------------------------- the run

  /** Two is a unit modulo an odd number. */
  lemma RadixUnit(m: int) returns (k: int)
    requires m % 2 == 1
    ensures Cong(D * k, 1, m)
  {
    var h := (m + 1) / 2;
    CongBy(2 * h, 1, m, 1);
    CongPow(2 * h, 1, 62, m);
    PowBase(2, h, 62);
    PowOne(62);
    PowersOfTwo();
    k := Pow(h, 62);
  }

  /** A coefficient row follows the pair: `d·a = f` and `e·a = g` give the same for the new row. */
  lemma CoefficientFollows(u: int, v: int, d: int, e: int, f: int, g: int, d': int, f': int, a: int, m: int)
    requires m % 2 == 1 && Cong(d * a, f, m) && Cong(e * a, g, m)
    requires Cong(D * d', u * d + v * e, m) && u * f + v * g == D * f'
    ensures Cong(d' * a, f', m)
  {
    RowFollows(u, v, d, e, f, g, a, m);
    CongScale(D * d', u * d + v * e, a, m);
    CongTrans((D * d') * a, (u * d + v * e) * a, D * f', m);
    var k := RadixUnit(m);
    assert (D * d') * a == (d' * a) * D && D * f' == f' * D;
    CancelUnit(d' * a, f', D, k, m);
  }

  lemma RowFollows(u: int, v: int, d: int, e: int, f: int, g: int, a: int, m: int)
    requires Cong(d * a, f, m) && Cong(e * a, g, m)
    ensures Cong((u * d + v * e) * a, u * f + v * g, m)
  {
    CongScale(d * a, f, u, m);
    CongScale(e * a, g, v, m);
    CongAdd(u * (d * a), u * f, v * (e * a), v * g, m);
    assert (u * d + v * e) * a == u * (d * a) + v * (e * a);
  }

  /** The digits of one half of the pair. */
  ghost predicate HoldsPair(f: seq<int>, n: nat, v: int, m: int) {
    Normal(f, n) && Val(D, f, n) == v && -m <= v <= m
  }

  /** The digits of a coefficient `x` with `x·a` congruent to `v`. */
  ghost predicate HoldsCoefficient(d: seq<int>, n: nat, a: int, v: int, m: int) {
    Normal(d, n) && InRange(Val(D, d, n), m) && Cong(Val(D, d, n) * a, v, m)
  }

  /** The state of the run after `k` rounds. */
  ghost predicate RoundInv(sg: Modulus, a: int, k: nat, zeta: int, d: seq<int>, e: seq<int>, f: seq<int>, g: seq<int>) {
    var n, m := DigitCount(sg.limbs), sg.M();
    var s := Run(Pair(-1, m, a), 59 * k);
    && sg.Valid() && zeta == s.zeta && Abs(zeta) <= 1 + 59 * k && s.f % 2 == 1
    && HoldsPair(f, n, s.f, m) && HoldsPair(g, n, s.g, m)
    && HoldsCoefficient(d, n, a, s.f, m) && HoldsCoefficient(e, n, a, s.g, m)
    && (a == 0 ==> Val(D, d, n) == 0 && s.g == 0)
  }

  /** The low digit is the number modulo the radix. */
  lemma LowDigit(f: seq<int>, n: nat)
    requires 2 <= n && Normal(f, n)
    ensures 0 <= f[0] < D && Cong(f[0], Val(D, f, n), D)
    ensures Val(D, f, n) == 0 ==> f[0] == 0
  {
    ValHead(D, f, n);
    CongBy(f[0], Val(D, f, n), D, -Val(D, f[1..], n - 1));
  }

  lemma NextPairBound(t: Trans, f: int, g: int, s: Pair, m: int)
    requires Maps(t, f, g, s, D) && -m <= f <= m && -m <= g <= m
    ensures -m <= s.f <= m && -m <= s.g <= m
  {
    BoundedRow(t.u, t.v, f, g, m);
    BoundedRow(t.q, t.r, f, g, m);
  }

  /** One round: 59 divsteps on the low digits, then both updates. */
  method Round(sg: Modulus, ghost a: int, ghost k: nat, zeta: int, d: array<I64>, e: array<I64>, f: array<I64>,
               g: array<I64>)
    returns (zeta': int)
    requires d != e && d != f && d != g && e != f && e != g && f != g
    requires RoundInv(sg, a, k, zeta, d[..], e[..], f[..], g[..])
    modifies d, e, f, g
    ensures RoundInv(sg, a, k + 1, zeta', d[..], e[..], f[..], g[..])
  {
    var n := DigitCount(sg.limbs);
    ghost var m, s := sg.M(), Run(Pair(-1, sg.M(), a), 59 * k);
    ghost var vd, ve := Val(D, d[..], n), Val(D, e[..], n);
    DigitRoom(sg.limbs, m);
    LowDigit(f[..], n);
    LowDigit(g[..], n);
    var t: Trans;
    zeta', t := Divsteps59(zeta, f[0], g[0], s.f, s.g);
    ghost var s' := Run(s, 59);
    NextPairBound(t, s.f, s.g, s', m);
    UpdateDe(d, e, sg.m, sg.minv, t, n);
    UpdateFg(f, g, t, n, s'.f, s'.g);
    NextRound(sg, a, k, zeta', t, vd, ve, d[..], e[..], f[..], g[..]);
  }

  /** The invariant after a round, from what its three updates leave. */
  lemma NextRound(sg: Modulus, a: int, k: nat, zeta': int, t: Trans, vd: int, ve: int, d: seq<int>, e: seq<int>,
                  f: seq<int>, g: seq<int>)
    requires sg.Valid() && Abs(zeta') <= 1 + 59 * (k + 1)
    requires var (n, m) := (DigitCount(sg.limbs), sg.M());
             var s := Run(Pair(-1, m, a), 59 * k);
             && s.f % 2 == 1 && zeta' == Run(s, 59).zeta && Maps(t, s.f, s.g, Run(s, 59), D)
             && Cong(vd * a, s.f, m) && Cong(ve * a, s.g, m)
             && HoldsPair(f, n, Run(s, 59).f, m) && HoldsPair(g, n, Run(s, 59).g, m)
             && Updated(d, n, t.u, t.v, vd, ve, m) && Updated(e, n, t.q, t.r, vd, ve, m)
             && (a == 0 ==> vd == 0 && s.g == 0 && t.v == 0 && t.q == 0)
    ensures RoundInv(sg, a, k + 1, zeta', d, e, f, g)
  {
    var n, m := DigitCount(sg.limbs), sg.M();
    var s := Run(Pair(-1, m, a), 59 * k);
    var s' := Run(s, 59);
    RunAdd(Pair(-1, m, a), 59 * k, 59);
    assert 59 * (k + 1) == 59 * k + 59;
    RunKeepsOdd(s, 59);
    CoefficientRound(t.u, t.v, vd, ve, s.f, s.g, s'.f, a, m, d, n);
    CoefficientRound(t.q, t.r, vd, ve, s.f, s.g, s'.g, a, m, e, n);
    if a == 0 { ZeroRow(t, s, s'); }
  }

  lemma CoefficientRound(u: int, v: int, vd: int, ve: int, f: int, g: int, f': int, a: int, m: int, d: seq<int>, n: nat)
    requires m % 2 == 1 && Cong(vd * a, f, m) && Cong(ve * a, g, m) && u * f + v * g == D * f'
    requires Updated(d, n, u, v, vd, ve, m)
    ensures HoldsCoefficient(d, n, a, f', m)
  {
    CoefficientFollows(u, v, vd, ve, f, g, Val(D, d, n), f', a, m);
  }

  lemma ZeroRow(t: Trans, s: Pair, s': Pair)
    requires Maps(t, s.f, s.g, s', D) && s.g == 0 && t.q == 0
    ensures s'.g == 0
  {
    assert t.q * s.f == 0 && t.r * s.g == 0;
  }

  /** Once `g` is zero, `|f|` is the gcd of the modulus and the input. */
  lemma FinalGcd(m: nat, a: nat, k: nat)
    requires m % 2 == 1 && Run(Pair(-1, m, a), k).g == 0
    ensures Abs(Run(Pair(-1, m, a), k).f) == GcdOf(a, m)
  {
    var s0 := Pair(-1, m, a);
    var f := Run(s0, k).f;
    RunKeepsOdd(s0, k);
    DividesBy(Abs(f), 0, 0);
    DividesBy(Abs(f), f, if f < 0 then -1 else 1);
    RunCommon(s0, k, Abs(f));
    forall d: int | Divides(d, a) && Divides(d, m)
      ensures Divides(d, Abs(f))
    {
      RunCommon(s0, k, d);
      DividesCombination(d, f, f, if f < 0 then -1 else 1, 0);
    }
    GcdIs(a, m, Abs(f));
  }

  /** The pair after all rounds. */
  ghost function Final(sg: Modulus, a: int): Pair { Run(Pair(-1, sg.M(), a), 59 * sg.rounds) }

  /**
   * The inversion run. With the built-in round count the result `x` in `[0, m)` satisfies
   * `x·a = gcd(a, m)` modulo `m`, so every unit gets its inverse, and zero maps to zero. For any
   * count it is the inverse exactly when the final `|f|` is one.
   */
  method Invert(sg: Modulus, a: seq<Limb>) returns (out: seq<Limb>)
    requires sg.Valid() && |a| == sg.limbs && Nat(a) < sg.M()
    ensures |out| == sg.limbs && Nat(out) < sg.M()
    ensures Cong(Nat(out) * Nat(a), Abs(Final(sg, Nat(a)).f), sg.M())
    ensures Cong(Nat(out) * Nat(a), 1, sg.M()) <==> Abs(Final(sg, Nat(a)).f) == 1
    ensures sg.Built() ==> Final(sg, Nat(a)).g == 0
    ensures sg.Built() ==> Cong(Nat(out) * Nat(a), GcdOf(Nat(a), sg.M()), sg.M())
    ensures sg.Built() && GcdOf(Nat(a), sg.M()) == 1 ==> Cong(Nat(out) * Nat(a), 1, sg.M())
    ensures Nat(a) == 0 ==> Nat(out) == 0
  {
    var n := DigitCount(sg.limbs);
    var d, f := RunRounds(sg, a);
    SignOfTop(f, n);
    if sg.Built() {
      BuiltInRounds(sg, Nat(a));
      FinalGcd(sg.M(), Nat(a), 59 * sg.rounds);
    }
    var r := new I64[n](i requires 0 <= i < n => d[i]);
    assert r[..] == d;
    Normalize(r, sg.m, n, f[n - 1]);
    InverseOfRun(Val(D, d, n), Val(D, f, n), Nat(a), sg.M(), Val(D, r[..], n));
    RunKeepsOdd(Pair(-1, sg.M(), Nat(a)), 59 * sg.rounds);
    InverseExactly(Val(D, r[..], n) * Nat(a), Val(D, f, n), sg.M());
    out := FromSigned62(r[..], n, sg.limbs);
  }

  /** A product congruent to an odd `|f| <= m` is congruent to one only when `|f|` is one. */
  lemma InverseExactly(x: int, f: int, m: int)
    requires m > 0 && Cong(x, Abs(f), m) && f % 2 == 1 && -m <= f <= m
    ensures Cong(x, 1, m) <==> Abs(f) == 1
  {
    if Cong(x, 1, m) && m > 1 {
      CongSym(x, Abs(f), m);
      CongTrans(Abs(f), x, 1, m);
      var k := CongWitness(Abs(f), 1, m);
      if k != 0 {
        if k >= 1 { MulMono(1, k, m); } else { MulMono(k, -1, m); }
      }
    }
  }

  /** A round count worth seven divsteps for every three bits serves all inputs of any modulus. */
  lemma RoundsSuffice(sg: Modulus, a: int, j: nat, k: nat)
    requires sg.Valid() && 0 <= a < sg.M() < Pow2(3 * j) && 7 * j <= 59 * k
    ensures Run(Pair(-1, sg.M(), a), 59 * k).g == 0
  {
    LinearBound(sg.M(), a, j, 59 * k);
  }

  /** The built-in round count takes every input to `g = 0`: 590 divsteps up to 256 bits, and the rest. */
  lemma BuiltInRounds(sg: Modulus, a: int)
    requires sg.Valid() && sg.Built() && 0 <= a < sg.M()
    ensures Final(sg, a).g == 0
  {
    var bits: nat :| BitsOf(sg.M(), bits) && sg.rounds == RoundsFor(bits);
    LimbBound(sg, bits);
    var (b, n) := (if bits <= 256 then 256 else 25 * sg.rounds, 59 * sg.rounds);
    RoundsCover(bits);
    if bits <= 256 { TenRoundRate(b, n); } else { RoundsRate(sg.rounds); }
    PowMonotone(2, bits, b);
    DivstepsSuffice(sg.M(), a, b, n);
  }

  lemma LimbBound(sg: Modulus, bits: nat)
    requires sg.Valid() && sg.limbs <= 9 && BitsOf(sg.M(), bits)
    ensures bits <= 576
  {
    Pow2OfLimbs(sg.limbs);
    PowMonotone(2, 64 * sg.limbs, 576);
    if bits > 576 { PowMonotone(2, 576, bits - 1); }
  }

  lemma RoundsCover(bits: nat)
    requires bits <= 576
    ensures if bits <= 256 then RoundsFor(bits) == 10 else bits <= 25 * RoundsFor(bits)
  {
  }

  /** All rounds: the first coefficient and the first half of the pair at the end. */
  method RunRounds(sg: Modulus, a: seq<Limb>) returns (dEnd: seq<I64>, fEnd: seq<I64>)
    requires sg.Valid() && |a| == sg.limbs && Nat(a) < sg.M()
    ensures var (n, m, s) := (DigitCount(sg.limbs), sg.M(), Run(Pair(-1, sg.M(), Nat(a)), 59 * sg.rounds));
            && |dEnd| == |fEnd| == n && HoldsPair(fEnd, n, s.f, m) && HoldsCoefficient(dEnd, n, Nat(a), s.f, m)
            && (Nat(a) == 0 ==> Val(D, dEnd, n) == 0)
  {
    var n := DigitCount(sg.limbs);
    var gd := ToSigned62(a, n);
    var d := new I64[n](_ => 0);
    var e := new I64[n](i => if i == 0 then 1 else 0);
    var f := new I64[n](i requires 0 <= i < n => sg.m[i]);
    var g := new I64[n](i requires 0 <= i < n => gd[i]);
    assert f[..] == sg.m && g[..] == gd;
    StartInv(sg, Nat(a), d[..], e[..], f[..], g[..]);
    var zeta := -1;
    for k := 0 to sg.rounds
      invariant RoundInv(sg, Nat(a), k, zeta, d[..], e[..], f[..], g[..])
    {
      zeta := Round(sg, Nat(a), k, zeta, d, e, f, g);
    }
    dEnd, fEnd := d[..], f[..];
  }

  /** Normalised digits back to limbs. */
  method FromSigned62(s: seq<I64>, n: nat, l: nat) returns (out: seq<Limb>)
    requires n == |s| && Normal(s, n) && 0 <= Val(D, s, n) < Pow(B, l)
    ensures |out| == l && Nat(out) == Val(D, s, n)
  {
    PowersOfTwo();
    SignOfTop(s, n);
    out := FromDigits(s, l, 62);
  }

  lemma StartInv(sg: Modulus, a: int, d: seq<int>, e: seq<int>, f: seq<int>, g: seq<int>)
    requires sg.Valid() && 0 <= a < sg.M()
    requires var n := DigitCount(sg.limbs);
             && |d| == |e| == |f| == |g| == n && f == sg.m && Normal(g, n) && Val(D, g, n) == a
             && (forall i :: 0 <= i < n ==> d[i] == 0 && e[i] == if i == 0 then 1 else 0)
    ensures RoundInv(sg, a, 0, -1, d, e, f, g)
  {
    var n, m := DigitCount(sg.limbs), sg.M();
    DigitRoom(sg.limbs, m);
    ValZeroTail(D, d, 0, n);
    ValZeroTail(D, e, 1, n);
    assert Val(D, e, 1) == 1 by { assert Val(D, e, 0) == 0 && Pow(D, 0) == 1; }
    CongBy(0 * a, m, m, -1);
    CongSelf(a, m);
    assert Run(Pair(-1, m, a), 0) == Pair(-1, m, a);
  }

  /** The run modulo one starts from `e = 1`, outside the documented range. */
  lemma StartModuloOne(sg: Modulus, zeros: seq<int>, one: seq<int>)
    requires sg.Valid() && sg.M() == 1 && |zeros| == |one| == |sg.m|
    requires forall i :: 0 <= i < |sg.m| ==> zeros[i] == 0 && one[i] == if i == 0 then 1 else 0
    ensures RoundInv(sg, 0, 0, -1, zeros, one, sg.m, zeros)
    ensures Val(D, one, |sg.m|) == 1 && InRange(1, sg.M()) && !Documented(1, sg.M())
  {
    var n := |sg.m|;
    ValZeroTail(D, zeros, 0, n);
    ValZeroTail(D, one, 1, n);
    assert Val(D, one, 1) == 1 by { assert Val(D, one, 0) == 0 && Pow(D, 0) == 1; }
    StartInv(sg, 0, zeros, one, sg.m, zeros);
  }

  /** Both coefficients are in the documented range. */
  ghost predicate InDocumentedRange(sg: Modulus, d: seq<int>, e: seq<int>) {
    Documented(Val(D, d, |d|), sg.M()) && Documented(Val(D, e, |e|), sg.M())
  }

  /** The documented range holds in every state of every run exactly when the modulus is above one. */
  lemma RangeExactly(sg: Modulus)
    requires sg.Valid()
    ensures (forall a: int, k: nat, zeta: int, d: seq<int>, e: seq<int>, f: seq<int>, g: seq<int> ::
               0 <= a < sg.M() && |d| == |e| == |sg.m| && RoundInv(sg, a, k, zeta, d, e, f, g)
               ==> InDocumentedRange(sg, d, e))
            <==> sg.M() > 1
  {
    forall a: int, k: nat, zeta: int, d: seq<int>, e: seq<int>, f: seq<int>, g: seq<int> |
      sg.M() > 1 && 0 <= a < sg.M() && |d| == |e| == |sg.m| && RoundInv(sg, a, k, zeta, d, e, f, g)
      ensures InDocumentedRange(sg, d, e)
    {
      RangeIsDocumented(Val(D, d, |d|), sg.M());
      RangeIsDocumented(Val(D, e, |e|), sg.M());
    }
    if sg.M() == 1 {
      var zeros := seq(|sg.m|, _ => 0);
      var one := seq(|sg.m|, i => if i == 0 then 1 else 0);
      StartModuloOne(sg, zeros, one);
      assert !InDocumentedRange(sg, zeros, one);
    }
  }

  lemma InverseOfRun(d: int, f: int, a: int, m: int, r: int)
    requires m > 0 && Cong(d * a, f, m) && r == (if f < 0 then -d else d) % m
    ensures Cong(r * a, Abs(f), m) && 0 <= r < m
    ensures d == 0 ==> r == 0
  {
    var x := if f < 0 then -d else d;
    CongMod(x, m);
    CongScale(r, x, a, m);
    CongSelf(0, m);
    CongSub(0, 0, d * a, f, m);
    assert (-d) * a == -(d * a);
    CongTrans(r * a, x * a, Abs(f), m);
    if d == 0 { DivModIs(0, 0, 0, m); }
  }
}
