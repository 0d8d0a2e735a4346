/** Half-delta divsteps: the full-precision recurrence, its termination, and the 59-step masked loop on low bits. */
module Divsteps {
  import opened Arith
  import opened Limbs
  import opened Bits
  import opened Gcd

  /** The digit radix, 2^62. */
  const D: int := 0x4000_0000_0000_0000

  /** `ζ = -(δ + 1/2)` with the pair `(f, g)`. */
  datatype Pair = Pair(zeta: int, f: int, g: int)

  /** One half-delta divstep on full-precision integers. */
  function Divstep(s: Pair): Pair {
    if s.g % 2 == 0 then Pair(s.zeta - 1, s.f, s.g / 2)
    else if s.zeta < 0 then Pair(-s.zeta - 2, s.g, (s.g - s.f) / 2)
    else Pair(s.zeta - 1, s.f, (s.g + s.f) / 2)
  }

  function Run(s: Pair, k: nat): Pair { if k == 0 then s else Divstep(Run(s, k - 1)) }

  lemma {:induction false} RunAdd(s: Pair, j: nat, k: nat)
    ensures Run(s, j + k) == Run(Run(s, j), k)
  {
    if k > 0 { RunAdd(s, j, k - 1); }
  }

  lemma {:induction false} RunKeepsOdd(s: Pair, k: nat)
    requires s.f % 2 == 1
    ensures Run(s, k).f % 2 == 1
  {
    if k > 0 { RunKeepsOdd(s, k - 1); }
  }

  /** A divstep with `f` odd keeps exactly the common divisors of the pair. */
  lemma DivstepCommon(s: Pair, d: int)
    requires s.f % 2 == 1
    ensures Divides(d, s.f) && Divides(d, s.g) <==> Divides(d, Divstep(s).f) && Divides(d, Divstep(s).g)
  {
    var h := Divstep(s).g;
    DivstepDoubled(s);
    if s.g % 2 == 0 {
      CommonDoubled(d, s.f, s.g, h, 0);
    } else if s.zeta < 0 {
      CommonSwapped(d, s.f, s.g, h);
    } else {
      CommonDoubled(d, s.f, s.g, h, 1);
    }
  }

  lemma CommonDoubled(d: int, f: int, g: int, h: int, e: int)
    requires f % 2 == 1 && 2 * h == g + e * f
    ensures Divides(d, f) && Divides(d, g) <==> Divides(d, f) && Divides(d, h)
  {
    if Divides(d, f) && Divides(d, g) {
      DividesCombination(d, g, f, 1, e);
      OddHalf(d, f, h);
    }
    if Divides(d, f) && Divides(d, h) {
      DividesCombination(d, h, f, 2, -e);
      assert (-e) * f == -(e * f);
    }
  }

  lemma CommonSwapped(d: int, f: int, g: int, h: int)
    requires f % 2 == 1 && g % 2 == 1 && 2 * h == g - f
    ensures Divides(d, f) && Divides(d, g) <==> Divides(d, g) && Divides(d, h)
  {
    if Divides(d, f) && Divides(d, g) {
      DividesCombination(d, g, f, 1, -1);
      OddHalf(d, f, h);
    }
    if Divides(d, g) && Divides(d, h) { DividesCombination(d, g, h, 1, -2); }
  }

  lemma {:induction false} RunCommon(s: Pair, k: nat, d: int)
    requires s.f % 2 == 1
    ensures Divides(d, s.f) && Divides(d, s.g) <==> Divides(d, Run(s, k).f) && Divides(d, Run(s, k).g)
  {
    if k > 0 {
      RunCommon(s, k - 1, d);
      RunKeepsOdd(s, k - 1);
      DivstepCommon(Run(s, k - 1), d);
    }
  }

  // ---------------------------------------------------------- termination

  function Abs(x: int): nat { if x < 0 then -x else x }

  function Magnitude(s: Pair): nat { if Abs(s.f) >= Abs(s.g) then Abs(s.f) else Abs(s.g) }

  /** How far the pair is from `|f| > |g|`; a swap always comes closer, or lowers the magnitude. */
  function Shape(s: Pair): nat {
    if Abs(s.g) < Abs(s.f) then 0 else if s.g == s.f then 1 else if s.g == -s.f then 2 else 3
  }

  /** Divsteps until a swap is allowed. */
  function Wait(s: Pair): nat { if s.zeta < 0 then 0 else s.zeta + 1 }

  /** Lexicographic order on magnitude, shape, wait and `|g|`. */
  ghost predicate Closer(t: Pair, s: Pair) {
    || Magnitude(t) < Magnitude(s)
    || (Magnitude(t) == Magnitude(s)
        && (|| Shape(t) < Shape(s)
            || (Shape(t) == Shape(s) && (Wait(t) < Wait(s) || (Wait(t) == Wait(s) && Abs(t.g) < Abs(s.g))))))
  }

  lemma DivstepCloser(s: Pair)
    requires s.f % 2 == 1 && s.g != 0
    ensures Closer(Divstep(s), s)
  {
    DivstepDoubled(s);
  }

  /** From every state with `f` odd, `g` reaches zero. */
  lemma {:induction false} ReachesZero(s: Pair) returns (k: nat)
    requires s.f % 2 == 1
    ensures Run(s, k).g == 0
    decreases Magnitude(s), Shape(s), Wait(s), Abs(s.g)
  {
    if s.g == 0 {
      k := 0;
    } else {
      DivstepCloser(s);
      var j := ReachesZero(Divstep(s));
      assert Run(s, 1) == Divstep(Run(s, 0)) == Divstep(s);
      RunAdd(s, 1, j);
      k := 1 + j;
    }
  }

  lemma {:induction false} ZeroStays(s: Pair, k: nat, j: nat)
    requires Run(s, k).g == 0 && k <= j
    ensures Run(s, j).g == 0
  {
    if k < j { ZeroStays(s, k, j - 1); }
  }

  // ------------------------------------------------------ the masked 64-bit loop

  function AddW(x: Limb, y: Limb): Limb { (x + y) % B }

  /** `(x ^ c) - c` for a mask `c`: the negation when the mask is set. */
  function NegateIf(c: bool, x: Limb): Limb { if c then (B - x) % B else x }

  /** `x & c` for a mask `c`. */
  function KeepIf(c: bool, x: Limb): Limb { if c then x else 0 }

  /** Two's-complement reading of a 64-bit word. */
  function Signed(x: Limb): int { if x >= 0x8000_0000_0000_0000 then x - B else x }

  /** A 2x2 transition matrix. */
  datatype Trans = Trans(u: int, v: int, q: int, r: int)

  /** How one divstep acts on the matrix: `(u, v)` doubled instead of `(q, r)` halved. */
  function TransStep(t: Trans, c1: bool, c2: bool): Trans {
    if !c2 then Trans(2 * t.u, 2 * t.v, t.q, t.r)
    else if c1 then Trans(2 * t.q, 2 * t.r, t.q - t.u, t.r - t.v)
    else Trans(2 * t.u, 2 * t.v, t.q + t.u, t.r + t.v)
  }

  /** The matrix after some steps of scale `p`: it maps `(f, g)` to `p` times the current pair. */
  ghost predicate Maps(t: Trans, f: int, g: int, s: Pair, p: int) {
    && t.u * f + t.v * g == p * s.f && t.q * f + t.r * g == p * s.g
    && Abs(t.u) + Abs(t.v) <= p && Abs(t.q) + Abs(t.r) <= p
  }

  lemma MapsStep(t: Trans, f: int, g: int, s: Pair, p: int)
    requires Maps(t, f, g, s, p) && s.f % 2 == 1
    ensures Maps(TransStep(t, s.zeta < 0, s.g % 2 == 1), f, g, Divstep(s), 2 * p)
  {
    if s.g % 2 == 0 { MapsEven(t, f, g, s, p); }
    else if s.zeta < 0 { MapsSwap(t, f, g, s, p); }
    else { MapsAdd(t, f, g, s, p); }
  }

  lemma MapsEven(t: Trans, f: int, g: int, s: Pair, p: int)
    requires Maps(t, f, g, s, p) && s.g % 2 == 0
    ensures Maps(Trans(2 * t.u, 2 * t.v, t.q, t.r), f, g, Divstep(s), 2 * p)
  {
    RowDouble(t.u, t.v, f, g, p, s.f);
    RowRescale(t.q, t.r, f, g, p, s.g, s.g / 2);
  }

  lemma MapsSwap(t: Trans, f: int, g: int, s: Pair, p: int)
    requires Maps(t, f, g, s, p) && s.f % 2 == 1 && s.g % 2 == 1 && s.zeta < 0
    ensures Maps(Trans(2 * t.q, 2 * t.r, t.q - t.u, t.r - t.v), f, g, Divstep(s), 2 * p)
  {
    RowDouble(t.q, t.r, f, g, p, s.g);
    RowCombine(t.u, t.v, t.q, t.r, f, g, p, s.f, s.g, (s.g - s.f) / 2, -1);
  }

  lemma MapsAdd(t: Trans, f: int, g: int, s: Pair, p: int)
    requires Maps(t, f, g, s, p) && s.f % 2 == 1 && s.g % 2 == 1 && s.zeta >= 0
    ensures Maps(Trans(2 * t.u, 2 * t.v, t.q + t.u, t.r + t.v), f, g, Divstep(s), 2 * p)
  {
    var h := (s.g + s.f) / 2;
    assert Divstep(s) == Pair(s.zeta - 1, s.f, h) && s.g + 1 * s.f == 2 * h;
    RowDouble(t.u, t.v, f, g, p, s.f);
    RowCombine(t.u, t.v, t.q, t.r, f, g, p, s.f, s.g, h, 1);
  }

  lemma RowDouble(u: int, v: int, f: int, g: int, p: int, x: int)
    requires u * f + v * g == p * x
    ensures 2 * u * f + 2 * v * g == 2 * p * x
  {
  }

  lemma RowRescale(q: int, r: int, f: int, g: int, p: int, y: int, h: int)
    requires q * f + r * g == p * y && y == 2 * h
    ensures q * f + r * g == 2 * p * h
  {
  }

  lemma RowCombine(u: int, v: int, q: int, r: int, f: int, g: int, p: int, x: int, y: int, h: int, e: int)
    requires u * f + v * g == p * x && q * f + r * g == p * y && y + e * x == 2 * h && (e == 1 || e == -1)
    ensures (q + e * u) * f + (r + e * v) * g == 2 * p * h
  {
    assert (q + e * u) * f + (r + e * v) * g == (q * f + r * g) + e * (u * f + v * g);
    assert p * (y + e * x) == p * (2 * h);
  }

  /** Wrapping words track exact integers modulo any power of two `k` of at most 2^64. */
  lemma WordAdd(x: Limb, y: Limb, a: int, b: int, k: int, l: int)
    requires B == k * l && Cong(x, a, k) && Cong(y, b, k)
    ensures Cong(AddW(x, y), a + b, k)
  {
    CongAdd(x, a, y, b, k);
    CongMod(x + y, B);
    CongDivisor(AddW(x, y), x + y, k, l);
    CongTrans(AddW(x, y), x + y, a + b, k);
  }

  lemma CongDivisor(a: int, b: int, k: int, l: int)
    requires B == k * l && Cong(a, b, B)
    ensures Cong(a, b, k)
  {
    var j := CongWitness(a, b, B);
    assert j * (k * l) == (j * l) * k;
    CongBy(a, b, k, j * l);
  }

  lemma WordNegate(c: bool, x: Limb, a: int, k: int, l: int)
    requires B == k * l && Cong(x, a, k)
    ensures Cong(NegateIf(c, x), if c then -a else a, k)
  {
    if c {
      CongSelf(0, k);
      CongSub(0, 0, x, a, k);
      CongMod(B - x, B);
      var y: int := -(x as int);
      CongBy(B - x, y, B, 1);
      CongTrans(NegateIf(c, x), B - x, y, B);
      CongDivisor(NegateIf(c, x), y, k, l);
      CongTrans(NegateIf(c, x), y, -a, k);
    }
  }

  lemma WordKeep(c: bool, x: Limb, a: int, k: int)
    requires Cong(x, a, k)
    ensures Cong(KeepIf(c, x), if c then a else 0, k)
  {
    CongSelf(0, k);
  }

  /** One masked row pair on words: `q + ±u` when `c2`, and `u + q'` when both masks are set. */
  function RowQ(c1: bool, c2: bool, u: Limb, q: Limb): Limb { AddW(q, KeepIf(c2, NegateIf(c1, u))) }

  function RowU(c1: bool, c2: bool, u: Limb, q': Limb): Limb { AddW(u, KeepIf(c1 && c2, q')) }

  lemma RowTracks(c1: bool, c2: bool, u: Limb, q: Limb, a: int, b: int, k: int, l: int)
    requires B == k * l && Cong(u, a, k) && Cong(q, b, k)
    ensures Cong(RowQ(c1, c2, u, q), if c2 then (if c1 then b - a else b + a) else b, k)
    ensures Cong(RowU(c1, c2, u, RowQ(c1, c2, u, q)), if c1 && c2 then b else a, k)
  {
    WordNegate(c1, u, a, k, l);
    var na := if c1 then -a else a;
    WordKeep(c2, NegateIf(c1, u), na, k);
    WordAdd(q, KeepIf(c2, NegateIf(c1, u)), b, if c2 then na else 0, k, l);
    var q', b' := RowQ(c1, c2, u, q), b + (if c2 then na else 0);
    WordKeep(c1 && c2, q', b', k);
    WordAdd(u, KeepIf(c1 && c2, q'), a, if c1 && c2 then b' else 0, k, l);
  }

  /** The low words follow the full pair, losing one bit of precision per step. */
  lemma LowTracks(s: Pair, f: Limb, g: Limb, k: nat)
    requires 1 <= k <= 62 && s.f % 2 == 1 && Cong(f, s.f, Pow2(k)) && Cong(g, s.g, Pow2(k))
    ensures g % 2 == s.g % 2
    ensures var (c1, c2) := (s.zeta < 0, g % 2 == 1);
            var g' := RowQ(c1, c2, f, g);
            Cong(g' / 2, Divstep(s).g, Pow2(k - 1)) && Cong(RowU(c1, c2, f, g'), Divstep(s).f, Pow2(k - 1))
  {
    var p := Pow2(k - 1);
    assert Pow2(k) == 2 * p by { assert Pow(2, k) == 2 * Pow(2, k - 1); }
    Pow2Limb();
    Pow2Add(k, 64 - k);
    WordTracks(s, f, g, p, Pow2(64 - k));
  }

  lemma WordTracks(s: Pair, f: Limb, g: Limb, p: int, l: int)
    requires B == (2 * p) * l && s.f % 2 == 1 && Cong(f, s.f, 2 * p) && Cong(g, s.g, 2 * p)
    ensures g % 2 == s.g % 2
    ensures var (c1, c2) := (s.zeta < 0, g % 2 == 1);
            var g' := RowQ(c1, c2, f, g);
            Cong(g' / 2, Divstep(s).g, p) && Cong(RowU(c1, c2, f, g'), Divstep(s).f, p)
  {
    SameParity(g, s.g, p);
    var c1, c2 := s.zeta < 0, g % 2 == 1;
    RowTracks(c1, c2, f, g, s.f, s.g, 2 * p, l);
    DivstepDoubled(s);
    HalfTracks(RowQ(c1, c2, f, g), Divstep(s).g, p);
    CongHalfModulus(RowU(c1, c2, f, RowQ(c1, c2, f, g)), Divstep(s).f, p);
  }

  /** A divstep, without its halving. */
  lemma DivstepDoubled(s: Pair)
    requires s.f % 2 == 1
    ensures 2 * Divstep(s).g == if s.g % 2 == 1 then (if s.zeta < 0 then s.g - s.f else s.g + s.f) else s.g
    ensures Divstep(s).f == if s.g % 2 == 1 && s.zeta < 0 then s.g else s.f
  {
  }

  lemma SameParity(x: int, y: int, p: int)
    requires Cong(x, y, 2 * p)
    ensures x % 2 == y % 2
  {
    var k := CongWitness(x, y, 2 * p);
    assert k * (2 * p) == 2 * (k * p);
  }

  lemma CongHalfModulus(x: int, y: int, p: int)
    requires Cong(x, y, 2 * p)
    ensures Cong(x, y, p)
  {
    var k := CongWitness(x, y, 2 * p);
    assert k * (2 * p) == (2 * k) * p;
    CongBy(x, y, p, 2 * k);
  }

  lemma HalfTracks(x: int, h: int, p: int)
    requires Cong(x, 2 * h, 2 * p)
    ensures Cong(x / 2, h, p)
  {
    var k := CongWitness(x, 2 * h, 2 * p);
    assert k * (2 * p) == 2 * (k * p);
    CongBy(x / 2, h, p, k);
  }

  /** A word congruent to a small integer is its two's-complement form. */
  lemma SignedIs(x: Limb, a: int)
    requires Cong(x, a, B) && -D <= a <= D
    ensures Signed(x) == a
  {
    var k := CongWitness(x, a, B);
    if k >= 2 { MulMono(2, k, B); }
    if k <= -1 { MulMono(k, -1, B); }
  }

  /** The words hold the matrix modulo 2^64. */
  ghost predicate Tracks(u: Limb, v: Limb, q: Limb, r: Limb, t: Trans) {
    Cong(u, t.u, B) && Cong(v, t.v, B) && Cong(q, t.q, B) && Cong(r, t.r, B)
  }

  lemma TracksStep(u: Limb, v: Limb, q: Limb, r: Limb, t: Trans, c1: bool, c2: bool)
    requires Tracks(u, v, q, r, t)
    ensures var (q', r') := (RowQ(c1, c2, u, q), RowQ(c1, c2, v, r));
            var (u', v') := (RowU(c1, c2, u, q'), RowU(c1, c2, v, r'));
            Tracks(AddW(u', u'), AddW(v', v'), q', r', TransStep(t, c1, c2))
  {
    RowTracks(c1, c2, u, q, t.u, t.q, B, 1);
    RowTracks(c1, c2, v, r, t.v, t.r, B, 1);
    var q', r' := RowQ(c1, c2, u, q), RowQ(c1, c2, v, r);
    var u', v' := RowU(c1, c2, u, q'), RowU(c1, c2, v, r');
    var a, b := if c1 && c2 then t.q else t.u, if c1 && c2 then t.r else t.v;
    WordAdd(u', u', a, a, B, 1);
    WordAdd(v', v', b, b, B, 1);
  }

  /** The registers of the loop. */
  datatype Words = Words(zeta: int, f: Limb, g: Limb, u: Limb, v: Limb, q: Limb, r: Limb)

  /** One pass of the loop body. */
  function WordStep(w: Words): Words {
    var c1, c2 := w.zeta < 0, w.g % 2 == 1;
    var g', q', r' := RowQ(c1, c2, w.f, w.g), RowQ(c1, c2, w.u, w.q), RowQ(c1, c2, w.v, w.r);
    var u', v' := RowU(c1, c2, w.u, q'), RowU(c1, c2, w.v, r');
    Words((if c1 && c2 then -w.zeta - 1 else w.zeta) - 1, RowU(c1, c2, w.f, g'), g' / 2, AddW(u', u'), AddW(v', v'), q',
          r')
  }

  /** After some steps from `s0` the registers hold the pair to `k` bits and the matrix `m` of scale `p`. */
  ghost predicate StepInv(w: Words, m: Trans, f: int, g: int, s: Pair, k: nat, p: int) {
    && w.zeta == s.zeta && s.f % 2 == 1
    && Cong(w.f, s.f, Pow2(k)) && Cong(w.g, s.g, Pow2(k))
    && Tracks(w.u, w.v, w.q, w.r, m) && Maps(m, f, g, s, p)
  }

  lemma StepKeeps(w: Words, m: Trans, f: int, g: int, s: Pair, k: nat, p: int)
    requires 1 <= k <= 62 && StepInv(w, m, f, g, s, k, p)
    ensures StepInv(WordStep(w), TransStep(m, w.zeta < 0, w.g % 2 == 1), f, g, Divstep(s), k - 1, 2 * p)
  {
    LowTracks(s, w.f, w.g, k);
    MapsStep(m, f, g, s, p);
    TracksStep(w.u, w.v, w.q, w.r, m, w.zeta < 0, w.g % 2 == 1);
  }

  /** The loop after `i` doublings; with `g = 0` the matrix stays diagonal. */
  ghost predicate LoopInv(w: Words, m: Trans, s0: Pair, i: nat, zero: bool)
    requires 3 <= i <= 62
  {
    && StepInv(w, m, s0.f, s0.g, Run(s0, i - 3), 65 - i, Pow2(i))
    && Abs(w.zeta) <= Abs(s0.zeta) + i - 3
    && (zero ==> w.g == 0 && m.u == Pow2(i) && m.v == 0 && m.q == 0)
  }

  lemma LoopStep(w: Words, m: Trans, s0: Pair, i: nat, zero: bool)
    requires 3 <= i < 62 && LoopInv(w, m, s0, i, zero)
    ensures LoopInv(WordStep(w), TransStep(m, w.zeta < 0, w.g % 2 == 1), s0, i + 1, zero)
  {
    StepKeeps(w, m, s0.f, s0.g, Run(s0, i - 3), 65 - i, Pow2(i));
    Pow2Double(i);
    ZetaStep(w);
    if zero { ZeroStep(w); }
  }

  lemma Pow2Double(i: nat)
    ensures Pow2(i + 1) == 2 * Pow2(i)
  {
    assert Pow(2, i + 1) == 2 * Pow(2, i);
  }

  lemma ZetaStep(w: Words)
    ensures Abs(WordStep(w).zeta) <= Abs(w.zeta) + 1
  {
  }

  lemma ZeroStep(w: Words)
    requires w.g == 0
    ensures WordStep(w).g == 0 && w.g % 2 == 0
  {
  }

  lemma LoopStart(s0: Pair, f0: Limb, g0: Limb)
    requires s0.f % 2 == 1 && Cong(f0, s0.f, D) && Cong(g0, s0.g, D)
    ensures LoopInv(Words(s0.zeta, f0, g0, 8, 0, 0, 8), Trans(8, 0, 0, 8), s0, 3, g0 == 0)
  {
    PowersOfTwo();
    CongSelf(8, B);
    CongSelf(0, B);
  }

  /** The final registers, read as signed words, are the matrix itself. */
  lemma LoopEnd(w: Words, m: Trans, s0: Pair, zero: bool)
    requires LoopInv(w, m, s0, 62, zero)
    ensures Trans(Signed(w.u), Signed(w.v), Signed(w.q), Signed(w.r)) == m && Pow2(62) == D
  {
    PowersOfTwo();
    SignedIs(w.u, m.u);
    SignedIs(w.v, m.v);
    SignedIs(w.q, m.q);
    SignedIs(w.r, m.r);
  }

  /**
   * 59 divsteps on the low words of `f` and `g`: the matrix maps the full pair to `2^62` times
   * the pair 59 full-precision divsteps later, and its rows have absolute sum at most `2^62`.
   */
  method Divsteps59(zeta0: int, f0: Limb, g0: Limb, ghost f: int, ghost g: int) returns (zeta: int, t: Trans)
    requires f % 2 == 1 && Cong(f0, f, D) && Cong(g0, g, D)
    ensures zeta == Run(Pair(zeta0, f, g), 59).zeta && Abs(zeta) <= Abs(zeta0) + 59
    ensures Maps(t, f, g, Run(Pair(zeta0, f, g), 59), D)
    ensures g0 == 0 ==> t.u == D && t.v == 0 && t.q == 0
  {
    ghost var s0 := Pair(zeta0, f, g);
    ghost var m := Trans(8, 0, 0, 8);
    var w := Words(zeta0, f0, g0, 8, 0, 0, 8);
    LoopStart(s0, f0, g0);
    var i := 3;
    while i < 62
      invariant 3 <= i <= 62 && LoopInv(w, m, s0, i, g0 == 0)
    {
      LoopStep(w, m, s0, i, g0 == 0);
      m := TransStep(m, w.zeta < 0, w.g % 2 == 1);
      w := WordStep(w);
      i := i + 1;
    }
    LoopEnd(w, m, s0, g0 == 0);
    zeta, t := w.zeta, Trans(Signed(w.u), Signed(w.v), Signed(w.q), Signed(w.r));
  }

  lemma PowersOfTwo()
    ensures Pow2(3) == 8 && Pow2(62) == D
  {
    assert Pow(2, 3) == 8;
    Pow2Limb();
    assert Pow(2, 64) == 2 * Pow(2, 63) && Pow(2, 63) == 2 * Pow(2, 62);
  }
}
