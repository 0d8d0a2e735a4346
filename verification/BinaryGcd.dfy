/** The masked binary extended GCD: every round performs one of four steps. */
module BinaryGcd {
  import opened Arith
  import opened Bits
  import opened Gcd

  /** `A·a ≡ u` and `C·a ≡ v` modulo `m`. */
  datatype State = State(u: nat, v: nat, a: nat, c: nat)

  /** `x / 2 mod m`: the odd case adds the odd modulus first. */
  function HalfMod(x: nat, m: nat): nat { if x % 2 == 0 then x / 2 else (x + m) / 2 }

  /** `(x - y) mod m`. */
  function SubMod(x: nat, y: nat, m: nat): nat
    requires x < m && y < m
  {
    if x >= y then x - y else x - y + m
  }

  /** Halving and subtracting are what their names say. */
  lemma HalfModIs(x: nat, m: nat)
    requires m % 2 == 1 && x < m
    ensures HalfMod(x, m) < m && Cong(2 * HalfMod(x, m), x, m)
  {
    if x % 2 == 0 { CongSelf(x, m); } else { CongBy(x + m, x, m, 1); }
  }

  lemma SubModIs(x: nat, y: nat, m: nat)
    requires x < m && y < m
    ensures SubMod(x, y, m) < m && Cong(SubMod(x, y, m), x - y, m)
  {
    if x >= y { CongSelf(x - y, m); } else { CongBy(x - y + m, x - y, m, 1); }
  }

  /** The limb form: a difference that borrowed has the modulus added back, and the two wraps cancel. */
  lemma SubModWraps(x: int, t: int, m: int, r: int, bo: int, s: int, c: int, y: int, p: int)
    requires 0 <= x < m < p && 0 <= t < m && 0 <= r < p && 0 <= s < p && 0 <= bo <= 1 && 0 <= c <= 1
    requires r - bo * p == x - t && s + c * p == r + y && (bo == 1 ==> y == m)
    ensures (if bo == 1 then s else r) == SubMod(x, t, m)
    ensures y == 0 ==> s == r
  {
    assert bo * p == 0 || bo * p == p;
    assert c * p == 0 || c * p == p;
  }

  /** One round. */
  function Step(s: State, m: nat): State
    requires s.a < m && s.c < m
  {
    if s.u % 2 == 0 then s.(u := s.u / 2, a := HalfMod(s.a, m))
    else if s.v % 2 == 0 then s.(v := s.v / 2, c := HalfMod(s.c, m))
    else if s.u >= s.v then s.(u := (s.u - s.v) / 2, a := HalfMod(SubMod(s.a, s.c, m), m))
    else s.(v := (s.v - s.u) / 2, c := HalfMod(SubMod(s.c, s.a, m), m))
  }

  /** What every round keeps, for inputs `a` and odd `m`. */
  ghost predicate Inv(s: State, a: nat, m: nat) {
    && s.a < m && s.c < m && s.v > 0
    && (s.u % 2 == 1 || s.v % 2 == 1)
    && SameCommon(s.u, s.v, a, m)
    && Cong(s.a * a, s.u, m) && Cong(s.c * a, s.v, m)
  }

  lemma StepKeeps(s: State, a: nat, m: nat)
    requires m % 2 == 1 && Inv(s, a, m)
    ensures Inv(Step(s, m), a, m)
  {
    StepCommon(s, m);
    var t := Step(s, m);
    CommonSwap(t.u, t.v);
    SameCommonTrans(t.u, t.v, s.u, s.v, a, m);
    StepCoefficients(s, a, m);
  }

  lemma StepCoefficients(s: State, a: nat, m: nat)
    requires m % 2 == 1 && s.a < m && s.c < m && Cong(s.a * a, s.u, m) && Cong(s.c * a, s.v, m)
    ensures var t := Step(s, m);
            t.a < m && t.c < m && Cong(t.a * a, t.u, m) && Cong(t.c * a, t.v, m)
  {
    if s.u % 2 == 0 {
      Halved(s.a, a, s.u, m);
    } else if s.v % 2 == 0 {
      Halved(s.c, a, s.v, m);
    } else {
      OddCoefficients(s, a, m);
    }
  }

  lemma OddCoefficients(s: State, a: nat, m: nat)
    requires m % 2 == 1 && s.a < m && s.c < m && Cong(s.a * a, s.u, m) && Cong(s.c * a, s.v, m)
    requires s.u % 2 == 1 && s.v % 2 == 1
    ensures var t := Step(s, m);
            t.a < m && t.c < m && Cong(t.a * a, t.u, m) && Cong(t.c * a, t.v, m)
  {
    if s.u >= s.v {
      HalvedDifference(s.a, s.c, SubMod(s.a, s.c, m), a, s.u, s.v, m);
    } else {
      HalvedDifference(s.c, s.a, SubMod(s.c, s.a, m), a, s.v, s.u, m);
    }
  }

  lemma HalvedDifference(x: nat, y: nat, z: nat, a: int, u: int, v: int, m: nat)
    requires m % 2 == 1 && x < m && y < m && z == SubMod(x, y, m)
    requires Cong(x * a, u, m) && Cong(y * a, v, m) && u % 2 == 1 && v % 2 == 1
    ensures HalfMod(z, m) < m && Cong(HalfMod(z, m) * a, (u - v) / 2, m)
  {
    Difference(x, y, a, u, v, m);
    EvenDifference(u, v);
    Halved(z, a, u - v, m);
  }

  lemma EvenDifference(u: int, v: int)
    requires u % 2 == 1 && v % 2 == 1
    ensures (u - v) % 2 == 0
  {
  }

  lemma Halved(x: nat, a: int, w: int, m: nat)
    requires m % 2 == 1 && x < m && Cong(x * a, w, m) && w % 2 == 0
    ensures HalfMod(x, m) < m && Cong(HalfMod(x, m) * a, w / 2, m)
  {
    HalfModIs(x, m);
    assert w == 2 * (w / 2);
    HalveCong(HalfMod(x, m), x, a, w / 2, m);
  }

  lemma Difference(x: nat, y: nat, a: int, u: int, v: int, m: nat)
    requires x < m && y < m && Cong(x * a, u, m) && Cong(y * a, v, m)
    ensures SubMod(x, y, m) < m && Cong(SubMod(x, y, m) * a, u - v, m)
  {
    SubModIs(x, y, m);
    var d := SubMod(x, y, m);
    CongScale(d, x - y, a, m);
    CongSub(x * a, u, y * a, v, m);
    assert (x - y) * a == x * a - y * a;
    CongTrans(d * a, (x - y) * a, u - v, m);
  }

  /** Halving both sides of `x·a ≡ 2w`. */
  lemma HalveCong(h: int, x: int, a: int, w: int, m: int)
    requires m % 2 == 1 && Cong(2 * h, x, m) && Cong(x * a, 2 * w, m)
    ensures Cong(h * a, w, m)
  {
    CongScale(2 * h, x, a, m);
    CongTrans(2 * h * a, x * a, 2 * w, m);
    assert 2 * h * a == (h * a) * 2 && 2 * w == w * 2;
    CongBy(2 * ((m + 1) / 2), 1, m, 1);
    CancelUnit(h * a, w, 2, (m + 1) / 2, m);
  }

  lemma HalveSide(u: int, v: int)
    requires u % 2 == 0 && v % 2 == 1
    ensures SameCommon(u / 2, v, u, v) && SameCommon(v, u / 2, v, u)
  {
    assert u == 2 * (u / 2);
    CommonHalve(u / 2, v);
  }

  lemma SubtractSide(u: int, v: int)
    requires u % 2 == 1 && v % 2 == 1
    ensures SameCommon((u - v) / 2, v, u, v) && SameCommon(v, (u - v) / 2, v, u)
  {
    var w := u - v;
    HalveSide(w, v);
    CommonAdd(w, v, 1);
    assert w + 1 * v == u;
    SameCommonTrans(w / 2, v, w, v, u, v);
    SameCommonTrans(v, w / 2, v, w, v, u);
  }

  /** The common divisors of the pair, one of which stays odd, never change. */
  lemma StepCommon(s: State, m: nat)
    requires s.a < m && s.c < m && s.v > 0 && (s.u % 2 == 1 || s.v % 2 == 1)
    ensures var t := Step(s, m);
            t.v > 0 && (t.u % 2 == 1 || t.v % 2 == 1) && SameCommon(t.u, t.v, s.u, s.v)
  {
    if s.u % 2 == 0 {
      HalveSide(s.u, s.v);
    } else if s.v % 2 == 0 {
      HalveSide(s.v, s.u);
    } else if s.u >= s.v {
      SubtractSide(s.u, s.v);
    } else {
      SubtractSide(s.v, s.u);
    }
  }

  /** Each round at least halves the product `u·v`. */
  lemma StepShrinks(s: State, m: nat)
    requires s.a < m && s.c < m
    ensures 2 * (Step(s, m).u * Step(s, m).v) <= s.u * s.v
  {
    var u, v := s.u, s.v;
    if u % 2 == 0 {
      assert u * v == 2 * ((u / 2) * v) by { assert u == 2 * (u / 2); }
    } else if v % 2 == 0 {
      assert u * v == 2 * (u * (v / 2)) by { assert v == 2 * (v / 2); }
    } else if u >= v {
      Shrink(u, v, (u - v) / 2);
    } else {
      Shrink(v, u, (v - u) / 2);
    }
  }

  lemma Shrink(x: nat, y: nat, h: nat)
    requires 2 * h <= x
    ensures 2 * (h * y) <= x * y && 2 * (y * h) <= y * x
  {
    MulMono(2 * h, x, y);
  }

  /** `k` rounds. */
  ghost function Rounds(s: State, m: nat, a: nat, k: nat): (t: State)
    requires m % 2 == 1 && Inv(s, a, m)
    ensures Inv(t, a, m)
  {
    if k == 0 then s
    else
      var t := Rounds(s, m, a, k - 1);
      StepKeeps(t, a, m);
      Step(t, m)
  }

  lemma {:induction false} RoundsShrink(s: State, m: nat, a: nat, k: nat)
    requires m % 2 == 1 && Inv(s, a, m)
    ensures var t := Rounds(s, m, a, k); Pow2(k) * (t.u * t.v) <= s.u * s.v
  {
    if k == 0 {
      assert Pow2(0) == 1;
    } else {
      RoundsShrink(s, m, a, k - 1);
      var r := Rounds(s, m, a, k - 1);
      StepShrinks(r, m);
      var t := Step(r, m);
      assert Pow2(k) == 2 * Pow2(k - 1) by { assert Pow(2, k) == 2 * Pow(2, k - 1); }
      HalfAgain(Pow2(k - 1), t.u * t.v, r.u * r.v);
    }
  }

  lemma HalfAgain(p: int, x: int, y: int)
    requires p >= 0 && 2 * x <= y
    ensures (2 * p) * x <= p * y
  {
    MulMono(2 * x, y, p);
    assert (2 * p) * x == (2 * x) * p && p * y == y * p;
  }

  /** The start state meets the invariant. */
  lemma StartInv(a: nat, m: nat)
    requires m % 2 == 1 && m > 1
    ensures Inv(State(a % m, m, 1, 0), a, m)
  {
    var q := a / m;
    assert a % m + q * m == a by { assert q * m == m * q; }
    CommonAdd(a % m, m, q);
    CongMod(a, m);
    CongSym(a % m, a, m);
    assert 1 * a == a && 0 * a == 0;
    CongBy(0, m, m, -1);
  }

  /** An exhausted left side leaves the gcd on the right. */
  lemma ExhaustedGcd(v: nat, a: nat, m: nat)
    requires v > 0 && SameCommon(0, v, a, m)
    ensures v == GcdOf(a, m)
  {
    SameGcd(0, v, a, m);
    assert GcdOf(0, v) == GcdOf(v, 0 % v) == v;
  }

  /**
   * After `2·bits` rounds, `bits` the bit length of `m`, the left side is exhausted: `v` is the
   * gcd and `C` its coefficient.
   */
  lemma EnoughRounds(a: nat, m: nat, bits: nat)
    requires m % 2 == 1 && m > 1 && m < Pow2(bits)
    ensures Inv(State(a % m, m, 1, 0), a, m)
    ensures var t := Rounds(State(a % m, m, 1, 0), m, a, 2 * bits);
            t.u == 0 && t.v == GcdOf(a, m) && t.c < m && Cong(t.c * a, GcdOf(a, m), m)
  {
    StartInv(a, m);
    Exhausted(a, m, bits);
    var t := Rounds(State(a % m, m, 1, 0), m, a, 2 * bits);
    ExhaustedGcd(t.v, a, m);
  }

  lemma Exhausted(a: nat, m: nat, bits: nat)
    requires m % 2 == 1 && m > 1 && m < Pow2(bits) && Inv(State(a % m, m, 1, 0), a, m)
    ensures Rounds(State(a % m, m, 1, 0), m, a, 2 * bits).u == 0
  {
    RoundsShrink(State(a % m, m, 1, 0), m, a, 2 * bits);
    var t := Rounds(State(a % m, m, 1, 0), m, a, 2 * bits);
    Pow2Add(bits, bits);
    StartProduct(a % m, m, Pow2(bits));
    NoRoom(Pow2(2 * bits), t.u, t.v);
  }

  lemma NoRoom(p: int, u: nat, v: nat)
    requires p * (u * v) < p && v > 0 && p > 0
    ensures u == 0
  {
    if u > 0 {
      MulPositive(u, v);
      MulMono(1, u * v, p);
    }
  }

  lemma StartProduct(x: int, m: int, p: int)
    requires 0 <= x < m < p
    ensures x * m < p * p
  {
    MulMono(x, m, m);
    MulStrict(m, p, m);
    MulStrict(m, p, p);
  }
}
