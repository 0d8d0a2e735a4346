/** Building a fixed-width modulus: the `R^2 mod N` chain. */
module MontSetup {
  import opened Arith
  import opened Limbs
  import opened Bits
  import opened Newton
  import opened Montgomery

  lemma ShapeValue(m: MontModulus)
    requires m.Shape()
    ensures Nat(m.n) == m.N()
  {
    ValZeroTail(B, m.n, m.s, |m.n|);
  }

  /** A value at most `N` has no limbs above the significant width. */
  lemma FitsSignificant(m: MontModulus, x: seq<Limb>)
    requires m.Shape() && |x| == |m.n| && Nat(x) <= m.N()
    ensures Val(B, x, m.s) == Nat(x)
  {
    ModulusPositive(m);
    ValSplit(B, x, m.s, |x|);
    ValBound(B, x, m.s);
    ValBound(B, x[m.s..], |x| - m.s);
    NoHigh(Nat(x), Val(B, x, m.s), Val(B, x[m.s..], |x| - m.s), m.R());
  }

  lemma NoHigh(v: int, lo: int, h: int, r: int)
    requires v == lo + r * h && 0 <= lo && 0 <= h && v < r && r > 0
    ensures v == lo
  {
    if h >= 1 { MulMono(1, h, r); }
  }

  /** `2^(bits-1)` as limbs: below `N`, which has that bit set. */
  method TopPower(n: seq<Limb>, s: nat) returns (x: seq<Limb>, bits: nat)
    requires 1 <= s <= |n| && n[s - 1] != 0
    ensures bits == 64 * (s - 1) + LimbBits(n[s - 1]) && 1 <= LimbBits(n[s - 1]) <= 64
    ensures |x| == |n| && Nat(x) == Pow2(bits - 1) <= Val(B, n, s)
  {
    BitLength(n, s);
    bits := 64 * (s - 1) + LimbBits(n[s - 1]);
    var i, k := (bits - 1) / 64, (bits - 1) % 64;
    Pow2Limb();
    PowMonotone(2, k + 1, 64);
    assert 2 * Pow2(k) == Pow2(k + 1) by { assert Pow(2, k + 1) == 2 * Pow(2, k); }
    var w: Limb := Pow2(k);
    x := seq(|n|, j => if j == i then w else 0);
    ValSingle(x, i, |n|);
    Pow2OfLimbs(i);
    Pow2Add(64 * i, k);
  }

  /**
   * From `2^(bits-1)`: `64s - bits + 1 + s` doublings reach `R·2^s`, the Montgomery form of
   * `2^s`, and six squarings raise it to that of `2^(64s) = R`.
   */
  method RSquared(m: MontModulus) returns (x: seq<Limb>)
    requires m.Shape() && m.n[m.s - 1] != 0
    ensures |x| == |m.n| && m.InMont(Val(B, x, m.s), m.R())
  {
    var start, bits := TopPower(m.n, m.s);
    CongSelf(Nat(start), m.N());
    x := Doublings(m, start, 64 * m.s - bits + 1 + m.s, bits - 1);
    Pow2Add(64 * m.s, m.s);
    Pow2OfLimbs(m.s);
    FitsSignificant(m, x);
    assert Pow2(64 * m.s) * Pow2(m.s) == Pow2(m.s) * m.R();
    x := SixSquarings(m, x);
  }

  /** `count` modular doublings from `2^e`. */
  method Doublings(m: MontModulus, start: seq<Limb>, count: nat, ghost e: nat) returns (x: seq<Limb>)
    requires m.Shape() && |start| == |m.n| && Nat(start) <= m.N() && Cong(Nat(start), Pow2(e), m.N())
    ensures |x| == |m.n| && Nat(x) <= m.N() && Cong(Nat(x), Pow2(e + count), m.N())
  {
    ShapeValue(m);
    x := start;
    var i := 0;
    while i < count
      invariant 0 <= i <= count
      invariant |x| == |m.n| && Nat(x) <= m.N() && Cong(Nat(x), Pow2(e + i), m.N())
    {
      ghost var before := Nat(x);
      x := AddMod(m.n, x, x);
      DoublingStep(before, Nat(x), e + i, m.N());
      i := i + 1;
    }
  }

  /** `M(2^s)` squared six times is `M(2^(64s))`. */
  method SixSquarings(m: MontModulus, start: seq<Limb>) returns (x: seq<Limb>)
    requires m.Shape() && |start| == |m.n| && Val(B, start, m.s) <= m.N()
    requires Cong(Val(B, start, m.s), Pow2(m.s) * m.R(), m.N())
    ensures |x| == |m.n| && m.InMont(Val(B, x, m.s), m.R())
  {
    x := start;
    var i := 0;
    ghost var e := m.s;
    while i < 6
      invariant 0 <= i <= 6 && |x| == |m.n|
      invariant e == Doubled(m.s, i) && Val(B, x, m.s) <= m.N() && Cong(Val(B, x, m.s), Pow2(e) * m.R(), m.N())
      invariant i > 0 ==> m.InMont(Val(B, x, m.s), Pow2(e))
    {
      ghost var before := Val(B, x, m.s);
      x := MontMul(m, x, x);
      SquaringStep(m, Val(B, x, m.s), before, e);
      e := 2 * e;
      i := i + 1;
    }
    DoubledSix(m.s);
    Pow2OfLimbs(m.s);
  }

  function Doubled(s: nat, i: nat): nat { if i == 0 then s else 2 * Doubled(s, i - 1) }

  lemma DoubledSix(s: nat)
    ensures Doubled(s, 6) == 64 * s
  {
    assert Doubled(s, 1) == 2 * s;
    assert Doubled(s, 2) == 4 * s;
    assert Doubled(s, 3) == 8 * s;
    assert Doubled(s, 4) == 16 * s;
    assert Doubled(s, 5) == 32 * s;
  }

  /** Parameters for an odd modulus of any width (`N = 1` included). */
  method New(n: seq<Limb>) returns (m: MontModulus)
    requires |n| >= 1 && n[0] % 2 == 1
    ensures m.Valid() && m.n == n && m.n[m.s - 1] != 0 && m.N() == Nat(n)
  {
    var s := SignificantLimbs(n);
    var inv := InvModLimb(n[0]);
    NPrimeOfInverse(n[0], inv);
    m := MontModulus(n, NegLimb(inv), [], s);
    ShapeValue(m);
    var x := RSquared(m);
    m := m.(r2 := x);
  }
}
