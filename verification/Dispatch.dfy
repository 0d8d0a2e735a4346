/** The exponentiation entry points: the 52-bit ladder when it is available, else the portable one. */
module Dispatch {
  import opened Arith
  import opened Limbs
  import opened LimbOps
  import opened Bits
  import opened Montgomery
  import opened BoxedMont
  import opened Ladders
  import opened Options
  import Ifma = IfmaLadder

  /** A runtime-width modulus with optional 52-bit parameters for the same number. */
  ghost predicate Ready(m: MontModulus, im: Option<Ifma.Modulus>) {
    m.Valid() && Tight(m) && (im.Some? ==> im.value.Valid() && im.value.limbs == m.n)
  }

  /** `2^e`, one set bit in `e/64 + 1` limbs. */
  method OneBit(e: nat) returns (x: seq<Limb>)
    ensures |x| == e / 64 + 1 && Nat(x) == Pow2(e)
  {
    var i, r := e / 64, e % 64;
    Pow2Limb();
    PowMonotone(2, r + 1, 64);
    assert Pow2(r + 1) == 2 * Pow2(r);
    var bit: Limb := Pow2(r);
    x := seq(i, _ => 0) + [bit];
    ValSingle(x, i, i + 1);
    Pow2OfLimbs(i);
    Pow2Add(r, 64 * i);
    assert r + 64 * i == e;
  }

  ghost predicate IsBitLength(v: int, bits: nat) { bits > 0 && Pow2(bits - 1) <= v < Pow2(bits) }

  /** A modulus with both sets of parameters, the 52-bit ones when supported and not too wide. */
  method NewModulus(n: seq<Limb>, supported: bool) returns (m: MontModulus, im: Option<Ifma.Modulus>)
    requires |n| >= 1 && n[0] % 2 == 1
    ensures Ready(m, im) && m.N() == Nat(n)
    ensures exists bits: nat :: IsBitLength(Nat(n), bits)
              && (im.Some? <==> supported && Ifma.DigitCount(bits, m.s) <= 8 * Ifma.MAX_REGISTERS)
  {
    m := NewBoxed(n);
    im := None;
    var bits := BitLen(m.n);
    ModulusPositive(m);
    assert IsBitLength(Nat(n), bits);
    if supported {
      var d := Ifma.DigitCount(bits, m.s);
      var x := OneBit(104 * d);
      var r2 := Reduce(m, x);
      CongMod(Nat(x), m.N());
      im := Ifma.New(m.n, bits, r2);
    }
  }

  /** Whichever ladder runs, an exponent whose last window is clear from `bits` up gives the documented power. */
  method PowBitsDispatch(m: MontModulus, im: Option<Ifma.Modulus>, base: seq<Limb>, exp: seq<Limb>, bits: nat)
    returns (out: seq<Limb>)
    requires Ready(m, im)
    ensures |out| == m.s && m.N() > 0
    ensures im.Some? || Field(Nat(exp), bits, Rest(bits, 4)) == 0 ==>
              Nat(out) == Pow(Nat(Resized(base, m.s)), LowBits(exp, bits)) % m.N()
    ensures Nat(exp) < Pow2(bits) ==> Nat(out) == Pow(Nat(Resized(base, m.s)), Nat(exp)) % m.N()
  {
    ModulusPositive(m);
    if im.Some? {
      out := Ifma.RunOne(im.value, Ifma.Single(Resized(base, m.s), exp), bits);
      WholeExponent(exp, bits);
    } else {
      out := PowBits(m, base, exp, bits);
    }
  }

  lemma WholeExponent(e: seq<Limb>, bits: nat)
    ensures Nat(e) < Pow2(bits) ==> LowBits(e, bits) == Nat(e)
  {
    if Nat(e) < Pow2(bits) { DivModIs(Nat(e), 0, Nat(e), Pow2(bits)); }
  }

  /** The same for two bases. */
  method Pow2BitsDispatch(m: MontModulus, im: Option<Ifma.Modulus>, a: seq<Limb>, x: seq<Limb>,
                          b: seq<Limb>, y: seq<Limb>, bits: nat)
    returns (out: seq<Limb>)
    requires Ready(m, im)
    ensures |out| == m.s && m.N() > 0
    ensures im.Some? || (Field(Nat(x), bits, Rest(bits, 2)) == 0 && Field(Nat(y), bits, Rest(bits, 2)) == 0) ==>
              var (u, v) := (Nat(Resized(a, m.s)), Nat(Resized(b, m.s)));
              Nat(out) == Pow(u, LowBits(x, bits)) * Pow(v, LowBits(y, bits)) % m.N()
    ensures Nat(x) < Pow2(bits) && Nat(y) < Pow2(bits) ==>
              Nat(out) == Pow(Nat(Resized(a, m.s)), Nat(x)) * Pow(Nat(Resized(b, m.s)), Nat(y)) % m.N()
  {
    ModulusPositive(m);
    if im.Some? {
      out := Ifma.RunOne(im.value, Ifma.Joint(Resized(a, m.s), x, Resized(b, m.s), y), bits);
      WholeExponent(x, bits);
      WholeExponent(y, bits);
    } else {
      out := Pow2Bits(m, a, x, b, y, bits);
    }
  }

  /** An exponent of at most 64 bits is its lowest limb. */
  lemma OneWord(e: seq<Limb>, bits: nat)
    requires bits <= 64 && Nat(e) < Pow2(bits)
    ensures Nat(e) == if |e| == 0 then 0 else e[0]
  {
    PowMonotone(2, bits, 64);
    Pow2Limb();
    if |e| > 0 {
      ValHead(B, e, |e|);
      var high: seq<Limb> := e[1..];
      assert Nat(high) >= 0;
    }
  }

  /** `base^exp mod N` for every public exponent, whichever of the three ladders runs. */
  method PowPublicDispatch(m: MontModulus, im: Option<Ifma.Modulus>, base: seq<Limb>, exp: seq<Limb>)
    returns (out: seq<Limb>)
    requires Ready(m, im)
    ensures |out| == m.s && m.N() > 0 && Nat(out) == Pow(Nat(Resized(base, m.s)), Nat(exp)) % m.N()
  {
    ModulusPositive(m);
    var bits := BitLen(exp);
    if bits <= 64 && im.Some? {
      assert Pow2(0) == 1;
      OneWord(exp, bits);
      out := Ifma.PowPublicWord(im.value, Resized(base, m.s), if |exp| == 0 then 0 else exp[0]);
    } else {
      out := PowPublic(m, base, exp);
    }
  }
}
