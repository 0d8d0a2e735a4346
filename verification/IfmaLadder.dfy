/** Exponentiation on the 52-bit representation: setup, the ladder for one job or two, public exponents. */
module IfmaLadder {
  import opened Arith
  import opened Limbs
  import opened Bits
  import opened MontKernel
  import opened Newton
  import opened Montgomery
  import opened Radix
  import opened CarryLookahead
  import opened IfmaKernel
  import opened Ladders
  import opened Options

  /** The widest operand, in registers of eight lanes. */
  const MAX_REGISTERS: nat := 16

  /** One odd modulus: `d` digits, stored in whole registers. */
  datatype Modulus = Modulus(d: nat, n: seq<int>, limbs: seq<Limb>, k0: int, rr: seq<int>)
  {
    ghost function N(): int { Val(E, n, |n|) }

    ghost function R(): int { Pow(E, d) }

    ghost predicate Valid() {
      && 1 <= d <= |n| == |rr| && |n| <= 8 * MAX_REGISTERS
      && Digits(E, n, |n|) && Digits(E, rr, |rr|)
      && 0 < N() == Nat(limbs) && 4 * N() <= R() && Pow(B, |limbs|) <= R()
      && 0 <= k0 < E && (n[0] * k0 + 1) % E == 0
      && Val(E, rr, |rr|) < N() && Cong(Val(E, rr, |rr|), R() * R(), N())
    }

    /** Digits of a value congruent to `x·R`, reduced only below `2N`. */
    ghost predicate Almost(v: seq<int>, x: int) {
      |v| == |n| && Digits(E, v, |v|) && Val(E, v, |v|) < 2 * N() && Cong(Val(E, v, |v|), x * R(), N())
    }
  }

  lemma Radix52()
    ensures Pow2(52) == E
  {
    assert Pow2(4) == 16 && Pow2(32) == 0x1_0000_0000 by { Pow2Limb(); }
    Pow2Add(4, 4);
    Pow2Add(8, 8);
    Pow2Add(16, 4);
    Pow2Add(32, 20);
  }

  // ------------------------------------------------------------------- setup

  /** `⌈a/b⌉`. */
  function CeilDiv(a: nat, b: nat): (q: nat)
    requires b > 0
    ensures q * b >= a
  {
    assert a + b - 1 == b * ((a + b - 1) / b) + (a + b - 1) % b;
    DivNonNegative(a + b - 1, b);
    (a + b - 1) / b
  }

  /** Enough digits for `4n`, and for any operand of `l` limbs. */
  function DigitCount(bits: nat, l: nat): (d: nat)
    ensures 52 * d >= bits + 2 && 52 * d >= 64 * l && d >= 1
  {
    var x, y := CeilDiv(bits + 2, 52), CeilDiv(64 * l, 52);
    if x >= y then x else y
  }

  /** The digits of `x`, in `lanes` lanes of which the first `d` are converted. */
  method DigitsOf(x: seq<Limb>, d: nat, lanes: nat) returns (z: seq<int>)
    requires d <= lanes && 52 * d >= 64 * |x|
    ensures |z| == lanes && Digits(E, z, lanes) && Val(E, z, lanes) == Nat(x)
    ensures lanes > 0 && |x| > 0 ==> z[0] == x[0] % E
  {
    Radix52();
    var low := ToDigits(x, d, 52);
    z := low + seq(lanes - d, _ => 0);
    ValZeroTail(E, z, d, lanes);
    ValAgree(E, z, low, d);
    PowMonotone(2, 64 * |x|, 52 * d);
    Pow2OfLimbs(|x|);
    DivModIs(Nat(x), 0, Nat(x), Pow2(52 * d));
    if lanes > 0 && |x| > 0 { LowDigit(x, z); }
  }

  lemma LowDigit(x: seq<Limb>, z: seq<int>)
    requires |x| > 0 && |z| > 0 && Digits(E, z, |z|) && Val(E, z, |z|) == Nat(x)
    ensures z[0] == x[0] % E
  {
    ValHead(E, z, |z|);
    ValHead(B, x, |x|);
    LowDigitAlgebra(x[0], Val(B, x[1..], |x| - 1), z[0], Val(E, z[1..], |z| - 1));
  }

  lemma LowDigitAlgebra(x0: int, xs: int, z0: int, zs: int)
    requires x0 + B * xs == z0 + E * zs && 0 <= z0 < E
    ensures z0 == x0 % E
  {
    assert x0 == z0 + E * (zs - 4096 * xs);
    CongBy(x0, z0, E, zs - 4096 * xs);
    CongSym(x0, z0, E);
    ModIs(x0, z0, E);
  }

  /**
   * Parameters for the odd modulus `n` of public bit length `bits`, or none when it needs more
   * registers than the kernels have. `r2` is the caller's portable `2^(104·d) mod n`.
   */
  method New(n: seq<Limb>, bits: nat, r2: seq<Limb>) returns (m: Option<Modulus>)
    requires |n| >= 1 && n[0] % 2 == 1 && Nat(n) < Pow2(bits)
    requires |r2| == |n| && Nat(r2) < Nat(n) && Cong(Nat(r2), Pow2(104 * DigitCount(bits, |n|)), Nat(n))
    ensures m.None? <==> DigitCount(bits, |n|) > 8 * MAX_REGISTERS
    ensures m.Some? ==> m.value.Valid() && m.value.limbs == n && m.value.d == DigitCount(bits, |n|)
  {
    var d := DigitCount(bits, |n|);
    var v := CeilDiv(d, 8);
    if v > MAX_REGISTERS { return None; }
    var digits := DigitsOf(n, d, 8 * v);
    var inv := InvModLimb(n[0]);
    NPrimeOfInverse(n[0], inv);
    var k0 := NegLimb(inv) % E;
    var rr := DigitsOf(r2, d, 8 * v);
    m := Some(Modulus(d, digits, n, k0, rr));
    SetupLow(n[0], NegLimb(inv));
    SetupRange(n, bits, d);
    SetupSquare(d);
  }

  lemma SetupLow(n0: Limb, np: Limb)
    requires IsNPrime(n0, np)
    ensures ((n0 % E) * (np % E) + 1) % E == 0
  {
    CongMod(n0, E);
    CongMod(np, E);
    CongMul(n0 % E, n0, np % E, np, E);
    CongSelf(1, E);
    CongAdd((n0 % E) * (np % E), n0 * np, 1, 1, E);
    var c := (n0 * np + 1) / B;
    assert n0 * np + 1 == (4096 * c) * E;
    CongBy(n0 * np + 1, 0, E, 4096 * c);
    CongTrans((n0 % E) * (np % E) + 1, n0 * np + 1, 0, E);
    CongIsMod((n0 % E) * (np % E) + 1, 0, E);
  }

  lemma SetupRange(n: seq<Limb>, bits: nat, d: nat)
    requires |n| >= 1 && n[0] % 2 == 1 && Nat(n) < Pow2(bits) && d == DigitCount(bits, |n|)
    ensures 0 < Nat(n) && 4 * Nat(n) <= Pow(E, d) && Pow(B, |n|) <= Pow(E, d)
  {
    ParityOfLow(n, |n|);
    assert Pow(E, d) == Pow2(52 * d) by { Radix52(); PowMul(2, 52, d); }
    assert Pow2(bits + 2) == 4 * Pow2(bits) by { SmallPowers(); Pow2Add(bits, 2); }
    PowMonotone(2, bits + 2, 52 * d);
    Pow2OfLimbs(|n|);
    PowMonotone(2, 64 * |n|, 52 * d);
  }

  lemma SetupSquare(d: nat)
    ensures Pow2(104 * d) == Pow(E, d) * Pow(E, d)
  {
    Radix52();
    PowMul(2, 52, d);
    Pow2Add(52 * d, 52 * d);
  }

  // -------------------------------------------------------------- the domain

  /** A value below `E^d` has no digits from `d` up. */
  lemma NoHighDigits(v: seq<int>, d: nat)
    requires d <= |v| && Digits(E, v, |v|) && Val(E, v, |v|) < Pow(E, d)
    ensures Val(E, v, d) == Val(E, v, |v|)
  {
    ValSplit(E, v, d, |v|);
    assert Digits(E, v[d..], |v| - d);
    ValBound(E, v[d..], |v| - d);
    ValBound(E, v, d);
    NoHighPart(Val(E, v, d), Val(E, v[d..], |v| - d), Pow(E, d));
  }

  lemma NoHighPart(lo: int, h: int, p: int)
    requires lo >= 0 && h >= 0 && p > 0 && lo + p * h < p
    ensures p * h == 0
  {
    if h >= 1 { MulMono(1, h, p); }
  }

  /** The radix power is a unit modulo `N`. */
  lemma CancelRadix(m: Modulus, x: int, y: int)
    requires m.Valid() && Cong(x * m.R(), y * m.R(), m.N())
    ensures Cong(x, y, m.N())
  {
    ValHead(E, m.n, |m.n|);
    var h, c := Val(E, m.n[1..], |m.n| - 1), (m.n[0] * m.k0 + 1) / E;
    var j := RadixInverse(E, m.N(), m.n[0], h, m.k0, c);
    CongPow(E * j, 1, m.d, m.N());
    PowBase(E, j, m.d);
    PowOne(m.d);
    CancelUnit(x, y, m.R(), Pow(j, m.d), m.N());
  }

  /** `A·B·R^-1`, almost reduced; at most `N` when the second operand is one. */
  method Product(m: Modulus, a: seq<int>, b: seq<int>) returns (out: seq<int>)
    requires m.Valid() && |a| == |b| == |m.n| && Digits(E, a, |a|) && Digits(E, b, |b|)
    requires Val(E, b, |b|) < m.R() && Val(E, a, |a|) * Val(E, b, |b|) < m.R() * m.N()
    ensures |out| == |m.n| && Digits(E, out, |out|) && 0 <= Val(E, out, |out|) < 2 * m.N()
    ensures Cong(Val(E, out, |out|) * m.R(), Val(E, a, |a|) * Val(E, b, |b|), m.N())
    ensures Val(E, a, |a|) * Val(E, b, |b|) < m.R() ==> Val(E, out, |out|) <= m.N()
  {
    NoHighDigits(b, m.d);
    PowMonotone(E, m.d, |m.n|);
    out := Amm(a, b, m.n, m.k0, m.d);
    ghost var v, x := Val(E, out, |out|), Val(E, a, |a|) * Val(E, b, |b|);
    ghost var k :| Accumulated(v, Val(E, a, |a|), Val(E, b, m.d), m.d, k, m.N());
    CongBy(v * m.R(), x, m.N(), k);
    if x < m.R() { SmallProduct(v, x, k, m.N(), m.R()); }
  }

  lemma SmallProduct(v: int, x: int, k: int, n: int, r: int)
    requires v * r == x + k * n && x < r && 0 <= k < r && n > 0
    ensures v <= n
  {
    MulMono(k, r - 1, n);
    assert (r - 1) * n == n * r - n;
    assert v * r < (n + 1) * r by { assert (n + 1) * r == n * r + r; }
    MulCancelLess(v, n + 1, r);
  }

  /** The domain is closed: values below `2N` multiply to a value below `2N`. */
  method Mul(m: Modulus, a: seq<int>, b: seq<int>, ghost x: int, ghost y: int) returns (out: seq<int>)
    requires m.Valid() && m.Almost(a, x) && m.Almost(b, y)
    ensures m.Almost(out, x * y)
  {
    ValBound(E, a, |a|);
    ValBound(E, b, |b|);
    ProductRoom(Val(E, a, |a|), Val(E, b, |b|), m.N(), m.R());
    out := Product(m, a, b);
    AlmostProduct(m, Val(E, out, |out|), Val(E, a, |a|), Val(E, b, |b|), x, y);
  }

  lemma AlmostProduct(m: Modulus, v: int, a: int, b: int, x: int, y: int)
    requires m.Valid() && Cong(v * m.R(), a * b, m.N())
    requires Cong(a, x * m.R(), m.N()) && Cong(b, y * m.R(), m.N())
    ensures Cong(v, x * y * m.R(), m.N())
  {
    var r := m.R();
    CongMul(a, x * r, b, y * r, m.N());
    CongTrans(v * r, a * b, (x * r) * (y * r), m.N());
    RadixTwice(x, y, r);
    CancelRadix(m, v, (x * y) * r);
  }

  lemma RadixTwice(x: int, y: int, r: int)
    ensures (x * r) * (y * r) == ((x * y) * r) * r
  {
  }

  /** Any operand below `R` enters the domain through `R^2 mod N`. */
  method Enter(m: Modulus, a: seq<int>) returns (out: seq<int>)
    requires m.Valid() && |a| == |m.n| && Digits(E, a, |a|) && Val(E, a, |a|) < m.R()
    ensures m.Almost(out, Val(E, a, |a|))
  {
    ValBound(E, m.rr, |m.rr|);
    ValBound(E, a, |a|);
    EnterRoom(Val(E, a, |a|), Val(E, m.rr, |m.rr|), m.N(), m.R());
    out := Product(m, a, m.rr);
    EnterIs(m, Val(E, out, |out|), Val(E, a, |a|), Val(E, m.rr, |m.rr|));
  }

  lemma EnterIs(m: Modulus, v: int, x: int, r2: int)
    requires m.Valid() && Cong(v * m.R(), x * r2, m.N()) && Cong(r2, m.R() * m.R(), m.N())
    ensures Cong(v, x * m.R(), m.N())
  {
    EnterCong(v, x, r2, m.R(), m.N());
    CancelRadix(m, v, x * m.R());
  }

  lemma EnterCong(v: int, x: int, r2: int, r: int, n: int)
    requires Cong(v * r, x * r2, n) && Cong(r2, r * r, n)
    ensures Cong(v * r, (x * r) * r, n)
  {
    CongScale(r2, r * r, x, n);
    CongTrans(v * r, x * r2, x * (r * r), n);
    assert x * (r * r) == (x * r) * r;
  }

  lemma EnterRoom(x: int, y: int, n: int, r: int)
    requires 0 <= x < r && 0 <= y < n
    ensures x * y < r * n
  {
    MulMono(x, r, y);
    MulStrict(y, n, r);
    assert r * y == y * r && n * r == r * n;
  }

  /** The digit vector of one. */
  method One(m: Modulus) returns (one: seq<int>)
    requires m.Valid()
    ensures |one| == |m.n| && Digits(E, one, |one|) && Val(E, one, |one|) == 1
  {
    one := [1] + seq(|m.n| - 1, _ => 0);
    ValZeroTail(E, one, 1, |one|);
    assert Val(E, one, 1) == Val(E, one, 0) + one[0] * Pow(E, 0);
  }

  /** The Montgomery one, as `R^2` times one. */
  method OneM(m: Modulus) returns (out: seq<int>)
    requires m.Valid()
    ensures m.Almost(out, 1)
  {
    var one := One(m);
    ghost var r2 := Val(E, m.rr, |m.rr|);
    ValBound(E, m.rr, |m.rr|);
    EnterRoom(1, r2, m.N(), m.R());
    out := Product(m, m.rr, one);
    CongTrans(Val(E, out, |out|) * m.R(), r2 * 1, m.R() * m.R(), m.N());
    CancelRadix(m, Val(E, out, |out|), m.R());
    assert 1 * m.R() == m.R();
  }

  /** Out of the domain: multiply by one, convert to limbs, one conditional subtraction. */
  method Finish(m: Modulus, acc: seq<int>, ghost x: int) returns (out: seq<Limb>)
    requires m.Valid() && m.Almost(acc, x)
    ensures |out| == |m.limbs| && Nat(out) == x % m.N()
  {
    var one := One(m);
    ValBound(E, acc, |acc|);
    FinishRoom(Val(E, acc, |acc|), m.N(), m.R());
    var res := Product(m, acc, one);
    ghost var v := Val(E, res, |res|);
    assert Val(E, acc, |acc|) * Val(E, one, |one|) == Val(E, acc, |acc|);
    CongTrans(v * m.R(), Val(E, acc, |acc|), x * m.R(), m.N());
    CancelRadix(m, v, x);
    NoHighDigits(res, m.d);
    var low := res[..m.d];
    ValAgree(E, low, res, m.d);
    Radix52();
    var t := FromDigits(low, |m.limbs|, 52);
    var buf := new Limb[|m.limbs|](_ => 0);
    MontFinalSub(m.limbs, t, 0, buf);
    out := buf[..];
    FinalResidue(v, x, m.N(), Nat(out));
  }

  lemma FinishRoom(a: int, n: int, r: int)
    requires 0 <= a < 2 * n && 4 * n <= r && n > 0
    ensures a < r && a < r * n
  {
    MulMono(1, n, r);
    assert n * r == r * n;
  }

  lemma FinalResidue(v: int, x: int, n: int, out: int)
    requires n > 0 && 0 <= v <= n && Cong(v, x, n) && out == (if v >= n then v - n else v)
    ensures out == x % n
  {
    if v >= n {
      CongBy(out, v, n, -1);
    } else {
      CongSelf(v, n);
    }
    CongTrans(out, v, x, n);
    ModIs(x, out, n);
  }

  // -------------------------------------------------------------- the ladder

  /** `width` bits from `pos`, those at or above `bound` read as zero. */
  function Window(e: seq<Limb>, pos: nat, width: nat, bound: nat): int
    requires 1 <= width <= 64
  {
    if pos >= bound then 0
    else ReadDigit(e, pos, if width <= bound - pos then width else bound - pos)
  }

  /** The bounded window is the plain window of the truncated exponent. */
  lemma WindowIsField(e: seq<Limb>, pos: nat, width: nat, bound: nat)
    requires 1 <= width <= 64
    ensures Window(e, pos, width, bound) == Field(Nat(e) % Pow2(bound), pos, width)
  {
    if pos >= bound {
      PowMonotone(2, bound, pos);
      DivModIs(Nat(e) % Pow2(bound), 0, Nat(e) % Pow2(bound), Pow2(pos));
      DivModIs(0, 0, 0, Pow2(width));
    } else if width <= bound - pos {
      ReadDigitIsField(e, pos, width);
      FieldOfLow(Nat(e), pos, width, bound);
    } else {
      ReadDigitIsField(e, pos, bound - pos);
      FieldOfLow(Nat(e), pos, bound - pos, bound);
      CutWindow(Nat(e) % Pow2(bound), pos, width, bound);
    }
  }

  lemma CutWindow(x: int, pos: nat, width: nat, bound: nat)
    requires 0 <= x < Pow2(bound) && pos <= bound <= pos + width
    ensures Field(x, pos, bound - pos) == Field(x, pos, width)
  {
    var k := bound - pos;
    Pow2Add(k, pos);
    DivBelow(x, Pow2(k), Pow2(pos));
    DivNonNegative(x, Pow2(pos));
    PowMonotone(2, k, width);
    var y := x / Pow2(pos);
    DivModIs(y, 0, y, Pow2(k));
    DivModIs(y, 0, y, Pow2(width));
  }

  /** The top window is everything from it up. */
  lemma TopWindow(x: int, windows: nat, width: nat)
    requires windows >= 1 && 0 <= x < Pow2(windows * width)
    ensures x / Pow2((windows - 1) * width) == Field(x, (windows - 1) * width, width)
  {
    assert windows * width == (windows - 1) * width + width;
    TopField(x, (windows - 1) * width, width);
  }

  /** What a ladder exponentiates: `base^exp`, or `a^x·b^y`. */
  datatype Job = Single(base: seq<Limb>, exp: seq<Limb>)
               | Joint(a: seq<Limb>, x: seq<Limb>, b: seq<Limb>, y: seq<Limb>)
  {
    predicate Fits(l: nat) { if Single? then |base| <= l else |a| <= l && |b| <= l }

    function Width(): nat { if Single? then 5 else 2 }

    function Size(): nat { if Single? then 32 else 16 }

    /** The power that table entry `k` stands for. */
    ghost function Entry(k: nat): int {
      if Single? then Pow(Nat(base), k) else Pow(Nat(a), k % 4) * Pow(Nat(b), k / 4)
    }

    /** The table index of window `w`. */
    function Digit(w: nat, bits: nat): int {
      if Single? then Window(exp, 5 * w, 5, bits)
      else Window(x, 2 * w, 2, bits) + 4 * Window(y, 2 * w, 2, bits)
    }

    /** The power of the exponent bits from window `w` up. */
    ghost function Prefix(w: nat, bits: nat): int {
      if Single? then Pow(Nat(base), High(exp, bits, 5 * w))
      else Pow(Nat(a), High(x, bits, 2 * w)) * Pow(Nat(b), High(y, bits, 2 * w))
    }

    /** The power of all `bits` exponent bits. */
    ghost function Result(bits: nat): int {
      if Single? then Pow(Nat(base), LowBits(exp, bits))
      else Pow(Nat(a), LowBits(x, bits)) * Pow(Nat(b), LowBits(y, bits))
    }
  }

  /** The low `bits` exponent bits, from bit `pos` up. */
  ghost function High(e: seq<Limb>, bits: nat, pos: nat): nat {
    PowPositive(2, pos);
    DivNonNegative(LowBits(e, bits), Pow2(pos));
    LowBits(e, bits) / Pow2(pos)
  }

  /** One more window below. */
  lemma HighStep(e: seq<Limb>, bits: nat, w: nat, width: nat)
    requires 1 <= width <= 64
    ensures Window(e, width * w, width, bits) >= 0
    ensures High(e, bits, width * w) == High(e, bits, width * (w + 1)) * Pow2(width) + Window(e, width * w, width, bits)
  {
    WindowIsField(e, width * w, width, bits);
    ShiftStep(LowBits(e, bits), width * w, width);
    assert width * (w + 1) == width * w + width;
  }

  lemma HighTop(e: seq<Limb>, bits: nat, width: nat)
    requires 1 <= width <= 64
    ensures var w := Windows(bits, width) - 1;
            High(e, bits, width * w) == Window(e, width * w, width, bits) < Pow2(width)
  {
    var windows := Windows(bits, width);
    PowMonotone(2, bits, windows * width);
    TopWindow(LowBits(e, bits), windows, width);
    assert width * (windows - 1) == (windows - 1) * width;
    WindowIsField(e, (windows - 1) * width, width, bits);
  }

  lemma WindowBelow(e: seq<Limb>, pos: nat, width: nat, bits: nat)
    requires 1 <= width <= 64
    ensures 0 <= Window(e, pos, width, bits) < Pow2(width)
  {
    WindowIsField(e, pos, width, bits);
  }

  lemma SmallPowers()
    ensures Pow2(5) == 32 && Pow2(2) == 4
  {
    Pow2Limb();
    Pow2Add(4, 1);
  }

  lemma DigitRange(job: Job, w: nat, bits: nat)
    ensures 0 <= job.Digit(w, bits) < job.Size()
  {
    SmallPowers();
    if job.Single? {
      WindowBelow(job.exp, 5 * w, 5, bits);
    } else {
      WindowBelow(job.x, 2 * w, 2, bits);
      WindowBelow(job.y, 2 * w, 2, bits);
    }
  }

  lemma JointIndex(dx: nat, dy: nat)
    requires dx < 4
    ensures (dx + 4 * dy) % 4 == dx && (dx + 4 * dy) / 4 == dy
  {
  }

  /** Squaring `width` times and multiplying by the window's entry takes in one more window. */
  lemma PrefixStep(job: Job, w: nat, bits: nat)
    ensures job.Digit(w, bits) >= 0
    ensures job.Prefix(w, bits) == Pow(job.Prefix(w + 1, bits), Pow2(job.Width())) * job.Entry(job.Digit(w, bits))
  {
    SmallPowers();
    DigitRange(job, w, bits);
    if job.Single? {
      HighStep(job.exp, bits, w, 5);
      WindowPower(Nat(job.base), High(job.exp, bits, 5 * (w + 1)), 32, job.Digit(w, bits));
    } else {
      HighStep(job.x, bits, w, 2);
      HighStep(job.y, bits, w, 2);
      var dx, dy := Window(job.x, 2 * w, 2, bits), Window(job.y, 2 * w, 2, bits);
      WindowBelow(job.x, 2 * w, 2, bits);
      JointIndex(dx, dy);
      JointPower(Nat(job.a), Nat(job.b), High(job.x, bits, 2 * (w + 1)), High(job.y, bits, 2 * (w + 1)), dx, dy);
    }
  }

  lemma PrefixTop(job: Job, bits: nat)
    ensures var w := Windows(bits, job.Width()) - 1;
            job.Digit(w, bits) >= 0 && job.Prefix(w, bits) == job.Entry(job.Digit(w, bits))
  {
    if job.Single? {
      HighTop(job.exp, bits, 5);
    } else {
      HighTop(job.x, bits, 2);
      HighTop(job.y, bits, 2);
      JointTop(job, Windows(bits, 2) - 1, bits);
    }
  }

  lemma JointTop(job: Job, w: nat, bits: nat)
    requires job.Joint?
    requires High(job.x, bits, 2 * w) == Window(job.x, 2 * w, 2, bits) < Pow2(2)
    requires High(job.y, bits, 2 * w) == Window(job.y, 2 * w, 2, bits)
    ensures job.Digit(w, bits) >= 0 && job.Prefix(w, bits) == job.Entry(job.Digit(w, bits))
  {
    SmallPowers();
    JointIndex(Window(job.x, 2 * w, 2, bits), Window(job.y, 2 * w, 2, bits));
  }

  lemma PrefixBottom(job: Job, bits: nat)
    ensures job.Prefix(0, bits) == job.Result(bits)
  {
    assert Pow2(0) == 1;
  }

  /** Entry `k` of the table holds the power it stands for. */
  ghost predicate Tabulated(m: Modulus, table: seq<seq<int>>, job: Job) {
    |table| == job.Size() && forall k :: 0 <= k < |table| ==> m.Almost(table[k], job.Entry(k))
  }

  method BuildTable(m: Modulus, job: Job) returns (table: seq<seq<int>>)
    requires m.Valid() && job.Fits(|m.limbs|)
    ensures Tabulated(m, table, job)
  {
    if job.Single? {
      table := BuildPowers(m, job);
    } else {
      table := FirstColumn(m, job);
      var j := 0;
      while j < 4
        invariant 0 <= j <= 4 && |table| == 16 && m.Almost(table[1], Nat(job.a))
        invariant forall i :: j <= i < 4 ==> m.Almost(table[4 * i], job.Entry(4 * i))
        invariant forall k :: 0 <= k < 4 * j ==> m.Almost(table[k], job.Entry(k))
      {
        table := FillRow(m, table, j, job);
        j := j + 1;
      }
    }
  }

  method BuildPowers(m: Modulus, job: Job) returns (table: seq<seq<int>>)
    requires m.Valid() && job.Single? && job.Fits(|m.limbs|)
    ensures Tabulated(m, table, job)
  {
    ghost var b := Nat(job.base);
    var oneM := OneM(m);
    var baseM := EnterLimbs(m, job.base);
    table := [oneM, baseM];
    assert Pow(b, 0) == 1 && Pow(b, 1) == b;
    var i := 2;
    while i < 32
      invariant 2 <= i <= 32 && |table| == i && table[1] == baseM
      invariant forall k :: 0 <= k < i ==> m.Almost(table[k], job.Entry(k))
    {
      var next := Mul(m, table[i - 1], baseM, Pow(b, i - 1), b);
      assert Pow(b, i - 1) * b == Pow(b, i);
      table := table + [next];
      i := i + 1;
    }
  }

  /** `1, b, b^2, b^3` at entries 0, 4, 8, 12, and `a` at entry 1. */
  method FirstColumn(m: Modulus, job: Job) returns (table: seq<seq<int>>)
    requires m.Valid() && job.Joint? && job.Fits(|m.limbs|)
    ensures |table| == 16 && m.Almost(table[1], Nat(job.a))
    ensures forall j :: 0 <= j < 4 ==> m.Almost(table[4 * j], job.Entry(4 * j))
  {
    ghost var x, y := Nat(job.a), Nat(job.b);
    var oneM := OneM(m);
    var aM := EnterLimbs(m, job.a);
    var bM := EnterLimbs(m, job.b);
    ColumnPowers(x, y);
    var b2 := Mul(m, bM, bM, y, y);
    var b3 := Mul(m, b2, bM, y * y, y);
    assert m.Almost(oneM, job.Entry(0)) && m.Almost(bM, job.Entry(4));
    assert m.Almost(b2, job.Entry(8)) && m.Almost(b3, job.Entry(12));
    table := seq(16, _ => oneM);
    table := table[1 := aM][4 := bM][8 := b2][12 := b3];
  }

  /** Row `j` of the joint table: each entry is the one before times `a`. */
  method FillRow(m: Modulus, table0: seq<seq<int>>, j: nat, job: Job) returns (table: seq<seq<int>>)
    requires m.Valid() && job.Joint? && |table0| == 16 && j < 4
    requires m.Almost(table0[4 * j], job.Entry(4 * j)) && m.Almost(table0[1], Nat(job.a))
    ensures |table| == 16 && forall k :: 0 <= k < 16 && !(4 * j < k < 4 * j + 4) ==> table[k] == table0[k]
    ensures forall k :: 4 * j <= k < 4 * j + 4 ==> m.Almost(table[k], job.Entry(k))
    ensures m.Almost(table[1], Nat(job.a))
  {
    ghost var a, b := Nat(job.a), Nat(job.b);
    table := table0;
    var i := 1;
    while i < 4
      invariant 1 <= i <= 4 && |table| == 16 && table[1] == table0[1]
      invariant forall k :: 0 <= k < 16 && !(4 * j < k < 4 * j + 4) ==> table[k] == table0[k]
      invariant forall k :: 4 * j <= k < 4 * j + i ==> m.Almost(table[k], job.Entry(k))
    {
      var k := 4 * j + i;
      JointNext(a, b, j, i);
      if k != 1 {
        var v := Mul(m, table[k - 1], table[1], Pow(a, i - 1) * Pow(b, j), a);
        table := table[k := v];
      }
      i := i + 1;
    }
  }

  method EnterLimbs(m: Modulus, base: seq<Limb>) returns (out: seq<int>)
    requires m.Valid() && |base| <= |m.limbs|
    ensures m.Almost(out, Nat(base))
  {
    LimbRoom(m, base);
    var plain := DigitsOf(base, m.d, |m.n|);
    out := Enter(m, plain);
  }

  lemma LimbRoom(m: Modulus, base: seq<Limb>)
    requires m.Valid() && |base| <= |m.limbs|
    ensures 52 * m.d >= 64 * |base| && Nat(base) < m.R()
  {
    Radix52();
    PowMul(2, 52, m.d);
    Pow2OfLimbs(|m.limbs|);
    PowMonotone(B, |base|, |m.limbs|);
    assert Pow(2, 52 * m.d + 1) == 2 * Pow(2, 52 * m.d);
    if 52 * m.d < 64 * |m.limbs| { PowMonotone(2, 52 * m.d + 1, 64 * |m.limbs|); }
  }

  method SquareTimes(m: Modulus, a: seq<int>, k: nat, ghost x: int) returns (v: seq<int>)
    requires m.Valid() && m.Almost(a, x)
    ensures m.Almost(v, Pow(x, Pow2(k)))
  {
    v := a;
    assert Pow2(0) == 1 && Pow(x, 1) == x by { assert Pow(x, 0) == 1; }
    for i := 0 to k
      invariant m.Almost(v, Pow(x, Pow2(i)))
    {
      v := Mul(m, v, v, Pow(x, Pow2(i)), Pow(x, Pow2(i)));
      PowAdd(x, Pow2(i), Pow2(i));
      assert Pow2(i + 1) == Pow2(i) + Pow2(i) by { assert Pow(2, i + 1) == 2 * Pow(2, i); }
    }
  }

  /** One window: `width` squarings and one table entry. */
  method LadderStep(m: Modulus, job: Job, table: seq<seq<int>>, acc: seq<int>, w: nat, bits: nat)
    returns (next: seq<int>)
    requires m.Valid() && Tabulated(m, table, job) && m.Almost(acc, job.Prefix(w + 1, bits))
    ensures m.Almost(next, job.Prefix(w, bits))
  {
    ghost var v := job.Prefix(w + 1, bits);
    var squared := SquareTimes(m, acc, job.Width(), v);
    DigitRange(job, w, bits);
    var sel := Gather(table, job.Digit(w, bits));
    next := Mul(m, squared, sel, Pow(v, Pow2(job.Width())), job.Entry(job.Digit(w, bits)));
    PrefixStep(job, w, bits);
  }

  method LadderTop(m: Modulus, job: Job, table: seq<seq<int>>, bits: nat) returns (acc: seq<int>)
    requires m.Valid() && Tabulated(m, table, job)
    ensures m.Almost(acc, job.Prefix(Windows(bits, job.Width()) - 1, bits))
  {
    var w := Windows(bits, job.Width()) - 1;
    DigitRange(job, w, bits);
    PrefixTop(job, bits);
    acc := Gather(table, job.Digit(w, bits));
  }

  /**
   * One exponentiation, `base^(exp mod 2^bits) mod N` or `a^(x mod 2^bits)·b^(y mod 2^bits) mod N`:
   * exactly `bits` bits of each exponent are used, whatever lies above them.
   */
  method RunOne(m: Modulus, job: Job, bits: nat) returns (out: seq<Limb>)
    requires m.Valid() && job.Fits(|m.limbs|)
    ensures |out| == |m.limbs| && Nat(out) == job.Result(bits) % m.N()
  {
    var table := BuildTable(m, job);
    var w := Windows(bits, job.Width()) - 1;
    var acc := LadderTop(m, job, table, bits);
    while w > 0
      invariant w >= 0 && m.Almost(acc, job.Prefix(w, bits))
    {
      w := w - 1;
      acc := LadderStep(m, job, table, acc, w, bits);
    }
    PrefixBottom(job, bits);
    out := Finish(m, acc, job.Result(bits));
  }

  /** Two exponentiations of one kind and bit count in lockstep: each gives its own result. */
  method RunPair(m0: Modulus, m1: Modulus, job0: Job, job1: Job, bits: nat) returns (out0: seq<Limb>, out1: seq<Limb>)
    requires m0.Valid() && m1.Valid() && m0.d == m1.d
    requires job0.Fits(|m0.limbs|) && job1.Fits(|m1.limbs|) && (job0.Single? <==> job1.Single?)
    ensures |out0| == |m0.limbs| && Nat(out0) == job0.Result(bits) % m0.N()
    ensures |out1| == |m1.limbs| && Nat(out1) == job1.Result(bits) % m1.N()
  {
    var table0 := BuildTable(m0, job0);
    var table1 := BuildTable(m1, job1);
    var w := Windows(bits, job0.Width()) - 1;
    var acc0 := LadderTop(m0, job0, table0, bits);
    var acc1 := LadderTop(m1, job1, table1, bits);
    while w > 0
      invariant w >= 0 && m0.Almost(acc0, job0.Prefix(w, bits)) && m1.Almost(acc1, job1.Prefix(w, bits))
    {
      w := w - 1;
      acc0 := LadderStep(m0, job0, table0, acc0, w, bits);
      acc1 := LadderStep(m1, job1, table1, acc1, w, bits);
    }
    PrefixBottom(job0, bits);
    PrefixBottom(job1, bits);
    out0 := Finish(m0, acc0, job0.Result(bits));
    out1 := Finish(m1, acc1, job1.Result(bits));
  }

  // ------------------------------------------------------ public exponents

  /** `base^exp mod N` for a one-word public exponent, left-to-right binary. */
  method PowPublicWord(m: Modulus, base: seq<Limb>, exp: Limb) returns (out: seq<Limb>)
    requires m.Valid() && |base| <= |m.limbs|
    ensures |out| == |m.limbs| && Nat(out) == Pow(Nat(base), exp) % m.N()
  {
    ghost var b := Nat(base);
    var acc;
    if exp == 0 {
      acc := OneM(m);
      assert Pow(b, 0) == 1;
    } else {
      acc := BinaryWord(m, base, exp);
    }
    out := Finish(m, acc, Pow(b, exp));
  }

  method BinaryWord(m: Modulus, base: seq<Limb>, exp: Limb) returns (acc: seq<int>)
    requires m.Valid() && |base| <= |m.limbs| && exp > 0
    ensures m.Almost(acc, Pow(Nat(base), exp))
  {
    ghost var b := Nat(base);
    var word: seq<Limb> := [exp];
    assert Nat(word) == exp by { assert Val(B, word, 1) == Val(B, word, 0) + exp * Pow(B, 0); }
    var baseM := EnterLimbs(m, base);
    acc := baseM;
    var bits := BitLen(word);
    TopBit(word, bits);
    assert Pow(b, 1) == b by { assert Pow(b, 0) == 1; }
    var i := bits - 1;
    while i > 0
      invariant 0 <= i <= bits - 1
      invariant Nat(word) / Pow2(i) >= 0 && m.Almost(acc, Pow(b, Nat(word) / Pow2(i)))
    {
      ghost var hi := Nat(word) / Pow2(i);
      i := i - 1;
      ExpBitStep(word, i);
      acc := Mul(m, acc, acc, Pow(b, hi), Pow(b, hi));
      PowAdd(b, hi, hi);
      PowerStep(b, hi);
      if ExpBit(word, i) == 1 {
        acc := Mul(m, acc, baseM, Pow(b, 2 * hi), b);
      }
    }
    assert Pow2(0) == 1;
  }
}
