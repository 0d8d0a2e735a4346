/** Whole-number operations on limb strings: products, wrapping sums, halving and bitwise division. */
module UintOps {
  import opened Arith
  import opened Limbs
  import opened LimbOps
  import opened Bits
  import opened BitOps
  import opened Montgomery
  import opened LongDivide

  // --------------------------------------------------------------- products

  /** Row `i` of the product added up to column `i + j - 1`, with the carry into the next one. */
  ghost predicate RowInv(out0: seq<Limb>, out: seq<Limb>, x: int, b: seq<Limb>, i: nat, j: nat, c: int)
    requires j <= |b| && i + j <= |out0| == |out|
  {
    && Val(B, out, i + j) + c * (Pow(B, i) * Pow(B, j)) == Val(B, out0, i + j) + x * Pow(B, i) * Val(B, b, j)
    && forall k :: i + j <= k < |out| ==> out[k] == out0[k]
  }

  lemma RowAlgebra(v: int, v0: int, x: int, pi: int, w: int, pj: int, c: int, d: int, c': int, o: int, bj: int)
    requires v + c * (pi * pj) == v0 + x * pi * w && d + B * c' == o + x * bj + c
    ensures (v + d * (pi * pj)) + c' * (pi * (B * pj)) == (v0 + o * (pi * pj)) + x * pi * (w + bj * pj)
  {
    var q := pi * pj;
    assert q * (d + B * c') == q * (o + x * bj + c);
    assert pi * (B * pj) == B * q;
    assert x * pi * (bj * pj) == q * (x * bj);
  }

  lemma RowExtend(out0: seq<Limb>, out: seq<Limb>, x: int, b: seq<Limb>, i: nat, j: nat, c: int, d: Limb, c': int)
    requires j < |b| && i + j < |out0| == |out| && RowInv(out0, out, x, b, i, j, c)
    requires d + B * c' == out0[i + j] + x * b[j] + c
    ensures RowInv(out0, out[i + j := d], x, b, i, j + 1, c')
  {
    ValAgree(B, out, out[i + j := d], i + j);
    PowAdd(B, i, j);
    RowAlgebra(Val(B, out, i + j), Val(B, out0, i + j), x, Pow(B, i), Val(B, b, j), Pow(B, j), c, d, c', out0[i + j],
               b[j]);
  }

  /** One row: `x·b` is added at limb `i`, and the carry out lands in a limb that is still zero. */
  method AddRow(out: array<Limb>, x: Limb, b: seq<Limb>, i: nat)
    requires i + |b| < out.Length && out[i + |b|] == 0
    modifies out
    ensures Val(B, out[..], i + |b| + 1) == Val(B, old(out[..]), i + |b|) + x * Pow(B, i) * Nat(b)
    ensures forall k :: i + |b| < k < out.Length ==> out[k] == old(out[k])
  {
    ghost var out0 := out[..];
    var carry: Limb := 0;
    for j := 0 to |b|
      invariant RowInv(out0, out[..], x, b, i, j, carry)
    {
      var (s, c) := Mac(out[i + j], x, b[j], carry);
      ghost var before: seq<Limb> := out[..];
      RowExtend(out0, before, x, b, i, j, carry, s, c);
      out[i + j] := s;
      assert out[..] == before[i + j := s];
      carry := c;
    }
    ghost var before: seq<Limb> := out[..];
    out[i + |b|] := (out[i + |b|] + carry) % B;
    assert out[..] == before[i + |b| := carry];
    RowEnd(out0, before, x, b, i, carry);
  }

  lemma RowEnd(out0: seq<Limb>, out: seq<Limb>, x: int, b: seq<Limb>, i: nat, c: Limb)
    requires i + |b| < |out0| == |out| && RowInv(out0, out, x, b, i, |b|, c)
    ensures Val(B, out[i + |b| := c], i + |b| + 1) == Val(B, out0, i + |b|) + x * Pow(B, i) * Nat(b)
  {
    ValAgree(B, out, out[i + |b| := c], i + |b|);
    PowAdd(B, i, |b|);
  }

  lemma NextRow(v: int, x: int, p: int, w: int)
    ensures v * w + x * p * w == (v + x * p) * w
  {
  }

  /** Schoolbook product: nothing is lost at `|a| + |b|` limbs. */
  method Multiply(a: seq<Limb>, b: seq<Limb>) returns (out: seq<Limb>)
    ensures |out| == |a| + |b| && Nat(out) == Nat(a) * Nat(b)
  {
    var buf := new Limb[|a| + |b|](_ => 0);
    ValZeroTail(B, buf[..], 0, |b|);
    for i := 0 to |a|
      invariant Val(B, buf[..], i + |b|) == Val(B, a, i) * Nat(b)
      invariant forall k :: i + |b| <= k < buf.Length ==> buf[k] == 0
    {
      NextRow(Val(B, a, i), a[i], Pow(B, i), Nat(b));
      AddRow(buf, a[i], b, i);
    }
    out := buf[..];
  }

  /** The double-width product as low and high halves. */
  method MulWide(a: seq<Limb>, b: seq<Limb>) returns (lo: seq<Limb>, hi: seq<Limb>)
    requires |a| == |b|
    ensures |lo| == |hi| == |a| && Nat(lo) + Pow(B, |a|) * Nat(hi) == Nat(a) * Nat(b)
    ensures Pow(B, |a|) > 0 && Nat(lo) == Nat(a) * Nat(b) % Pow(B, |a|)
  {
    var n := |a|;
    var out := Multiply(a, b);
    lo, hi := out[..n], out[n..];
    ValSplit(B, out, n, 2 * n);
    ValAgree(B, out, lo, n);
    ValBound(B, lo, n);
    LowPart(Nat(out), Nat(lo), Nat(hi), Pow(B, n));
  }

  // --------------------------------------------- sums, differences, halving

  lemma Wrapped(s: int, c: int, v: int, p: int)
    requires 0 <= s < p && s + c * p == v
    ensures v % p == s
  {
    DivModIs(v, c, s, p);
  }

  /** Addition modulo the width. */
  method WrappingAdd(a: seq<Limb>, b: seq<Limb>) returns (out: seq<Limb>)
    requires |a| == |b|
    ensures |out| == |a| && Pow(B, |a|) > 0 && Nat(out) == (Nat(a) + Nat(b)) % Pow(B, |a|)
  {
    var c;
    out, c := AdcLimbs(a, b, 0);
    ValBound(B, out, |a|);
    Wrapped(Nat(out), c, Nat(a) + Nat(b), Pow(B, |a|));
  }

  /** Subtraction modulo the width; the borrow says which operand is larger. */
  method WrappingSub(a: seq<Limb>, b: seq<Limb>) returns (out: seq<Limb>, less: bool)
    requires |a| == |b|
    ensures |out| == |a| && Pow(B, |a|) > 0 && Nat(out) == (Nat(a) - Nat(b)) % Pow(B, |a|)
    ensures (less <==> Nat(a) < Nat(b)) && (!less ==> Nat(out) == Nat(a) - Nat(b))
  {
    var bo;
    out, bo := SbbLimbs(a, b, 0);
    less := bo == 1;
    ValBound(B, out, |a|);
    ValBound(B, a, |a|);
    ValBound(B, b, |a|);
    assert (-bo) * Pow(B, |a|) == -(bo * Pow(B, |a|));
    Wrapped(Nat(out), -bo, Nat(a) - Nat(b), Pow(B, |a|));
  }

  function Larger(x: nat, y: nat): nat { if x >= y then x else y }

  /** Addition widened by one limb. */
  method Add(a: seq<Limb>, b: seq<Limb>) returns (out: seq<Limb>)
    ensures |out| == Larger(|a|, |b|) + 1 && Nat(out) == Nat(a) + Nat(b)
  {
    var n := Larger(|a|, |b|);
    var sum, c := AdcLimbs(Resized(a, n), Resized(b, n), 0);
    out := sum + [c];
    ValAgree(B, sum, out, n);
  }

  /** Subtraction at the wider operand's width, and the comparison its borrow decides. */
  method Sub(a: seq<Limb>, b: seq<Limb>) returns (out: seq<Limb>, less: bool)
    ensures |out| == Larger(|a|, |b|) && (less <==> Nat(a) < Nat(b)) && (!less ==> Nat(out) == Nat(a) - Nat(b))
  {
    var n := Larger(|a|, |b|);
    out, less := WrappingSub(Resized(a, n), Resized(b, n));
  }

  /** `(x + top·R) / 2`. */
  method HalveWith(x: seq<Limb>, top: Limb) returns (out: seq<Limb>)
    requires top <= 1 && |x| >= 1
    ensures |out| == |x| && Nat(out) == (Nat(x) + top * Pow(B, |x|)) / 2
  {
    var n := |x|;
    var buf := new Limb[n](i requires 0 <= i < n => x[i]);
    assert buf[..] == x;
    ShrOneInPlace(buf, top);
    out := buf[..];
  }

  // --------------------------------------------------------------- division

  /** The part of the dividend read so far is `q·n + r`. */
  ghost predicate Quotient(x: seq<Limb>, pos: nat, q: int, n: int, r: int) {
    Top(x, pos) == q * n + r && 0 <= r < n && 0 <= q <= Top(x, pos)
  }

  lemma QuotientStep(x: seq<Limb>, i: nat, bit: nat, q: int, n: int, r: int, ge: bool)
    requires i < |x| && bit < 64 && Quotient(x, 64 * i + bit + 1, q, n, r)
    requires var t := 2 * r + Field(x[i], bit, 1); ge <==> t >= n
    ensures var t := 2 * r + Field(x[i], bit, 1);
            Quotient(x, 64 * i + bit, 2 * q + (if ge then 1 else 0), n, if ge then t - n else t)
  {
    NextBit(x, i, bit);
    assert Pow2(1) == 2 by { Pow2Limb(); }
    assert 0 <= Field(x[i], bit, 1) <= 1;
    StepAlgebra(q, n, r, Field(x[i], bit, 1), Top(x, 64 * i + bit + 1), ge);
  }

  lemma StepAlgebra(q: int, n: int, r: int, b: int, top: int, ge: bool)
    requires top == q * n + r && 0 <= r < n && 0 <= q <= top && 0 <= b <= 1 && (ge <==> 2 * r + b >= n)
    ensures var g := if ge then 1 else 0;
            2 * top + b == (2 * q + g) * n + (2 * r + b - g * n) && 2 * q + g <= 2 * top + b
  {
    assert (2 * q + 1) * n == 2 * (q * n) + n && (2 * q) * n == 2 * (q * n);
    if ge { MulMono(1, n, q); }
  }

  lemma QuotientFits(x: seq<Limb>, pos: nat, q: int)
    requires 0 <= q <= Top(x, pos)
    ensures q < Pow(B, |x|)
  {
    ValBound(B, x, |x|);
    PowPositive(2, pos);
    DivBound(Nat(x), Pow2(pos));
  }

  lemma DivBound(v: int, p: int)
    requires v >= 0 && p >= 1
    ensures v / p <= v
  {
    var d := v / p;
    assert v == p * d + v % p;
    assert p * d == d * p;
    if d > v { MulMono(1, p, d); }
  }

  /** `2x + b` by adding `x` to itself and setting the low bit, with the carry out. */
  method ShiftIn(x: seq<Limb>, b: Limb) returns (out: seq<Limb>, carry: Limb)
    requires |x| >= 1 && b <= 1
    ensures |out| == |x| && carry <= 1 && Nat(out) + carry * Pow(B, |x|) == 2 * Nat(x) + b
  {
    var sum;
    sum, carry := AdcLimbs(x, x, 0);
    var n := |x|;
    DoubledEven(sum, carry, Nat(x));
    assert Pow2(1) == 2 && Pow2(0) == 1 by { Pow2Limb(); }
    QuotientBit(sum[0], 0);
    var low := Or(sum[0], b);
    out := sum[0 := low];
    ValUpdate(B, sum, 0, low, n);
    assert Pow(B, 0) == 1;
  }

  lemma DoubledEven(sum: seq<Limb>, carry: int, v: int)
    requires |sum| >= 1 && Nat(sum) + carry * Pow(B, |sum|) == 2 * v
    ensures sum[0] % 2 == 0
  {
    ParityOfLow(sum, |sum|);
    RadixTimes(carry, Pow(B, |sum| - 1));
    assert Nat(sum) == 2 * (v - B / 2 * (carry * Pow(B, |sum| - 1)));
  }

  lemma RadixTimes(c: int, h: int)
    ensures c * (B * h) == B * (c * h)
  {
  }

  /** Bitwise division at full width: one trial subtraction for every bit of the dividend. */
  method DivRemFixed(x: seq<Limb>, d: seq<Limb>) returns (q: seq<Limb>, r: seq<Limb>)
    requires |x| == |d| >= 1 && Nat(d) > 0
    ensures |q| == |r| == |d| && Nat(q) == Nat(x) / Nat(d) && Nat(r) == Nat(x) % Nat(d)
  {
    var n := |d|;
    q, r := seq(n, _ => 0), seq(n, _ => 0);
    ValZeroTail(B, q, 0, n);
    TopStart(x);
    var i := n;
    while i > 0
      invariant 0 <= i <= n && |q| == |r| == n && Quotient(x, 64 * i, Nat(q), Nat(d), Nat(r))
    {
      i := i - 1;
      q, r := DivideLimbBits(x, d, i, q, r);
    }
    assert Pow2(0) == 1;
    DivModIs(Nat(x), Nat(q), Nat(r), Nat(d));
  }

  lemma TopStart(x: seq<Limb>)
    ensures Top(x, 64 * |x|) == 0
  {
    Pow2OfLimbs(|x|);
    ValBound(B, x, |x|);
    DivModIs(Nat(x), 0, Nat(x), Pow(B, |x|));
  }

  method DivideLimbBits(x: seq<Limb>, d: seq<Limb>, i: nat, q0: seq<Limb>, r0: seq<Limb>)
    returns (q: seq<Limb>, r: seq<Limb>)
    requires i < |x| == |d| == |q0| == |r0| && Quotient(x, 64 * i + 64, Nat(q0), Nat(d), Nat(r0))
    ensures |q| == |r| == |d| && Quotient(x, 64 * i, Nat(q), Nat(d), Nat(r))
  {
    q, r := q0, r0;
    var bit := 64;
    while bit > 0
      invariant 0 <= bit <= 64 && |q| == |r| == |d| && Quotient(x, 64 * i + bit, Nat(q), Nat(d), Nat(r))
    {
      bit := bit - 1;
      q, r := DivideOneBit(x, d, i, bit, q, r);
    }
  }

  /** The remainder with the next bit, less `d` when that fits. */
  method TrialSubtract(d: seq<Limb>, r0: seq<Limb>, b: Limb) returns (r: seq<Limb>, ge: bool)
    requires |d| == |r0| >= 1 && Nat(r0) < Nat(d) && b <= 1
    ensures |r| == |d| && (ge <==> 2 * Nat(r0) + b >= Nat(d))
    ensures Nat(r) == 2 * Nat(r0) + b - (if ge then Nat(d) else 0)
  {
    var shifted, carry := ShiftIn(r0, b);
    var diff, bo := SbbLimbs(shifted, d, 0);
    ge := carry == 1 || bo == 0;
    AddModSelect(Nat(r0), Nat(r0) + b, Nat(d), Nat(shifted), carry, Nat(diff), bo, Pow(B, |d|));
    r := if ge then diff else shifted;
  }

  method DivideOneBit(x: seq<Limb>, d: seq<Limb>, i: nat, bit: nat, q0: seq<Limb>, r0: seq<Limb>)
    returns (q: seq<Limb>, r: seq<Limb>)
    requires i < |x| == |d| == |q0| == |r0| && bit < 64 && Quotient(x, 64 * i + bit + 1, Nat(q0), Nat(d), Nat(r0))
    ensures |q| == |r| == |d| && Quotient(x, 64 * i + bit, Nat(q), Nat(d), Nat(r))
  {
    assert Pow2(1) == 2 by { Pow2Limb(); }
    var b := Field(x[i], bit, 1);
    var ge;
    r, ge := TrialSubtract(d, r0, b);
    QuotientStep(x, i, bit, Nat(q0), Nat(d), Nat(r0), ge);
    var g: Limb := if ge then 1 else 0;
    var c;
    q, c := ShiftIn(q0, g);
    QuotientFits(x, 64 * i + bit, 2 * Nat(q0) + g);
    NoCarry(Nat(q), c, 2 * Nat(q0) + g, Pow(B, |d|));
  }

  lemma NoCarry(v: int, c: int, w: int, p: int)
    requires v + c * p == w && 0 <= v && w < p && 0 <= c <= 1
    ensures v == w
  {
    assert c * p == 0 || c * p == p;
  }
}
