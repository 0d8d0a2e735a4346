/** Bernstein-Yang inversion on signed 62-bit digits. */
module Safegcd {
  import opened Arith
  import opened Limbs
  import opened Divsteps

  type I64 = x: int | -0x8000_0000_0000_0000 <= x < 0x8000_0000_0000_0000
  type I128 = x: int | -0x8000_0000_0000_0000_0000_0000_0000_0000 <= x < 0x8000_0000_0000_0000_0000_0000_0000_0000

  /** Digits below the top are in `[0, 2^62)`; the top one carries the sign. */
  ghost predicate Normal(s: seq<int>, n: nat) {
    1 <= n <= |s| && Digits(D, s, n - 1) && -D <= s[n - 1] < D
  }

  /** Values within half the range leave the top digit room to spare. */
  ghost predicate Small(v: int, n: nat) { -Pow(D, n) <= 2 * v <= Pow(D, n) }

  lemma TopDigit(s: seq<int>, n: nat, c: int, v: int)
    requires 1 <= n <= |s| && Digits(D, s, n - 1) && v == Val(D, s, n - 1) + c * Pow(D, n - 1) && Small(v, n)
    ensures -D <= c < D
  {
    ValBound(D, s, n - 1);
    TopDigitAlgebra(Val(D, s, n - 1), c, v, Pow(D, n - 1));
  }

  lemma TopDigitAlgebra(lo: int, c: int, v: int, p: int)
    requires 0 <= lo < p && v == lo + c * p && -(D * p) <= 2 * v <= D * p
    ensures -D <= c < D
  {
    if c >= D { MulMono(D, c, p); }
    if c < -D { MulMono(c, -D - 1, p); }
  }

  /** The sign of a normal number is the sign of its top digit. */
  lemma SignOfTop(s: seq<int>, n: nat)
    requires Normal(s, n)
    ensures s[n - 1] < 0 <==> Val(D, s, n) < 0
  {
    ValBound(D, s, n - 1);
    SignAlgebra(Val(D, s, n - 1), s[n - 1], Pow(D, n - 1));
  }

  lemma SignAlgebra(lo: int, c: int, p: int)
    requires 0 <= lo < p
    ensures c < 0 <==> lo + c * p < 0
  {
    if c >= 0 { MulMono(0, c, p); } else { MulMono(c, -1, p); }
  }

  // ------------------------------------------------ the shifted combinations

  /** `u·x + v·y + w·z`, divided by `2^62` as far as digit `i`, with `c` still to carry. */
  ghost predicate Combined(x: seq<int>, y: seq<int>, z: seq<int>, o: seq<int>, i: nat, u: int, v: int, w: int, c: int)
    requires 1 <= i <= |x| && i <= |y| && i <= |z| && i - 1 <= |o|
  {
    u * Val(D, x, i) + v * Val(D, y, i) + w * Val(D, z, i) == D * Val(D, o, i - 1) + c * Pow(D, i)
  }

  lemma CombinedStep(x: seq<int>, y: seq<int>, z: seq<int>, o: seq<int>, o': seq<int>, i: nat,
                     u: int, v: int, w: int, c: int, c': int)
    requires 1 <= i < |x| && i < |y| && i < |z| && i <= |o| && i <= |o'|
    requires Combined(x, y, z, o, i, u, v, w, c)
    requires forall k :: 0 <= k < i - 1 ==> o'[k] == o[k]
    requires c + u * x[i] + v * y[i] + w * z[i] == o'[i - 1] + D * c'
    ensures Combined(x, y, z, o', i + 1, u, v, w, c')
  {
    ValAgree(D, o, o', i - 1);
    CombinedAlgebra(Val(D, x, i), Val(D, y, i), Val(D, z, i), Val(D, o, i - 1), u, v, w, c, Pow(D, i - 1),
                    x[i], y[i], z[i], o'[i - 1], c');
  }

  lemma CombinedAlgebra(x: int, y: int, z: int, o: int, u: int, v: int, w: int, c: int, p: int,
                        xi: int, yi: int, zi: int, d: int, c': int)
    requires u * x + v * y + w * z == D * o + c * (D * p)
    requires c + u * xi + v * yi + w * zi == d + D * c'
    ensures u * (x + xi * (D * p)) + v * (y + yi * (D * p)) + w * (z + zi * (D * p))
            == D * (o + d * p) + c' * (D * (D * p))
  {
    assert (D * p) * (c + u * xi + v * yi + w * zi) == (D * p) * (d + D * c');
  }

  lemma CombinedStart(x: seq<int>, y: seq<int>, z: seq<int>, o: seq<int>, u: int, v: int, w: int, c: int)
    requires |x| >= 1 && |y| >= 1 && |z| >= 1
    requires u * x[0] + v * y[0] + w * z[0] == D * c
    ensures Combined(x, y, z, o, 1, u, v, w, c)
  {
    assert Pow(D, 0) == 1 && Pow(D, 1) == D;
    assert Val(D, x, 0) == 0 && Val(D, y, 0) == 0 && Val(D, z, 0) == 0 && Val(D, o, 0) == 0;
  }

  /** The last carry is the top digit of the exact quotient. */
  lemma CombinedTop(x: seq<int>, y: seq<int>, z: seq<int>, o: seq<int>, n: nat, u: int, v: int, w: int, c: int, q: int)
    requires 1 <= n <= |x| && n <= |y| && n <= |z| && n <= |o|
    requires Combined(x, y, z, o, n, u, v, w, c)
    requires u * Val(D, x, n) + v * Val(D, y, n) + w * Val(D, z, n) == D * q
    ensures q == Val(D, o, n - 1) + c * Pow(D, n - 1)
  {
    CombinedTopAlgebra(Val(D, o, n - 1), c, Pow(D, n - 1), q);
  }

  lemma CombinedTopAlgebra(o: int, c: int, p: int, q: int)
    requires D * o + c * (D * p) == D * q
    ensures q == o + c * p
  {
    assert D * (o + c * p) == D * q;
  }

  /** One column of products: a row of absolute sum at most `2^62` on digits of at most `2^62`. */
  lemma RowProduct(u: int, v: int, x: int, y: int)
    requires Abs(u) + Abs(v) <= D && Abs(x) <= D && Abs(y) <= D
    ensures -D * D <= u * x + v * y <= D * D
  {
    AbsProduct(u, x);
    AbsProduct(v, y);
    MulMono(Abs(u) + Abs(v), D, D);
  }

  lemma AbsProduct(u: int, x: int)
    requires Abs(x) <= D
    ensures -(Abs(u) * D) <= u * x <= Abs(u) * D
  {
    if u >= 0 {
      MulMono(x, D, u);
      MulMono(-D, x, u);
    } else {
      MulMono(x, D, -u);
      MulMono(-D, x, -u);
    }
  }

  /** The low digits decide divisibility by the radix. */
  lemma LowDivisible(x: seq<int>, y: seq<int>, n: nat, u: int, v: int, q: int)
    requires 1 <= n <= |x| && n <= |y| && u * Val(D, x, n) + v * Val(D, y, n) == D * q
    ensures (u * x[0] + v * y[0]) % D == 0
  {
    ValHead(D, x, n);
    ValHead(D, y, n);
    LowDivisibleAlgebra(u, v, x[0], y[0], Val(D, x[1..], n - 1), Val(D, y[1..], n - 1), q);
  }

  lemma LowDivisibleAlgebra(u: int, v: int, x: int, y: int, a: int, b: int, q: int)
    requires u * (x + D * a) + v * (y + D * b) == D * q
    ensures (u * x + v * y) % D == 0
  {
    assert u * x + v * y == D * (q - u * a - v * b);
  }

  // ------------------------------------------------------------- update_fg

  /** One number's progress through the column loop. */
  ghost predicate Shifting(x: seq<int>, y: seq<int>, z: seq<int>, o0: seq<int>, o: seq<int>, i: nat, n: nat,
                           u: int, v: int, w: int, c: int)
  {
    && 1 <= i <= n <= |x| && n <= |y| && n <= |z| && n <= |o| == |o0|
    && (forall k :: i - 1 <= k < n ==> o[k] == o0[k])
    && Digits(D, o, i - 1) && Combined(x, y, z, o, i, u, v, w, c)
  }

  lemma ShiftingStep(x: seq<int>, y: seq<int>, z: seq<int>, o0: seq<int>, o: seq<int>, i: nat, n: nat,
                     u: int, v: int, w: int, c: int, sum: int)
    requires i < n && Shifting(x, y, z, o0, o, i, n, u, v, w, c)
    requires sum == c + u * x[i] + v * y[i] + w * z[i]
    ensures Shifting(x, y, z, o0, o[i - 1 := sum % D], i + 1, n, u, v, w, sum / D)
  {
    CombinedStep(x, y, z, o, o[i - 1 := sum % D], i, u, v, w, c, sum / D);
  }

  lemma ShiftingDone(x: seq<int>, y: seq<int>, z: seq<int>, o0: seq<int>, o: seq<int>, n: nat,
                     u: int, v: int, w: int, c: int, q: int)
    requires Shifting(x, y, z, o0, o, n, n, u, v, w, c) && Small(q, n)
    requires u * Val(D, x, n) + v * Val(D, y, n) + w * Val(D, z, n) == D * q
    ensures -D <= c < D && Normal(o[n - 1 := c], n) && Val(D, o[n - 1 := c], n) == q
  {
    CombinedTop(x, y, z, o, n, u, v, w, c, q);
    TopDigit(o, n, c, q);
    ValAgree(D, o, o[n - 1 := c], n - 1);
  }

  /** Columns `1 .. n - 1` of `t·(f, g)`, each number shifted down one digit. */
  method FgColumns(f: array<I64>, g: array<I64>, t: Trans, n: nat, cf0: I128, cg0: I128) returns (cf: I128, cg: I128)
    requires f != g && n <= f.Length && n <= g.Length && Normal(f[..], n) && Normal(g[..], n)
    requires Abs(t.u) + Abs(t.v) <= D && Abs(t.q) + Abs(t.r) <= D
    requires -2 * D <= cf0 <= 2 * D && -2 * D <= cg0 <= 2 * D
    requires Shifting(f[..], g[..], f[..], f[..], f[..], 1, n, t.u, t.v, 0, cf0)
    requires Shifting(f[..], g[..], f[..], g[..], g[..], 1, n, t.q, t.r, 0, cg0)
    modifies f, g
    ensures Shifting(old(f[..]), old(g[..]), old(f[..]), old(f[..]), f[..], n, n, t.u, t.v, 0, cf)
    ensures Shifting(old(f[..]), old(g[..]), old(f[..]), old(g[..]), g[..], n, n, t.q, t.r, 0, cg)
  {
    ghost var f0: seq<int>, g0: seq<int> := f[..], g[..];
    cf, cg := cf0, cg0;
    var i := 1;
    while i < n
      invariant 1 <= i <= n && -2 * D <= cf <= 2 * D && -2 * D <= cg <= 2 * D
      invariant Shifting(f0, g0, f0, f0, f[..], i, n, t.u, t.v, 0, cf)
      invariant Shifting(f0, g0, f0, g0, g[..], i, n, t.q, t.r, 0, cg)
    {
      assert f[i] == f0[i] && g[i] == g0[i];
      RowProduct(t.u, t.v, f[i], g[i]);
      RowProduct(t.q, t.r, f[i], g[i]);
      ghost var of: seq<int>, og: seq<int> := f[..], g[..];
      var sf: I128 := cf + (t.u * f[i] + t.v * g[i]);
      var sg: I128 := cg + (t.q * f[i] + t.r * g[i]);
      ShiftingStep(f0, g0, f0, f0, of, i, n, t.u, t.v, 0, cf, sf);
      ShiftingStep(f0, g0, f0, g0, og, i, n, t.q, t.r, 0, cg, sg);
      f[i - 1] := sf % D;
      g[i - 1] := sg % D;
      assert f[..] == of[i - 1 := sf % D] && g[..] == og[i - 1 := sg % D];
      cf, cg := sf / D, sg / D;
      i := i + 1;
    }
  }

  /**
   * `(f, g) <- t·(f, g) / 2^62` in place over `n` digits. The 128-bit accumulators never
   * overflow and the division is exact when the matrix maps the pair to a multiple of `2^62`.
   */
  method UpdateFg(f: array<I64>, g: array<I64>, t: Trans, n: nat, ghost f': int, ghost g': int)
    requires f != g && n <= f.Length && n <= g.Length && Normal(f[..], n) && Normal(g[..], n)
    requires Abs(t.u) + Abs(t.v) <= D && Abs(t.q) + Abs(t.r) <= D
    requires t.u * Val(D, f[..], n) + t.v * Val(D, g[..], n) == D * f'
    requires t.q * Val(D, f[..], n) + t.r * Val(D, g[..], n) == D * g'
    requires Small(f', n) && Small(g', n)
    modifies f, g
    ensures Normal(f[..], n) && Normal(g[..], n) && Val(D, f[..], n) == f' && Val(D, g[..], n) == g'
  {
    ghost var f0: seq<int>, g0: seq<int> := f[..], g[..];
    RowProduct(t.u, t.v, f[0], g[0]);
    RowProduct(t.q, t.r, f[0], g[0]);
    LowDivisible(f0, g0, n, t.u, t.v, f');
    LowDivisible(f0, g0, n, t.q, t.r, g');
    var cf: I128, cg: I128 := t.u * f[0] + t.v * g[0], t.q * f[0] + t.r * g[0];
    cf, cg := cf / D, cg / D;
    CombinedStart(f0, g0, f0, f0, t.u, t.v, 0, cf);
    CombinedStart(f0, g0, f0, g0, t.q, t.r, 0, cg);
    cf, cg := FgColumns(f, g, t, n, cf, cg);
    ShiftingDone(f0, g0, f0, f0, f[..], n, t.u, t.v, 0, cf, f');
    ShiftingDone(f0, g0, f0, g0, g[..], n, t.q, t.r, 0, cg, g');
    ghost var of: seq<int>, og: seq<int> := f[..], g[..];
    f[n - 1] := cf;
    g[n - 1] := cg;
    assert f[..] == of[n - 1 := cf] && g[..] == og[n - 1 := cg];
  }

  // ------------------------------------------------------------- update_de

  /** The multiple of `m` that clears the low 62 bits, started at `md0` to keep the range. */
  function Correction(md0: int, minv: int, c: int): int { md0 - (minv * c + md0) % D }

  lemma CorrectionClears(md0: int, minv: int, c: int, m0: int)
    requires m0 * minv % D == 1
    ensures (c + m0 * Correction(md0, minv, c)) % D == 0
  {
    var k := (minv * c + md0) / D;
    assert minv * c + md0 == D * k + (minv * c + md0) % D;
    var md := Correction(md0, minv, c);
    assert md == D * k - minv * c;
    var j := m0 * minv / D;
    assert m0 * minv == D * j + 1;
    assert m0 * (D * k - minv * c) == D * (m0 * k) - (m0 * minv) * c;
    assert (D * j + 1) * c == D * (j * c) + c;
    assert c + m0 * md == D * (m0 * k - j * c);
  }

  /** The largest coefficient: below `m`, except that `m = 1` starts from one. */
  function Top(m: int): int { if m > 1 then m - 1 else 1 }

  /** What every round keeps. */
  ghost predicate InRange(v: int, m: int) { -2 * m < v <= Top(m) }

  /** The documented range, `(-2m, m)`. */
  ghost predicate Documented(v: int, m: int) { -2 * m < v < m }

  /** The two are the same for every modulus above one; `m = 1` adds just the value one. */
  lemma RangeIsDocumented(v: int, m: int)
    requires m > 0
    ensures InRange(v, m) <==> Documented(v, m) || (m == 1 && v == 1)
  {
  }

  /** The new coefficient stays in `(-2m, m)`. */
  lemma CoefficientRange(u: int, v: int, d: int, e: int, m: int, k: int, d': int)
    requires Abs(u) + Abs(v) <= D && m > 0 && InRange(d, m) && InRange(e, m) && 0 <= k < D
    requires D * d' == u * d + v * e + m * ((if d < 0 then u else 0) + (if e < 0 then v else 0) - k)
    ensures InRange(d', m)
  {
    var x, y := if d < 0 then d + m else d, if e < 0 then e + m else e;
    var md0 := (if d < 0 then u else 0) + (if e < 0 then v else 0);
    Lifted(u, d, m);
    Lifted(v, e, m);
    assert D * d' == u * x + v * y - m * k by {
      assert m * (md0 - k) == m * (if d < 0 then u else 0) + m * (if e < 0 then v else 0) - m * k;
    }
    BoundedRow(u, v, x, y, Top(m));
    RangeAlgebra(u * x + v * y, m, Top(m), k, d');
  }

  lemma Lifted(u: int, d: int, m: int)
    ensures u * (if d < 0 then d + m else d) == u * d + m * (if d < 0 then u else 0)
  {
  }

  lemma BoundedRow(u: int, v: int, x: int, y: int, b: int)
    requires Abs(u) + Abs(v) <= D && -b <= x <= b && -b <= y <= b
    ensures -(D * b) <= u * x + v * y <= D * b
  {
    BoundedProduct(u, x, b);
    BoundedProduct(v, y, b);
    MulMono(Abs(u) + Abs(v), D, b);
  }

  lemma BoundedProduct(u: int, x: int, b: int)
    requires -b <= x <= b
    ensures -(Abs(u) * b) <= u * x <= Abs(u) * b
  {
    if u >= 0 {
      MulMono(x, b, u);
      MulMono(-b, x, u);
    } else {
      MulMono(x, b, -u);
      MulMono(-b, x, -u);
    }
  }

  lemma RangeAlgebra(s: int, m: int, top: int, k: int, d': int)
    requires m > 0 && top <= m && -(D * top) <= s <= D * top && 0 <= k < D && D * d' == s - m * k
    ensures -2 * m < d' <= top
  {
    MulMono(0, k, m);
    MulMono(k, D - 1, m);
  }

  /** What one coefficient update promises. */
  ghost predicate Updated(o: seq<int>, n: nat, u: int, v: int, d: int, e: int, m: int) {
    && Normal(o, n) && InRange(Val(D, o, n), m) && Cong(D * Val(D, o, n), u * d + v * e, m)
    && (d == 0 && v == 0 ==> Val(D, o, n) == 0)
  }

  /** The correction of one row, from the low digits and the signs. */
  function RowCorrection(u: int, v: int, d: seq<int>, e: seq<int>, n: nat, minv: int): int
    requires 1 <= n <= |d| && n <= |e|
  {
    var md0 := (if d[n - 1] < 0 then u else 0) + (if e[n - 1] < 0 then v else 0);
    Correction(md0, minv, u * d[0] + v * e[0])
  }

  lemma RowCorrectionBound(u: int, v: int, d: seq<int>, e: seq<int>, n: nat, minv: int)
    requires 1 <= n <= |d| && n <= |e| && Abs(u) + Abs(v) <= D
    ensures -2 * D < RowCorrection(u, v, d, e, n, minv) <= D
  {
  }

  /** The corrected row is divisible by the radix. */
  lemma RowExact(u: int, v: int, d: seq<int>, e: seq<int>, m: seq<int>, n: nat, minv: int) returns (q: int)
    requires 1 <= n <= |d| && n <= |e| && n <= |m| && m[0] * minv % D == 1
    ensures u * Val(D, d, n) + v * Val(D, e, n) + RowCorrection(u, v, d, e, n, minv) * Val(D, m, n) == D * q
    ensures (u * d[0] + v * e[0] + RowCorrection(u, v, d, e, n, minv) * m[0]) % D == 0
  {
    var md := RowCorrection(u, v, d, e, n, minv);
    CorrectionClears((if d[n - 1] < 0 then u else 0) + (if e[n - 1] < 0 then v else 0), minv, u * d[0] + v * e[0],
                     m[0]);
    assert m[0] * md == md * m[0];
    ValHead(D, d, n);
    ValHead(D, e, n);
    ValHead(D, m, n);
    q := QuotientFromLow(u, v, md, d[0], e[0], m[0], Val(D, d[1..], n - 1), Val(D, e[1..], n - 1),
                         Val(D, m[1..], n - 1));
  }

  /** Its quotient is in range and congruent to the row. */
  lemma RowQuotient(u: int, v: int, d: seq<int>, e: seq<int>, n: nat, minv: int, m: int, q: int)
    requires 2 <= n && Normal(d, n) && Normal(e, n) && Abs(u) + Abs(v) <= D && m > 0
    requires InRange(Val(D, d, n), m) && InRange(Val(D, e, n), m)
    requires u * Val(D, d, n) + v * Val(D, e, n) + RowCorrection(u, v, d, e, n, minv) * m == D * q
    ensures InRange(q, m) && Cong(D * q, u * Val(D, d, n) + v * Val(D, e, n), m)
    ensures Val(D, d, n) == 0 && v == 0 ==> q == 0
  {
    var x, y, md := Val(D, d, n), Val(D, e, n), RowCorrection(u, v, d, e, n, minv);
    var k := RowCorrectionIs(u, v, d, e, n, minv);
    QuotientRange(u, v, x, y, m, k, md, q);
    CongBy(D * q, u * x + v * y, m, md);
    if x == 0 && v == 0 { ZeroQuotient(u, d, e, n, minv, m, q); }
  }

  /** The correction, from the signs of the values and one residue. */
  lemma RowCorrectionIs(u: int, v: int, d: seq<int>, e: seq<int>, n: nat, minv: int) returns (k: int)
    requires 2 <= n && Normal(d, n) && Normal(e, n)
    ensures 0 <= k < D
    ensures RowCorrection(u, v, d, e, n, minv)
            == (if Val(D, d, n) < 0 then u else 0) + (if Val(D, e, n) < 0 then v else 0) - k
  {
    SignOfTop(d, n);
    SignOfTop(e, n);
    var md0 := (if d[n - 1] < 0 then u else 0) + (if e[n - 1] < 0 then v else 0);
    k := (minv * (u * d[0] + v * e[0]) + md0) % D;
  }

  lemma QuotientRange(u: int, v: int, x: int, y: int, m: int, k: int, md: int, q: int)
    requires Abs(u) + Abs(v) <= D && m > 0 && InRange(x, m) && InRange(y, m) && 0 <= k < D
    requires md == (if x < 0 then u else 0) + (if y < 0 then v else 0) - k && u * x + v * y + md * m == D * q
    ensures InRange(q, m)
  {
    assert md * m == m * md;
    CoefficientRange(u, v, x, y, m, k, q);
  }

  lemma ZeroQuotient(u: int, d: seq<int>, e: seq<int>, n: nat, minv: int, m: int, q: int)
    requires 2 <= n && Normal(d, n) && Normal(e, n) && Val(D, d, n) == 0
    requires u * 0 + 0 * Val(D, e, n) + RowCorrection(u, 0, d, e, n, minv) * m == D * q
    ensures q == 0
  {
    ZeroRow(u, d, e, n, minv);
  }

  lemma ZeroRow(u: int, d: seq<int>, e: seq<int>, n: nat, minv: int)
    requires 2 <= n && Normal(d, n) && Normal(e, n) && Val(D, d, n) == 0
    ensures RowCorrection(u, 0, d, e, n, minv) == 0
  {
    SignOfTop(d, n);
    ValHead(D, d, n);
    assert d[0] == 0;
    assert u * 0 + 0 * e[0] == 0 && minv * 0 == 0;
  }

  lemma QuotientFromLow(u: int, v: int, w: int, x: int, y: int, z: int, a: int, b: int, c: int) returns (q: int)
    requires (u * x + v * y + w * z) % D == 0
    ensures u * (x + D * a) + v * (y + D * b) + w * (z + D * c) == D * q
  {
    q := (u * x + v * y + w * z) / D + u * a + v * b + w * c;
  }

  /** Columns `1 .. n - 1` of both corrected rows. */
  method DeColumns(d: array<I64>, e: array<I64>, m: seq<I64>, t: Trans, n: nat, md: I64, me: I64, cd0: I128, ce0: I128)
    returns (cd: I128, ce: I128)
    requires d != e && n <= d.Length && n <= e.Length && Normal(d[..], n) && Normal(e[..], n) && Normal(m, n)
    requires Abs(t.u) + Abs(t.v) <= D && Abs(t.q) + Abs(t.r) <= D && Abs(md) <= 2 * D && Abs(me) <= 2 * D
    requires -4 * D <= cd0 <= 4 * D && -4 * D <= ce0 <= 4 * D
    requires Shifting(d[..], e[..], m, d[..], d[..], 1, n, t.u, t.v, md, cd0)
    requires Shifting(d[..], e[..], m, e[..], e[..], 1, n, t.q, t.r, me, ce0)
    modifies d, e
    ensures Shifting(old(d[..]), old(e[..]), m, old(d[..]), d[..], n, n, t.u, t.v, md, cd)
    ensures Shifting(old(d[..]), old(e[..]), m, old(e[..]), e[..], n, n, t.q, t.r, me, ce)
  {
    ghost var d0: seq<int>, e0: seq<int> := d[..], e[..];
    cd, ce := cd0, ce0;
    var i := 1;
    while i < n
      invariant 1 <= i <= n && -4 * D <= cd <= 4 * D && -4 * D <= ce <= 4 * D
      invariant Shifting(d0, e0, m, d0, d[..], i, n, t.u, t.v, md, cd)
      invariant Shifting(d0, e0, m, e0, e[..], i, n, t.q, t.r, me, ce)
    {
      ghost var od: seq<int>, oe: seq<int> := d[..], e[..];
      assert d[i] == d0[i] && e[i] == e0[i];
      var sd := DeSum(cd, t.u, t.v, d[i], e[i], m[i], md);
      var se := DeSum(ce, t.q, t.r, d[i], e[i], m[i], me);
      ShiftingStep(d0, e0, m, d0, od, i, n, t.u, t.v, md, cd, sd);
      ShiftingStep(d0, e0, m, e0, oe, i, n, t.q, t.r, me, ce, se);
      d[i - 1] := sd % D;
      e[i - 1] := se % D;
      assert d[..] == od[i - 1 := sd % D] && e[..] == oe[i - 1 := se % D];
      cd, ce := sd / D, se / D;
      i := i + 1;
    }
  }

  /** One column sum: two additions, both within the 128-bit accumulator. */
  function DeSum(c: I128, u: int, v: int, x: I64, y: I64, z: I64, w: I64): (s: I128)
    requires -4 * D <= c <= 4 * D && Abs(u) + Abs(v) <= D && Abs(w) <= 2 * D && Abs(x) <= D && Abs(y) <= D
             && Abs(z) <= D
    ensures s == c + u * x + v * y + w * z && -4 * D <= s / D <= 4 * D
  {
    RowProduct(u, v, x, y);
    AbsProduct(w, z);
    var first: I128 := c + (u * x + v * y);
    first + z * w
  }

  /** `(d, e) <- (t·(d, e) + m·(md, me)) / 2^62` in place, with exact division and both results in `(-2m, m)`. */
  method UpdateDe(d: array<I64>, e: array<I64>, m: seq<I64>, minv: Limb, t: Trans, n: nat)
    requires d != e && 2 <= n <= d.Length && n <= e.Length && Normal(d[..], n) && Normal(e[..], n) && Normal(m, n)
    requires Abs(t.u) + Abs(t.v) <= D && Abs(t.q) + Abs(t.r) <= D
    requires m[0] * minv % D == 1 && 0 < Val(D, m, n) && 4 * Val(D, m, n) <= Pow(D, n)
    requires InRange(Val(D, d[..], n), Val(D, m, n)) && InRange(Val(D, e[..], n), Val(D, m, n))
    modifies d, e
    ensures Updated(d[..], n, t.u, t.v, old(Val(D, d[..], n)), old(Val(D, e[..], n)), Val(D, m, n))
    ensures Updated(e[..], n, t.q, t.r, old(Val(D, d[..], n)), old(Val(D, e[..], n)), Val(D, m, n))
  {
    ghost var d0: seq<int>, e0: seq<int> := d[..], e[..];
    ghost var vd, ve, vm := Val(D, d0, n), Val(D, e0, n), Val(D, m, n);
    RowCorrectionBound(t.u, t.v, d0, e0, n, minv);
    RowCorrectionBound(t.q, t.r, d0, e0, n, minv);
    var md: I64 := RowCorrection(t.u, t.v, d[..], e[..], n, minv);
    var me: I64 := RowCorrection(t.q, t.r, d[..], e[..], n, minv);
    ghost var qd := RowExact(t.u, t.v, d0, e0, m, n, minv);
    ghost var qe := RowExact(t.q, t.r, d0, e0, m, n, minv);
    var sd := DeSum(0, t.u, t.v, d[0], e[0], m[0], md);
    var se := DeSum(0, t.q, t.r, d[0], e[0], m[0], me);
    var cd: I128, ce: I128 := sd / D, se / D;
    CombinedStart(d0, e0, m, d0, t.u, t.v, md, cd);
    CombinedStart(d0, e0, m, e0, t.q, t.r, me, ce);
    cd, ce := DeColumns(d, e, m, t, n, md, me, cd, ce);
    ghost var od: seq<int>, oe: seq<int> := d[..], e[..];
    DeRow(d0, e0, m, d0, od, n, t.u, t.v, minv, cd, qd);
    DeRow(d0, e0, m, e0, oe, n, t.q, t.r, minv, ce, qe);
    d[n - 1] := cd;
    e[n - 1] := ce;
    assert d[..] == od[n - 1 := cd] && e[..] == oe[n - 1 := ce];
  }

  /** Placing the last carry completes one row. */
  lemma DeRow(d: seq<int>, e: seq<int>, m: seq<int>, o0: seq<int>, o: seq<int>, n: nat, u: int, v: int, minv: int,
              c: int, q: int)
    requires 2 <= n && Normal(d, n) && Normal(e, n) && Normal(m, n) && Abs(u) + Abs(v) <= D
    requires 0 < Val(D, m, n) && 4 * Val(D, m, n) <= Pow(D, n)
    requires InRange(Val(D, d, n), Val(D, m, n)) && InRange(Val(D, e, n), Val(D, m, n))
    requires u * Val(D, d, n) + v * Val(D, e, n) + RowCorrection(u, v, d, e, n, minv) * Val(D, m, n) == D * q
    requires Shifting(d, e, m, o0, o, n, n, u, v, RowCorrection(u, v, d, e, n, minv), c)
    ensures -D <= c < D && Updated(o[n - 1 := c], n, u, v, Val(D, d, n), Val(D, e, n), Val(D, m, n))
  {
    RowQuotient(u, v, d, e, n, minv, Val(D, m, n), q);
    ShiftingDone(d, e, m, o0, o, n, u, v, RowCorrection(u, v, d, e, n, minv), c, q);
  }

  // ------------------------------------------------------------- normalize

  /** Carries moved up so that every digit below the top is in `[0, 2^62)`; the value is kept. */
  method Carry62(d: array<I64>, n: nat)
    requires 1 <= n <= d.Length && forall k :: 0 <= k < n ==> -(2 * D - 2) <= d[k] <= 2 * D - 2
    modifies d
    ensures Digits(D, d[..], n - 1) && Val(D, d[..], n) == old(Val(D, d[..], n))
  {
    ghost var v := Val(D, d[..], n);
    for i := 0 to n - 1
      invariant Digits(D, d[..], i) && Val(D, d[..], n) == v && -2 * D <= d[i] <= 2 * D - 1
      invariant forall k :: i < k < n ==> -(2 * D - 2) <= d[k] <= 2 * D - 2
    {
      ghost var before: seq<int> := d[..];
      var c := d[i] / D;
      d[i + 1] := d[i + 1] + c;
      ghost var mid: seq<int> := d[..];
      d[i] := d[i] % D;
      CarryValue(before, mid, d[..], i, c, n);
    }
  }

  lemma CarryValue(s: seq<int>, mid: seq<int>, r: seq<int>, i: nat, c: int, n: nat)
    requires i + 1 < n <= |s| && mid == s[i + 1 := s[i + 1] + c] && r == mid[i := s[i] - D * c]
    ensures Val(D, r, n) == Val(D, s, n)
  {
    CarryUp(s, mid, i, c, n);
    CarryDown(s, mid, r, i, c, n);
    CarryCancels(Val(D, s, n), Val(D, mid, n), Val(D, r, n), s[i], s[i + 1], c, Pow(D, i));
  }

  lemma CarryUp(s: seq<int>, mid: seq<int>, i: nat, c: int, n: nat)
    requires i + 1 < n <= |s| && mid == s[i + 1 := s[i + 1] + c]
    ensures Val(D, mid, n) == Val(D, s, n) + (s[i + 1] + c - s[i + 1]) * Pow(D, i + 1)
  {
    ValUpdate(D, s, i + 1, s[i + 1] + c, n);
  }

  lemma CarryDown(s: seq<int>, mid: seq<int>, r: seq<int>, i: nat, c: int, n: nat)
    requires i + 1 < n <= |s| && mid == s[i + 1 := s[i + 1] + c] && r == mid[i := s[i] - D * c]
    ensures Val(D, r, n) == Val(D, mid, n) + (s[i] - D * c - s[i]) * Pow(D, i)
  {
    ValUpdate(D, mid, i, s[i] - D * c, n);
  }

  lemma CarryCancels(v: int, v1: int, v2: int, x: int, y: int, c: int, p: int)
    requires v1 == v + (y + c - y) * (D * p) && v2 == v1 + (x - D * c - x) * p
    ensures v2 == v
  {
  }

  /** `d <- d + m` when `add`, digit by digit without carries. */
  method AddDigits(d: array<I64>, m: seq<I64>, n: nat, add: bool)
    requires n <= d.Length && Normal(m, n) && Digits(D, m, n)
    requires forall k :: 0 <= k < n ==> -D <= d[k] < D
    modifies d
    ensures Val(D, d[..], n) == old(Val(D, d[..], n)) + (if add then Val(D, m, n) else 0)
    ensures forall k :: 0 <= k < n ==> -D <= d[k] <= 2 * D - 2
  {
    ghost var d0: seq<int> := d[..];
    for i := 0 to n
      invariant forall k :: i <= k < n ==> d[k] == d0[k]
      invariant forall k :: 0 <= k < i ==> -D <= d[k] <= 2 * D - 2
      invariant Val(D, d[..], i) == Val(D, d0, i) + (if add then Val(D, m, i) else 0)
    {
      ghost var before: seq<int> := d[..];
      d[i] := d[i] + (if add then m[i] else 0);
      ValAgree(D, before, d[..], i);
      assert (d0[i] + (if add then m[i] else 0)) * Pow(D, i)
             == d0[i] * Pow(D, i) + (if add then m[i] * Pow(D, i) else 0);
    }
  }

  /** `d <- -d` when `neg`, digit by digit. */
  method NegateDigits(d: array<I64>, n: nat, neg: bool)
    requires n <= d.Length && forall k :: 0 <= k < n ==> -(2 * D - 2) <= d[k] <= 2 * D - 2
    modifies d
    ensures Val(D, d[..], n) == if neg then -old(Val(D, d[..], n)) else old(Val(D, d[..], n))
    ensures forall k :: 0 <= k < n ==> -(2 * D - 2) <= d[k] <= 2 * D - 2
  {
    ghost var d0: seq<int> := d[..];
    for i := 0 to n
      invariant forall k :: i <= k < n ==> d[k] == d0[k]
      invariant forall k :: 0 <= k < n ==> -(2 * D - 2) <= d[k] <= 2 * D - 2
      invariant Val(D, d[..], i) == if neg then -Val(D, d0, i) else Val(D, d0, i)
    {
      ghost var before: seq<int> := d[..];
      d[i] := if neg then -d[i] else d[i];
      ValAgree(D, before, d[..], i);
      assert (-d0[i]) * Pow(D, i) == -(d0[i] * Pow(D, i));
    }
  }

  /** `d` in `(-2m, m)` becomes the residue of `±d` in `[0, m)`, the sign taken from `f`. */
  method Normalize(d: array<I64>, m: seq<I64>, n: nat, fTop: I64)
    requires 1 <= n <= d.Length && Normal(d[..], n) && Normal(m, n) && Digits(D, m, n)
    requires 0 < Val(D, m, n) && 4 * Val(D, m, n) <= Pow(D, n)
    requires -2 * Val(D, m, n) < Val(D, d[..], n) < Val(D, m, n)
    modifies d
    ensures Normal(d[..], n)
    ensures Val(D, d[..], n)
            == (if fTop < 0 then -old(Val(D, d[..], n)) else old(Val(D, d[..], n))) % Val(D, m, n)
  {
    ghost var v, vm := Val(D, d[..], n), Val(D, m, n);
    SignOfTop(d[..], n);
    AddDigits(d, m, n, d[n - 1] < 0);
    NegateDigits(d, n, fTop < 0);
    Carry62(d, n);
    ghost var w := Val(D, d[..], n);
    NormalFrom(d[..], n);
    SignOfTop(d[..], n);
    AddDigits(d, m, n, d[n - 1] < 0);
    Carry62(d, n);
    NormalFrom(d[..], n);
    NormalizedResidue(v, vm, fTop < 0, w, Val(D, d[..], n));
  }

  lemma NormalFrom(s: seq<int>, n: nat)
    requires 1 <= n <= |s| && Digits(D, s, n - 1) && Small(Val(D, s, n), n)
    ensures Normal(s, n)
  {
    TopDigit(s, n, s[n - 1], Val(D, s, n));
  }

  lemma NormalizedResidue(v: int, m: int, neg: bool, w: int, r: int)
    requires m > 0 && -2 * m < v < m
    requires w == (if neg then -(if v < 0 then v + m else v) else (if v < 0 then v + m else v))
    requires r == (if w < 0 then w + m else w)
    ensures r == (if neg then -v else v) % m
  {
    var x := if neg then -v else v;
    var k := (if v < 0 then (if neg then -1 else 1) else 0) + (if w < 0 then 1 else 0);
    CongBy(r, x, m, k);
    ModIs(x, r, m);
  }
}
