/** Almost-Montgomery multiplication on 52-bit digits held in 64-bit lanes, carries deferred. */
module IfmaKernel {
  import opened Arith
  import opened Limbs
  import opened CarryLookahead

  // ------------------------------------------------------- the lane products

  /** Low half of the product of the low 52 bits of two lanes. */
  function Lo(a: int, b: int): int { (a % E) * (b % E) % E }

  /** High half of the same product. */
  function Hi(a: int, b: int): int { (a % E) * (b % E) / E }

  lemma Halves(a: int, b: int)
    ensures Lo(a, b) + E * Hi(a, b) == (a % E) * (b % E)
    ensures 0 <= Lo(a, b) < E && 0 <= Hi(a, b) < E - 1
  {
    var x, y := a % E, b % E;
    MulNonNegative(x, y);
    MulMono(x, E - 1, y);
  }

  /** Every lane of `z` plus the low half of its product with the scalar `b`, wrapping. */
  function MaddLo(z: seq<Limb>, a: seq<int>, b: int): (r: seq<Limb>)
    requires |z| == |a|
    ensures |r| == |z|
  {
    seq(|z|, j requires 0 <= j < |z| => (z[j] + Lo(a[j], b)) % B)
  }

  function MaddHi(z: seq<Limb>, a: seq<int>, b: int): (r: seq<Limb>)
    requires |z| == |a|
    ensures |r| == |z|
  {
    seq(|z|, j requires 0 <= j < |z| => (z[j] + Hi(a[j], b)) % B)
  }

  /** How much one row may add to a lane. */
  const GROWTH: int := 4 * E + 1024

  /** Every lane is at most `bound`. */
  ghost predicate Lanes(l: seq<Limb>, bound: int) {
    forall j :: 0 <= j < |l| ==> l[j] <= bound
  }

  // ----------------------------------------------------------------- one row

  /** The low digit cancels: `m` is chosen from the low digits alone. */
  lemma LowCancels(l0: int, a0: int, b: int, n0: int, k0: int, m: int, x0: int)
    requires Cong(m, (l0 + a0 * b) * k0, E) && (n0 * k0 + 1) % E == 0
    requires Cong(x0, l0 + a0 * b + n0 * m, E)
    ensures x0 % E == 0
  {
    var s := l0 + a0 * b;
    CongScale(m, s * k0, n0, E);
    CongSelf(s, E);
    CongAdd(s, s, n0 * m, n0 * (s * k0), E);
    CongTrans(x0, s + n0 * m, s + n0 * (s * k0), E);
    assert s + n0 * (s * k0) == s * (n0 * k0 + 1);
    var c := (n0 * k0 + 1) / E;
    assert s * (E * c) == (s * c) * E;
    CongBy(s * (n0 * k0 + 1), 0, E, s * c);
    CongTrans(x0, s * (n0 * k0 + 1), 0, E);
    CongIsMod(x0, 0, E);
  }

  /** The multiplier lanes: the product part and the accumulator part are formed separately. */
  lemma Multiplier(l0: int, a0: int, b: int, k0: int, m: int)
    requires 0 <= a0 < E && 0 <= b < E && 0 <= k0 < E
    requires m == (Lo(Lo(a0, b), k0) + Lo(l0, k0)) % E
    ensures Cong(m, (l0 + a0 * b) * k0, E)
  {
    LoIsProduct(a0, b);
    LoIsProduct(Lo(a0, b), k0);
    LoIsProduct(l0, k0);
    CongScale(Lo(a0, b), a0 * b, k0, E);
    CongTrans(Lo(Lo(a0, b), k0), Lo(a0, b) * k0, a0 * b * k0, E);
    CongAdd(Lo(Lo(a0, b), k0), a0 * b * k0, Lo(l0, k0), l0 * k0, E);
    CongMod(Lo(Lo(a0, b), k0) + Lo(l0, k0), E);
    assert a0 * b * k0 + l0 * k0 == (l0 + a0 * b) * k0;
    CongTrans(m, Lo(Lo(a0, b), k0) + Lo(l0, k0), (l0 + a0 * b) * k0, E);
  }

  lemma LoIsProduct(a: int, b: int)
    ensures Cong(Lo(a, b), a * b, E)
  {
    CongMod(a, E);
    CongMod(b, E);
    CongMul(a % E, a, b % E, b, E);
    CongMod((a % E) * (b % E), E);
    CongTrans(Lo(a, b), (a % E) * (b % E), a * b, E);
  }

  /** What the four multiply-adds leave in a lane: exact, because nothing wraps. */
  ghost predicate Column(x: int, h: int, l: int, a: int, n: int, b: int, m: int, bound: int) {
    x + E * h == l + a * b + n * m && 0 <= x <= bound + 2 * E && 0 <= h <= 2 * E - 2
  }

  lemma LaneColumn(l: Limb, a: int, n: int, b: int, mv: int, bound: int)
    requires 0 <= a < E && 0 <= n < E && 0 <= b < E && l <= bound && bound + 2 * E < B
    ensures var x := ((l + Lo(a, b)) % B + Lo(n, mv)) % B;
            var h := ((0 + Hi(a, b)) % B + Hi(n, mv)) % B;
            Column(x, h, l, a, n, b, mv % E, bound)
  {
    Halves(a, b);
    Halves(n, mv);
    NoWrap(l, Lo(a, b), Lo(n, mv), bound);
    NoWrap(0, Hi(a, b), Hi(n, mv), 0);
    LaneProducts(a, n, b, mv);
    LaneAlgebra(l, Lo(a, b), Lo(n, mv), Hi(a, b), Hi(n, mv), a * b, n * (mv % E));
  }

  lemma LaneProducts(a: int, n: int, b: int, mv: int)
    requires 0 <= a < E && 0 <= n < E && 0 <= b < E
    ensures Lo(a, b) + E * Hi(a, b) == a * b && Lo(n, mv) + E * Hi(n, mv) == n * (mv % E)
  {
    Halves(a, b);
    Halves(n, mv);
  }

  lemma NoWrap(l: Limb, u: int, v: int, bound: int)
    requires 0 <= u < E && 0 <= v < E && l <= bound && bound + 2 * E < B
    ensures ((l + u) % B + v) % B == l + u + v
  {
  }

  lemma LaneAlgebra(l: int, u: int, v: int, g: int, k: int, ab: int, nm: int)
    requires u + E * g == ab && v + E * k == nm
    ensures (l + u + v) + E * (g + k) == l + ab + nm
  {
  }

  lemma {:induction false} ColumnsValue(x: seq<int>, h: seq<int>, l: seq<int>, a: seq<int>, n: seq<int>, b: int, m: int,
                                        j: nat)
    requires j <= |x| == |h| == |l| == |a| == |n|
    requires forall i :: 0 <= i < |x| ==> x[i] + E * h[i] == l[i] + a[i] * b + n[i] * m
    ensures Val(E, x, j) + E * Val(E, h, j) == Val(E, l, j) + b * Val(E, a, j) + m * Val(E, n, j)
  {
    if j > 0 {
      ColumnsValue(x, h, l, a, n, b, m, j - 1);
      var i := j - 1;
      ColumnAlgebra(Val(E, x, i), Val(E, h, i), Val(E, l, i), Val(E, a, i), Val(E, n, i), x[i], h[i], l[i], a[i], n[i],
                    b, m, Pow(E, i));
    }
  }

  lemma ColumnAlgebra(xv: int, hv: int, lv: int, av: int, nv: int, x: int, h: int, l: int, a: int, n: int, b: int,
                      m: int, p: int)
    requires xv + E * hv == lv + b * av + m * nv && x + E * h == l + a * b + n * m
    ensures (xv + x * p) + E * (hv + h * p) == (lv + l * p) + b * (av + a * p) + m * (nv + n * p)
  {
    assert p * (x + E * h) == p * (l + a * b + n * m);
    assert p * (x + E * h) == x * p + E * (h * p);
    assert p * (l + a * b + n * m) == l * p + b * (a * p) + m * (n * p);
    assert b * (av + a * p) == b * av + b * (a * p) && m * (nv + n * p) == m * nv + m * (n * p);
  }

  /** The next accumulator: lane `j` takes `x[j + 1] + h[j]`, lane 0 also the carry out of `x[0]`. */
  function Shifted(x: seq<Limb>, h: seq<Limb>): (r: seq<Limb>)
    requires |x| == |h|
    ensures |r| == |x|
  {
    seq(|x|, j requires 0 <= j < |x| =>
      ((if j + 1 < |x| then x[j + 1] else 0) + (h[j] + (if j == 0 then x[0] / E else 0)) % B) % B)
  }

  /** Dropping the zero low digit divides by the radix. */
  lemma {:induction false} ShiftValue(x: seq<int>, h: seq<int>, r: seq<int>, j: nat)
    requires |x| == |h| + 1 == |r| + 1 && 1 <= j <= |r| && x[0] % E == 0
    requires forall i :: 0 <= i < |r| ==> r[i] == x[i + 1] + h[i] + (if i == 0 then x[0] / E else 0)
    ensures E * Val(E, r, j) == Val(E, x, j + 1) + E * Val(E, h, j)
  {
    if j == 1 {
      assert Val(E, x, 2) == Val(E, x, 1) + x[1] * Pow(E, 1);
      assert Val(E, x, 1) == Val(E, x, 0) + x[0] * Pow(E, 0);
      assert Val(E, r, 1) == Val(E, r, 0) + r[0] * Pow(E, 0) && Val(E, h, 1) == Val(E, h, 0) + h[0] * Pow(E, 0);
      assert Pow(E, 0) == 1 && Pow(E, 1) == E;
    } else {
      ShiftValue(x, h, r, j - 1);
      var p := Pow(E, j - 1);
      assert Pow(E, j) == E * p;
      ShiftAlgebra(Val(E, r, j - 1), Val(E, x, j), Val(E, h, j - 1), x[j], h[j - 1], p);
    }
  }

  lemma ShiftAlgebra(r: int, x: int, h: int, xj: int, hj: int, p: int)
    requires E * r == x + E * h
    ensures E * (r + (xj + hj) * p) == (x + xj * (E * p)) + E * (h + hj * p)
  {
    assert (xj + hj) * p == xj * p + hj * p;
    assert xj * (E * p) == E * (xj * p);
  }

  /** No lane of the shifted accumulator wraps, and the bound grows by one row's worth. */
  lemma ShiftLanes(x: seq<Limb>, h: seq<Limb>, bound: int)
    requires |x| == |h| > 0 && bound + GROWTH < B && 0 <= bound <= 1024 * E
    requires forall j :: 0 <= j < |x| ==> x[j] <= bound + 2 * E && h[j] <= 2 * E - 2
    ensures var r := Shifted(x, h);
            Lanes(r, bound + GROWTH)
            && forall i :: 0 <= i < |r| ==> r[i] == (x + [0])[i + 1] + h[i] + (if i == 0 then x[0] / E else 0)
  {
    var r := Shifted(x, h);
    forall i | 0 <= i < |r|
      ensures r[i] <= bound + GROWTH && r[i] == (x + [0])[i + 1] + h[i] + (if i == 0 then x[0] / E else 0)
    {
      TopCarry(x[0], bound);
      ShiftLane((x + [0])[i + 1], h[i], if i == 0 then x[0] / E else 0, bound);
    }
  }

  lemma TopCarry(x: int, bound: int)
    requires 0 <= x <= bound + 2 * E && 0 <= bound <= 1024 * E
    ensures 0 <= x / E <= 1026
  {
  }

  lemma ShiftLane(x: int, h: int, c: int, bound: int)
    requires 0 <= x <= bound + 2 * E && 0 <= h <= 2 * E - 2 && 0 <= c <= 1026 && bound + GROWTH < B
    ensures (x + (h + c) % B) % B == x + h + c <= bound + GROWTH
  {
  }

  /** One row of the product: `E·L' = L + A·b + m·N`, every lane still within its word. */
  method Row(l: seq<Limb>, a: seq<int>, n: seq<int>, b: int, k0: int, ghost bound: int)
    returns (r: seq<Limb>, ghost m: int)
    requires |l| == |a| == |n| > 0 && Digits(E, a, |a|) && Digits(E, n, |n|)
    requires 0 <= b < E && 0 <= k0 < E && (n[0] * k0 + 1) % E == 0
    requires Lanes(l, bound) && 0 <= bound <= 1024 * E && bound + GROWTH < B
    ensures |r| == |l| && Lanes(r, bound + GROWTH) && 0 <= m < E
    ensures E * Val(E, r, |r|) == Val(E, l, |l|) + Val(E, a, |a|) * b + m * Val(E, n, |n|)
  {
    var p := Lo(a[0], b);
    var q := Lo(p, k0);
    var mv := q + Lo(l[0], k0);
    m := mv % E;
    Multiplier(l[0], a[0], b, k0, m);
    var zero: seq<Limb> := seq(|l|, _ => 0);
    var x := MaddLo(MaddLo(l, a, b), n, mv);
    var h := MaddHi(MaddHi(zero, a, b), n, mv);
    RowColumns(l, a, n, b, mv, bound, x, h);
    RowLow(l[0], a[0], b, n[0], k0, m, x[0], h[0]);
    ShiftLanes(x, h, bound);
    r := Shifted(x, h);
    RowValue(l, a, n, b, m, x, h, r);
  }

  lemma RowLow(l0: int, a0: int, b: int, n0: int, k0: int, m: int, x0: int, h0: int)
    requires Cong(m, (l0 + a0 * b) * k0, E) && (n0 * k0 + 1) % E == 0
    requires x0 + E * h0 == l0 + a0 * b + n0 * m
    ensures x0 % E == 0
  {
    CongBy(x0, l0 + a0 * b + n0 * m, E, -h0);
    LowCancels(l0, a0, b, n0, k0, m, x0);
  }

  lemma RowColumns(l: seq<Limb>, a: seq<int>, n: seq<int>, b: int, mv: int, bound: int, x: seq<Limb>, h: seq<Limb>)
    requires |l| == |a| == |n| > 0 && Digits(E, a, |a|) && Digits(E, n, |n|) && 0 <= b < E
    requires Lanes(l, bound) && bound + GROWTH < B
    requires x == MaddLo(MaddLo(l, a, b), n, mv)
    requires h == MaddHi(MaddHi(seq(|l|, _ => 0), a, b), n, mv)
    ensures forall j :: 0 <= j < |x| ==> Column(x[j], h[j], l[j], a[j], n[j], b, mv % E, bound)
  {
    forall j | 0 <= j < |x| ensures Column(x[j], h[j], l[j], a[j], n[j], b, mv % E, bound) {
      LaneColumn(l[j], a[j], n[j], b, mv, bound);
    }
  }

  lemma RowValue(l: seq<Limb>, a: seq<int>, n: seq<int>, b: int, m: int, x: seq<Limb>, h: seq<Limb>, r: seq<Limb>)
    requires |x| == |h| == |l| == |a| == |n| == |r| > 0 && x[0] % E == 0
    requires forall i :: 0 <= i < |x| ==> x[i] + E * h[i] == l[i] + a[i] * b + n[i] * m
    requires forall i :: 0 <= i < |r| ==> r[i] == (x + [0])[i + 1] + h[i] + (if i == 0 then x[0] / E else 0)
    ensures E * Val(E, r, |r|) == Val(E, l, |l|) + Val(E, a, |a|) * b + m * Val(E, n, |n|)
  {
    var c := |x|;
    ColumnsValue(x, h, l, a, n, b, m, c);
    ShiftWhole(x, h, r);
    assert b * Val(E, a, c) == Val(E, a, c) * b;
  }

  lemma ShiftWhole(x: seq<Limb>, h: seq<Limb>, r: seq<Limb>)
    requires |x| == |h| == |r| > 0 && x[0] % E == 0
    requires forall i :: 0 <= i < |r| ==> r[i] == (x + [0])[i + 1] + h[i] + (if i == 0 then x[0] / E else 0)
    ensures E * Val(E, r, |r|) == Val(E, x, |x|) + E * Val(E, h, |h|)
  {
    var c := |x|;
    var xs: seq<Limb> := x + [0];
    ShiftValue(xs, h, r, c);
    ValZeroTail(E, xs, c, c + 1);
    ValAgree(E, xs, x, c);
  }

  // ------------------------------------------------------------- all the rows

  /** After `i` rows. */
  ghost predicate Accumulated(l: int, a: int, b: int, i: nat, m: int, n: int) {
    l * Pow(E, i) == a * b + m * n && 0 <= m < Pow(E, i)
  }

  lemma AccumulateRow(l: int, l': int, a: int, b: int, d: int, i: nat, m: int, mi: int, n: int)
    requires Accumulated(l, a, b, i, m, n) && E * l' == l + a * d + mi * n && 0 <= mi < E
    ensures Accumulated(l', a, b + d * Pow(E, i), i + 1, m + mi * Pow(E, i), n)
  {
    var p := Pow(E, i);
    assert Pow(E, i + 1) == E * p;
    PowPositive(E, i);
    AccumulateAlgebra(l, l', a, b, d, p, m, mi, n);
    MulMono(0, mi, p);
    MulMono(mi + 1, E, p);
  }

  lemma AccumulateAlgebra(l: int, l': int, a: int, b: int, d: int, p: int, m: int, mi: int, n: int)
    requires l * p == a * b + m * n && E * l' == l + a * d + mi * n
    ensures l' * (E * p) == a * (b + d * p) + (m + mi * p) * n
  {
    assert p * (E * l') == p * (l + a * d + mi * n);
    assert l' * (E * p) == p * (E * l');
    assert p * (l + a * d + mi * n) == l * p + a * (d * p) + (mi * p) * n;
    assert a * (b + d * p) == a * b + a * (d * p);
    assert (m + mi * p) * n == m * n + (mi * p) * n;
  }

  /** The raw accumulator is below `2N` as soon as the operands' product is below `R·N`. */
  lemma AlmostReduced(l: int, a: int, b: int, d: nat, m: int, n: int)
    requires Accumulated(l, a, b, d, m, n) && n > 0 && a * b < Pow(E, d) * n
    ensures l < 2 * n
  {
    var r := Pow(E, d);
    PowPositive(E, d);
    MulMono(m, r, n);
    assert l * r < (2 * n) * r by { assert (2 * n) * r == r * n + r * n; }
    MulCancelLess(l, 2 * n, r);
  }

  /** Two operands below `2N` qualify once `R >= 4N`. */
  lemma ProductRoom(a: int, b: int, n: int, r: int)
    requires 0 <= a < 2 * n && 0 <= b < 2 * n && 4 * n <= r
    ensures a * b < r * n
  {
    MulMono(a, 2 * n, b);
    MulStrict(b, 2 * n, 2 * n);
    MulMono(4 * n, r, n);
    assert (2 * n) * (2 * n) == (4 * n) * n;
    assert (2 * n) * b == b * (2 * n);
  }

  /** The machine word the lane masks are added in. */
  function MaskBits(lanes: nat): nat { if lanes <= 64 then 64 else 128 }

  /**
   * `A·B·R^-1` up to a multiple of `N`, as canonical digits below `2N`: `d` rows on deferred
   * carries, at most 128 of them, then one normalization.
   */
  method Amm(a: seq<int>, b: seq<int>, n: seq<int>, k0: int, d: nat) returns (out: seq<int>)
    requires 0 < |a| == |b| == |n| <= 128 && d <= |n|
    requires Digits(E, a, |a|) && Digits(E, b, |b|) && Digits(E, n, |n|)
    requires 0 <= k0 < E && (n[0] * k0 + 1) % E == 0
    requires Val(E, n, |n|) > 0 && 2 * Val(E, n, |n|) <= Pow(E, |n|)
    requires Val(E, a, |a|) * Val(E, b, d) < Pow(E, d) * Val(E, n, |n|)
    ensures |out| == |n| && Digits(E, out, |n|) && 0 <= Val(E, out, |n|) < 2 * Val(E, n, |n|)
    ensures exists m :: Accumulated(Val(E, out, |n|), Val(E, a, |a|), Val(E, b, d), d, m, Val(E, n, |n|))
  {
    var c := |n|;
    var l, m := Rows(a, b, n, k0, d);
    AlmostReduced(Val(E, l, c), Val(E, a, c), Val(E, b, d), d, m, Val(E, n, c));
    out := Normalize(l, MaskBits(c));
    ValBound(E, out, c);
  }

  /** The rows alone: the product before its carries are resolved. */
  method Rows(a: seq<int>, b: seq<int>, n: seq<int>, k0: int, d: nat) returns (l: seq<Limb>, ghost m: int)
    requires 0 < |a| == |b| == |n| <= 128 && d <= |n|
    requires Digits(E, a, |a|) && Digits(E, b, |b|) && Digits(E, n, |n|)
    requires 0 <= k0 < E && (n[0] * k0 + 1) % E == 0
    ensures |l| == |n| && Lanes(l, d * GROWTH)
    ensures Accumulated(Val(E, l, |n|), Val(E, a, |a|), Val(E, b, d), d, m, Val(E, n, |n|))
  {
    var c := |n|;
    l := seq(c, _ => 0);
    ValZeroTail(E, l, 0, c);
    m := 0;
    assert Pow(E, 0) == 1;
    var i := 0;
    while i < d
      invariant 0 <= i <= d && |l| == c && Lanes(l, i * GROWTH)
      invariant Accumulated(Val(E, l, c), Val(E, a, c), Val(E, b, i), i, m, Val(E, n, c))
    {
      ghost var mi;
      ghost var before := Val(E, l, c);
      l, mi := Row(l, a, n, b[i], k0, i * GROWTH);
      AccumulateRow(before, Val(E, l, c), Val(E, a, c), Val(E, b, i), b[i], i, m, mi, Val(E, n, c));
      m := m + mi * Pow(E, i);
      i := i + 1;
    }
  }
}
