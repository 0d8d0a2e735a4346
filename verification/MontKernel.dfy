/** The CIOS Montgomery multiplication kernel, two merged rows per pass. */
module MontKernel {
  import opened Arith
  import opened Limbs
  import opened LimbOps

  /** `n' = -n^-1 mod 2^64`, the property the row multiplier is chosen by. */
  predicate IsNPrime(n0: Limb, np: Limb) { (n0 * np + 1) % B == 0 }

  /** The row multiplier `m = s·n'` cancels the low limb of `s + m·n`. */
  lemma RowCancels(s: Limb, n0: Limb, np: Limb)
    requires IsNPrime(n0, np)
    ensures (s + MulLow(s, np) * n0) % B == 0
  {
    var m := MulLow(s, np);
    CongMod(s * np, B);
    CongScale(m, s * np, n0, B);
    CongSelf(s, B);
    CongAdd(s, s, m * n0, s * np * n0, B);
    var k := (n0 * np + 1) / B;
    assert s * np * n0 + s == s * (n0 * np + 1) == s * (B * k) == s * k * B;
    CongBy(s + s * np * n0, 0, B, s * k);
    CongTrans(s + m * n0, s + s * np * n0, 0, B);
    ModIsZero(s + m * n0);
  }

  lemma ModIsZero(x: int)
    requires Cong(x, 0, B)
    ensures x % B == 0
  {
    CongSym(x, 0, B);
    ModIs(x, 0, B);
  }

  /** One column of a merged pair, as an identity on values: `p2` is `B^(j-2)`. */
  lemma PairColumn(t: int, a: int, a1: int, n: int, n1: int, o: int,
                   b0: int, b1: int, m0: int, m1: int, c: int, p2: int,
                   tj: int, aj: int, aj1: int, nj: int, nj1: int, u: int, c': int)
    requires t + a * b0 + m0 * n + B * (a1 * b1 + m1 * n1) == B * B * o + c * (B * (B * p2))
    requires tj + aj * b0 + m0 * nj + aj1 * b1 + m1 * nj1 + c == u + B * c'
    ensures var p := B * (B * p2);
            (t + tj * p) + (a + aj * p) * b0 + m0 * (n + nj * p)
            + B * ((a1 + aj1 * (B * p2)) * b1 + m1 * (n1 + nj1 * (B * p2)))
            == B * B * (o + u * p2) + c' * (B * p)
  {
    var p := B * (B * p2);
    assert p * (tj + aj * b0 + m0 * nj + aj1 * b1 + m1 * nj1 + c) == p * (u + B * c');
  }

  /**
   * What one merged pair has done after column `j - 1`: rows `b0`, `b1` are added up to
   * columns `j` and `j - 1`, the two low limbs are gone, and four carries are in flight.
   */
  ghost predicate PairInv(t0: seq<Limb>, t: seq<Limb>, a: seq<Limb>, n: seq<Limb>, j: nat,
                          b0: int, b1: int, m0: int, m1: int, c: int)
    requires 2 <= j <= |t0| && j <= |a| && j <= |n| && |t| == |t0|
  {
    Val(B, t0, j) + Val(B, a, j) * b0 + m0 * Val(B, n, j)
    + B * (Val(B, a, j - 1) * b1 + m1 * Val(B, n, j - 1))
    == B * B * Val(B, t, j - 2) + c * Pow(B, j)
  }

  /** Writing limb `j - 2` with the column's result extends the pair by one column. */
  lemma PairExtend(t0: seq<Limb>, t: seq<Limb>, a: seq<Limb>, n: seq<Limb>, j: nat,
                   b0: int, b1: int, m0: int, m1: int, c: int, u: Limb, c': int)
    requires 2 <= j < |t0| && j < |a| && j < |n| && |t| == |t0|
    requires PairInv(t0, t, a, n, j, b0, b1, m0, m1, c)
    requires t0[j] + a[j] * b0 + m0 * n[j] + a[j - 1] * b1 + m1 * n[j - 1] + c == u + B * c'
    ensures PairInv(t0, t[j - 2 := u], a, n, j + 1, b0, b1, m0, m1, c')
  {
    ValAgree(B, t, t[j - 2 := u], j - 2);
    PairColumn(Val(B, t0, j), Val(B, a, j), Val(B, a, j - 1), Val(B, n, j), Val(B, n, j - 1),
               Val(B, t, j - 2), b0, b1, m0, m1, c, Pow(B, j - 2),
               t0[j], a[j], a[j - 1], n[j], n[j - 1], u, c');
  }

  /** Columns 0 and 1 decide both row multipliers and cancel both low limbs. */
  lemma PairStart(t: seq<Limb>, a: seq<Limb>, n: seq<Limb>, b0: int, b1: int, m0: int, m1: int,
                  s0: int, s: int, tp0: int, u0: int, c: int, c1: int, c2: int, d1: int, d2: int, e1: int, e2: int)
    requires |t| >= 2 && |a| >= 2 && |n| >= 2
    requires s0 + B * e1 == t[0] + a[0] * b0 && s0 + m0 * n[0] == B * e2
    requires s + B * c1 == t[1] + a[1] * b0 + e1 && tp0 + B * c2 == s + m0 * n[1] + e2
    requires u0 + B * d1 == tp0 + a[0] * b1 && u0 + m1 * n[0] == B * d2
    requires c == c1 + c2 + d1 + d2
    ensures PairInv(t, t, a, n, 2, b0, b1, m0, m1, c)
  {
    assert Pow(B, 1) == B && Pow(B, 2) == B * B by { assert Pow(B, 0) == 1; }
    assert Val(B, t, 1) == t[0] && Val(B, t, 2) == t[0] + t[1] * B by { assert Val(B, t, 0) == 0; }
    assert Val(B, a, 1) == a[0] && Val(B, a, 2) == a[0] + a[1] * B by { assert Val(B, a, 0) == 0; }
    assert Val(B, n, 1) == n[0] && Val(B, n, 2) == n[0] + n[1] * B by { assert Val(B, n, 0) == 0; }
  }

  /** Columns `2 .. l - 1` of a pair, streamed through `t` in place. */
  method PairColumns(n: seq<Limb>, a: seq<Limb>, b0: Limb, b1: Limb, m0: Limb, m1: Limb, t: array<Limb>, l: nat,
                     c1in: Limb, c2in: Limb, d1in: Limb, d2in: Limb)
    returns (c1: Limb, c2: Limb, d1: Limb, d2: Limb)
    requires 2 <= l <= |n| && l <= |a| && l <= t.Length
    requires PairInv(t[..], t[..], a, n, 2, b0, b1, m0, m1, c1in + c2in + d1in + d2in)
    modifies t
    ensures PairInv(old(t[..]), t[..], a, n, l, b0, b1, m0, m1, c1 + c2 + d1 + d2)
    ensures forall k :: l <= k < t.Length ==> t[k] == old(t[k])
  {
    ghost var t0 := t[..];
    c1, c2, d1, d2 := c1in, c2in, d1in, d2in;
    var j := 2;
    while j < l
      invariant 2 <= j <= l
      invariant forall k :: j - 2 <= k < t.Length ==> t[k] == t0[k]
      invariant PairInv(t0, t[..], a, n, j, b0, b1, m0, m1, c1 + c2 + d1 + d2)
    {
      var (s, cc1) := Mac(t[j], a[j], b0, c1);
      var (tpj1, cc2) := Mac(s, m0, n[j], c2);
      var (u, dd1) := Mac(tpj1, a[j - 1], b1, d1);
      var (u2, dd2) := Mac(u, m1, n[j - 1], d2);
      PairExtend(t0, t[..], a, n, j, b0, b1, m0, m1, c1 + c2 + d1 + d2, u2, cc1 + cc2 + dd1 + dd2);
      assert t[..][j - 2 := u2] == t[..j - 2] + [u2] + t[j - 1..];
      t[j - 2] := u2;
      assert t[..] == t[..j - 2] + [u2] + t[j - 1..];
      c1, c2, d1, d2 := cc1, cc2, dd1, dd2;
      j := j + 1;
    }
  }

  /** The top of a pair: row `i`'s high limb, row `i + 1`'s last column and the two new high limbs. */
  lemma PairTop(t0: seq<Limb>, t: seq<Limb>, a: seq<Limb>, n: seq<Limb>, l: nat, b0: int, b1: int, m0: int, m1: int,
                c: int, ts: int, u: Limb, top: Limb, ts': int, tpl: int, tpl1: int, c12: int, d: int, d': int)
    requires 2 <= l <= |t0| && l <= |a| && l <= |n| && |t| == |t0|
    requires PairInv(t0, t, a, n, l, b0, b1, m0, m1, c) && c == c12 + d
    requires ts + c12 == tpl1 + B * tpl
    requires tpl1 + a[l - 1] * b1 + m1 * n[l - 1] + d == u + B * d'
    requires tpl + d' == top + B * ts'
    ensures var t2 := t[l - 2 := u][l - 1 := top];
            Val(B, t0, l) + ts * Pow(B, l) + Val(B, a, l) * b0 + m0 * Val(B, n, l)
            + B * (Val(B, a, l) * b1 + m1 * Val(B, n, l))
            == B * B * (Val(B, t2, l) + ts' * Pow(B, l))
  {
    var t2 := t[l - 2 := u][l - 1 := top];
    ValAgree(B, t, t2, l - 2);
    var p2 := Pow(B, l - 2);
    var x, y := a[l - 1], n[l - 1];
    assert Val(B, t2, l) == Val(B, t, l - 2) + u * p2 + top * (B * p2);
    PairTopAlgebra(Val(B, t0, l) + Val(B, a, l) * b0 + m0 * Val(B, n, l), Val(B, a, l - 1), Val(B, n, l - 1),
                   Val(B, t, l - 2), b1, m1, c, ts, x, y, u, top, ts', p2);
  }

  lemma PairTopAlgebra(z: int, a1: int, n1: int, o: int, b1: int, m1: int, c: int, ts: int, x: int, y: int,
                       u: int, top: int, ts': int, p2: int)
    requires z + B * (a1 * b1 + m1 * n1) == B * B * o + c * (B * (B * p2))
    requires ts + c + x * b1 + m1 * y == u + B * top + B * B * ts'
    ensures z + ts * (B * (B * p2)) + B * ((a1 + x * (B * p2)) * b1 + m1 * (n1 + y * (B * p2)))
            == B * B * (o + u * p2 + top * (B * p2) + ts' * (B * (B * p2)))
  {
    assert p2 * (ts + c + x * b1 + m1 * y) == p2 * (u + B * top + B * B * ts');
  }

  /** Rows `b0` and `b1` in one pass: the accumulator becomes the sum with both rows, divided by `B^2`. */
  method PairPass(n: seq<Limb>, np: Limb, a: seq<Limb>, b0: Limb, b1: Limb, t: array<Limb>, ts: Limb)
    returns (ts': Limb, ghost m0: Limb, ghost m1: Limb)
    requires 2 <= |n| <= |a| && |n| <= t.Length && IsNPrime(n[0], np)
    modifies t
    ensures Val(B, old(t[..]), |n|) + ts * Pow(B, |n|) + Val(B, a, |n|) * b0 + m0 * Val(B, n, |n|)
            + B * (Val(B, a, |n|) * b1 + m1 * Val(B, n, |n|))
            == B * B * (Val(B, t[..], |n|) + ts' * Pow(B, |n|))
    ensures forall k :: |n| <= k < t.Length ==> t[k] == old(t[k])
  {
    var l := |n|;
    ghost var t0 := t[..];
    var (s0, e1) := Mac(t[0], a[0], b0, 0);
    var m0v := MulLow(s0, np);
    var (z0, e2) := Mac(s0, m0v, n[0], 0);
    RowCancels(s0, n[0], np);
    var (s, c1) := Mac(t[1], a[1], b0, e1);
    var (tp0, c2) := Mac(s, m0v, n[1], e2);
    var (u0, d1) := Mac(tp0, a[0], b1, 0);
    var m1v := MulLow(u0, np);
    m0, m1 := m0v, m1v;
    var (z1, d2) := Mac(u0, m1v, n[0], 0);
    RowCancels(u0, n[0], np);
    PairStart(t0, a, n, b0, b1, m0, m1, s0, s, tp0, u0, c1 + c2 + d1 + d2, c1, c2, d1, d2, e1, e2);
    c1, c2, d1, d2 := PairColumns(n, a, b0, b1, m0v, m1v, t, l, c1, c2, d1, d2);
    ghost var t1: seq<Limb> := t[..];
    var sum := ts + c1 + c2;
    var tpl1, tpl := sum % B, sum / B;
    var (u, dd1) := Mac(tpl1, a[l - 1], b1, d1);
    var (u2, dd2) := Mac(u, m1v, n[l - 1], d2);
    t[l - 2] := u2;
    var sum2 := tpl + dd1 + dd2;
    var top: Limb := sum2 % B;
    t[l - 1] := top;
    ts' := sum2 / B;
    ghost var t2: seq<Limb> := t1[l - 2 := u2];
    assert t[..] == t2[l - 1 := top];
    PairTop(t0, t1, a, n, l, b0, b1, m0, m1, c1 + c2 + d1 + d2, ts, u2, top, ts', tpl, tpl1, c1 + c2, d1 + d2,
            dd1 + dd2);
  }

  /** A merged single row after column `j - 1`. */
  ghost predicate RowInv(t0: seq<Limb>, t: seq<Limb>, a: seq<Limb>, n: seq<Limb>, j: nat, b: int, m: int, c: int)
    requires 1 <= j <= |t0| && j <= |a| && j <= |n| && |t| == |t0|
  {
    Val(B, t0, j) + Val(B, a, j) * b + m * Val(B, n, j) == B * Val(B, t, j - 1) + c * Pow(B, j)
  }

  lemma RowExtend(t0: seq<Limb>, t: seq<Limb>, a: seq<Limb>, n: seq<Limb>, j: nat, b: int, m: int, c: int, u: Limb,
                  c': int)
    requires 1 <= j < |t0| && j < |a| && j < |n| && |t| == |t0|
    requires RowInv(t0, t, a, n, j, b, m, c)
    requires t0[j] + a[j] * b + m * n[j] + c == u + B * c'
    ensures RowInv(t0, t[j - 1 := u], a, n, j + 1, b, m, c')
  {
    ValAgree(B, t, t[j - 1 := u], j - 1);
    RowColumn(Val(B, t0, j), Val(B, a, j), Val(B, n, j), Val(B, t, j - 1), b, m, c, Pow(B, j - 1), t0[j], a[j], n[j], u,
              c');
  }

  lemma RowColumn(t: int, a: int, n: int, o: int, b: int, m: int, c: int, p1: int, tj: int, aj: int, nj: int, u: int,
                  c': int)
    requires t + a * b + m * n == B * o + c * (B * p1)
    requires tj + aj * b + m * nj + c == u + B * c'
    ensures var p := B * p1;
            (t + tj * p) + (a + aj * p) * b + m * (n + nj * p) == B * (o + u * p1) + c' * (B * p)
  {
    var p := B * p1;
    assert p * (tj + aj * b + m * nj + c) == p * (u + B * c');
  }

  /** Columns `1 .. l - 1` of the single row. */
  method RowColumns(n: seq<Limb>, a: seq<Limb>, b: Limb, m: Limb, t: array<Limb>, c1in: Limb, c2in: Limb)
    returns (c1: Limb, c2: Limb)
    requires 1 <= |n| <= |a| && |n| <= t.Length
    requires RowInv(t[..], t[..], a, n, 1, b, m, c1in + c2in)
    modifies t
    ensures RowInv(old(t[..]), t[..], a, n, |n|, b, m, c1 + c2)
    ensures forall k :: |n| <= k < t.Length ==> t[k] == old(t[k])
  {
    ghost var t0 := t[..];
    c1, c2 := c1in, c2in;
    var j := 1;
    while j < |n|
      invariant 1 <= j <= |n|
      invariant forall k :: j - 1 <= k < t.Length ==> t[k] == t0[k]
      invariant RowInv(t0, t[..], a, n, j, b, m, c1 + c2)
    {
      var (s, cc1) := Mac(t[j], a[j], b, c1);
      var (s2, cc2) := Mac(s, m, n[j], c2);
      RowExtend(t0, t[..], a, n, j, b, m, c1 + c2, s2, cc1 + cc2);
      ghost var before: seq<Limb> := t[..];
      t[j - 1] := s2;
      assert t[..] == before[j - 1 := s2];
      c1, c2 := cc1, cc2;
      j := j + 1;
    }
  }

  /** The odd-width tail: one merged row, divided by `B`. */
  method SingleRow(n: seq<Limb>, np: Limb, a: seq<Limb>, b: Limb, t: array<Limb>, ts: Limb)
    returns (ts': Limb, ghost m: Limb)
    requires 1 <= |n| <= |a| && |n| <= t.Length && IsNPrime(n[0], np)
    modifies t
    ensures Val(B, old(t[..]), |n|) + ts * Pow(B, |n|) + Val(B, a, |n|) * b + m * Val(B, n, |n|)
            == B * (Val(B, t[..], |n|) + ts' * Pow(B, |n|))
    ensures forall k :: |n| <= k < t.Length ==> t[k] == old(t[k])
  {
    var l := |n|;
    ghost var t0 := t[..];
    var (s0, c1) := Mac(t[0], a[0], b, 0);
    var mv := MulLow(s0, np);
    m := mv;
    var (z0, c2) := Mac(s0, mv, n[0], 0);
    RowCancels(s0, n[0], np);
    assert RowInv(t0, t0, a, n, 1, b, m, c1 + c2) by {
      assert Pow(B, 0) == 1 && Pow(B, 1) == B;
      assert Val(B, t0, 0) == 0 && Val(B, a, 0) == 0 && Val(B, n, 0) == 0;
    }
    c1, c2 := RowColumns(n, a, b, mv, t, c1, c2);
    ghost var t1: seq<Limb> := t[..];
    var sum := ts + c1 + c2;
    var top: Limb := sum % B;
    t[l - 1] := top;
    ts' := sum / B;
    ValAgree(B, t1, t[..], l - 1);
    RowTopAlgebra(Val(B, t0, l) + Val(B, a, l) * b + m * Val(B, n, l), Val(B, t1, l - 1), c1 + c2, ts, top, ts',
                  Pow(B, l - 1));
  }

  lemma RowTopAlgebra(z: int, o: int, c: int, ts: int, top: int, ts': int, p: int)
    requires z == B * o + c * (B * p)
    requires ts + c == top + B * ts'
    ensures z + ts * (B * p) == B * (o + top * p + ts' * (B * p))
  {
    assert p * (ts + c) == p * (top + B * ts');
  }

  // ------------------------------------------------- the final subtraction

  /**
   * `out` receives `(t, ts) mod n` for `(t, ts) < 2n`: the difference when it does not
   * borrow past `ts`, else `t` itself.
   */
  method MontFinalSub(n: seq<Limb>, t: seq<Limb>, ts: Limb, out: array<Limb>)
    requires |n| <= |t| && |n| <= out.Length
    requires Val(B, t, |n|) + ts * Pow(B, |n|) < 2 * Val(B, n, |n|)
    modifies out
    ensures var v := Val(B, t, |n|) + ts * Pow(B, |n|);
            var m := Val(B, n, |n|);
            Val(B, out[..], |n|) == if v >= m then v - m else v
    ensures forall k :: |n| <= k < out.Length ==> out[k] == old(out[k])
  {
    var l := |n|;
    var bo := SubtractInto(n, t, out);
    ghost var diff := out[..];
    var (_, borrow) := Sbb(ts, 0, bo);
    FinalBorrow(n, t, diff, ts, bo);
    if borrow == 1 {
      var j := 0;
      while j < l
        invariant 0 <= j <= l
        invariant forall k :: 0 <= k < j ==> out[k] == t[k]
        invariant forall k :: l <= k < out.Length ==> out[k] == old(out[k])
      {
        out[j] := t[j];
        j := j + 1;
      }
      ValAgree(B, t, out[..], l);
    }
  }

  /** The borrow out of the top limb decides the comparison with `n`. */
  lemma FinalBorrow(n: seq<Limb>, t: seq<Limb>, diff: seq<Limb>, ts: Limb, bo: Limb)
    requires |n| <= |t| && |n| <= |diff| && bo <= 1
    requires Val(B, diff, |n|) - bo * Pow(B, |n|) == Val(B, t, |n|) - Val(B, n, |n|)
    requires Val(B, t, |n|) + ts * Pow(B, |n|) < 2 * Val(B, n, |n|)
    ensures Val(B, t, |n|) + ts * Pow(B, |n|) >= Val(B, n, |n|) <==> ts >= bo
    ensures ts >= bo ==> ts == bo
    ensures ts < bo ==> ts == 0
  {
    ValBound(B, diff, |n|);
    ValBound(B, n, |n|);
    ValBound(B, t, |n|);
    FinalBorrowAlgebra(Val(B, t, |n|), Val(B, n, |n|), Val(B, diff, |n|), ts, bo, Pow(B, |n|));
  }

  lemma FinalBorrowAlgebra(t: int, n: int, d: int, ts: int, bo: int, p: int)
    requires 0 <= t < p && 0 <= n < p && 0 <= d < p && 0 <= bo <= 1 && ts >= 0
    requires d - bo * p == t - n && t + ts * p < 2 * n
    ensures t + ts * p >= n <==> ts >= bo
    ensures ts >= bo ==> ts == bo
    ensures ts < bo ==> ts == 0
  {
    if ts > bo { MulMono(bo + 1, ts, p); }
    if ts >= 2 { MulMono(2, ts, p); }
  }

  // ------------------------------------------------------------ the kernel

  /** `v` is the reduced Montgomery product: `v < n` and `v·r` is `x·y` modulo `n`. */
  ghost predicate IsMontProduct(v: int, x: int, y: int, n: int, r: int) {
    0 <= v < n && Cong(v * r, x * y, n)
  }

  /** The accumulator after `i` rows: `acc·B^i = a·b[..i] + m·n` with `m < B^i`. */
  ghost predicate AccInv(acc: int, a: int, b: seq<Limb>, n: int, i: nat, m: int)
    requires i <= |b|
  {
    acc * Pow(B, i) == a * Val(B, b, i) + m * n && 0 <= m < Pow(B, i)
  }

  lemma AccPair(acc: int, acc': int, a: int, b: seq<Limb>, n: int, i: nat, m: int, m0: Limb, m1: Limb)
    requires i + 2 <= |b|
    requires AccInv(acc, a, b, n, i, m)
    requires acc + a * b[i] + m0 * n + B * (a * b[i + 1] + m1 * n) == B * B * acc'
    ensures AccInv(acc', a, b, n, i + 2, m + m0 * Pow(B, i) + m1 * (B * Pow(B, i)))
  {
    var p := Pow(B, i);
    AccPairAlgebra(acc, acc', a, Val(B, b, i), b[i], b[i + 1], n, m, m0, m1, p);
    AccMultiplier(m, m0, m1, p);
  }

  lemma AccPairAlgebra(acc: int, acc': int, a: int, b: int, b0: int, b1: int, n: int, m: int, m0: int, m1: int, p: int)
    requires acc * p == a * b + m * n
    requires acc + a * b0 + m0 * n + B * (a * b1 + m1 * n) == B * B * acc'
    ensures acc' * (B * (B * p)) == a * (b + b0 * p + b1 * (B * p)) + (m + m0 * p + m1 * (B * p)) * n
  {
    assert p * (acc + a * b0 + m0 * n + B * (a * b1 + m1 * n)) == p * (B * B * acc');
  }

  lemma AccMultiplier(m: int, m0: Limb, m1: Limb, p: int)
    requires 0 <= m < p
    ensures 0 <= m + m0 * p < B * p
    ensures 0 <= m + m0 * p + m1 * (B * p) < B * (B * p)
  {
    MulMono(0, m0, p);
    MulMono(m0 + 1, B, p);
    MulMono(0, m1, B * p);
    MulMono(m1 + 1, B, B * p);
  }

  lemma AccSingle(acc: int, acc': int, a: int, b: seq<Limb>, n: int, i: nat, m: int, m0: Limb)
    requires i + 1 <= |b|
    requires AccInv(acc, a, b, n, i, m)
    requires acc + a * b[i] + m0 * n == B * acc'
    ensures AccInv(acc', a, b, n, i + 1, m + m0 * Pow(B, i))
  {
    var p := Pow(B, i);
    AccSingleAlgebra(acc, acc', a, Val(B, b, i), b[i], n, m, m0, p);
    AccMultiplier(m, m0, 0, p);
  }

  lemma AccSingleAlgebra(acc: int, acc': int, a: int, b: int, b0: int, n: int, m: int, m0: int, p: int)
    requires acc * p == a * b + m * n
    requires acc + a * b0 + m0 * n == B * acc'
    ensures acc' * (B * p) == a * (b + b0 * p) + (m + m0 * p) * n
  {
    assert p * (acc + a * b0 + m0 * n) == p * (B * acc');
  }

  /** After every row the accumulator is below `a + n`, so its top limb is at most 1. */
  lemma AccBound(t: seq<Limb>, ts: Limb, a: seq<Limb>, b: seq<Limb>, n: seq<Limb>, i: nat, m: int)
    requires |n| <= |t| && |n| <= |a| && i <= |b| && Val(B, n, |n|) > 0
    requires AccInv(Val(B, t, |n|) + ts * Pow(B, |n|), Val(B, a, |n|), b, Val(B, n, |n|), i, m)
    ensures Val(B, t, |n|) + ts * Pow(B, |n|) < Val(B, a, |n|) + Val(B, n, |n|)
    ensures ts <= 1
  {
    var acc := Val(B, t, |n|) + ts * Pow(B, |n|);
    ValBound(B, a, |n|);
    ValBound(B, b, i);
    ValBound(B, n, |n|);
    ValBound(B, t, |n|);
    AccBoundAlgebra(acc, Val(B, a, |n|), Val(B, b, i), Val(B, n, |n|), m, Pow(B, i));
    if ts >= 2 { MulMono(2, ts, Pow(B, |n|)); }
  }

  lemma AccBoundAlgebra(acc: int, a: int, b: int, n: int, m: int, p: int)
    requires acc * p == a * b + m * n && 0 <= a && 0 < n && 0 <= b < p && 0 <= m < p
    ensures acc < a + n
  {
    MulMono(b, p - 1, a);
    MulMono(m, p - 1, n);
    assert a * (p - 1) + n * (p - 1) == (a + n) * p - (a + n);
    MulCancelLess(acc, a + n, p);
  }

  /** With one operand at most `n` (and both below `r`) the full accumulator is below `2n`. */
  lemma AccFinal(acc: int, a: int, b: int, n: int, m: int, r: int)
    requires acc * r == a * b + m * n && 0 <= a < r && 0 <= b < r && 0 < n && 0 <= m < r
    requires a <= n || b <= n
    ensures acc < 2 * n
  {
    if a <= n { ProductBelow(a, b, n, r); } else { ProductBelow(b, a, n, r); }
    MulMono(m, r - 1, n);
    assert acc * r < (2 * n) * r by { assert (r - 1) * n + (r - 1) * n == (2 * n) * r - 2 * n; }
    MulCancelLess(acc, 2 * n, r);
  }

  lemma ProductBelow(a: int, b: int, n: int, r: int)
    requires 0 <= a <= n && 0 <= b < r
    ensures a * b <= (r - 1) * n && b * a <= (r - 1) * n
  {
    MulMono(a, n, b);
    MulMono(b, r - 1, n);
  }

  /** The rows of the kernel: `t` and the returned top limb accumulate `a·b/R` modulo `n`. */
  method Rows(n: seq<Limb>, np: Limb, a: seq<Limb>, b: seq<Limb>, t: array<Limb>) returns (ts: Limb, ghost m: int)
    requires 1 <= |n| <= |a| && |n| <= |b| && |n| <= t.Length
    requires IsNPrime(n[0], np) && Val(B, n, |n|) > 0
    modifies t
    ensures AccInv(Val(B, t[..], |n|) + ts * Pow(B, |n|), Val(B, a, |n|), b, Val(B, n, |n|), |n|, m)
    ensures Val(B, t[..], |n|) + ts * Pow(B, |n|) < Val(B, a, |n|) + Val(B, n, |n|) && ts <= 1
    ensures forall k :: |n| <= k < t.Length ==> t[k] == old(t[k])
  {
    var l := |n|;
    ClearPrefix(t, l);
    ValZeroTail(B, t[..], 0, l);
    ts, m := 0, 0;
    var i := 0;
    while i + 1 < l
      invariant 0 <= i <= l
      invariant AccInv(Val(B, t[..], l) + ts * Pow(B, l), Val(B, a, l), b, Val(B, n, l), i, m)
      invariant ts <= 1
      invariant forall k :: l <= k < t.Length ==> t[k] == old(t[k])
    {
      ghost var acc := Val(B, t[..], l) + ts * Pow(B, l);
      ghost var m0: Limb, m1: Limb;
      ts, m0, m1 := PairPass(n, np, a, b[i], b[i + 1], t, ts);
      AccPair(acc, Val(B, t[..], l) + ts * Pow(B, l), Val(B, a, l), b, Val(B, n, l), i, m, m0, m1);
      m := m + m0 * Pow(B, i) + m1 * (B * Pow(B, i));
      i := i + 2;
      AccBound(t[..], ts, a, b, n, i, m);
    }
    if i < l {
      ghost var acc := Val(B, t[..], l) + ts * Pow(B, l);
      ghost var m0: Limb;
      ts, m0 := SingleRow(n, np, a, b[i], t, ts);
      AccSingle(acc, Val(B, t[..], l) + ts * Pow(B, l), Val(B, a, l), b, Val(B, n, l), i, m, m0);
      m := m + m0 * Pow(B, i);
    }
    AccBound(t[..], ts, a, b, n, l, m);
  }

  method ClearPrefix(t: array<Limb>, l: nat)
    requires l <= t.Length
    modifies t
    ensures forall k :: 0 <= k < l ==> t[k] == 0
    ensures forall k :: l <= k < t.Length ==> t[k] == old(t[k])
  {
    var j := 0;
    while j < l
      invariant 0 <= j <= l
      invariant forall k :: 0 <= k < j ==> t[k] == 0
      invariant forall k :: l <= k < t.Length ==> t[k] == old(t[k])
    {
      t[j] := 0;
      j := j + 1;
    }
  }

  /**
   * `out` receives `a·b/R mod n`, `R = B^|n|`, fully reduced, for any odd or even width and
   * operands below `R` of which one is at most `n`.
   */
  method MontMulKernel(n: seq<Limb>, np: Limb, a: seq<Limb>, b: seq<Limb>, t: array<Limb>, out: array<Limb>)
    requires 1 <= |n| <= |a| && |n| <= |b| && |n| <= t.Length && |n| <= out.Length && t != out
    requires IsNPrime(n[0], np) && Val(B, n, |n|) > 0
    requires Val(B, a, |n|) <= Val(B, n, |n|) || Val(B, b, |n|) <= Val(B, n, |n|)
    modifies t, out
    ensures IsMontProduct(Val(B, out[..], |n|), Val(B, a, |n|), Val(B, b, |n|), Val(B, n, |n|), Pow(B, |n|))
    ensures forall k :: |n| <= k < out.Length ==> out[k] == old(out[k])
  {
    ghost var x, y, v, r := Val(B, a, |n|), Val(B, b, |n|), Val(B, n, |n|), Pow(B, |n|);
    ghost var m: int;
    var ts: Limb;
    ts, m := Rows(n, np, a, b, t);
    ghost var acc := Val(B, t[..], |n|) + ts * r;
    ValBound(B, a, |n|);
    ValBound(B, b, |n|);
    ValBound(B, t[..], |n|);
    MulNonNegative(ts, r);
    AccFinal(acc, x, y, v, m, r);
    CongBy(acc * r, x * y, v, m);
    MontFinalSub(n, t[..], ts, out);
    ReducedProduct(acc, Val(B, out[..], |n|), x, y, v, r);
  }

  lemma ReducedProduct(acc: int, o: int, x: int, y: int, n: int, r: int)
    requires 0 <= acc < 2 * n && Cong(acc * r, x * y, n)
    requires o == if acc >= n then acc - n else acc
    ensures IsMontProduct(o, x, y, n, r)
  {
    if acc >= n {
      assert o * r == acc * r + (-r) * n;
      CongBy(o * r, acc * r, n, -r);
      CongTrans(o * r, acc * r, x * y, n);
    }
  }
}
