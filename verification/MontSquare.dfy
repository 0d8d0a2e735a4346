/** The Montgomery squaring kernel: doubled triangle, diagonal, and a paired reduction pass. */
module MontSquare {
  import opened Arith
  import opened Limbs
  import opened LimbOps
  import opened MontKernel

  // ------------------------------------------------------ the square as a sum

  /** Off-diagonal rows `0 .. i - 1` of the square of the first `l` limbs of `a`. */
  function Triangle(a: seq<Limb>, l: nat, i: nat): int
    requires i <= l <= |a|
  {
    if i == 0 then 0
    else Triangle(a, l, i - 1) + a[i - 1] * Pow(B, i - 1) * (Val(B, a, l) - Val(B, a, i))
  }

  /** The diagonal squares `0 .. i - 1`. */
  function Diagonal(a: seq<Limb>, i: nat): int
    requires i <= |a|
  {
    if i == 0 then 0
    else Diagonal(a, i - 1) + (a[i - 1] * a[i - 1]) * (Pow(B, i - 1) * Pow(B, i - 1))
  }

  lemma {:induction false} SquareSplit(a: seq<Limb>, l: nat, i: nat)
    requires i <= l <= |a|
    ensures 2 * Triangle(a, l, i) + Diagonal(a, i)
            == 2 * Val(B, a, i) * Val(B, a, l) - Val(B, a, i) * Val(B, a, i)
  {
    if i > 0 {
      SquareSplit(a, l, i - 1);
      SquareSplitAlgebra(Triangle(a, l, i - 1), Diagonal(a, i - 1), Val(B, a, i - 1), Val(B, a, l), a[i - 1],
                         Pow(B, i - 1));
    }
  }

  lemma SquareSplitAlgebra(t: int, d: int, v: int, w: int, x: int, p: int)
    requires 2 * t + d == 2 * v * w - v * v
    ensures 2 * (t + x * p * (w - (v + x * p))) + (d + (x * x) * (p * p))
            == 2 * (v + x * p) * w - (v + x * p) * (v + x * p)
  {
    var y := x * p;
    assert y * y == (x * x) * (p * p);
    assert 2 * (y * (w - (v + y))) + y * y == 2 * y * w - 2 * v * y - y * y;
    assert (v + y) * (v + y) == v * v + 2 * v * y + y * y;
    assert 2 * (v + y) * w == 2 * v * w + 2 * y * w;
  }

  /** `a^2` is twice the triangle plus the diagonal, and all three fit `2l` limbs. */
  lemma SquareIsTriangleAndDiagonal(a: seq<Limb>, l: nat)
    requires l <= |a|
    ensures Val(B, a, l) * Val(B, a, l) == 2 * Triangle(a, l, l) + Diagonal(a, l)
    ensures 0 <= Triangle(a, l, l) && 0 <= Diagonal(a, l)
    ensures Val(B, a, l) * Val(B, a, l) < Pow(B, 2 * l)
  {
    SquareSplit(a, l, l);
    TriangleNonNegative(a, l, l);
    DiagonalNonNegative(a, l);
    ValBound(B, a, l);
    PowAdd(B, l, l);
    var v, p := Val(B, a, l), Pow(B, l);
    assert 2 * v * v - v * v == v * v;
    MulMono(v, p, v);
    MulStrict(v, p, p);
  }

  lemma {:induction false} TriangleNonNegative(a: seq<Limb>, l: nat, i: nat)
    requires i <= l <= |a|
    ensures 0 <= Triangle(a, l, i)
  {
    if i > 0 {
      TriangleNonNegative(a, l, i - 1);
      ValMonotone(a, i, l);
      PowPositive(B, i - 1);
      MulNonNegative(a[i - 1], Pow(B, i - 1));
      MulNonNegative(a[i - 1] * Pow(B, i - 1), Val(B, a, l) - Val(B, a, i));
    }
  }

  lemma {:induction false} DiagonalNonNegative(a: seq<Limb>, i: nat)
    requires i <= |a|
    ensures 0 <= Diagonal(a, i)
  {
    if i > 0 {
      DiagonalNonNegative(a, i - 1);
      PowPositive(B, i - 1);
      SquareTerm(a[i - 1], Pow(B, i - 1));
    }
  }

  lemma SquareTerm(x: int, p: int)
    requires x >= 0 && p >= 0
    ensures (x * x) * (p * p) >= 0
  {
    MulNonNegative(x * x, p * p);
  }

  lemma {:induction false} ValMonotone(s: seq<Limb>, j: nat, k: nat)
    requires j <= k <= |s|
    ensures Val(B, s, j) <= Val(B, s, k)
  {
    if j < k {
      ValMonotone(s, j, k - 1);
      PowPositive(B, k - 1);
      MulNonNegative(s[k - 1], Pow(B, k - 1));
    }
  }

  // -------------------------------------------------- phase 1: the triangle

  /** Rows `i` and `i + 1` of the triangle added up to column `i + j - 1`. */
  ghost predicate TriInv(p0: seq<Limb>, p: seq<Limb>, a: seq<Limb>, i: nat, j: nat, c: int)
    requires i + 3 <= j <= |a| && i + j <= |p0| && |p| == |p0|
  {
    Val(B, p, i + j) + c * (Pow(B, i) * Pow(B, j))
    == Val(B, p0, i + j) + a[i] * Pow(B, i) * (Val(B, a, j) - Val(B, a, i + 1))
       + a[i + 1] * (B * Pow(B, i)) * (Val(B, a, j - 1) - Val(B, a, i + 2))
  }

  lemma TriColumn(v0: int, v1: int, ai: int, ai1: int, x: int, y: int, pi: int, pj1: int,
                  c: int, pk: int, aj: int, aj1: int, u: int, c': int)
    requires v1 + c * (pi * (B * pj1)) == v0 + ai * pi * x + ai1 * (B * pi) * y
    requires pk + ai * aj + ai1 * aj1 + c == u + B * c'
    ensures var q := pi * (B * pj1);
            (v1 + u * q) + c' * (pi * (B * (B * pj1)))
            == (v0 + pk * q) + ai * pi * (x + aj * (B * pj1)) + ai1 * (B * pi) * (y + aj1 * pj1)
  {
    var q := pi * (B * pj1);
    assert q * (pk + ai * aj + ai1 * aj1 + c) == q * (u + B * c');
  }

  lemma TriExtend(p0: seq<Limb>, p: seq<Limb>, a: seq<Limb>, i: nat, j: nat, c: int, u: Limb, c': int)
    requires i + 3 <= j < |a| && i + j < |p0| && |p| == |p0|
    requires TriInv(p0, p, a, i, j, c)
    requires p0[i + j] + a[i] * a[j] + a[i + 1] * a[j - 1] + c == u + B * c'
    ensures TriInv(p0, p[i + j := u], a, i, j + 1, c')
  {
    ValAgree(B, p, p[i + j := u], i + j);
    PowAdd(B, i, j);
    TriColumn(Val(B, p0, i + j), Val(B, p, i + j), a[i], a[i + 1], Val(B, a, j) - Val(B, a, i + 1),
              Val(B, a, j - 1) - Val(B, a, i + 2), Pow(B, i), Pow(B, j - 1), c, p0[i + j], a[j], a[j - 1], u, c');
  }

  /** Columns `i + 3 ..` of a pair of triangle rows, row `i` one column ahead. */
  method TriColumns(a: seq<Limb>, p: array<Limb>, i: nat, c0in: Limb, ghost p0: seq<Limb>) returns (c0: Limb, c1: Limb)
    requires i + 3 <= |a| && 2 * |a| <= p.Length == |p0|
    requires TriInv(p0, p[..], a, i, i + 3, c0in)
    requires forall k :: 2 * i + 3 <= k < p.Length ==> p[k] == p0[k]
    modifies p
    ensures TriInv(p0, p[..], a, i, |a|, c0 + c1)
    ensures forall k :: i + |a| <= k < p.Length ==> p[k] == p0[k]
  {
    c0, c1 := c0in, 0;
    for j := i + 3 to |a|
      invariant forall k :: i + j <= k < p.Length ==> p[k] == p0[k]
      invariant TriInv(p0, p[..], a, i, j, c0 + c1)
    {
      var (s, cc0) := Mac(p[i + j], a[i], a[j], c0);
      var (s2, cc1) := Mac(s, a[i + 1], a[j - 1], c1);
      TriExtend(p0, p[..], a, i, j, c0 + c1, s2, cc0 + cc1);
      ghost var before: seq<Limb> := p[..];
      p[i + j] := s2;
      assert p[..] == before[i + j := s2];
      c0, c1 := cc0, cc1;
    }
  }

  /** The two columns only row `i` reaches. */
  lemma TriStart(p0: seq<Limb>, a: seq<Limb>, i: nat, s1: Limb, e: int, s2: Limb, c0: int)
    requires i + 3 <= |a| && 2 * i + 3 <= |p0|
    requires s1 + B * e == (p0[2 * i + 1] as int) + (a[i] as int) * a[i + 1]
    requires s2 + B * c0 == p0[2 * i + 2] + a[i] * a[i + 2] + e
    ensures TriInv(p0, p0[2 * i + 1 := s1][2 * i + 2 := s2], a, i, i + 3, c0)
  {
    var p := p0[2 * i + 1 := s1][2 * i + 2 := s2];
    ValAgree(B, p0, p, 2 * i + 1);
    PowAdd(B, i, i + 1);
    var q := Pow(B, i);
    assert Pow(B, 2 * i + 2) == B * Pow(B, 2 * i + 1);
    assert Val(B, p, 2 * i + 3) == Val(B, p, 2 * i + 2) + s2 * Pow(B, 2 * i + 2);
    assert Val(B, p0, 2 * i + 3) == Val(B, p0, 2 * i + 2) + p0[2 * i + 2] * Pow(B, 2 * i + 2);
    TriStartAlgebra(Val(B, p0, 2 * i + 1), a[i], a[i + 1], a[i + 2], p0[2 * i + 1], p0[2 * i + 2], s1, s2, e, c0, q);
    assert Val(B, a, i + 3) - Val(B, a, i + 1) == a[i + 1] * (B * q) + a[i + 2] * (B * (B * q)) by {
      assert Val(B, a, i + 3) == Val(B, a, i + 2) + a[i + 2] * Pow(B, i + 2);
      assert Val(B, a, i + 2) == Val(B, a, i + 1) + a[i + 1] * Pow(B, i + 1);
    }
    assert Pow(B, i + 3) == B * (B * (B * q)) by { assert Pow(B, i + 2) == B * Pow(B, i + 1); }
  }

  lemma TriStartAlgebra(v: int, ai: int, ai1: int, ai2: int, x1: int, x2: int, s1: int, s2: int, e: int, c0: int,
                        q: int)
    requires s1 + B * e == x1 + ai * ai1
    requires s2 + B * c0 == x2 + ai * ai2 + e
    ensures var w := q * (B * q);
            (v + s1 * w + s2 * (B * w)) + c0 * (q * (B * (B * (B * q))))
            == (v + x1 * w + x2 * (B * w)) + ai * q * (ai1 * (B * q) + ai2 * (B * (B * q)))
  {
    var w := q * (B * q);
    assert w * (s1 + B * e) == w * (x1 + ai * ai1);
    assert (B * w) * (s2 + B * c0) == (B * w) * (x2 + ai * ai2 + e);
    assert ai * q * (ai1 * (B * q)) == w * (ai * ai1);
    assert ai * q * (ai2 * (B * (B * q))) == (B * w) * (ai * ai2);
  }

  /** Row `i + 1`'s last product lands on row `i`'s carry column, which was still zero. */
  lemma TriTop(p0: seq<Limb>, p: seq<Limb>, a: seq<Limb>, i: nat, c: int, u: Limb, c': Limb)
    requires i + 3 <= |a| && |p0| == |p| >= 2 * |a|
    requires TriInv(p0, p, a, i, |a|, c)
    requires forall k :: i + |a| <= k < 2 * |a| ==> p[k] == p0[k] == 0
    requires a[i + 1] * a[|a| - 1] + c == u + B * c'
    ensures var p' := p[i + |a| := u][i + |a| + 1 := c'];
            Val(B, p', 2 * |a|) == Val(B, p0, 2 * |a|) + a[i] * Pow(B, i) * (Val(B, a, |a|) - Val(B, a, i + 1))
                               + a[i + 1] * (B * Pow(B, i)) * (Val(B, a, |a|) - Val(B, a, i + 2))
  {
    var l := |a|;
    var p' := p[i + l := u][i + l + 1 := c'];
    ValAgree(B, p, p', i + l);
    ValZeroTail(B, p', i + l + 2, 2 * l);
    ValZeroTail(B, p0, i + l, 2 * l);
    PowAdd(B, i, l);
    assert Val(B, p', i + l + 2) == Val(B, p', i + l + 1) + c' * Pow(B, i + l + 1);
    assert Val(B, p', i + l + 1) == Val(B, p', i + l) + u * Pow(B, i + l);
    TriTopAlgebra(Val(B, p0, i + l), Val(B, p, i + l), a[i], a[i + 1], Val(B, a, l) - Val(B, a, i + 1),
                  Val(B, a, l - 1) - Val(B, a, i + 2), Pow(B, i), Pow(B, l - 1), c, a[l - 1], u, c');
  }

  lemma TriTopAlgebra(v0: int, v1: int, ai: int, ai1: int, x: int, y: int, pi: int, pl1: int,
                      c: int, z: int, u: int, c': int)
    requires v1 + c * (pi * (B * pl1)) == v0 + ai * pi * x + ai1 * (B * pi) * y
    requires ai1 * z + c == u + B * c'
    ensures var q := pi * (B * pl1);
            v1 + u * q + c' * (B * q) == v0 + ai * pi * x + ai1 * (B * pi) * (y + z * pl1)
  {
    var q := pi * (B * pl1);
    assert q * (ai1 * z + c) == q * (u + B * c');
  }

  /** A pair whose second row is empty (`l = i + 2`): one product and its carry. */
  lemma TriLastPair(p0: seq<Limb>, a: seq<Limb>, i: nat, u: Limb, c: Limb)
    requires i + 2 == |a| && |p0| >= 2 * |a|
    requires forall k :: i + |a| <= k < 2 * |a| ==> p0[k] == 0
    requires u + B * c == (p0[2 * i + 1] as int) + (a[i] as int) * a[i + 1]
    ensures Val(B, p0[2 * i + 1 := u][i + |a| := c], 2 * |a|)
            == Val(B, p0, 2 * |a|) + a[i] * Pow(B, i) * (Val(B, a, |a|) - Val(B, a, i + 1))
  {
    var l := |a|;
    var p' := p0[2 * i + 1 := u][i + l := c];
    ValAgree(B, p0, p', 2 * i + 1);
    ValZeroTail(B, p', 2 * i + 3, 2 * l);
    ValZeroTail(B, p0, 2 * i + 2, 2 * l);
    PowAdd(B, i, i + 1);
    assert Val(B, p', 2 * i + 3) == Val(B, p', 2 * i + 2) + c * Pow(B, 2 * i + 2);
    assert Val(B, a, l) - Val(B, a, i + 1) == a[i + 1] * Pow(B, i + 1);
    TriLastAlgebra(Val(B, p0, 2 * i + 1), a[i], a[i + 1], p0[2 * i + 1], u, c, Pow(B, i));
  }

  lemma TriLastAlgebra(v: int, ai: int, ai1: int, x: int, u: int, c: int, q: int)
    requires u + B * c == x + ai * ai1
    ensures var w := q * (B * q);
            v + u * w + c * (B * w) == (v + x * w) + ai * q * (ai1 * (B * q))
  {
    var w := q * (B * q);
    assert w * (u + B * c) == w * (x + ai * ai1);
    assert ai * q * (ai1 * (B * q)) == w * (ai * ai1);
  }

  /** Rows `i` and `i + 1` of the triangle added into `p`. */
  method TrianglePair(a: seq<Limb>, p: array<Limb>, i: nat)
    requires i + 2 <= |a| && 2 * |a| <= p.Length
    requires forall k :: i + |a| <= k < 2 * |a| ==> p[k] == 0
    requires Val(B, p[..], 2 * |a|) == Triangle(a, |a|, i)
    modifies p
    ensures Val(B, p[..], 2 * |a|) == Triangle(a, |a|, i + 2)
    ensures forall k :: i + 2 + |a| <= k < 2 * |a| ==> p[k] == 0
  {
    var l := |a|;
    ghost var p0: seq<Limb> := p[..];
    assert Triangle(a, l, i + 2) == Triangle(a, l, i + 1)
           + a[i + 1] * Pow(B, i + 1) * (Val(B, a, l) - Val(B, a, i + 2));
    var (s, c0) := Mac(p[2 * i + 1], a[i], a[i + 1], 0);
    p[2 * i + 1] := s;
    ghost var p1: seq<Limb> := p0[2 * i + 1 := s];
    assert p[..] == p1;
    if i + 3 <= l {
      var (s', cc0) := Mac(p[2 * i + 2], a[i], a[i + 2], c0);
      p[2 * i + 2] := s';
      assert p[..] == p1[2 * i + 2 := s'];
      TriStart(p0, a, i, s, c0, s', cc0);
      var c1: Limb;
      c0, c1 := TriColumns(a, p, i, cc0, p0);
      ghost var p2: seq<Limb> := p[..];
      var (s2, cc1) := Mac(c0, a[i + 1], a[l - 1], c1);
      p[i + l] := s2;
      p[i + l + 1] := cc1;
      ghost var p3: seq<Limb> := p2[i + l := s2];
      assert p[..] == p3[i + l + 1 := cc1];
      TriTop(p0, p2, a, i, c0 + c1, s2, cc1);
    } else {
      p[i + l] := c0;
      assert p[..] == p1[i + l := c0];
      TriLastPair(p0, a, i, s, c0);
      assert Val(B, a, l) - Val(B, a, i + 2) == 0;
    }
  }

  /** Phase 1: `p` receives every product `a[i]·a[j]`, `i < j`, once. */
  method FormTriangle(a: seq<Limb>, p: array<Limb>)
    requires 2 * |a| <= p.Length
    modifies p
    ensures Val(B, p[..], 2 * |a|) == Triangle(a, |a|, |a|)
  {
    ClearPrefix(p, 2 * |a|);
    ValZeroTail(B, p[..], 0, 2 * |a|);
    var i := 0;
    while i + 1 < |a|
      invariant 0 <= i <= |a|
      invariant forall k :: i + |a| <= k < 2 * |a| ==> p[k] == 0
      invariant Val(B, p[..], 2 * |a|) == Triangle(a, |a|, i)
    {
      TrianglePair(a, p, i);
      i := i + 2;
    }
    if i < |a| {
      assert Val(B, a, |a|) - Val(B, a, i + 1) == 0;
    }
  }

  // ------------------------------------------- phases 2 and 3: the full square

  /** Phase 3: the diagonal squares, the odd position's carry riding into the next even one. */
  method AddDiagonal(a: seq<Limb>, p: array<Limb>) returns (carry: Limb)
    requires 2 * |a| <= p.Length
    modifies p
    ensures Val(B, p[..], 2 * |a|) + carry * Pow(B, 2 * |a|) == Val(B, old(p[..]), 2 * |a|) + Diagonal(a, |a|)
  {
    ghost var p0 := p[..];
    carry := 0;
    for i := 0 to |a|
      invariant Val(B, p[..], 2 * i) + carry * Pow(B, 2 * i) == Val(B, p0, 2 * i) + Diagonal(a, i)
      invariant forall k :: 2 * i <= k < p.Length ==> p[k] == p0[k]
    {
      ghost var before := p[..];
      var (s, c) := Mac(p[2 * i], a[i], a[i], carry);
      p[2 * i] := s;
      var (s2, c2) := Adc(p[2 * i + 1], c, 0);
      p[2 * i + 1] := s2;
      ValAgree(B, before, p[..], 2 * i);
      PowAdd(B, i, i);
      DiagonalStep(before, p[..], p0, a, i, carry, c, c2);
      carry := c2;
    }
  }

  lemma DiagonalStep(before: seq<Limb>, p: seq<Limb>, p0: seq<Limb>, a: seq<Limb>, i: nat, carry: Limb, c: Limb,
                     c2: Limb)
    requires 2 * i + 2 <= |before| == |p| == |p0| && i < |a|
    requires Val(B, before, 2 * i) + carry * Pow(B, 2 * i) == Val(B, p0, 2 * i) + Diagonal(a, i)
    requires Val(B, before, 2 * i) == Val(B, p, 2 * i) && Pow(B, 2 * i) == Pow(B, i) * Pow(B, i)
    requires p[2 * i] + B * c == (p0[2 * i] as int) + (a[i] as int) * a[i] + carry
    requires p[2 * i + 1] + B * c2 == (p0[2 * i + 1] as int) + c
    ensures Val(B, p, 2 * i + 2) + c2 * Pow(B, 2 * i + 2) == Val(B, p0, 2 * i + 2) + Diagonal(a, i + 1)
  {
    assert Pow(B, 2 * i + 2) == B * Pow(B, 2 * i + 1);
    assert Val(B, p, 2 * i + 2) == Val(B, p, 2 * i + 1) + p[2 * i + 1] * Pow(B, 2 * i + 1);
    assert Val(B, p0, 2 * i + 2) == Val(B, p0, 2 * i + 1) + p0[2 * i + 1] * Pow(B, 2 * i + 1);
    var x: int := a[i];
    DiagonalAlgebra(Val(B, p, 2 * i), Val(B, p0, 2 * i) + Diagonal(a, i), carry, Pow(B, 2 * i), p[2 * i], c, p0[2 * i],
                    x * x, p[2 * i + 1], c2, p0[2 * i + 1]);
  }

  lemma DiagonalAlgebra(o: int, x: int, carry: int, q: int, s: int, c: int, y: int, sq: int, s2: int, c2: int, z: int)
    requires o + carry * q == x
    requires s + B * c == y + sq + carry && s2 + B * c2 == z + c
    ensures (o + s * q + s2 * (B * q)) + c2 * (B * (B * q)) == x + sq * q + y * q + z * (B * q)
  {
    assert q * (s + B * c) == q * (y + sq + carry);
    assert (B * q) * (s2 + B * c2) == (B * q) * (z + c);
  }

  /** Phases 1 to 3: `p` holds exactly `a^2`; neither the doubling nor the diagonal drops a carry. */
  method FormSquare(a: seq<Limb>, p: array<Limb>)
    requires 2 * |a| <= p.Length
    modifies p
    ensures Val(B, p[..], 2 * |a|) == Val(B, a, |a|) * Val(B, a, |a|)
  {
    FormTriangle(a, p);
    SquareIsTriangleAndDiagonal(a, |a|);
    ghost var r := Pow(B, 2 * |a|);
    var shifted := ShlOne(p, 2 * |a|, 0);
    ValBound(B, p[..], 2 * |a|);
    NoCarry(Val(B, p[..], 2 * |a|), shifted, r);
    ghost var doubled := Val(B, p[..], 2 * |a|);
    assert doubled == 2 * Triangle(a, |a|, |a|);
    var carry := AddDiagonal(a, p);
    ValBound(B, p[..], 2 * |a|);
    NoCarry(Val(B, p[..], 2 * |a|), carry, r);
  }

  /** A total below `r` leaves no carry above `r`. */
  lemma NoCarry(v: int, c: int, r: int)
    requires 0 <= v < r && c >= 0 && v + c * r < r
    ensures c == 0
  {
    if c >= 1 { MulMono(1, c, r); }
  }

  // ------------------------------------------------- phase 4: the reduction

  /** Two reduction rows over `q`, added up to column `j - 1`, the low two limbs cancelled. */
  ghost predicate SosInv(q0: seq<Limb>, q: seq<Limb>, n: seq<Limb>, j: nat, m0: int, m1: int, c: int)
    requires 2 <= j <= |n| && j <= |q0| && |q| == |q0|
  {
    Val(B, q, j) - Val(B, q, 2) + c * Pow(B, j) == Val(B, q0, j) + m0 * Val(B, n, j) + B * (m1 * Val(B, n, j - 1))
  }

  lemma SosStart(q: seq<Limb>, n: seq<Limb>, m0: int, m1: int, e: int, s: int, c0: int, c1: int)
    requires |q| >= 2 && |n| >= 2
    requires q[0] + m0 * n[0] == B * e && s + B * c0 == q[1] + m0 * n[1] + e && s + m1 * n[0] == B * c1
    ensures SosInv(q, q, n, 2, m0, m1, c0 + c1)
  {
    assert Pow(B, 1) == B && Pow(B, 2) == B * B by { assert Pow(B, 0) == 1; }
    assert Val(B, q, 1) == q[0] && Val(B, q, 2) == q[0] + q[1] * B by { assert Val(B, q, 0) == 0; }
    assert Val(B, n, 1) == n[0] && Val(B, n, 2) == n[0] + n[1] * B by { assert Val(B, n, 0) == 0; }
  }

  lemma SosExtend(q0: seq<Limb>, q: seq<Limb>, n: seq<Limb>, j: nat, m0: int, m1: int, c: int, u: Limb, c': int)
    requires 2 <= j < |n| && j < |q0| && |q| == |q0|
    requires SosInv(q0, q, n, j, m0, m1, c)
    requires q0[j] + m0 * n[j] + m1 * n[j - 1] + c == u + B * c'
    ensures SosInv(q0, q[j := u], n, j + 1, m0, m1, c')
  {
    ValAgree(B, q, q[j := u], j);
    ValAgree(B, q, q[j := u], 2);
    SosColumn(Val(B, q, j), Val(B, q, 2), Val(B, q0, j), Val(B, n, j), Val(B, n, j - 1), m0, m1, c, Pow(B, j - 1),
              q0[j], n[j], n[j - 1], u, c');
  }

  lemma SosColumn(v: int, v2: int, v0: int, n: int, n1: int, m0: int, m1: int, c: int, p1: int,
                  x: int, nj: int, nj1: int, u: int, c': int)
    requires v - v2 + c * (B * p1) == v0 + m0 * n + B * (m1 * n1)
    requires x + m0 * nj + m1 * nj1 + c == u + B * c'
    ensures var p := B * p1;
            (v + u * p) - v2 + c' * (B * p) == (v0 + x * p) + m0 * (n + nj * p) + B * (m1 * (n1 + nj1 * p1))
  {
    var p := B * p1;
    assert p * (x + m0 * nj + m1 * nj1 + c) == p * (u + B * c');
  }

  /** Columns `2 .. l - 1` of two reduction rows. */
  method SosColumns(n: seq<Limb>, p: array<Limb>, i: nat, m0: Limb, m1: Limb, c0in: Limb, c1in: Limb)
    returns (c0: Limb, c1: Limb)
    requires 2 <= |n| && i + |n| <= p.Length
    requires SosInv(p[i..], p[i..], n, 2, m0, m1, c0in + c1in)
    modifies p
    ensures SosInv(old(p[i..]), p[i..], n, |n|, m0, m1, c0 + c1)
    ensures forall k :: i + |n| <= k < p.Length ==> p[k] == old(p[k])
  {
    ghost var q0: seq<Limb> := p[i..];
    c0, c1 := c0in, c1in;
    for j := 2 to |n|
      invariant forall k :: i + j <= k < p.Length ==> p[k] == old(p[k])
      invariant SosInv(q0, p[i..], n, j, m0, m1, c0 + c1)
    {
      assert q0[j] == p[i + j];
      var (s, cc0) := Mac(p[i + j], m0, n[j], c0);
      var (s2, cc1) := Mac(s, m1, n[j - 1], c1);
      ghost var before: seq<Limb> := p[i..];
      SosExtend(q0, before, n, j, m0, m1, c0 + c1, s2, cc0 + cc1);
      p[i + j] := s2;
      assert p[i..] == before[j := s2];
      c0, c1 := cc0, cc1;
    }
  }

  /** The top of a reduction pair: the riding carry enters at limb `l` and leaves at limb `l + 2`. */
  lemma SosTop(q0: seq<Limb>, q: seq<Limb>, n: seq<Limb>, m0: int, m1: int, c: int, hi: int, s2: Limb, s3: Limb,
               hi': int)
    requires 2 <= |n| && |n| + 2 <= |q0| == |q|
    requires SosInv(q0, q, n, |n|, m0, m1, c)
    requires forall k :: |n| <= k < |q| ==> q[k] == q0[k]
    requires q0[|n|] + c + hi + m1 * n[|n| - 1] + B * q0[|n| + 1] == s2 + B * s3 + B * (B * hi')
    ensures var q' := q[|n| := s2][|n| + 1 := s3];
            B * B * (Val(B, q'[2..], |q| - 2) + hi' * Pow(B, |n|))
            == Val(B, q0, |q|) + hi * Pow(B, |n|) + m0 * Val(B, n, |n|) + B * (m1 * Val(B, n, |n|))
  {
    var l := |n|;
    var q' := q[l := s2][l + 1 := s3];
    SosTopValue(q0, q, n, m0, m1, c, hi, s2, s3, hi');
    SosTopTail(q0, q', l + 2, hi * Pow(B, l) + m0 * Val(B, n, l) + B * (m1 * Val(B, n, l)), hi', Pow(B, l));
  }

  lemma SosTopTail(q0: seq<Limb>, q: seq<Limb>, k: nat, x: int, h: int, p: int)
    requires 2 <= k <= |q0| == |q| && forall i :: k <= i < |q| ==> q[i] == q0[i]
    requires Val(B, q, k) - Val(B, q, 2) + h * (B * (B * p)) == Val(B, q0, k) + x
    ensures B * B * (Val(B, q[2..], |q| - 2) + h * p) == Val(B, q0, |q|) + x
  {
    ValTailAgree(B, q0, q, k, |q|);
    SplitTwo(q, |q|);
    SosShift(Val(B, q, |q|), Val(B, q, k), Val(B, q, 2), Val(B, q0, |q|), Val(B, q0, k), x, Val(B, q[2..], |q| - 2), h,
             p);
  }

  lemma SosTopValue(q0: seq<Limb>, q: seq<Limb>, n: seq<Limb>, m0: int, m1: int, c: int, hi: int, s2: Limb, s3: Limb,
                    hi': int)
    requires 2 <= |n| && |n| + 2 <= |q0| == |q|
    requires SosInv(q0, q, n, |n|, m0, m1, c)
    requires q0[|n|] + c + hi + m1 * n[|n| - 1] + B * q0[|n| + 1] == s2 + B * s3 + B * (B * hi')
    ensures var q' := q[|n| := s2][|n| + 1 := s3];
            Val(B, q', |n| + 2) - Val(B, q', 2) + hi' * (B * (B * Pow(B, |n|)))
            == Val(B, q0, |n| + 2) + hi * Pow(B, |n|) + m0 * Val(B, n, |n|) + B * (m1 * Val(B, n, |n|))
  {
    var l := |n|;
    var q' := q[l := s2][l + 1 := s3];
    ValAgree(B, q, q', l);
    ValAgree(B, q, q', 2);
    assert Val(B, q', l + 2) == Val(B, q', l + 1) + s3 * Pow(B, l + 1);
    assert Val(B, q0, l + 2) == Val(B, q0, l + 1) + q0[l + 1] * Pow(B, l + 1);
    SosTopAlgebra(Val(B, q, l), Val(B, q, 2), Val(B, q0, l), m0 * Val(B, n, l), Val(B, n, l - 1), m1, c, Pow(B, l - 1),
                  q0[l], q0[l + 1], n[l - 1], hi, s2, s3, hi');
  }

  lemma SplitTwo(s: seq<Limb>, k: nat)
    requires 2 <= k <= |s|
    ensures Val(B, s, k) == Val(B, s, 2) + B * B * Val(B, s[2..], k - 2)
  {
    ValSplit(B, s, 2, k);
    assert Pow(B, 2) == B * B by { assert Pow(B, 1) == B * Pow(B, 0); }
  }

  lemma SosShift(v: int, v1: int, v2: int, w: int, w1: int, x: int, y: int, h: int, p: int)
    requires v1 - v2 + h * (B * (B * p)) == w1 + x && w - w1 == v - v1 && v == v2 + B * B * y
    ensures B * B * (y + h * p) == w + x
  {
    assert B * B * (y + h * p) == B * B * y + h * (B * (B * p));
  }

  lemma SosTopAlgebra(v: int, v2: int, v0: int, mn0: int, n1: int, m1: int, c: int, p1: int,
                      x: int, x1: int, nl: int, hi: int, s2: int, s3: int, hi': int)
    requires v - v2 + c * (B * p1) == v0 + mn0 + B * (m1 * n1)
    requires x + c + hi + m1 * nl + B * x1 == s2 + B * s3 + B * (B * hi')
    ensures var p := B * p1;
            (v + s2 * p + s3 * (B * p)) - v2 + hi' * (B * (B * p))
            == (v0 + x * p + x1 * (B * p)) + hi * p + mn0 + B * (m1 * (n1 + nl * p1))
  {
    var p := B * p1;
    assert p * (x + c + hi + m1 * nl + B * x1) == p * (s2 + B * s3 + B * (B * hi'));
  }

  /** One reduction pair on `p[i..]`: two more rows of multiples of `n`, then two limbs down. */
  method SosPair(n: seq<Limb>, np: Limb, p: array<Limb>, i: nat, hi: Limb)
    returns (hi': Limb, ghost m0: Limb, ghost m1: Limb)
    requires 2 <= |n| && i + 2 <= |n| && 2 * |n| <= p.Length && IsNPrime(n[0], np)
    modifies p
    ensures B * B * (Val(B, p[i + 2..2 * |n|], 2 * |n| - i - 2) + hi' * Pow(B, |n|))
            == Val(B, old(p[i..2 * |n|]), 2 * |n| - i) + hi * Pow(B, |n|) + m0 * Val(B, n, |n|)
              + B * (m1 * Val(B, n, |n|))
  {
    var l := |n|;
    ghost var q0: seq<Limb> := p[i..];
    var m0v := MulLow(p[i], np);
    var (_, e) := Mac(p[i], m0v, n[0], 0);
    RowCancels(p[i], n[0], np);
    var (s, c0) := Mac(p[i + 1], m0v, n[1], e);
    var m1v := MulLow(s, np);
    var (_, c1) := Mac(s, m1v, n[0], 0);
    RowCancels(s, n[0], np);
    m0, m1 := m0v, m1v;
    SosStart(q0, n, m0, m1, e, s, c0, c1);
    c0, c1 := SosColumns(n, p, i, m0v, m1v, c0, c1);
    ghost var q: seq<Limb> := p[i..];
    var sum := p[i + l] + c0 + hi;
    var lo: Limb := sum % B;
    var (s2, cc1) := Mac(lo, m1v, n[l - 1], c1);
    p[i + l] := s2;
    var sum3 := p[i + l + 1] + cc1 + sum / B;
    var s3: Limb := sum3 % B;
    p[i + l + 1] := s3;
    hi' := sum3 / B;
    SosPairDone(q0, q, p[i..], n, i, m0, m1, c0 + c1, hi, s2, s3, hi');
    assert p[i..][..2 * l - i] == p[i..2 * l] && p[i..2 * l][2..] == p[i + 2..2 * l];
    assert q0[..2 * l - i] == old(p[i..2 * l]);
  }

  lemma SosPairDone(q0: seq<Limb>, q: seq<Limb>, q': seq<Limb>, n: seq<Limb>, i: nat, m0: int, m1: int, c: int, hi: int,
                    s2: Limb, s3: Limb, hi': int)
    requires 2 <= |n| && i + 2 <= |n| && 2 * |n| - i <= |q0| == |q| == |q'|
    requires SosInv(q0, q, n, |n|, m0, m1, c)
    requires forall k :: |n| <= k < |q| ==> q[k] == q0[k]
    requires forall k :: 0 <= k < |q| && k != |n| && k != |n| + 1 ==> q'[k] == q[k]
    requires q'[|n|] == s2 && q'[|n| + 1] == s3
    requires q0[|n|] + c + hi + m1 * n[|n| - 1] + B * q0[|n| + 1] == s2 + B * s3 + B * (B * hi')
    ensures B * B * (Val(B, q'[..2 * |n| - i][2..], 2 * |n| - i - 2) + hi' * Pow(B, |n|))
            == Val(B, q0[..2 * |n| - i], 2 * |n| - i) + hi * Pow(B, |n|) + m0 * Val(B, n, |n|)
              + B * (m1 * Val(B, n, |n|))
  {
    var k := 2 * |n| - i;
    var r0: seq<Limb>, r: seq<Limb> := q0[..k], q[..k];
    ValAgree(B, q, r, |n|);
    ValAgree(B, q, r, 2);
    ValAgree(B, q0, r0, |n|);
    assert q'[..k] == r[|n| := s2][|n| + 1 := s3];
    SosTop(r0, r, n, m0, m1, c, hi, s2, s3, hi');
  }

  /** The limb loop of the odd-width reduction row. */
  method SosRowColumns(n: seq<Limb>, p: array<Limb>, i: nat, m: Limb) returns (carry: Limb)
    requires i + |n| <= p.Length
    modifies p
    ensures Val(B, p[i..], |n|) + carry * Pow(B, |n|) == Val(B, old(p[i..]), |n|) + m * Val(B, n, |n|)
    ensures forall k :: i + |n| <= k < p.Length ==> p[k] == old(p[k])
    ensures |n| >= 1 ==> p[i] == (old(p[i]) + m * n[0]) % B
  {
    ghost var q0: seq<Limb> := p[i..];
    carry := 0;
    for j := 0 to |n|
      invariant Val(B, p[i..], j) + carry * Pow(B, j) == Val(B, q0, j) + m * Val(B, n, j)
      invariant forall k :: i + j <= k < p.Length ==> p[k] == old(p[k])
      invariant j >= 1 ==> p[i] == (old(p[i]) + m * n[0]) % B
      invariant j == 0 ==> carry == 0
    {
      ghost var before := p[i..];
      assert q0[j] == p[i + j];
      var (s, c) := Mac(p[i + j], m, n[j], carry);
      p[i + j] := s;
      ValAgree(B, before, p[i..], j);
      SosRowAlgebra(Val(B, before, j), Val(B, q0, j), Val(B, n, j), m, carry, Pow(B, j), q0[j], n[j], s, c);
      carry := c;
    }
  }

  lemma SosRowAlgebra(v: int, v0: int, n: int, m: int, c: int, p: int, x: int, nj: int, s: int, c': int)
    requires v + c * p == v0 + m * n
    requires s + B * c' == x + m * nj + c
    ensures (v + s * p) + c' * (B * p) == (v0 + x * p) + m * (n + nj * p)
  {
    assert p * (s + B * c') == p * (x + m * nj + c);
  }

  /** The odd-width tail row `i = l - 1`. */
  method SosSingle(n: seq<Limb>, np: Limb, p: array<Limb>, hi: Limb) returns (hi': Limb, ghost m: Limb)
    requires 1 <= |n| && 2 * |n| <= p.Length && IsNPrime(n[0], np)
    modifies p
    ensures B * (Val(B, p[|n|..2 * |n|], |n|) + hi' * Pow(B, |n|))
            == Val(B, old(p[|n| - 1..2 * |n|]), |n| + 1) + hi * Pow(B, |n|) + m * Val(B, n, |n|)
  {
    var l := |n|;
    var i := l - 1;
    ghost var q0: seq<Limb> := p[i..];
    var mv := MulLow(p[i], np);
    m := mv;
    RowCancels(p[i], n[0], np);
    var carry := SosRowColumns(n, p, i, mv);
    ghost var q: seq<Limb> := p[i..];
    var (s, c) := Adc(p[i + l], carry, hi);
    p[i + l] := s;
    hi' := c;
    ghost var q' := p[i..];
    ValAgree(B, q, q', l);
    SosSingleAlgebra(Val(B, q, l), Val(B, q0, l), m * Val(B, n, l), carry, Pow(B, l), q0[l], hi, s, c);
    ValSplit(B, q', 1, l + 1);
    assert Val(B, q', 1) == 0 by { assert Val(B, q', 0) == 0; }
    assert Pow(B, 1) == B by { assert Pow(B, 0) == 1; }
    SosSingleShift(Val(B, q'[1..], l), hi', Pow(B, l));
    ValAgree(B, q'[1..], p[l..2 * l], l);
    ValAgree(B, q0, old(p[i..2 * l]), l + 1);
  }

  lemma SosSingleAlgebra(v: int, v0: int, mn: int, carry: int, p: int, x: int, hi: int, s: int, c: int)
    requires v + carry * p == v0 + mn
    requires s + B * c == x + carry + hi
    ensures (v + s * p) + c * (B * p) == (v0 + x * p) + hi * p + mn
  {
    assert p * (s + B * c) == p * (x + carry + hi);
  }

  lemma SosSingleShift(v: int, h: int, p: int)
    ensures B * (v + h * p) == B * v + h * (B * p)
  {
  }

  /** After `i` reduction rows: `acc·B^i = x + m·n` with `m < B^i`. */
  ghost predicate SosAcc(acc: int, x: int, n: int, i: nat, m: int) {
    acc * Pow(B, i) == x + m * n && 0 <= m < Pow(B, i)
  }

  lemma SosAccPair(acc: int, acc': int, x: int, n: int, i: nat, m: int, m0: Limb, m1: Limb)
    requires SosAcc(acc, x, n, i, m)
    requires B * B * acc' == acc + m0 * n + B * (m1 * n)
    ensures SosAcc(acc', x, n, i + 2, m + m0 * Pow(B, i) + m1 * (B * Pow(B, i)))
  {
    var p := Pow(B, i);
    assert Pow(B, i + 2) == B * (B * p) by { assert Pow(B, i + 1) == B * p; }
    AccPairAlgebra(acc, acc', 1, x, 0, 0, n, m, m0, m1, p);
    AccMultiplier(m, m0, m1, p);
  }

  lemma SosAccSingle(acc: int, acc': int, x: int, n: int, i: nat, m: int, m0: Limb)
    requires SosAcc(acc, x, n, i, m)
    requires B * acc' == acc + m0 * n
    ensures SosAcc(acc', x, n, i + 1, m + m0 * Pow(B, i))
  {
    AccSingleAlgebra(acc, acc', 1, x, 0, n, m, m0, Pow(B, i));
    AccMultiplier(m, m0, 0, Pow(B, i));
  }

  /** Phase 4: the high half of `p` and the riding carry hold `x/R` modulo `n`, with a multiplier below `R`. */
  method SosReduce(n: seq<Limb>, np: Limb, p: array<Limb>) returns (hi: Limb, ghost m: int)
    requires 1 <= |n| && 2 * |n| <= p.Length && IsNPrime(n[0], np)
    modifies p
    ensures SosAcc(Val(B, p[|n|..2 * |n|], |n|) + hi * Pow(B, |n|), Val(B, old(p[..2 * |n|]), 2 * |n|), Val(B, n, |n|),
                   |n|, m)
  {
    var l := |n|;
    ghost var x, v := Val(B, p[..2 * l], 2 * l), Val(B, n, l);
    hi, m := 0, 0;
    var i := 0;
    assert p[0..2 * l] == p[..2 * l];
    while i + 1 < l
      invariant 0 <= i <= l
      invariant SosAcc(Val(B, p[i..2 * l], 2 * l - i) + hi * Pow(B, l), x, v, i, m)
    {
      ghost var acc := Val(B, p[i..2 * l], 2 * l - i) + hi * Pow(B, l);
      ghost var m0: Limb, m1: Limb;
      hi, m0, m1 := SosPair(n, np, p, i, hi);
      SosAccPair(acc, Val(B, p[i + 2..2 * l], 2 * l - i - 2) + hi * Pow(B, l), x, v, i, m, m0, m1);
      m := m + m0 * Pow(B, i) + m1 * (B * Pow(B, i));
      i := i + 2;
    }
    if i < l {
      ghost var acc := Val(B, p[i..2 * l], 2 * l - i) + hi * Pow(B, l);
      ghost var m0: Limb;
      hi, m0 := SosSingle(n, np, p, hi);
      SosAccSingle(acc, Val(B, p[l..2 * l], l) + hi * Pow(B, l), x, v, i, m, m0);
      m := m + m0 * Pow(B, i);
    }
  }

  /**
   * `out` receives `a^2/R mod n`: the specification of `MontMulKernel` on `(a, a)`.
   * `p` is `2·|n|` limbs of scratch.
   */
  method MontSqrKernel(n: seq<Limb>, np: Limb, a: seq<Limb>, p: array<Limb>, out: array<Limb>)
    requires 1 <= |n| <= |a| && 2 * |n| <= p.Length && |n| <= out.Length && p != out
    requires IsNPrime(n[0], np) && Val(B, n, |n|) > 0 && Val(B, a, |n|) <= Val(B, n, |n|)
    modifies p, out
    ensures IsMontProduct(Val(B, out[..], |n|), Val(B, a, |n|), Val(B, a, |n|), Val(B, n, |n|), Pow(B, |n|))
    ensures forall k :: |n| <= k < out.Length ==> out[k] == old(out[k])
  {
    var l := |n|;
    ghost var x, v, r := Val(B, a, l), Val(B, n, l), Pow(B, l);
    ValAgree(B, a, a[..l], l);
    FormSquare(a[..l], p);
    ValAgree(B, p[..], p[..2 * l], 2 * l);
    ghost var m: int;
    var hi: Limb;
    hi, m := SosReduce(n, np, p);
    ghost var acc := Val(B, p[l..2 * l], l) + hi * r;
    ValBound(B, a, l);
    ValBound(B, p[l..2 * l], l);
    MulNonNegative(hi, r);
    AccFinal(acc, x, x, v, m, r);
    CongBy(acc * r, x * x, v, m);
    MontFinalSub(n, p[l..2 * l], hi, out);
    ReducedProduct(acc, Val(B, out[..], l), x, x, v, r);
  }
}
