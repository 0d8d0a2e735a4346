/** A polygon in the plane of divstep pairs that shrinks over every block of divsteps. */
module DivstepPolygon {
  import opened Arith
  import opened Divsteps

  // ------------------------------------------------------ any polygon

  /** Which `a·f + b·g` bound a polygon. */
  type Sides = (int, int) -> bool

  /** The pair is in the polygon scaled to `v`. */
  ghost predicate Inside(sides: Sides, f: int, g: int, v: int) {
    forall a, b {:trigger sides(a, b)} :: sides(a, b) ==> Abs(a * f + b * g) <= v
  }

  /** Every side is within `x/r` at the pair. */
  ghost predicate Shrunk(sides: Sides, f: int, g: int, r: int, x: int) {
    forall a, b {:trigger sides(a, b)} :: sides(a, b) ==> r * Abs(a * f + b * g) <= x
  }

  /**
   * The functional `x·f + y·g` is a combination of `a·f + b·g` and `c·f + d·g` whose weights add up
   * to at most `w/z`.
   */
  predicate Fits(x: int, y: int, a: int, b: int, c: int, d: int, z: int, w: int) {
    var (e, m, n) := (a * d - b * c, x * d - y * c, a * y - b * x);
    e != 0 && (Abs(m) + Abs(n)) * z <= Abs(e) * w
  }

  /** Cramer's rule. */
  lemma Combination(a: int, b: int, c: int, d: int, x: int, y: int, f: int, g: int)
    ensures (a * d - b * c) * (x * f + y * g)
            == (x * d - y * c) * (a * f + b * g) + (a * y - b * x) * (c * f + d * g)
  {
    CramerTerm(a, b, c, d, x, y, f);
    CramerTerm(b, a, d, c, y, x, g);
    var (e, m, n) := (a * d - b * c, x * d - y * c, a * y - b * x);
    Spread(e, x * f, y * g);
    Spread(m, a * f, b * g);
    Spread(n, c * f, d * g);
  }

  lemma Spread(d: int, x: int, y: int)
    ensures d * (x + y) == d * x + d * y
  {
  }

  lemma CramerTerm(a: int, b: int, c: int, d: int, x: int, y: int, f: int)
    ensures (a * d - b * c) * (x * f) == (x * d - y * c) * (a * f) + (a * y - b * x) * (c * f)
    ensures (b * c - a * d) * (x * f) == (y * c - x * d) * (a * f) + (b * x - a * y) * (c * f)
  {
    var (p, q, r) := (a * d - b * c, x * d - y * c, a * y - b * x);
    Cramer(a, b, c, d, x, y);
    ScaledTerm(p, x, q, a, r, c, f);
    Negated(p, b * c - a * d, x * f);
    Negated(q, y * c - x * d, a * f);
    Negated(r, b * x - a * y, c * f);
  }

  lemma Cramer(a: int, b: int, c: int, d: int, x: int, y: int)
    ensures (a * d - b * c) * x == (x * d - y * c) * a + (a * y - b * x) * c
  {
    assert (a * d - b * c) * x == (a * d) * x - (b * c) * x;
    assert (x * d - y * c) * a == (x * d) * a - (y * c) * a;
    assert (a * y - b * x) * c == (a * y) * c - (b * x) * c;
  }

  lemma ScaledTerm(p: int, x: int, q: int, a: int, r: int, c: int, f: int)
    requires p * x == q * a + r * c
    ensures p * (x * f) == q * (a * f) + r * (c * f)
  {
    assert p * (x * f) == (p * x) * f && q * (a * f) == (q * a) * f && r * (c * f) == (r * c) * f;
    assert (q * a + r * c) * f == (q * a) * f + (r * c) * f;
  }

  lemma Negated(p: int, q: int, x: int)
    requires q == -p
    ensures q * x == -(p * x)
  {
  }

  lemma AbsProduct(x: int, y: int)
    ensures Abs(x * y) == Abs(x) * Abs(y)
  {
    if x < 0 { assert (-x) * y == -(x * y); }
    if y < 0 { assert x * (-y) == -(x * y) && (-x) * (-y) == x * y; }
    if x >= 0 && y >= 0 { MulNonNegative(x, y); }
    if x < 0 && y >= 0 { MulNonNegative(-x, y); }
    if x >= 0 && y < 0 { MulNonNegative(x, -y); }
    if x < 0 && y < 0 { MulNonNegative(-x, -y); }
  }

  lemma FitsIs(x: int, y: int, a: int, b: int, c: int, d: int, z: int, w: int, f: int, g: int, v: nat)
    requires Abs(a * f + b * g) <= v && Abs(c * f + d * g) <= v
    requires Fits(x, y, a, b, c, d, z, w) && z > 0 && w > 0
    ensures z * Abs(x * f + y * g) <= w * v
  {
    var (e, m, n) := (a * d - b * c, x * d - y * c, a * y - b * x);
    Combination(a, b, c, d, x, y, f, g);
    AbsProduct(e, x * f + y * g);
    TwoTerms(m, a * f + b * g, n, c * f + d * g, v);
    FitsAlgebra(Abs(e), Abs(x * f + y * g), Abs(m) + Abs(n), v, z, w);
  }

  lemma TwoTerms(m: int, a: int, n: int, b: int, x: nat)
    requires Abs(a) <= x && Abs(b) <= x
    ensures Abs(m * a + n * b) <= (Abs(m) + Abs(n)) * x
  {
    AbsProduct(m, a);
    AbsProduct(n, b);
    MulMono(Abs(a), x, Abs(m));
    MulMono(Abs(b), x, Abs(n));
    Commuted(Abs(a), Abs(m));
    Commuted(Abs(b), Abs(n));
    Commuted(Abs(m) + Abs(n), x);
    Spread(x, Abs(m), Abs(n));
  }

  lemma Commuted(x: int, y: int)
    ensures x * y == y * x
  {
  }

  lemma FitsAlgebra(e: int, v: int, s: int, x: int, z: int, w: int)
    requires e * v <= s * x && s * z <= e * w && e > 0 && z > 0 && x >= 0
    ensures z * v <= w * x
  {
    MulMono(e * v, s * x, z);
    MulMono(s * z, e * w, x);
    assert (e * v) * z == (z * v) * e && (s * x) * z == (s * z) * x && (e * w) * x == (w * x) * e;
    MulCancelLeq(z * v, w * x, e);
  }

  /** `w` is between `x` and `y`, in either order. */
  predicate Between(x: int, w: int, y: int) { x <= w <= y || y <= w <= x }

  /** An affine function bounded at both ends is bounded between them. */
  lemma BetweenEnds(c: int, e: int, x: int, w: int, y: int, r: int, v: int)
    requires Between(x, w, y) && r > 0 && r * Abs(c + e * x) <= v && r * Abs(c + e * y) <= v
    ensures r * Abs(c + e * w) <= v
  {
    var (lo, hi) := if x <= y then (x, y) else (y, x);
    if e >= 0 {
      MulMono(lo, w, e);
      MulMono(w, hi, e);
    } else {
      MulMono(lo, w, -e);
      MulMono(w, hi, -e);
      assert lo * (-e) == -(e * lo) && w * (-e) == -(e * w) && hi * (-e) == -(e * hi);
    }
    assert e * lo == lo * e && e * w == w * e && e * hi == hi * e;
    var m := if Abs(c + e * x) >= Abs(c + e * y) then Abs(c + e * x) else Abs(c + e * y);
    MulMono(Abs(c + e * w), m, r);
    assert Abs(c + e * w) * r == r * Abs(c + e * w) && m * r == r * m;
  }

  /** Two sides for either end of a range: `(a0, b0)` and `(c0, d0)`, then `(a1, b1)` and `(c1, d1)`. */
  datatype Corners = Corners(a0: int, b0: int, c0: int, d0: int, a1: int, b1: int, c1: int, d1: int) {
    predicate Of(sides: Sides) { sides(a0, b0) && sides(c0, d0) && sides(a1, b1) && sides(c1, d1) }

    predicate On() { Side(a0, b0) && Side(c0, d0) && Side(a1, b1) && Side(c1, d1) }
  }

  /**
   * With `g = s·h`, `t·y = w - f` and `w` between `lo·h` and `hi·h`, the side `(a, b)` at `(h, y)`
   * is within `p/r` of the polygon at `(f, g)`: at either end it is a combination of two sides there.
   */
  lemma Row(sides: Sides, a: int, b: int, lo: int, w: int, hi: int, s: int, t: int, p: int, r: int,
            f: int, h: int, y: int, v: nat, k: Corners)
    requires s > 0 && t > 0 && p > 0 && r > 0 && Between(lo * h, w, hi * h) && t * y == w - f
    requires Inside(sides, f, s * h, v) && k.Of(sides)
    requires Fits(-(b * s), a * t + b * lo, k.a0, k.b0, k.c0, k.d0, r, s * t * p)
    requires Fits(-(b * s), a * t + b * hi, k.a1, k.b1, k.c1, k.d1, r, s * t * p)
    ensures r * Abs(a * h + b * y) <= p * v
  {
    MulPositive(s, t);
    MulPositive(s * t, p);
    FitsIs(-(b * s), a * t + b * lo, k.a0, k.b0, k.c0, k.d0, r, s * t * p, f, s * h, v);
    FitsIs(-(b * s), a * t + b * hi, k.a1, k.b1, k.c1, k.d1, r, s * t * p, f, s * h, v);
    SideAfter(a, b, lo, s, t, f, h);
    SideAfter(a, b, hi, s, t, f, h);
    BetweenEnds(s * (a * t * h - b * f), s * b, lo * h, w, hi * h, r, s * t * p * v);
    SideValue(a, b, s, t, w, h, f, y);
    AbsProduct(s * t, a * h + b * y);
    RowAlgebra(s * t, r, p, Abs(a * h + b * y), v);
  }

  lemma SideAfter(a: int, b: int, q: int, s: int, t: int, f: int, h: int)
    ensures (-(b * s)) * f + (a * t + b * q) * (s * h) == s * (a * t * h - b * f) + (s * b) * (q * h)
  {
    assert (-(b * s)) * f == -(s * (b * f));
    assert (a * t + b * q) * (s * h) == (a * t) * (s * h) + (b * q) * (s * h);
    assert (a * t) * (s * h) == s * (a * t * h) && (b * q) * (s * h) == (s * b) * (q * h);
    assert s * (a * t * h - b * f) == s * (a * t * h) - s * (b * f);
  }

  lemma SideValue(a: int, b: int, s: int, t: int, w: int, h: int, f: int, y: int)
    requires t * y == w - f
    ensures (s * t) * (a * h + b * y) == s * (a * t * h - b * f) + (s * b) * w
  {
    assert t * (a * h + b * y) == a * t * h + b * (t * y);
    assert b * (w - f) == b * w - b * f;
    assert (s * t) * (a * h + b * y) == s * (t * (a * h + b * y));
    Spread(s, a * t * h - b * f, b * w);
    assert s * (b * w) == (s * b) * w;
  }

  lemma RowAlgebra(t: int, r: int, p: int, z: int, x: int)
    requires t > 0 && r * (t * z) <= t * p * x
    ensures r * z <= p * x
  {
    assert r * (t * z) == (r * z) * t && t * p * x == (p * x) * t;
    MulCancelLeq(r * z, p * x, t);
  }

  // ---------------------------------------------------- the polygon used

  predicate FirstSide(a: int, b: int) {
    || (a == 114 && b == -9189) || (a == 692 && b == -9559) || (a == 2578 && b == -10464)
    || (a == 3205 && b == -10603) || (a == 3404 && b == -10633) || (a == 3754 && b == -10491)
  }

  predicate SecondSide(a: int, b: int) {
    || (a == 4397 && b == -10106) || (a == 4906 && b == -9512) || (a == 5665 && b == -8356)
    || (a == 5893 && b == -7986) || (a == 6557 && b == -6214) || (a == 6783 && b == -5311)
  }

  predicate ThirdSide(a: int, b: int) {
    || (a == 6940 && b == -4620) || (a == 7163 && b == -2833) || (a == 7183 && b == -2584)
    || (a == 6717 && b == 169) || (a == 6563 && b == 1024) || (a == 6149 && b == 2616)
  }

  predicate FourthSide(a: int, b: int) {
    || (a == 5351 && b == 4182) || (a == 4701 && b == 5199) || (a == 4493 && b == 5507)
    || (a == 3274 && b == 6726) || (a == 2848 && b == 7132) || (a == 1746 && b == 7958)
  }

  /** One of each pair of opposite sides `|a·f + b·g| <= 10000`, in order of angle. */
  predicate Side(a: int, b: int) {
    FirstSide(a, b) || SecondSide(a, b) || ThirdSide(a, b) || FourthSide(a, b)
  }

  lemma SideEnds(a: int, b: int)
    requires Side(a, b)
    ensures Abs(a) <= 10000 && Abs(a + b) <= 10000
  {
  }

  // For each number of halvings: every side after the block, with two sides before it for either end.

  predicate NoHalvingFits(a: int, b: int, k: Corners) {
    && Fits(-b, 2 * a + b, k.a0, k.b0, k.c0, k.d0, 512, 758)
    && Fits(-b, 2 * a + b, k.a1, k.b1, k.c1, k.d1, 512, 758)
  }

  lemma NoHalvingFirst(a: int, b: int) returns (k: Corners)
    requires FirstSide(a, b)
    ensures k.On() && NoHalvingFits(a, b, k)
  {
    if a == 114 {
      k := Corners(5893, -7986, 6557, -6214, 5893, -7986, 6557, -6214);
      assert NoHalvingFits(114, -9189, k);
    } else if a == 692 {
      k := Corners(6557, -6214, 6783, -5311, 6557, -6214, 6783, -5311);
      assert NoHalvingFits(692, -9559, k);
    } else if a == 2578 {
      k := Corners(6940, -4620, 7163, -2833, 6940, -4620, 7163, -2833);
      assert NoHalvingFits(2578, -10464, k);
    } else if a == 3205 {
      k := Corners(7163, -2833, 7183, -2584, 7163, -2833, 7183, -2584);
      assert NoHalvingFits(3205, -10603, k);
    } else if a == 3404 {
      k := Corners(7183, -2584, 6717, 169, 7183, -2584, 6717, 169);
      assert NoHalvingFits(3404, -10633, k);
    } else {
      k := Corners(7183, -2584, 6717, 169, 7183, -2584, 6717, 169);
      assert NoHalvingFits(3754, -10491, k);
    }
  }

  lemma NoHalvingSecond(a: int, b: int) returns (k: Corners)
    requires SecondSide(a, b)
    ensures k.On() && NoHalvingFits(a, b, k)
  {
    if a == 4397 {
      k := Corners(7183, -2584, 6717, 169, 7183, -2584, 6717, 169);
      assert NoHalvingFits(4397, -10106, k);
    } else if a == 4906 {
      k := Corners(6717, 169, 6563, 1024, 6717, 169, 6563, 1024);
      assert NoHalvingFits(4906, -9512, k);
    } else if a == 5665 {
      k := Corners(6563, 1024, 6149, 2616, 6563, 1024, 6149, 2616);
      assert NoHalvingFits(5665, -8356, k);
    } else if a == 5893 {
      k := Corners(6149, 2616, 5351, 4182, 6149, 2616, 5351, 4182);
      assert NoHalvingFits(5893, -7986, k);
    } else if a == 6557 {
      k := Corners(4701, 5199, 4493, 5507, 4701, 5199, 4493, 5507);
      assert NoHalvingFits(6557, -6214, k);
    } else {
      k := Corners(4493, 5507, 3274, 6726, 4493, 5507, 3274, 6726);
      assert NoHalvingFits(6783, -5311, k);
    }
  }

  lemma NoHalvingThird(a: int, b: int) returns (k: Corners)
    requires ThirdSide(a, b)
    ensures k.On() && NoHalvingFits(a, b, k)
  {
    if a == 6940 {
      k := Corners(4493, 5507, 3274, 6726, 4493, 5507, 3274, 6726);
      assert NoHalvingFits(6940, -4620, k);
    } else if a == 7163 {
      k := Corners(2848, 7132, 1746, 7958, 2848, 7132, 1746, 7958);
      assert NoHalvingFits(7163, -2833, k);
    } else if a == 7183 {
      k := Corners(1746, 7958, 114, -9189, 1746, 7958, 114, -9189);
      assert NoHalvingFits(7183, -2584, k);
    } else if a == 6717 {
      k := Corners(114, -9189, 692, -9559, 114, -9189, 692, -9559);
      assert NoHalvingFits(6717, 169, k);
    } else if a == 6563 {
      k := Corners(114, -9189, 692, -9559, 114, -9189, 692, -9559);
      assert NoHalvingFits(6563, 1024, k);
    } else {
      k := Corners(692, -9559, 2578, -10464, 692, -9559, 2578, -10464);
      assert NoHalvingFits(6149, 2616, k);
    }
  }

  lemma NoHalvingFourth(a: int, b: int) returns (k: Corners)
    requires FourthSide(a, b)
    ensures k.On() && NoHalvingFits(a, b, k)
  {
    if a == 5351 {
      k := Corners(2578, -10464, 3205, -10603, 2578, -10464, 3205, -10603);
      assert NoHalvingFits(5351, 4182, k);
    } else if a == 4701 {
      k := Corners(3404, -10633, 3754, -10491, 3404, -10633, 3754, -10491);
      assert NoHalvingFits(4701, 5199, k);
    } else if a == 4493 {
      k := Corners(3754, -10491, 4397, -10106, 3754, -10491, 4397, -10106);
      assert NoHalvingFits(4493, 5507, k);
    } else if a == 3274 {
      k := Corners(4397, -10106, 4906, -9512, 4397, -10106, 4906, -9512);
      assert NoHalvingFits(3274, 6726, k);
    } else if a == 2848 {
      k := Corners(4906, -9512, 5665, -8356, 4906, -9512, 5665, -8356);
      assert NoHalvingFits(2848, 7132, k);
    } else {
      k := Corners(5665, -8356, 5893, -7986, 5665, -8356, 5893, -7986);
      assert NoHalvingFits(1746, 7958, k);
    }
  }

  lemma NoHalvingCorners(a: int, b: int) returns (k: Corners)
    requires Side(a, b)
    ensures k.On() && NoHalvingFits(a, b, k)
  {
    if FirstSide(a, b) {
      k := NoHalvingFirst(a, b);
    } else if SecondSide(a, b) {
      k := NoHalvingSecond(a, b);
    } else if ThirdSide(a, b) {
      k := NoHalvingThird(a, b);
    } else {
      k := NoHalvingFourth(a, b);
    }
  }

  lemma NoHalving(f: int, w: int, h: int, y: int, v: nat)
    requires w == h && 2 * y == w - f && Inside(Side, f, h, v)
    ensures Shrunk(Side, h, y, 512, 379 * v)
  {
    forall a, b | Side(a, b)
      ensures 512 * Abs(a * h + b * y) <= 379 * v
    {
      var k := NoHalvingCorners(a, b);
      NoHalvingRow(Side, a, b, f, w, h, y, v, k);
    }
  }

  lemma NoHalvingRow(sides: Sides, a: int, b: int, f: int, w: int, h: int, y: int, v: nat, k: Corners)
    requires w == h && 2 * y == w - f && Inside(sides, f, h, v)
    requires k.Of(sides) && NoHalvingFits(a, b, k)
    ensures 512 * Abs(a * h + b * y) <= 379 * v
  {
    Row(sides, a, b, 1, w, 1, 1, 2, 379, 512, f, h, y, v, k);
  }

  predicate OneHalvingFits(a: int, b: int, k: Corners) {
    && Fits(-2 * b, 4 * a + b, k.a0, k.b0, k.c0, k.d0, 134217728, 435519512)
    && Fits(-2 * b, 4 * a + 3 * b, k.a1, k.b1, k.c1, k.d1, 134217728, 435519512)
  }

  lemma OneHalvingFirst(a: int, b: int) returns (k: Corners)
    requires FirstSide(a, b)
    ensures k.On() && OneHalvingFits(a, b, k)
  {
    if a == 114 {
      k := Corners(6940, -4620, 7163, -2833, 4906, -9512, 5665, -8356);
      assert OneHalvingFits(114, -9189, k);
    } else if a == 692 {
      k := Corners(7183, -2584, 6717, 169, 5665, -8356, 5893, -7986);
      assert OneHalvingFits(692, -9559, k);
    } else if a == 2578 {
      k := Corners(7183, -2584, 6717, 169, 5893, -7986, 6557, -6214);
      assert OneHalvingFits(2578, -10464, k);
    } else if a == 3205 {
      k := Corners(6717, 169, 6563, 1024, 6557, -6214, 6783, -5311);
      assert OneHalvingFits(3205, -10603, k);
    } else if a == 3404 {
      k := Corners(6717, 169, 6563, 1024, 6557, -6214, 6783, -5311);
      assert OneHalvingFits(3404, -10633, k);
    } else {
      k := Corners(6563, 1024, 6149, 2616, 6557, -6214, 6783, -5311);
      assert OneHalvingFits(3754, -10491, k);
    }
  }

  lemma OneHalvingSecond(a: int, b: int) returns (k: Corners)
    requires SecondSide(a, b)
    ensures k.On() && OneHalvingFits(a, b, k)
  {
    if a == 4397 {
      k := Corners(6563, 1024, 6149, 2616, 6940, -4620, 7163, -2833);
      assert OneHalvingFits(4397, -10106, k);
    } else if a == 4906 {
      k := Corners(6149, 2616, 5351, 4182, 6940, -4620, 7163, -2833);
      assert OneHalvingFits(4906, -9512, k);
    } else if a == 5665 {
      k := Corners(5351, 4182, 4701, 5199, 7183, -2584, 6717, 169);
      assert OneHalvingFits(5665, -8356, k);
    } else if a == 5893 {
      k := Corners(5351, 4182, 4701, 5199, 7183, -2584, 6717, 169);
      assert OneHalvingFits(5893, -7986, k);
    } else if a == 6557 {
      k := Corners(4493, 5507, 3274, 6726, 6149, 2616, 5351, 4182);
      assert OneHalvingFits(6557, -6214, k);
    } else {
      k := Corners(4493, 5507, 3274, 6726, 5351, 4182, 4701, 5199);
      assert OneHalvingFits(6783, -5311, k);
    }
  }

  lemma OneHalvingThird(a: int, b: int) returns (k: Corners)
    requires ThirdSide(a, b)
    ensures k.On() && OneHalvingFits(a, b, k)
  {
    if a == 6940 {
      k := Corners(2848, 7132, 1746, 7958, 4493, 5507, 3274, 6726);
      assert OneHalvingFits(6940, -4620, k);
    } else if a == 7163 {
      k := Corners(2848, 7132, 1746, 7958, 2848, 7132, 1746, 7958);
      assert OneHalvingFits(7163, -2833, k);
    } else if a == 7183 {
      k := Corners(1746, 7958, 114, -9189, 2848, 7132, 1746, 7958);
      assert OneHalvingFits(7183, -2584, k);
    } else if a == 6717 {
      k := Corners(114, -9189, 692, -9559, 1746, 7958, 114, -9189);
      assert OneHalvingFits(6717, 169, k);
    } else if a == 6563 {
      k := Corners(692, -9559, 2578, -10464, 114, -9189, 692, -9559);
      assert OneHalvingFits(6563, 1024, k);
    } else {
      k := Corners(692, -9559, 2578, -10464, 692, -9559, 2578, -10464);
      assert OneHalvingFits(6149, 2616, k);
    }
  }

  lemma OneHalvingFourth(a: int, b: int) returns (k: Corners)
    requires FourthSide(a, b)
    ensures k.On() && OneHalvingFits(a, b, k)
  {
    if a == 5351 {
      k := Corners(3404, -10633, 3754, -10491, 692, -9559, 2578, -10464);
      assert OneHalvingFits(5351, 4182, k);
    } else if a == 4701 {
      k := Corners(3754, -10491, 4397, -10106, 2578, -10464, 3205, -10603);
      assert OneHalvingFits(4701, 5199, k);
    } else if a == 4493 {
      k := Corners(4397, -10106, 4906, -9512, 3205, -10603, 3404, -10633);
      assert OneHalvingFits(4493, 5507, k);
    } else if a == 3274 {
      k := Corners(5665, -8356, 5893, -7986, 3754, -10491, 4397, -10106);
      assert OneHalvingFits(3274, 6726, k);
    } else if a == 2848 {
      k := Corners(5893, -7986, 6557, -6214, 3754, -10491, 4397, -10106);
      assert OneHalvingFits(2848, 7132, k);
    } else {
      k := Corners(6557, -6214, 6783, -5311, 4906, -9512, 5665, -8356);
      assert OneHalvingFits(1746, 7958, k);
    }
  }

  lemma OneHalvingCorners(a: int, b: int) returns (k: Corners)
    requires Side(a, b)
    ensures k.On() && OneHalvingFits(a, b, k)
  {
    if FirstSide(a, b) {
      k := OneHalvingFirst(a, b);
    } else if SecondSide(a, b) {
      k := OneHalvingSecond(a, b);
    } else if ThirdSide(a, b) {
      k := OneHalvingThird(a, b);
    } else {
      k := OneHalvingFourth(a, b);
    }
  }

  lemma OneHalving(f: int, w: int, h: int, y: int, v: nat)
    requires Between(h, w, 3 * h) && 4 * y == w - f && Inside(Side, f, 2 * h, v)
    ensures Shrunk(Side, h, y, 134217728, 54439939 * v)
  {
    forall a, b | Side(a, b)
      ensures 134217728 * Abs(a * h + b * y) <= 54439939 * v
    {
      var k := OneHalvingCorners(a, b);
      OneHalvingRow(Side, a, b, f, w, h, y, v, k);
    }
  }

  lemma OneHalvingRow(sides: Sides, a: int, b: int, f: int, w: int, h: int, y: int, v: nat, k: Corners)
    requires Between(h, w, 3 * h) && 4 * y == w - f && Inside(sides, f, 2 * h, v)
    requires k.Of(sides) && OneHalvingFits(a, b, k)
    ensures 134217728 * Abs(a * h + b * y) <= 54439939 * v
  {
    Row(sides, a, b, 1, w, 3, 2, 4, 54439939, 134217728, f, h, y, v, k);
  }

  predicate TwoHalvingsFits(a: int, b: int, k: Corners) {
    && Fits(-4 * b, 8 * a + b, k.a0, k.b0, k.c0, k.d0, 35184372088832, 250233832892768)
    && Fits(-4 * b, 8 * a + 7 * b, k.a1, k.b1, k.c1, k.d1, 35184372088832, 250233832892768)
  }

  lemma TwoHalvingsFirst(a: int, b: int) returns (k: Corners)
    requires FirstSide(a, b)
    ensures k.On() && TwoHalvingsFits(a, b, k)
  {
    if a == 114 {
      k := Corners(7183, -2584, 6717, 169, 4906, -9512, 5665, -8356);
      assert TwoHalvingsFits(114, -9189, k);
    } else if a == 692 {
      k := Corners(7183, -2584, 6717, 169, 4906, -9512, 5665, -8356);
      assert TwoHalvingsFits(692, -9559, k);
    } else if a == 2578 {
      k := Corners(6563, 1024, 6149, 2616, 5893, -7986, 6557, -6214);
      assert TwoHalvingsFits(2578, -10464, k);
    } else if a == 3205 {
      k := Corners(6563, 1024, 6149, 2616, 5893, -7986, 6557, -6214);
      assert TwoHalvingsFits(3205, -10603, k);
    } else if a == 3404 {
      k := Corners(6563, 1024, 6149, 2616, 5893, -7986, 6557, -6214);
      assert TwoHalvingsFits(3404, -10633, k);
    } else {
      k := Corners(6149, 2616, 5351, 4182, 5893, -7986, 6557, -6214);
      assert TwoHalvingsFits(3754, -10491, k);
    }
  }

  lemma TwoHalvingsSecond(a: int, b: int) returns (k: Corners)
    requires SecondSide(a, b)
    ensures k.On() && TwoHalvingsFits(a, b, k)
  {
    if a == 4397 {
      k := Corners(6149, 2616, 5351, 4182, 6557, -6214, 6783, -5311);
      assert TwoHalvingsFits(4397, -10106, k);
    } else if a == 4906 {
      k := Corners(5351, 4182, 4701, 5199, 6783, -5311, 6940, -4620);
      assert TwoHalvingsFits(4906, -9512, k);
    } else if a == 5665 {
      k := Corners(5351, 4182, 4701, 5199, 7163, -2833, 7183, -2584);
      assert TwoHalvingsFits(5665, -8356, k);
    } else if a == 5893 {
      k := Corners(4493, 5507, 3274, 6726, 7183, -2584, 6717, 169);
      assert TwoHalvingsFits(5893, -7986, k);
    } else if a == 6557 {
      k := Corners(4493, 5507, 3274, 6726, 6563, 1024, 6149, 2616);
      assert TwoHalvingsFits(6557, -6214, k);
    } else {
      k := Corners(3274, 6726, 2848, 7132, 5351, 4182, 4701, 5199);
      assert TwoHalvingsFits(6783, -5311, k);
    }
  }

  lemma TwoHalvingsThird(a: int, b: int) returns (k: Corners)
    requires ThirdSide(a, b)
    ensures k.On() && TwoHalvingsFits(a, b, k)
  {
    if a == 6940 {
      k := Corners(2848, 7132, 1746, 7958, 4493, 5507, 3274, 6726);
      assert TwoHalvingsFits(6940, -4620, k);
    } else if a == 7163 {
      k := Corners(1746, 7958, 114, -9189, 2848, 7132, 1746, 7958);
      assert TwoHalvingsFits(7163, -2833, k);
    } else if a == 7183 {
      k := Corners(1746, 7958, 114, -9189, 2848, 7132, 1746, 7958);
      assert TwoHalvingsFits(7183, -2584, k);
    } else if a == 6717 {
      k := Corners(114, -9189, 692, -9559, 1746, 7958, 114, -9189);
      assert TwoHalvingsFits(6717, 169, k);
    } else if a == 6563 {
      k := Corners(692, -9559, 2578, -10464, 114, -9189, 692, -9559);
      assert TwoHalvingsFits(6563, 1024, k);
    } else {
      k := Corners(692, -9559, 2578, -10464, 692, -9559, 2578, -10464);
      assert TwoHalvingsFits(6149, 2616, k);
    }
  }

  lemma TwoHalvingsFourth(a: int, b: int) returns (k: Corners)
    requires FourthSide(a, b)
    ensures k.On() && TwoHalvingsFits(a, b, k)
  {
    if a == 5351 {
      k := Corners(3404, -10633, 3754, -10491, 692, -9559, 2578, -10464);
      assert TwoHalvingsFits(5351, 4182, k);
    } else if a == 4701 {
      k := Corners(4397, -10106, 4906, -9512, 2578, -10464, 3205, -10603);
      assert TwoHalvingsFits(4701, 5199, k);
    } else if a == 4493 {
      k := Corners(4906, -9512, 5665, -8356, 2578, -10464, 3205, -10603);
      assert TwoHalvingsFits(4493, 5507, k);
    } else if a == 3274 {
      k := Corners(5893, -7986, 6557, -6214, 3754, -10491, 4397, -10106);
      assert TwoHalvingsFits(3274, 6726, k);
    } else if a == 2848 {
      k := Corners(5893, -7986, 6557, -6214, 3754, -10491, 4397, -10106);
      assert TwoHalvingsFits(2848, 7132, k);
    } else {
      k := Corners(6783, -5311, 6940, -4620, 4397, -10106, 4906, -9512);
      assert TwoHalvingsFits(1746, 7958, k);
    }
  }

  lemma TwoHalvingsCorners(a: int, b: int) returns (k: Corners)
    requires Side(a, b)
    ensures k.On() && TwoHalvingsFits(a, b, k)
  {
    if FirstSide(a, b) {
      k := TwoHalvingsFirst(a, b);
    } else if SecondSide(a, b) {
      k := TwoHalvingsSecond(a, b);
    } else if ThirdSide(a, b) {
      k := TwoHalvingsThird(a, b);
    } else {
      k := TwoHalvingsFourth(a, b);
    }
  }

  lemma TwoHalvings(f: int, w: int, h: int, y: int, v: nat)
    requires Between(h, w, 7 * h) && 8 * y == w - f && Inside(Side, f, 4 * h, v)
    ensures Shrunk(Side, h, y, 35184372088832, 7819807277899 * v)
  {
    forall a, b | Side(a, b)
      ensures 35184372088832 * Abs(a * h + b * y) <= 7819807277899 * v
    {
      var k := TwoHalvingsCorners(a, b);
      TwoHalvingsRow(Side, a, b, f, w, h, y, v, k);
    }
  }

  lemma TwoHalvingsRow(sides: Sides, a: int, b: int, f: int, w: int, h: int, y: int, v: nat, k: Corners)
    requires Between(h, w, 7 * h) && 8 * y == w - f && Inside(sides, f, 4 * h, v)
    requires k.Of(sides) && TwoHalvingsFits(a, b, k)
    ensures 35184372088832 * Abs(a * h + b * y) <= 7819807277899 * v
  {
    Row(sides, a, b, 1, w, 7, 4, 8, 7819807277899, 35184372088832, f, h, y, v, k);
  }

  predicate ThreeHalvingsFits(a: int, b: int, k: Corners) {
    && Fits(-8 * b, 16 * a + b, k.a0, k.b0, k.c0, k.d0, 17, 256)
    && Fits(-8 * b, 16 * a + 15 * b, k.a1, k.b1, k.c1, k.d1, 17, 256)
  }

  lemma ThreeHalvingsFirst(a: int, b: int) returns (k: Corners)
    requires FirstSide(a, b)
    ensures k.On() && ThreeHalvingsFits(a, b, k)
  {
    if a == 114 {
      k := Corners(7183, -2584, 6717, 169, 4906, -9512, 5665, -8356);
      assert ThreeHalvingsFits(114, -9189, k);
    } else if a == 692 {
      k := Corners(7183, -2584, 6717, 169, 4906, -9512, 5665, -8356);
      assert ThreeHalvingsFits(692, -9559, k);
    } else if a == 2578 {
      k := Corners(6563, 1024, 6149, 2616, 5665, -8356, 5893, -7986);
      assert ThreeHalvingsFits(2578, -10464, k);
    } else if a == 3205 {
      k := Corners(6149, 2616, 5351, 4182, 5893, -7986, 6557, -6214);
      assert ThreeHalvingsFits(3205, -10603, k);
    } else if a == 3404 {
      k := Corners(6149, 2616, 5351, 4182, 5893, -7986, 6557, -6214);
      assert ThreeHalvingsFits(3404, -10633, k);
    } else {
      k := Corners(6149, 2616, 5351, 4182, 5893, -7986, 6557, -6214);
      assert ThreeHalvingsFits(3754, -10491, k);
    }
  }

  lemma ThreeHalvingsSecond(a: int, b: int) returns (k: Corners)
    requires SecondSide(a, b)
    ensures k.On() && ThreeHalvingsFits(a, b, k)
  {
    if a == 4397 {
      k := Corners(6149, 2616, 5351, 4182, 5893, -7986, 6557, -6214);
      assert ThreeHalvingsFits(4397, -10106, k);
    } else if a == 4906 {
      k := Corners(5351, 4182, 4701, 5199, 6557, -6214, 6783, -5311);
      assert ThreeHalvingsFits(4906, -9512, k);
    } else if a == 5665 {
      k := Corners(4493, 5507, 3274, 6726, 6940, -4620, 7163, -2833);
      assert ThreeHalvingsFits(5665, -8356, k);
    } else if a == 5893 {
      k := Corners(4493, 5507, 3274, 6726, 6940, -4620, 7163, -2833);
      assert ThreeHalvingsFits(5893, -7986, k);
    } else if a == 6557 {
      k := Corners(4493, 5507, 3274, 6726, 6563, 1024, 6149, 2616);
      assert ThreeHalvingsFits(6557, -6214, k);
    } else {
      k := Corners(3274, 6726, 2848, 7132, 6149, 2616, 5351, 4182);
      assert ThreeHalvingsFits(6783, -5311, k);
    }
  }

  lemma ThreeHalvingsThird(a: int, b: int) returns (k: Corners)
    requires ThirdSide(a, b)
    ensures k.On() && ThreeHalvingsFits(a, b, k)
  {
    if a == 6940 {
      k := Corners(2848, 7132, 1746, 7958, 4701, 5199, 4493, 5507);
      assert ThreeHalvingsFits(6940, -4620, k);
    } else if a == 7163 {
      k := Corners(1746, 7958, 114, -9189, 2848, 7132, 1746, 7958);
      assert ThreeHalvingsFits(7163, -2833, k);
    } else if a == 7183 {
      k := Corners(1746, 7958, 114, -9189, 2848, 7132, 1746, 7958);
      assert ThreeHalvingsFits(7183, -2584, k);
    } else if a == 6717 {
      k := Corners(114, -9189, 692, -9559, 1746, 7958, 114, -9189);
      assert ThreeHalvingsFits(6717, 169, k);
    } else if a == 6563 {
      k := Corners(692, -9559, 2578, -10464, 114, -9189, 692, -9559);
      assert ThreeHalvingsFits(6563, 1024, k);
    } else {
      k := Corners(692, -9559, 2578, -10464, 692, -9559, 2578, -10464);
      assert ThreeHalvingsFits(6149, 2616, k);
    }
  }

  lemma ThreeHalvingsFourth(a: int, b: int) returns (k: Corners)
    requires FourthSide(a, b)
    ensures k.On() && ThreeHalvingsFits(a, b, k)
  {
    if a == 5351 {
      k := Corners(3754, -10491, 4397, -10106, 692, -9559, 2578, -10464);
      assert ThreeHalvingsFits(5351, 4182, k);
    } else if a == 4701 {
      k := Corners(4906, -9512, 5665, -8356, 2578, -10464, 3205, -10603);
      assert ThreeHalvingsFits(4701, 5199, k);
    } else if a == 4493 {
      k := Corners(4906, -9512, 5665, -8356, 2578, -10464, 3205, -10603);
      assert ThreeHalvingsFits(4493, 5507, k);
    } else if a == 3274 {
      k := Corners(5893, -7986, 6557, -6214, 3404, -10633, 3754, -10491);
      assert ThreeHalvingsFits(3274, 6726, k);
    } else if a == 2848 {
      k := Corners(6557, -6214, 6783, -5311, 3754, -10491, 4397, -10106);
      assert ThreeHalvingsFits(2848, 7132, k);
    } else {
      k := Corners(6940, -4620, 7163, -2833, 3754, -10491, 4397, -10106);
      assert ThreeHalvingsFits(1746, 7958, k);
    }
  }

  lemma ThreeHalvingsCorners(a: int, b: int) returns (k: Corners)
    requires Side(a, b)
    ensures k.On() && ThreeHalvingsFits(a, b, k)
  {
    if FirstSide(a, b) {
      k := ThreeHalvingsFirst(a, b);
    } else if SecondSide(a, b) {
      k := ThreeHalvingsSecond(a, b);
    } else if ThirdSide(a, b) {
      k := ThreeHalvingsThird(a, b);
    } else {
      k := ThreeHalvingsFourth(a, b);
    }
  }

  lemma ThreeHalvings(f: int, w: int, h: int, y: int, v: nat)
    requires Between(h, w, 15 * h) && 16 * y == w - f && Inside(Side, f, 8 * h, v)
    ensures Shrunk(Side, h, y, 17, 2 * v)
  {
    forall a, b | Side(a, b)
      ensures 17 * Abs(a * h + b * y) <= 2 * v
    {
      var k := ThreeHalvingsCorners(a, b);
      ThreeHalvingsRow(Side, a, b, f, w, h, y, v, k);
    }
  }

  lemma ThreeHalvingsRow(sides: Sides, a: int, b: int, f: int, w: int, h: int, y: int, v: nat, k: Corners)
    requires Between(h, w, 15 * h) && 16 * y == w - f && Inside(sides, f, 8 * h, v)
    requires k.Of(sides) && ThreeHalvingsFits(a, b, k)
    ensures 17 * Abs(a * h + b * y) <= 2 * v
  {
    Row(sides, a, b, 1, w, 15, 8, 16, 2, 17, f, h, y, v, k);
  }

  predicate FourHalvingsFits(a: int, b: int, k: Corners) {
    && Fits(-16 * b, 32 * a, k.a0, k.b0, k.c0, k.d0, 16, 512)
    && Fits(-16 * b, 32 * a + 32 * b, k.a1, k.b1, k.c1, k.d1, 16, 512)
  }

  lemma FourHalvingsFirst(a: int, b: int) returns (k: Corners)
    requires FirstSide(a, b)
    ensures k.On() && FourHalvingsFits(a, b, k)
  {
    if a == 114 {
      k := Corners(7183, -2584, 6717, 169, 4397, -10106, 4906, -9512);
      assert FourHalvingsFits(114, -9189, k);
    } else if a == 692 {
      k := Corners(6717, 169, 6563, 1024, 4906, -9512, 5665, -8356);
      assert FourHalvingsFits(692, -9559, k);
    } else if a == 2578 {
      k := Corners(6149, 2616, 5351, 4182, 4906, -9512, 5665, -8356);
      assert FourHalvingsFits(2578, -10464, k);
    } else if a == 3205 {
      k := Corners(6149, 2616, 5351, 4182, 5665, -8356, 5893, -7986);
      assert FourHalvingsFits(3205, -10603, k);
    } else if a == 3404 {
      k := Corners(6149, 2616, 5351, 4182, 5665, -8356, 5893, -7986);
      assert FourHalvingsFits(3404, -10633, k);
    } else {
      k := Corners(6149, 2616, 5351, 4182, 5893, -7986, 6557, -6214);
      assert FourHalvingsFits(3754, -10491, k);
    }
  }

  lemma FourHalvingsSecond(a: int, b: int) returns (k: Corners)
    requires SecondSide(a, b)
    ensures k.On() && FourHalvingsFits(a, b, k)
  {
    if a == 4397 {
      k := Corners(5351, 4182, 4701, 5199, 5893, -7986, 6557, -6214);
      assert FourHalvingsFits(4397, -10106, k);
    } else if a == 4906 {
      k := Corners(5351, 4182, 4701, 5199, 5893, -7986, 6557, -6214);
      assert FourHalvingsFits(4906, -9512, k);
    } else if a == 5665 {
      k := Corners(4493, 5507, 3274, 6726, 6940, -4620, 7163, -2833);
      assert FourHalvingsFits(5665, -8356, k);
    } else if a == 5893 {
      k := Corners(4493, 5507, 3274, 6726, 6940, -4620, 7163, -2833);
      assert FourHalvingsFits(5893, -7986, k);
    } else if a == 6557 {
      k := Corners(3274, 6726, 2848, 7132, 6717, 169, 6563, 1024);
      assert FourHalvingsFits(6557, -6214, k);
    } else {
      k := Corners(2848, 7132, 1746, 7958, 6149, 2616, 5351, 4182);
      assert FourHalvingsFits(6783, -5311, k);
    }
  }

  lemma FourHalvingsThird(a: int, b: int) returns (k: Corners)
    requires ThirdSide(a, b)
    ensures k.On() && FourHalvingsFits(a, b, k)
  {
    if a == 6940 {
      k := Corners(2848, 7132, 1746, 7958, 5351, 4182, 4701, 5199);
      assert FourHalvingsFits(6940, -4620, k);
    } else if a == 7163 {
      k := Corners(1746, 7958, 114, -9189, 2848, 7132, 1746, 7958);
      assert FourHalvingsFits(7163, -2833, k);
    } else if a == 7183 {
      k := Corners(1746, 7958, 114, -9189, 2848, 7132, 1746, 7958);
      assert FourHalvingsFits(7183, -2584, k);
    } else if a == 6717 {
      k := Corners(114, -9189, 692, -9559, 1746, 7958, 114, -9189);
      assert FourHalvingsFits(6717, 169, k);
    } else if a == 6563 {
      k := Corners(692, -9559, 2578, -10464, 114, -9189, 692, -9559);
      assert FourHalvingsFits(6563, 1024, k);
    } else {
      k := Corners(692, -9559, 2578, -10464, 692, -9559, 2578, -10464);
      assert FourHalvingsFits(6149, 2616, k);
    }
  }

  lemma FourHalvingsFourth(a: int, b: int) returns (k: Corners)
    requires FourthSide(a, b)
    ensures k.On() && FourHalvingsFits(a, b, k)
  {
    if a == 5351 {
      k := Corners(3754, -10491, 4397, -10106, 692, -9559, 2578, -10464);
      assert FourHalvingsFits(5351, 4182, k);
    } else if a == 4701 {
      k := Corners(4906, -9512, 5665, -8356, 2578, -10464, 3205, -10603);
      assert FourHalvingsFits(4701, 5199, k);
    } else if a == 4493 {
      k := Corners(4906, -9512, 5665, -8356, 2578, -10464, 3205, -10603);
      assert FourHalvingsFits(4493, 5507, k);
    } else if a == 3274 {
      k := Corners(5893, -7986, 6557, -6214, 3404, -10633, 3754, -10491);
      assert FourHalvingsFits(3274, 6726, k);
    } else if a == 2848 {
      k := Corners(6557, -6214, 6783, -5311, 3404, -10633, 3754, -10491);
      assert FourHalvingsFits(2848, 7132, k);
    } else {
      k := Corners(6940, -4620, 7163, -2833, 3754, -10491, 4397, -10106);
      assert FourHalvingsFits(1746, 7958, k);
    }
  }

  lemma FourHalvingsCorners(a: int, b: int) returns (k: Corners)
    requires Side(a, b)
    ensures k.On() && FourHalvingsFits(a, b, k)
  {
    if FirstSide(a, b) {
      k := FourHalvingsFirst(a, b);
    } else if SecondSide(a, b) {
      k := FourHalvingsSecond(a, b);
    } else if ThirdSide(a, b) {
      k := FourHalvingsThird(a, b);
    } else {
      k := FourHalvingsFourth(a, b);
    }
  }

  lemma FourHalvings(f: int, w: int, h: int, y: int, v: nat)
    requires Between(0, w, 32 * h) && 32 * y == w - f && Inside(Side, f, 16 * h, v)
    ensures Shrunk(Side, h, y, 16, v)
  {
    forall a, b | Side(a, b)
      ensures 16 * Abs(a * h + b * y) <= v
    {
      var k := FourHalvingsCorners(a, b);
      FourHalvingsRow(Side, a, b, f, w, h, y, v, k);
    }
  }

  lemma FourHalvingsRow(sides: Sides, a: int, b: int, f: int, w: int, h: int, y: int, v: nat, k: Corners)
    requires Between(0, w, 32 * h) && 32 * y == w - f && Inside(sides, f, 16 * h, v)
    requires k.Of(sides) && FourHalvingsFits(a, b, k)
    ensures 16 * Abs(a * h + b * y) <= v
  {
    Row(sides, a, b, 0, w, 32, 16, 32, 1, 16, f, h, y, v, k);
  }
}
