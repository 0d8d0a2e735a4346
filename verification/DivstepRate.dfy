/** How many divsteps are enough: blocks of divsteps, and a polygon that shrinks over each of them. */
module DivstepRate {
  import opened Arith
  import opened Bits
  import opened Divsteps
  import opened DivstepPolygon

  // ------------------------------------------------------------- the blocks

  lemma {:induction false} OddPart(g: int) returns (k: nat, h: int)
    requires g != 0
    ensures h % 2 == 1 && g == Pow2(k) * h
    decreases Abs(g)
  {
    if g % 2 == 1 {
      k, h := 0, g;
      assert Pow2(0) == 1;
    } else {
      var j;
      j, h := OddPart(g / 2);
      k := j + 1;
      assert Pow2(j + 1) == 2 * Pow2(j);
      DoubleProduct(Pow2(j), h);
    }
  }

  lemma DoubleProduct(p: int, h: int)
    ensures (2 * p) * h == 2 * (p * h)
  {
  }

  /** While `g` is even it is halved, and `ζ` falls. */
  lemma {:induction false} Halvings(f: int, h: int, k: nat, j: nat)
    requires j <= k
    ensures Run(Pair(-1, f, Pow2(k) * h), j) == Pair(-1 - j, f, Pow2(k - j) * h)
  {
    if j > 0 {
      Halvings(f, h, k, j - 1);
      assert Pow2(k - j + 1) == 2 * Pow2(k - j);
      DoubleProduct(Pow2(k - j), h);
    }
  }

  /** While `ζ` is not negative, `f` stays and `g` becomes `(g + c·f)/2^j`. */
  lemma {:induction false} Followed(z: nat, h: int, y: int, j: nat) returns (w: int, c: int)
    requires h % 2 == 1 && j <= z
    ensures Run(Pair(z - 1, h, y), j) == Pair(z - 1 - j, h, w)
    ensures Pow2(j) * w == y + c * h && 0 <= c < Pow2(j)
  {
    if j == 0 {
      w, c := y, 0;
      assert Pow2(0) == 1;
    } else {
      var v, d := Followed(z, h, y, j - 1);
      var e := if v % 2 == 1 then 1 else 0;
      w := (v + e * h) / 2;
      c := d + e * Pow2(j - 1);
      assert 2 * w == v + e * h;
      assert Pow2(j) == 2 * Pow2(j - 1);
      FollowAlgebra(Pow2(j - 1), v, w, y, d, e, h);
    }
  }

  lemma FollowAlgebra(p: int, v: int, w: int, y: int, d: int, e: int, h: int)
    requires p * v == y + d * h && 2 * w == v + e * h
    ensures (2 * p) * w == y + (d + e * p) * h
  {
    assert (2 * p) * w == p * (2 * w);
    assert p * (v + e * h) == p * v + (e * p) * h;
  }

  /**
   * From `ζ = -1`, with `g = 2^k·h` and `h` odd, the next `2k + 1` divsteps give `ζ = -1` again and
   * the pair `(h, (q·h - f)/2^(k+1))` for some odd `q` below `2^(k+1)`.
   */
  ghost predicate Block(f: int, g: int, k: nat, q: int, h: int, y: int) {
    && g == Pow2(k) * h && h % 2 == 1 && q % 2 == 1 && 1 <= q < Pow2(k + 1)
    && Pow2(k + 1) * y == q * h - f
    && Run(Pair(-1, f, g), 2 * k + 1) == Pair(-1, h, y)
  }

  lemma NextBlock(f: int, g: int) returns (k: nat, q: int, h: int, y: int)
    requires f % 2 == 1 && g != 0
    ensures Block(f, g, k, q, h, y)
  {
    k, h := OddPart(g);
    var c;
    y, c := BlockRun(f, g, h, k);
    q := 2 * c + 1;
    assert Pow2(k + 1) == 2 * Pow2(k);
    BlockAlgebra(Pow2(k), y, (h - f) / 2, c, h, f);
  }

  lemma BlockRun(f: int, g: int, h: int, k: nat) returns (y: int, c: int)
    requires f % 2 == 1 && h % 2 == 1 && g == Pow2(k) * h
    ensures Pow2(k) * y == (h - f) / 2 + c * h && 0 <= c < Pow2(k)
    ensures Run(Pair(-1, f, g), 2 * k + 1) == Pair(-1, h, y)
  {
    Swapped(f, g, h, k);
    y, c := Followed(k, h, (h - f) / 2, k);
    RunAdd(Pair(-1, f, g), k + 1, k);
    assert (k + 1) + k == 2 * k + 1;
  }

  lemma Swapped(f: int, g: int, h: int, k: nat)
    requires f % 2 == 1 && h % 2 == 1 && g == Pow2(k) * h
    ensures Run(Pair(-1, f, g), k + 1) == Pair(k - 1, h, (h - f) / 2)
  {
    Halvings(f, h, k, k);
    assert Pow2(0) == 1;
    assert Run(Pair(-1, f, g), k) == Pair(-1 - k, f, h);
  }

  lemma BlockAlgebra(p: int, y: int, x: int, c: int, h: int, f: int)
    requires p * y == x + c * h && 2 * x == h - f
    ensures (2 * p) * y == (2 * c + 1) * h - f
  {
    assert (2 * p) * y == 2 * (p * y);
    assert (2 * c + 1) * h == 2 * (c * h) + h;
  }

  // ------------------------------------- every block shrinks by 379/512 a divstep

  lemma QuotientBetween(q: int, h: int, lo: int, hi: int)
    requires lo <= q <= hi
    ensures Between(lo * h, q * h, hi * h)
  {
    if h >= 0 {
      MulMono(lo, q, h);
      MulMono(q, hi, h);
    } else {
      MulMono(lo, q, -h);
      MulMono(q, hi, -h);
      assert lo * (-h) == -(lo * h) && q * (-h) == -(q * h) && hi * (-h) == -(hi * h);
    }
  }

  /** From four halvings on, two to their number outruns the rate. */
  lemma {:induction false} Outruns(j: nat)
    ensures Pow(512, 2 * j + 9) <= 16 * Pow2(j) * Pow(379, 2 * j + 9)
  {
    if j == 0 {
      assert Pow(512, 3) == 134217728 && Pow(379, 3) == 54439939;
      PowAdd(512, 3, 3);
      PowAdd(512, 6, 3);
      PowAdd(379, 3, 3);
      PowAdd(379, 6, 3);
      assert Pow2(0) == 1;
    } else {
      Outruns(j - 1);
      var (p, r, t) := (Pow(379, 2 * j + 7), Pow(512, 2 * j + 7), Pow2(j - 1));
      assert Pow(379, 2 * j + 9) == 143641 * p && Pow(512, 2 * j + 9) == 262144 * r && Pow2(j) == 2 * t;
      PowPositive(379, 2 * j + 7);
      MulPositive(t, p);
      assert 16 * (2 * t) * (143641 * p) == 287282 * (16 * (t * p)) && 16 * t * p == 16 * (t * p);
    }
  }

  lemma RateAlgebra(z: int, v: int, c: int, p: int, r: int)
    requires c * z <= v && r <= c * p && z >= 0 && p >= 0
    ensures r * z <= p * v
  {
    MulMono(r, c * p, z);
    MulMono(c * z, v, p);
    assert (c * p) * z == (c * z) * p && v * p == p * v;
  }

  /** A bound `c` times over at `(n·h, n·y)` is the rate at `(h, y)` once `n·c` outruns it. */
  lemma Rescaled(sides: Sides, h: int, y: int, n: int, c: int, v: nat, p: int, r: int)
    requires Shrunk(sides, n * h, n * y, c, v) && n > 0 && r <= c * n * p && p > 0
    ensures Shrunk(sides, h, y, r, p * v)
  {
    forall a, b | sides(a, b)
      ensures r * Abs(a * h + b * y) <= p * v
    {
      var z := a * h + b * y;
      assert a * (n * h) + b * (n * y) == n * z by { Spread(n, a * h, b * y); }
      AbsProduct(n, z);
      assert c * (n * Abs(z)) == (c * n) * Abs(z);
      RateAlgebra(Abs(z), v, c * n, p, r);
    }
  }

  lemma ManyHalvings(f: int, j: nat, q: int, h: int, y: int, v: nat)
    requires Inside(Side, f, Pow2(j + 4) * h, v)
    requires 1 <= q < Pow2(j + 5) && Pow2(j + 5) * y == q * h - f
    ensures Shrunk(Side, h, y, Pow(512, 2 * j + 9), Pow(379, 2 * j + 9) * v)
  {
    var n := Pow2(j);
    FourShape(f, j, q, h, y);
    FourHalvings(f, q * h, n * h, n * y, v);
    Outruns(j);
    PowPositive(379, 2 * j + 9);
    Rescaled(Side, h, y, n, 16, v, Pow(379, 2 * j + 9), Pow(512, 2 * j + 9));
  }

  lemma FourShape(f: int, j: nat, q: int, h: int, y: int)
    requires 1 <= q < Pow2(j + 5) && Pow2(j + 5) * y == q * h - f
    ensures var n := Pow2(j);
            Pow2(j + 4) * h == 16 * (n * h) && 32 * (n * y) == q * h - f && Between(0, q * h, 32 * (n * h))
  {
    var n := Pow2(j);
    assert Pow2(j + 4) == 16 * n && Pow2(j + 5) == 32 * n by {
      Pow2Limb();
      Pow2Add(j, 4);
      Pow2Add(j + 4, 1);
    }
    Associated(16, n, h);
    Associated(32, n, h);
    Associated(32, n, y);
    QuotientBetween(q, h, 0, 32 * n);
  }

  lemma Associated(c: int, n: int, h: int)
    ensures (c * n) * h == c * (n * h)
  {
  }

  lemma FewHalvings(f: int, k: nat, q: int, h: int, y: int, v: nat)
    requires k <= 3 && Inside(Side, f, Pow2(k) * h, v)
    requires 1 <= q < Pow2(k + 1) && Pow2(k + 1) * y == q * h - f
    ensures Shrunk(Side, h, y, Pow(512, 2 * k + 1), Pow(379, 2 * k + 1) * v)
  {
    Pow2Limb();
    assert Pow2(0) == 1 && Pow2(3) == 8;
    SmallPowers();
    QuotientBetween(q, h, 1, Pow2(k + 1) - 1);
    if k == 0 {
      NoHalving(f, q * h, h, y, v);
    } else if k == 1 {
      OneHalving(f, q * h, h, y, v);
    } else if k == 2 {
      TwoHalvings(f, q * h, h, y, v);
    } else {
      ThreeHalvings(f, q * h, h, y, v);
      Eased(Side, h, y, v, Pow(379, 7), Pow(512, 7));
    }
  }

  lemma Eased(sides: Sides, h: int, y: int, v: nat, p: int, r: int)
    requires Shrunk(sides, h, y, 17, 2 * v) && 2 * r <= 17 * p && p > 0
    ensures Shrunk(sides, h, y, r, p * v)
  {
    forall a, b | sides(a, b)
      ensures r * Abs(a * h + b * y) <= p * v
    {
      RateAlgebra(Abs(a * h + b * y), 2 * v, 17, p, 2 * r);
    }
  }

  lemma SmallPowers()
    ensures Pow(379, 1) == 379 && Pow(379, 3) == 54439939 && Pow(379, 5) == 7819807277899
    ensures Pow(512, 1) == 512 && Pow(512, 3) == 134217728 && Pow(512, 5) == 35184372088832
    ensures 2 * Pow(512, 7) <= 17 * Pow(379, 7)
  {
    assert Pow(379, 2) == 143641 && Pow(512, 2) == 262144;
    PowAdd(379, 2, 3);
    PowAdd(379, 2, 5);
    PowAdd(512, 2, 3);
    PowAdd(512, 2, 5);
  }

  /** Every block brings every side of the polygon closer by `379/512` for each of its divsteps. */
  lemma EveryBlock(f: int, g: int, k: nat, q: int, h: int, y: int, v: nat)
    requires Block(f, g, k, q, h, y) && Inside(Side, f, g, v)
    ensures Shrunk(Side, h, y, Pow(512, 2 * k + 1), Pow(379, 2 * k + 1) * v)
  {
    if k <= 3 {
      FewHalvings(f, k, q, h, y, v);
    } else {
      ManyHalvings(f, k - 4, q, h, y, v);
    }
  }

  // ---------------------------------------------------- enough divsteps

  /** The pair is within reach of `n` divsteps. */
  ghost predicate Near(sides: Sides, f: int, g: int, n: nat) {
    forall a, b {:trigger sides(a, b)} :: sides(a, b) ==> Abs(a * f + b * g) * Pow(379, n) < 10000 * Pow(512, n)
  }

  /** The scale of the polygon that is just within reach. */
  lemma Reach(sides: Sides, f: int, g: int, n: nat) returns (v: nat)
    requires Near(sides, f, g, n)
    ensures Inside(sides, f, g, v) && v * Pow(379, n) < 10000 * Pow(512, n)
  {
    var (p, r) := (Pow(379, n), 10000 * Pow(512, n));
    PowPositive(379, n);
    PowPositive(512, n);
    DivNonNegative(r - 1, p);
    v := (r - 1) / p;
    assert r - 1 == p * v + (r - 1) % p;
    assert p * v == v * p;
    forall a, b | sides(a, b)
      ensures Abs(a * f + b * g) <= v
    {
      Floored(Abs(a * f + b * g), v, p, r);
    }
  }

  lemma Floored(z: int, v: int, p: int, r: int)
    requires p > 0 && z * p < r && r - 1 < (v + 1) * p
    ensures z <= v
  {
    if z > v { MulMono(v + 1, z, p); }
  }

  lemma NearNext(sides: Sides, h: int, y: int, v: nat, m: nat, n: nat)
    requires Shrunk(sides, h, y, Pow(512, m), Pow(379, m) * v) && v * Pow(379, m + n) < 10000 * Pow(512, m + n)
    ensures Near(sides, h, y, n)
  {
    PowAdd(379, m, n);
    PowAdd(512, m, n);
    PowPositive(512, m);
    PowPositive(379, n);
    forall a, b | sides(a, b)
      ensures Abs(a * h + b * y) * Pow(379, n) < 10000 * Pow(512, n)
    {
      NextAlgebra(v, Abs(a * h + b * y), Pow(379, m), Pow(379, n), Pow(512, m), Pow(512, n));
    }
  }

  lemma NextAlgebra(v: int, w: int, a: int, b: int, c: int, d: int)
    requires c * w <= a * v && v * (a * b) < 10000 * (c * d) && b > 0 && c > 0
    ensures w * b < 10000 * d
  {
    MulMono(c * w, a * v, b);
    assert (c * w) * b == (w * b) * c && (a * v) * b == v * (a * b);
    assert 10000 * (c * d) == (10000 * d) * c;
    MulCancelLess(w * b, 10000 * d, c);
  }

  /** Inside the polygon, `g` is below its scale. */
  lemma HeightBound(f: int, g: int, v: nat)
    requires Inside(Side, f, g, v)
    ensures 9113 * Abs(g) <= v
  {
    SideBound(Side, 1746, 7958, f, g, v);
    SideBound(Side, 114, -9189, f, g, v);
    HeightAlgebra(f, g, v);
  }

  lemma SideBound(sides: Sides, a: int, b: int, f: int, g: int, v: int)
    requires Inside(sides, f, g, v) && sides(a, b)
    ensures -v <= a * f + b * g <= v
  {
  }

  lemma HeightAlgebra(f: int, g: int, v: int)
    requires -v <= 1746 * f + 7958 * g <= v && -v <= 114 * f - 9189 * g <= v
    ensures 9113 * Abs(g) <= v
  {
  }

  /** Odd pairs are outside the polygon. */
  lemma OddFar(f: int, g: int)
    requires f % 2 == 1 && g % 2 == 1
    ensures !Inside(Side, f, g, 9999)
  {
    if Inside(Side, f, g, 9999) {
      HeightBound(f, g, 9999);
      SideBound(Side, 3274, 6726, f, g, 9999);
      SideBound(Side, 2578, -10464, f, g, 9999);
      OddAlgebra(f, g);
    }
  }

  lemma OddAlgebra(f: int, g: int)
    requires f % 2 == 1 && g % 2 == 1 && 9113 * Abs(g) <= 9999
    ensures !(-9999 <= 3274 * f + 6726 * g <= 9999 && -9999 <= 2578 * f - 10464 * g <= 9999)
  {
  }

  /** With `g` twice odd, they are outside the polygon scaled for two divsteps. */
  lemma TwiceOddFar(f: int, g: int)
    requires f % 2 == 1 && g % 4 == 2
    ensures !Inside(Side, f, g, 18249)
  {
    if Inside(Side, f, g, 18249) {
      HeightBound(f, g, 18249);
      SideBound(Side, 3274, 6726, f, g, 18249);
      SideBound(Side, 692, -9559, f, g, 18249);
      TwiceOddAlgebra(f, g);
    }
  }

  lemma TwiceOddAlgebra(f: int, g: int)
    requires f % 2 == 1 && g % 4 == 2 && 9113 * Abs(g) <= 18249
    ensures !(-18249 <= 3274 * f + 6726 * g <= 18249 && -18249 <= 692 * f - 9559 * g <= 18249)
  {
  }

  lemma Widened(sides: Sides, f: int, g: int, v: nat, w: nat)
    requires Inside(sides, f, g, v) && v <= w
    ensures Inside(sides, f, g, w)
  {
  }

  lemma {:induction false} Steeper(k: nat)
    requires k >= 2
    ensures 6 * Pow(512, 2 * k) <= 5 * (Pow2(k) * Pow(379, 2 * k))
  {
    if k == 2 {
      assert Pow(512, 2) == 262144 && Pow(379, 2) == 143641 && Pow2(2) == 4;
      PowAdd(512, 2, 2);
      PowAdd(379, 2, 2);
    } else {
      Steeper(k - 1);
      var (p, r, t) := (Pow(379, 2 * k - 2), Pow(512, 2 * k - 2), Pow2(k - 1));
      assert Pow(379, 2 * k) == 143641 * p && Pow(512, 2 * k) == 262144 * r && Pow2(k) == 2 * t;
      PowPositive(379, 2 * k - 2);
      MulPositive(t, p);
      assert (2 * t) * (143641 * p) == 287282 * (t * p);
    }
  }

  /** What is too much for `2k` divsteps is too much for fewer. */
  lemma {:induction false} FewerSteps(x: int, y: int, n: nat, m: nat)
    requires n <= m && x >= 0 && y >= 0 && y * Pow(512, m) <= x * Pow(379, m)
    ensures y * Pow(512, n) <= x * Pow(379, n)
    decreases m
  {
    if n < m {
      var (p, r) := (Pow(379, m - 1), Pow(512, m - 1));
      assert Pow(379, m) == 379 * p && Pow(512, m) == 512 * r;
      assert y * (512 * r) == 512 * (y * r) && x * (379 * p) == 379 * (x * p);
      PowPositive(512, m - 1);
      MulNonNegative(y, r);
      FewerSteps(x, y, n, m - 1);
    }
  }

  /** An odd `f` with a `g` that has too many halvings ahead is out of reach. */
  lemma TooFar(f: int, g: int, k: nat, h: int, n: nat)
    requires f % 2 == 1 && h % 2 == 1 && g == Pow2(k) * h && n <= 2 * k
    ensures !Near(Side, f, g, n)
  {
    if Near(Side, f, g, n) {
      var v := Reach(Side, f, g, n);
      if k == 0 {
        assert Pow2(0) == 1 && Pow(379, 0) == 1 && Pow(512, 0) == 1;
        Widened(Side, f, g, v, 9999);
        OddFar(f, g);
      } else if k == 1 {
        TwoStepScale(v, n);
        Widened(Side, f, g, v, 18249);
        assert Pow2(1) == 2 by { Pow2Limb(); }
        TwiceOddFar(f, g);
      } else {
        HeightBound(f, g, v);
        ScaleFloor(v, g, k, h, n);
      }
    }
  }

  lemma TwoStepScale(v: nat, n: nat)
    requires n <= 2 && v * Pow(379, n) < 10000 * Pow(512, n)
    ensures v <= 18249
  {
    assert Pow(379, 0) == 1 && Pow(379, 1) == 379 && Pow(379, 2) == 143641;
    assert Pow(512, 0) == 1 && Pow(512, 1) == 512 && Pow(512, 2) == 262144;
    assert n == 0 || n == 1 || n == 2;
  }

  lemma ScaleFloor(v: nat, g: int, k: nat, h: int, n: nat)
    requires k >= 2 && n <= 2 * k && h != 0 && g == Pow2(k) * h && 9113 * Abs(g) <= v
    ensures v * Pow(379, n) >= 10000 * Pow(512, n)
  {
    Steeper(k);
    AbsProduct(Pow2(k), h);
    MulMono(1, Abs(h), Pow2(k));
    assert Abs(g) >= Pow2(k);
    PowPositive(379, 2 * k);
    PowPositive(512, 2 * k);
    MulMono(9113 * Pow2(k), v, Pow(379, 2 * k));
    assert (9113 * Pow2(k)) * Pow(379, 2 * k) == 9113 * (Pow2(k) * Pow(379, 2 * k));
    FewerSteps(v, 10000, n, 2 * k);
  }

  /** From `ζ = -1`, a pair within reach of `n` divsteps has `g = 0` after them. */
  lemma {:induction false} Converges(f: int, g: int, n: nat)
    requires f % 2 == 1 && Near(Side, f, g, n)
    ensures Run(Pair(-1, f, g), n).g == 0
    decreases n
  {
    if g == 0 {
      ZeroStays(Pair(-1, f, g), 0, n);
    } else {
      var m, h, y := NearBlock(f, g, n);
      Converges(h, y, n - m);
      RunAdd(Pair(-1, f, g), m, n - m);
    }
  }

  /** One block of at least one divstep leaves the pair within reach of the rest. */
  lemma NearBlock(f: int, g: int, n: nat) returns (m: nat, h: int, y: int)
    requires f % 2 == 1 && Near(Side, f, g, n) && g != 0
    ensures 1 <= m <= n && h % 2 == 1 && Near(Side, h, y, n - m)
    ensures Run(Pair(-1, f, g), m) == Pair(-1, h, y)
  {
    var k, q;
    k, q, h, y := NextBlock(f, g);
    m := 2 * k + 1;
    if n < m { TooFar(f, g, k, h, n); }
    var v := Reach(Side, f, g, n);
    EveryBlock(f, g, k, q, h, y, v);
    NearNext(Side, h, y, v, m, n - m);
  }

  /** Every start `0 <= a <= m` is in the polygon scaled to `10000·m`. */
  lemma StartSide(a: int, b: int, m: int, x: int)
    requires Abs(a) <= 10000 && Abs(a + b) <= 10000 && 0 <= x <= m
    ensures Abs(a * m + b * x) <= 10000 * m
  {
    BetweenEnds(a * m, b, 0, x, m, 1, 10000 * m) by {
      AbsProduct(a, m);
      AbsProduct(a + b, m);
      MulMono(Abs(a), 10000, m);
      MulMono(Abs(a + b), 10000, m);
      assert (a + b) * m == a * m + b * m;
    }
  }

  lemma StartNear(m: int, x: int, b: nat, n: nat)
    requires 0 <= x <= m < Pow2(b) && Pow2(b) * Pow(379, n) <= Pow(512, n)
    ensures Near(Side, m, x, n)
  {
    forall a, c | Side(a, c)
      ensures Abs(a * m + c * x) * Pow(379, n) < 10000 * Pow(512, n)
    {
      SideEnds(a, c);
      StartAlgebra(a, c, m, x, Pow2(b), Pow(379, n), Pow(512, n)) by { PowPositive(379, n); }
    }
  }

  lemma StartAlgebra(a: int, c: int, m: int, x: int, t: int, p: int, r: int)
    requires Abs(a) <= 10000 && Abs(a + c) <= 10000 && 0 <= x <= m < t && p > 0 && t * p <= r
    ensures Abs(a * m + c * x) * p < 10000 * r
  {
    StartSide(a, c, m, x);
    MulMono(Abs(a * m + c * x), 10000 * m, p);
    MulStrict(m, t, p);
    assert (10000 * m) * p == 10000 * (m * p);
  }

  /** `n` divsteps take every input below an odd `m < 2^b` to `g = 0` once `2^b <= (512/379)^n`. */
  lemma DivstepsSuffice(m: int, a: int, b: nat, n: nat)
    requires m % 2 == 1 && 0 <= a < m < Pow2(b) && Pow2(b) * Pow(379, n) <= Pow(512, n)
    ensures Run(Pair(-1, m, a), n).g == 0
  {
    StartNear(m, a, b, n);
    Converges(m, a, n);
  }

  /** Seven divsteps for every three bits are always enough. */
  lemma LinearBound(m: int, a: int, j: nat, n: nat)
    requires m % 2 == 1 && 0 <= a < m < Pow2(3 * j) && 7 * j <= n
    ensures Run(Pair(-1, m, a), n).g == 0
  {
    LinearRate(j);
    DivstepsSuffice(m, a, 3 * j, 7 * j);
    ZeroStays(Pair(-1, m, a), 7 * j, n);
  }

  lemma {:induction false} LinearRate(j: nat)
    ensures Pow2(3 * j) * Pow(379, 7 * j) <= Pow(512, 7 * j)
  {
    if j == 0 {
      assert Pow2(0) == 1 && Pow(379, 0) == 1 && Pow(512, 0) == 1;
    } else {
      LinearRate(j - 1);
      assert Pow2(3) * Pow(379, 7) <= Pow(512, 7) by {
        SmallPowers();
        assert Pow(379, 2) == 143641 && Pow(512, 2) == 262144 && Pow2(3) == 8;
        PowAdd(379, 2, 5);
        PowAdd(512, 2, 5);
      }
      RateSum(3, 7, 3 * j - 3, 7 * j - 7);
    }
  }

  /** Rates multiply. */
  lemma RateSum(b: nat, n: nat, c: nat, m: nat)
    requires Pow2(b) * Pow(379, n) <= Pow(512, n) && Pow2(c) * Pow(379, m) <= Pow(512, m)
    ensures Pow2(b + c) * Pow(379, n + m) <= Pow(512, n + m)
  {
    Pow2Add(b, c);
    PowAdd(379, n, m);
    PowAdd(512, n, m);
    PowPositive(379, n);
    PowPositive(379, m);
    MulPositive(Pow2(b), Pow(379, n));
    MulPositive(Pow2(c), Pow(379, m));
    ProductBound(Pow2(b) * Pow(379, n), Pow(512, n), Pow2(c) * Pow(379, m), Pow(512, m));
    MulSwap(Pow2(b), Pow(379, n), Pow2(c), Pow(379, m));
  }

  lemma ProductBound(a: int, b: int, c: int, d: int)
    requires 0 <= a <= b && 0 <= c <= d
    ensures a * c <= b * d
  {
    MulMono(a, b, c);
    MulMono(c, d, b);
    assert c * b == b * c && d * b == b * d;
  }

  // ------------------------------------------------ rounds of 59 divsteps

  /** `379^n <= c·2^e`. */
  ghost predicate Below(n: nat, c: int, e: nat) { Pow(379, n) <= c * Pow2(e) }

  /** The product of two bounds, its factor rounded up to `x` while `j` bits move to the exponent. */
  lemma BelowProduct(n: nat, c: int, e: nat, m: nat, d: int, f: nat, x: int, j: nat) returns (k: nat, i: nat)
    requires Below(n, c, e) && Below(m, d, f) && c > 0 && d > 0 && c * d <= x * Pow2(j)
    ensures k == n + m && i == e + f + j && Below(k, x, i)
  {
    k, i := n + m, e + f + j;
    PowAdd(379, n, m);
    PowPositive(379, n);
    PowPositive(379, m);
    Pow2Add(e, f);
    Pow2Add(e + f, j);
    BelowAlgebra(Pow(379, n), Pow(379, m), c, d, Pow2(e), Pow2(f), x, Pow2(j));
  }

  lemma BelowAlgebra(p: int, q: int, c: int, d: int, e: int, f: int, x: int, j: int)
    requires 0 < p <= c * e && 0 < q <= d * f && c * d <= x * j && e > 0 && f > 0
    ensures p * q <= x * ((e * f) * j)
  {
    ProductBound(p, c * e, q, d * f);
    MulSwap(c, e, d, f);
    MulPositive(e, f);
    MulMono(c * d, x * j, e * f);
    assert (x * j) * (e * f) == x * ((e * f) * j);
  }

  lemma Shifts()
    ensures Pow2(8) == 256 && Pow2(9) == 512 && Pow2(11) == 2048 && Pow2(17) == 131072
    ensures Pow2(23) == 8388608 && Pow2(24) == 16777216
  {
    Pow2Limb();
    assert Pow2(3) == 8;
    Pow2Add(4, 4);
    Pow2Add(8, 1);
    Pow2Add(8, 3);
    Pow2Add(9, 8);
    Pow2Add(8, 8);
    Pow2Add(16, 8);
    Pow2Add(24 - 1, 1);
  }

  /** Powers of 379 by squaring, rounded up to 24 bits. */
  lemma Squarings() returns (n: nat, e: nat)
    ensures Below(1, 379, 0) && Below(2, 143641, 0) && Below(4, 10074579, 11) && Below(8, 12099403, 45)
    ensures Below(16, 8725855, 114) && n == 32 && e == 251 && Below(n, 9076661, e)
  {
    assert Pow(379, 1) == 379 && Pow(379, 2) == 143641 && Pow2(0) == 1;
    Shifts();
    n, e := BelowProduct(2, 143641, 0, 2, 143641, 0, 10074579, 11);
    n, e := BelowProduct(4, 10074579, 11, 4, 10074579, 11, 12099403, 23);
    n, e := BelowProduct(8, 12099403, 45, 8, 12099403, 45, 8725855, 24);
    n, e := BelowProduct(16, 8725855, 114, 16, 8725855, 114, 9076661, 23);
  }

  lemma NinthPowers(n: nat)
    ensures Pow(512, n) == Pow2(9 * n)
  {
    Shifts();
    PowMul(2, 9, n);
  }

  /** A round is worth 25 bits. */
  lemma RoundRate(r: nat)
    requires r == 59
    ensures Pow2(25) * Pow(379, r) <= Pow(512, r)
  {
    var n, e := Squarings();
    Shifts();
    n, e := BelowProduct(n, 9076661, e, 16, 8725855, 114, 9441570, 23);
    n, e := BelowProduct(n, 9441570, e, 8, 12099403, 45, 13618155, 23);
    n, e := BelowProduct(n, 13618155, e, 2, 143641, 0, 14924053, 17);
    n, e := BelowProduct(n, 14924053, e, 1, 379, 0, 11047298, 9);
    FromBelow(n, 11047298, e, 25);
  }

  /** Five rounds are worth 128 bits. */
  lemma FiveRoundRate(b: nat, r: nat)
    requires b == 128 && r == 295
    ensures Pow2(b) * Pow(379, r) <= Pow(512, r)
  {
    var n, e := Squarings();
    Shifts();
    var m, f := BelowProduct(n, 9076661, e, n, 9076661, e, 9821150, 23);
    m, f := BelowProduct(m, 9821150, f, m, 9821150, f, 11498331, 23);
    m, f := BelowProduct(m, 11498331, f, m, 11498331, f, 15760853, 23);
    m, f := BelowProduct(m, 15760853, f, n, 9076661, e, 8526798, 24);
    m, f := BelowProduct(m, 8526798, f, 4, 10074579, 11, 10240543, 23);
    m, f := BelowProduct(m, 10240543, f, 2, 143641, 0, 11222549, 17);
    m, f := BelowProduct(m, 11222549, f, 1, 379, 0, 16614634, 8);
    FromBelow(m, 16614634, f, b);
  }

  lemma FromBelow(n: nat, c: int, e: nat, b: nat)
    requires Below(n, c, e) && c <= 16777216 && e + 24 + b <= 9 * n
    ensures Pow2(b) * Pow(379, n) <= Pow(512, n)
  {
    Shifts();
    Pow2Add(24, e);
    MulMono(c, Pow2(24), Pow2(e));
    Pow2Add(b, e + 24);
    PowMonotone(2, e + 24 + b, 9 * n);
    NinthPowers(n);
    MulMono(Pow(379, n), Pow2(e + 24), Pow2(b));
    Commuted(Pow(379, n), Pow2(b));
    Commuted(Pow2(e + 24), Pow2(b));
  }

  /** Ten rounds serve 256 bits. */
  lemma TenRoundRate(b: nat, r: nat)
    requires b == 256 && r == 590
    ensures Pow2(b) * Pow(379, r) <= Pow(512, r)
  {
    FiveRoundRate(b / 2, r / 2);
    RateSum(b / 2, r / 2, b / 2, r / 2);
  }

  /** So `r` rounds serve `25r` bits. */
  lemma {:induction false} RoundsRate(r: nat)
    ensures Pow2(25 * r) * Pow(379, 59 * r) <= Pow(512, 59 * r)
  {
    if r == 0 {
      assert Pow2(0) == 1 && Pow(379, 0) == 1 && Pow(512, 0) == 1;
    } else {
      RoundsRate(r - 1);
      RoundRate(59);
      RateSum(25, 59, 25 * r - 25, 59 * r - 59);
    }
  }
}
