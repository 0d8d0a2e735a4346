/** Simultaneous-window scalar multiplication over any commutative group. */
module CurveMul {
  import opened Arith
  import opened Limbs
  import opened Bits
  import opened BitOps
  import opened PowerSplit

  /** A point as the limbs of its coordinates. */
  type Point = seq<Limb>

  /**
   * Point arithmetic on `width`-limb representations, and the group element each one stands for.
   * Only representations on the curve stand for one: off it, as at the all-zero triple, nothing is
   * asked of the formulas. Only the elements obey the group laws; a representation need not be unique.
   */
  datatype Curve<!G(!new)> = Curve(
    width: nat, on: Point -> bool, add: (Point, Point) -> Point, double: Point -> Point, identity: Point,
    value: Point -> G, plus: (G, G) -> G, zero: G)
  {
    /** A representation of a curve point. */
    ghost predicate Is(p: Point) { |p| == width && on(p) }

    /** Commutativity, associativity and the neutral element, applied through `At`. */
    ghost predicate Laws() {
      forall x, y, z {:trigger At(x, y, z)} ::
        plus(x, y) == plus(y, x) && plus(plus(x, y), z) == plus(x, plus(y, z)) && plus(zero, x) == x
    }

    ghost predicate Valid() {
      && Laws()
      && Is(identity) && value(identity) == zero
      && (forall p, q {:trigger add(p, q)} :: Is(p) && Is(q) ==>
            Is(add(p, q)) && value(add(p, q)) == plus(value(p), value(q)))
      && (forall p {:trigger double(p)} ::
            Is(p) ==> Is(double(p)) && value(double(p)) == plus(value(p), value(p)))
    }
  }

  /** Names the elements a group law is applied to. */
  ghost predicate At<G>(x: G, y: G, z: G) { true }

  // ------------------------------------------------------ the group's algebra

  lemma Commutes<G(!new)>(c: Curve<G>, x: G, y: G)
    requires c.Laws()
    ensures c.plus(x, y) == c.plus(y, x)
  {
    assert At(x, y, y);
  }

  lemma Associates<G(!new)>(c: Curve<G>, x: G, y: G, z: G)
    requires c.Laws()
    ensures c.plus(c.plus(x, y), z) == c.plus(x, c.plus(y, z))
  {
    assert At(x, y, z);
  }

  lemma Neutral<G(!new)>(c: Curve<G>, x: G)
    requires c.Laws()
    ensures c.plus(c.zero, x) == x && c.plus(x, c.zero) == x
  {
    assert At(x, c.zero, x);
  }

  /** `k·x`. */
  ghost function Scalar<G(!new)>(c: Curve<G>, k: nat, x: G): G {
    if k == 0 then c.zero else c.plus(Scalar(c, k - 1, x), x)
  }

  /** `Σ d_i·x_i`. */
  ghost function Dot<G(!new)>(c: Curve<G>, ds: seq<nat>, xs: seq<G>): G
    requires |ds| == |xs|
  {
    if |ds| == 0 then c.zero
    else c.plus(Dot(c, ds[..|ds| - 1], xs[..|xs| - 1]), Scalar(c, ds[|ds| - 1], xs[|xs| - 1]))
  }

  lemma {:induction false} ScalarAdd<G(!new)>(c: Curve<G>, j: nat, k: nat, x: G)
    requires c.Laws()
    ensures Scalar(c, j + k, x) == c.plus(Scalar(c, j, x), Scalar(c, k, x))
  {
    if k == 0 {
      Neutral(c, Scalar(c, j, x));
    } else {
      ScalarAdd(c, j, k - 1, x);
      Associates(c, Scalar(c, j, x), Scalar(c, k - 1, x), x);
    }
  }

  lemma Exchange<G(!new)>(c: Curve<G>, a: G, b: G, x: G, y: G)
    requires c.Laws()
    ensures c.plus(c.plus(a, b), c.plus(x, y)) == c.plus(c.plus(a, x), c.plus(b, y))
  {
    Associates(c, a, b, c.plus(x, y));
    Associates(c, b, x, y);
    Commutes(c, b, x);
    Associates(c, x, b, y);
    Associates(c, a, x, c.plus(b, y));
  }

  function Sums(a: seq<nat>, b: seq<nat>): (s: seq<nat>)
    requires |a| == |b|
    ensures |s| == |a| && forall i :: 0 <= i < |s| ==> s[i] == a[i] + b[i]
  {
    seq(|a|, i requires 0 <= i < |a| => a[i] + b[i])
  }

  /** Linear in the digits. */
  lemma {:induction false} DotAdd<G(!new)>(c: Curve<G>, a: seq<nat>, b: seq<nat>, xs: seq<G>)
    requires c.Laws() && |a| == |b| == |xs|
    ensures Dot(c, Sums(a, b), xs) == c.plus(Dot(c, a, xs), Dot(c, b, xs))
  {
    var n := |a|;
    if n == 0 {
      Neutral(c, c.zero);
    } else {
      DotAdd(c, a[..n - 1], b[..n - 1], xs[..n - 1]);
      assert Sums(a, b)[..n - 1] == Sums(a[..n - 1], b[..n - 1]);
      ScalarAdd(c, a[n - 1], b[n - 1], xs[n - 1]);
      Exchange(c, Dot(c, a[..n - 1], xs[..n - 1]), Dot(c, b[..n - 1], xs[..n - 1]),
               Scalar(c, a[n - 1], xs[n - 1]), Scalar(c, b[n - 1], xs[n - 1]));
    }
  }

  lemma {:induction false} DotZero<G(!new)>(c: Curve<G>, ds: seq<nat>, xs: seq<G>)
    requires c.Laws() && |ds| == |xs| && forall i :: 0 <= i < |ds| ==> ds[i] == 0
    ensures Dot(c, ds, xs) == c.zero
  {
    if |ds| > 0 {
      DotZero(c, ds[..|ds| - 1], xs[..|xs| - 1]);
      Neutral(c, c.zero);
    }
  }

  // ------------------------------------------------------- the masked gather

  /** `x ^ y` is zero only when they are equal. */
  lemma {:induction false} XorZero(x: nat, y: nat)
    ensures Xor(x, y) == 0 <==> x == y
    decreases x + y
  {
    if x + y > 0 { XorZero(x / 2, y / 2); }
  }

  lemma {:induction false} XorBound(x: nat, y: nat, k: nat)
    requires x < Pow2(k) && y < Pow2(k)
    ensures Xor(x, y) < Pow2(k)
    decreases k
  {
    if k == 0 {
      assert Pow2(0) == 1;
      assert Xor(0, 0) == 0;
    } else {
      assert Pow2(k) == 2 * Pow2(k - 1);
      XorBound(x / 2, y / 2, k - 1);
    }
  }

  /** The all-ones condition for entry `i`: the spread of `i ^ digit` has a clear top bit. */
  function Takes(i: Limb, digit: Limb): (take: bool)
    ensures take <==> i == digit
  {
    Pow2Limb();
    XorZero(i, digit);
    XorBound(i, digit, 64);
    WordIsZero(Xor(i, digit)) == 1
  }

  /** Limb-wise union with an entry under its mask. */
  function OrMasked(e: Point, t: Point, take: bool): (r: Point)
    requires |e| == |t|
    ensures |r| == |e|
    ensures !take ==> r == e
    ensures take && (forall j :: 0 <= j < |e| ==> e[j] == 0) ==> r == t
  {
    seq(|e|, j requires 0 <= j < |e| => OrLimb(e[j], if take then t[j] else 0))
  }

  function OrLimb(x: Limb, y: Limb): (r: Limb)
    ensures y == 0 ==> r == x
    ensures x == 0 ==> r == y
  {
    Pow2Limb();
    OrZero(x);
    OrZero(y);
    OrCommutes(x, y);
    OrBound(x, y, 64);
    Or(x, y)
  }

  lemma {:induction false} OrBound(x: nat, y: nat, k: nat)
    requires x < Pow2(k) && y < Pow2(k)
    ensures Or(x, y) < Pow2(k)
    decreases k
  {
    if k == 0 {
      assert Pow2(0) == 1;
      assert Or(0, 0) == 0;
    } else {
      assert Pow2(k) == 2 * Pow2(k - 1);
      OrBound(x / 2, y / 2, k - 1);
    }
  }

  /** One masked pass over every entry returns exactly the indexed one. */
  method Gather(table: seq<Point>, digit: nat, width: nat) returns (entry: Point)
    requires digit < |table| <= 16 && forall i :: 0 <= i < |table| ==> |table[i]| == width
    ensures entry == table[digit]
  {
    var zero: Point := seq(width, _ => 0);
    entry := zero;
    for i := 0 to |table|
      invariant entry == if digit < i then table[digit] else zero
    {
      entry := OrMasked(entry, table[i], Takes(i, digit));
    }
  }

  // ------------------------------------------------- four points, one bit each

  /** The elements some representations stand for. */
  ghost function Values<G(!new)>(c: Curve<G>, ps: seq<Point>): (xs: seq<G>)
    ensures |xs| == |ps| && forall i :: 0 <= i < |xs| ==> xs[i] == c.value(ps[i])
  {
    seq(|ps|, i requires 0 <= i < |ps| => c.value(ps[i]))
  }

  /** The four low bits of an index. */
  function FourBits(k: nat): seq<nat> { [k % 2, k / 2 % 2, k / 4 % 2, k / 8 % 2] }

  ghost predicate SubsetEntry<G(!new)>(c: Curve<G>, points: seq<Point>, entry: Point, k: nat)
    requires |points| == 4
  {
    c.Is(entry) && c.value(entry) == Dot(c, FourBits(k), Values(c, points))
  }

  /** A single point is the combination with one unit digit. */
  lemma SinglePoint<G(!new)>(c: Curve<G>, xs: seq<G>, ds: seq<nat>, i: nat)
    requires c.Laws() && |ds| == |xs| && i < |ds| && ds[i] == 1 && forall j :: 0 <= j < |ds| && j != i ==> ds[j] == 0
    ensures Dot(c, ds, xs) == xs[i]
  {
    var n := |ds|;
    if i == n - 1 {
      DotZero(c, ds[..n - 1], xs[..n - 1]);
      assert Scalar(c, 1, xs[i]) == c.plus(Scalar(c, 0, xs[i]), xs[i]);
      Neutral(c, xs[i]);
      Neutral(c, c.plus(c.zero, xs[i]));
    } else {
      SinglePoint(c, xs[..n - 1], ds[..n - 1], i);
      Neutral(c, xs[i]);
    }
  }

  /** Adding representations adds the digit vectors they stand for. */
  lemma EntryAdd<G(!new)>(c: Curve<G>, p: Point, q: Point, a: seq<nat>, b: seq<nat>, xs: seq<G>)
    requires c.Valid() && c.Is(p) && c.Is(q) && |a| == |b| == |xs|
    requires c.value(p) == Dot(c, a, xs) && c.value(q) == Dot(c, b, xs)
    ensures c.Is(c.add(p, q)) && c.value(c.add(p, q)) == Dot(c, Sums(a, b), xs)
  {
    DotAdd(c, a, b, xs);
  }

  lemma EntryDouble<G(!new)>(c: Curve<G>, p: Point, a: seq<nat>, xs: seq<G>)
    requires c.Valid() && c.Is(p) && |a| == |xs| && c.value(p) == Dot(c, a, xs)
    ensures c.Is(c.double(p)) && c.value(c.double(p)) == Dot(c, Sums(a, a), xs)
  {
    DotAdd(c, a, a, xs);
  }

  lemma SubsetBits(i: nat, j: nat)
    requires i < 4 && j < Power(i)
    ensures FourBits(Power(i) + j) == Sums(FourBits(j), FourBits(Power(i)))
    ensures FourBits(Power(i))[i] == 1 && forall k :: 0 <= k < 4 && k != i ==> FourBits(Power(i))[k] == 0
  {
  }

  /** `1 << i` for the four positions. */
  function Power(i: nat): nat
    requires i < 4
  {
    if i == 0 then 1 else if i == 1 then 2 else if i == 2 then 4 else 8
  }

  ghost predicate SubsetTable<G(!new)>(c: Curve<G>, points: seq<Point>, table: seq<Point>, count: nat)
    requires |points| == 4
  {
    |table| == 16 && (forall k :: 0 <= k < 16 ==> c.Is(table[k]))
    && forall k :: 0 <= k < count && k < 16 ==> SubsetEntry(c, points, table[k], k)
  }

  /** The sixteen subset sums: each point doubles the finished prefix. */
  method BuildSubsets<G(!new)>(c: Curve<G>, points: seq<Point>) returns (table: seq<Point>)
    requires c.Valid() && |points| == 4 && forall i :: 0 <= i < 4 ==> c.Is(points[i])
    ensures SubsetTable(c, points, table, 16)
  {
    table := seq(16, _ => c.identity);
    DotZero(c, FourBits(0), Values(c, points));
    for i := 0 to 4
      invariant SubsetTable(c, points, table, if i == 4 then 16 else Power(i))
    {
      table := AddPoint(c, points, table, i);
    }
  }

  method AddPoint<G(!new)>(c: Curve<G>, points: seq<Point>, table0: seq<Point>, i: nat) returns (table: seq<Point>)
    requires c.Valid() && |points| == 4 && (forall k :: 0 <= k < 4 ==> c.Is(points[k]))
    requires i < 4 && SubsetTable(c, points, table0, Power(i))
    ensures SubsetTable(c, points, table, 2 * Power(i))
  {
    var bit := Power(i);
    ghost var xs := Values(c, points);
    SubsetBits(i, 0);
    SinglePoint(c, xs, FourBits(bit), i);
    table := table0[bit := points[i]];
    for j := 1 to bit
      invariant SubsetTable(c, points, table, bit + j)
      invariant table[bit] == points[i]
    {
      SubsetBits(i, j);
      assert SubsetEntry(c, points, table[j], j) && SubsetEntry(c, points, table[bit], bit);
      EntryAdd(c, table[j], points[i], FourBits(j), FourBits(bit), xs);
      table := table[bit + j := c.add(table[j], points[i])];
    }
  }

  /** The digits from bit `b` up. */
  function Above(ds: seq<nat>, b: nat): (r: seq<nat>)
    ensures |r| == |ds| && forall i :: 0 <= i < |ds| ==> r[i] == ds[i] / Pow2(b)
  {
    seq(|ds|, i requires 0 <= i < |ds| => Quot(ds[i], b))
  }

  function Quot(d: nat, b: nat): (q: nat)
    ensures q == d / Pow2(b)
  {
    DivNonNegative(d, Pow2(b));
    d / Pow2(b)
  }

  /** The index gathered for bit `b` of four digits. */
  function BitIndex(ds: seq<nat>, b: nat): (k: nat)
    requires |ds| == 4
    ensures k < 16 && FourBits(k) == [Quot(ds[0], b) % 2, Quot(ds[1], b) % 2, Quot(ds[2], b) % 2, Quot(ds[3], b) % 2]
  {
    Quot(ds[0], b) % 2 + 2 * (Quot(ds[1], b) % 2) + 4 * (Quot(ds[2], b) % 2) + 8 * (Quot(ds[3], b) % 2)
  }

  lemma NextDigit(d: nat, b: nat)
    ensures Quot(d, b) == Quot(d, b + 1) + Quot(d, b + 1) + Quot(d, b) % 2
  {
    DivTwice(d, Pow2(b), 2);
    assert Pow2(b + 1) == Pow2(b) * 2 by { assert Pow(2, b + 1) == 2 * Pow(2, b); }
  }

  lemma BitStep(ds: seq<nat>, b: nat)
    requires |ds| == 4
    ensures Above(ds, b) == Sums(Sums(Above(ds, b + 1), Above(ds, b + 1)), FourBits(BitIndex(ds, b)))
  {
    NextDigit(ds[0], b);
    NextDigit(ds[1], b);
    NextDigit(ds[2], b);
    NextDigit(ds[3], b);
  }

  /** `Σ d_i·P_i` for four 64-bit digits: 64 doublings and 64 gathered additions. */
  method Mul4x64<G(!new)>(c: Curve<G>, points: seq<Point>, digits: seq<nat>) returns (acc: Point)
    requires c.Valid() && |points| == 4 && |digits| == 4
    requires forall i :: 0 <= i < 4 ==> c.Is(points[i]) && digits[i] < B
    ensures c.Is(acc) && c.value(acc) == Dot(c, digits, Values(c, points))
  {
    var table := BuildSubsets(c, points);
    ghost var xs := Values(c, points);
    acc := c.identity;
    Pow2Limb();
    AboveTop(digits, 64);
    DotZero(c, Above(digits, 64), xs);
    var bit := 64;
    while bit > 0
      invariant 0 <= bit <= 64 && c.Is(acc) && c.value(acc) == Dot(c, Above(digits, bit), xs)
    {
      EntryDouble(c, acc, Above(digits, bit), xs);
      acc := c.double(acc);
      bit := bit - 1;
      var k := BitIndex(digits, bit);
      var entry := Gather(table, k, c.width);
      ghost var twice := Sums(Above(digits, bit + 1), Above(digits, bit + 1));
      assert SubsetEntry(c, points, table[k], k);
      EntryAdd(c, acc, entry, twice, FourBits(k), xs);
      BitStep(digits, bit);
      acc := c.add(acc, entry);
    }
    AboveZero(digits);
  }

  lemma AboveTop(ds: seq<nat>, b: nat)
    requires forall i :: 0 <= i < |ds| ==> ds[i] < Pow2(b)
    ensures forall i :: 0 <= i < |ds| ==> Above(ds, b)[i] == 0
  {
    forall i | 0 <= i < |ds| ensures Above(ds, b)[i] == 0 { DivModIs(ds[i], 0, ds[i], Pow2(b)); }
  }

  lemma AboveZero(ds: seq<nat>)
    ensures Above(ds, 0) == ds
  {
    assert Pow2(0) == 1;
  }

  // ------------------------------------------------- two points, two bits each

  /** The two base-4 digits of an index. */
  function TwoDigits(k: nat): seq<nat> { [k % 4, k / 4] }

  ghost predicate PairEntry<G(!new)>(c: Curve<G>, points: seq<Point>, entry: Point, k: nat)
    requires |points| == 2
  {
    c.Is(entry) && c.value(entry) == Dot(c, TwoDigits(k), Values(c, points))
  }

  method DoubleEntry<G(!new)>(c: Curve<G>, points: seq<Point>, p: Point, ghost j: nat, ghost k: nat) returns (r: Point)
    requires c.Valid() && |points| == 2 && PairEntry(c, points, p, j)
             && TwoDigits(k) == Sums(TwoDigits(j), TwoDigits(j))
    ensures PairEntry(c, points, r, k)
  {
    EntryDouble(c, p, TwoDigits(j), Values(c, points));
    r := c.double(p);
  }

  method AddEntries<G(!new)>(c: Curve<G>, points: seq<Point>, p: Point, q: Point, ghost i: nat, ghost j: nat,
                             ghost k: nat)
    returns (r: Point)
    requires c.Valid() && |points| == 2 && PairEntry(c, points, p, i) && PairEntry(c, points, q, j)
    requires TwoDigits(k) == Sums(TwoDigits(i), TwoDigits(j))
    ensures PairEntry(c, points, r, k)
  {
    EntryAdd(c, p, q, TwoDigits(i), TwoDigits(j), Values(c, points));
    r := c.add(p, q);
  }

  /** Multiples of each point at the edges of the table. */
  method Edges<G(!new)>(c: Curve<G>, points: seq<Point>) returns (table: seq<Point>)
    requires c.Valid() && |points| == 2 && c.Is(points[0]) && c.Is(points[1])
    ensures |table| == 16 && forall k :: 0 <= k < 16 ==> c.Is(table[k])
    ensures forall k :: 0 <= k < 16 && (k < 4 || k % 4 == 0) ==> PairEntry(c, points, table[k], k)
  {
    ghost var xs := Values(c, points);
    DotZero(c, TwoDigits(0), xs);
    SinglePoint(c, xs, TwoDigits(1), 0);
    SinglePoint(c, xs, TwoDigits(4), 1);
    var p2 := DoubleEntry(c, points, points[0], 1, 2);
    var p3 := AddEntries(c, points, p2, points[0], 2, 1, 3);
    var q2 := DoubleEntry(c, points, points[1], 4, 8);
    var q3 := AddEntries(c, points, q2, points[1], 8, 4, 12);
    table := seq(16, _ => c.identity);
    table := table[1 := points[0]][2 := p2][3 := p3];
    table := table[4 := points[1]][8 := q2][12 := q3];
  }

  ghost predicate PairTable<G(!new)>(c: Curve<G>, points: seq<Point>, table: seq<Point>)
    requires |points| == 2
  {
    |table| == 16 && forall k :: 0 <= k < 16 ==> PairEntry(c, points, table[k], k)
  }

  /** The inner entries are sums of two edges. */
  method BuildPairs<G(!new)>(c: Curve<G>, points: seq<Point>) returns (table: seq<Point>)
    requires c.Valid() && |points| == 2 && c.Is(points[0]) && c.Is(points[1])
    ensures PairTable(c, points, table)
  {
    table := Edges(c, points);
    for b := 1 to 4
      invariant |table| == 16
      invariant forall k :: 0 <= k < 16 && (k < 4 * b || k % 4 == 0) ==> PairEntry(c, points, table[k], k)
    {
      for a := 1 to 4
        invariant |table| == 16
        invariant forall k :: 0 <= k < 16 && (k < 4 * b + a || k % 4 == 0) ==> PairEntry(c, points, table[k], k)
      {
        assert PairEntry(c, points, table[a], a) && PairEntry(c, points, table[4 * b], 4 * b);
        PairDigits(a, b);
        var r := AddEntries(c, points, table[a], table[4 * b], a, 4 * b, a + 4 * b);
        table := table[a + 4 * b := r];
      }
    }
  }

  lemma PairDigits(a: nat, b: nat)
    requires a < 4 && b < 4
    ensures TwoDigits(a + 4 * b) == Sums(TwoDigits(a), TwoDigits(4 * b))
  {
  }

  /** The index gathered for window `w` of two digits. */
  function PairIndex(ds: seq<nat>, w: nat): (k: nat)
    requires |ds| == 2
    ensures k < 16 && TwoDigits(k) == [Quot(ds[0], 2 * w) % 4, Quot(ds[1], 2 * w) % 4]
  {
    Quot(ds[0], 2 * w) % 4 + 4 * (Quot(ds[1], 2 * w) % 4)
  }

  lemma NextWindow(d: nat, w: nat)
    ensures Quot(d, 2 * w) == 4 * Quot(d, 2 * (w + 1)) + Quot(d, 2 * w) % 4
  {
    DivTwice(d, Pow2(2 * w), 4);
    Pow2Add(2 * w, 2);
    Pow2Limb();
  }

  lemma WindowStep(ds: seq<nat>, w: nat)
    requires |ds| == 2
    ensures var s := Above(ds, 2 * (w + 1));
            Above(ds, 2 * w) == Sums(Sums(Sums(s, s), Sums(s, s)), TwoDigits(PairIndex(ds, w)))
  {
    NextWindow(ds[0], w);
    NextWindow(ds[1], w);
  }

  /** `d_0·P_0 + d_1·P_1` for two 128-bit digits: 128 doublings and 64 gathered additions. */
  method Mul2x128<G(!new)>(c: Curve<G>, points: seq<Point>, digits: seq<nat>) returns (acc: Point)
    requires c.Valid() && |points| == 2 && |digits| == 2
    requires forall i :: 0 <= i < 2 ==> c.Is(points[i]) && digits[i] < B * B
    ensures c.Is(acc) && c.value(acc) == Dot(c, digits, Values(c, points))
  {
    var table := BuildPairs(c, points);
    ghost var xs := Values(c, points);
    acc := c.identity;
    Pow2Limb();
    Pow2Add(64, 64);
    AboveTop(digits, 128);
    DotZero(c, Above(digits, 128), xs);
    var w := 64;
    while w > 0
      invariant 0 <= w <= 64 && c.Is(acc) && c.value(acc) == Dot(c, Above(digits, 2 * w), xs)
    {
      ghost var s := Above(digits, 2 * w);
      EntryDouble(c, acc, s, xs);
      acc := c.double(acc);
      EntryDouble(c, acc, Sums(s, s), xs);
      acc := c.double(acc);
      w := w - 1;
      var k := PairIndex(digits, w);
      assert forall i :: 0 <= i < 16 ==> PairEntry(c, points, table[i], i) && c.Is(table[i]);
      var entry := Gather(table, k, c.width);
      EntryAdd(c, acc, entry, Sums(Sums(s, s), Sums(s, s)), TwoDigits(k), xs);
      WindowStep(digits, w);
      acc := c.add(acc, entry);
    }
    AboveZero(digits);
  }
}
