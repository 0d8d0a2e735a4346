/** Fixed-window, joint-window and public-exponent ladders over Montgomery multiplication. */
module Ladders {
  import opened Arith
  import opened Limbs
  import opened LimbOps
  import opened Bits
  import opened Montgomery
  import opened BoxedMont

  /** `⌈bits/width⌉`, at least one window. */
  function Windows(bits: nat, width: nat): (w: nat)
    requires width >= 1
    ensures w >= 1 && w * width >= bits
  {
    WindowsCover(bits, width);
    if bits == 0 then 1 else (bits + width - 1) / width
  }

  lemma WindowsCover(bits: nat, width: nat)
    requires width >= 1
    ensures bits > 0 ==> (bits + width - 1) / width >= 1 && (bits + width - 1) / width * width >= bits
  {
    if bits > 0 { ChunkCount(bits, width); }
  }

  /** Window `w` of an exponent for a width dividing 64; past the storage it reads as zero. */
  function WindowDigit(e: seq<Limb>, w: nat, width: nat): (d: int)
    requires width == 4 || width == 2
    ensures 0 <= d < Pow2(width)
  {
    var per := 64 / width;
    if w / per < |e| then Field(e[w / per], width * (w % per), width) else 0
  }

  lemma WindowDigitIsField(e: seq<Limb>, w: nat, width: nat)
    requires width == 4 || width == 2
    ensures WindowDigit(e, w, width) == Field(Nat(e), width * w, width)
  {
    if width == 4 {
      WindowIsField(e, w / 16, 4 * (w % 16), 4);
      assert 4 * w == 64 * (w / 16) + 4 * (w % 16);
    } else {
      WindowIsField(e, w / 32, 2 * (w % 32), 2);
      assert 2 * w == 64 * (w / 32) + 2 * (w % 32);
    }
  }

  lemma WindowIsField(e: seq<Limb>, i: nat, pos: nat, width: nat)
    requires pos + width <= 64
    ensures Field(Nat(e), 64 * i + pos, width) == if i < |e| then Field(e[i], pos, width) else 0
  {
    if i < |e| { LimbField(e, i, pos, width); } else { FieldPastEnd(e, 64 * i + pos, width); }
  }

  /** The exponent a ladder of `windows` windows sees. */
  ghost function Seen(e: seq<Limb>, windows: nat, width: nat): (r: int)
    ensures 0 <= r < Pow2(width * windows)
  {
    Nat(e) % Pow2(width * windows)
  }

  /** The part of the seen exponent from window `w` up. */
  ghost function From(e: seq<Limb>, windows: nat, width: nat, w: nat): (r: int)
    ensures r >= 0
  {
    DivNonNegative(Seen(e, windows, width), Pow2(width * w));
    Seen(e, windows, width) / Pow2(width * w)
  }

  lemma FromTop(e: seq<Limb>, windows: nat, width: nat)
    requires windows >= 1 && (width == 4 || width == 2)
    ensures From(e, windows, width, windows - 1) == WindowDigit(e, windows - 1, width)
  {
    var pos := width * (windows - 1);
    assert pos + width == width * windows;
    WindowDigitIsField(e, windows - 1, width);
    FieldOfLow(Nat(e), pos, width, width * windows);
    TopField(Seen(e, windows, width), pos, width);
  }

  lemma FromStep(e: seq<Limb>, windows: nat, width: nat, w: nat)
    requires w + 1 < windows && (width == 4 || width == 2)
    ensures From(e, windows, width, w) == From(e, windows, width, w + 1) * Pow2(width) + WindowDigit(e, w, width)
  {
    WindowDigitIsField(e, w, width);
    FieldOfLow(Nat(e), width * w, width, width * windows);
    ShiftStep(Seen(e, windows, width), width * w, width);
  }

  lemma FromBottom(e: seq<Limb>, windows: nat, width: nat)
    ensures From(e, windows, width, 0) == Seen(e, windows, width)
  {
    assert Pow2(0) == 1;
  }

  /** An exponent below the public bound is seen whole. */
  lemma SeenWhole(e: seq<Limb>, bits: nat, width: nat)
    requires width >= 1 && Nat(e) < Pow2(bits)
    ensures Seen(e, Windows(bits, width), width) == Nat(e)
  {
    PowMonotone(2, bits, width * Windows(bits, width));
    DivModIs(Nat(e), 0, Nat(e), Pow2(width * Windows(bits, width)));
  }

  // ------------------------------------- which exponent bits are ignored

  /** What is left of the last window above `bits`. */
  function Rest(bits: nat, width: nat): nat
    requires width >= 1
  {
    Windows(bits, width) * width - bits
  }

  /** Whole windows are read, so bits from `bits` up go unseen exactly when the last window's rest is clear. */
  lemma SeenExactly(e: seq<Limb>, bits: nat, width: nat)
    requires width >= 1
    ensures Seen(e, Windows(bits, width), width) == Nat(e) % Pow2(bits) <==> Field(Nat(e), bits, Rest(bits, width)) == 0
    ensures Seen(e, Windows(bits, width), width) >= Nat(e) % Pow2(bits) >= 0
  {
    var rest := Rest(bits, width);
    assert width * Windows(bits, width) == bits + rest;
    Pow2Add(bits, rest);
    ModSplit(Nat(e), Pow2(bits), Pow2(rest));
    CongMod(Nat(e), Pow2(bits));
    var f := Field(Nat(e), bits, rest);
    if f >= 1 { MulPositive(f, Pow2(bits)); }
  }

  /** The two exponents give the same residue of `base` modulo `n`. */
  ghost predicate SamePower(base: nat, n: int, x: nat, y: nat)
    requires n > 0
  {
    Pow(base, x) % n == Pow(base, y) % n
  }

  /** Some odd modulus separates the powers of two with different exponents. */
  lemma PowersSeparate(x: nat, y: nat)
    requires x > y
    ensures Pow2(x + 1) + 1 > 1 && (Pow2(x + 1) + 1) % 2 == 1 && !SamePower(2, Pow2(x + 1) + 1, x, y)
  {
    assert Pow2(x + 1) == 2 * Pow2(x);
    assert Pow2(y + 1) == 2 * Pow2(y);
    PowMonotone(2, y + 1, x);
    PowPositive(2, y);
    ResiduesDiffer(Pow2(x), Pow2(y));
  }

  lemma ResiduesDiffer(a: int, b: int)
    requires 0 < b < a
    ensures 2 * a + 1 > 1 && (2 * a + 1) % 2 == 1 && a % (2 * a + 1) != b % (2 * a + 1)
  {
    DivModIs(a, 0, a, 2 * a + 1);
    DivModIs(b, 0, b, 2 * a + 1);
  }

  /**
   * The ladder's residue is that of `exp mod 2^bits` for every base and every odd modulus exactly
   * when the rest of the last window is clear.
   */
  lemma IgnoredExactly(e: seq<Limb>, bits: nat, width: nat)
    requires width >= 1
    ensures (forall base: nat, n: int :: n > 1 && n % 2 == 1 ==>
               SamePower(base, n, Seen(e, Windows(bits, width), width), LowBits(e, bits)))
            <==> Field(Nat(e), bits, Rest(bits, width)) == 0
  {
    var x, y := Seen(e, Windows(bits, width), width), LowBits(e, bits);
    SeenExactly(e, bits, width);
    if x > y { PowersSeparate(x, y); }
  }

  /** `exp mod 2^bits`, the exponent the documentation promises. */
  ghost function LowBits(e: seq<Limb>, bits: nat): (x: nat)
    ensures x == Nat(e) % Pow2(bits)
  {
    CongMod(Nat(e), Pow2(bits));
    Nat(e) % Pow2(bits)
  }

  /** The same for the joint ladder: both rests must be clear. */
  lemma JointIgnoredExactly(x: seq<Limb>, y: seq<Limb>, bits: nat)
    ensures (forall a: nat, b: nat, n: int :: n > 1 && n % 2 == 1 ==>
               SameJoint(a, b, n, Seen(x, Windows(bits, 2), 2), Seen(y, Windows(bits, 2), 2),
                         LowBits(x, bits), LowBits(y, bits)))
            <==> Field(Nat(x), bits, Rest(bits, 2)) == 0 && Field(Nat(y), bits, Rest(bits, 2)) == 0
  {
    var (x0, y0) := (Seen(x, Windows(bits, 2), 2), Seen(y, Windows(bits, 2), 2));
    var x1, y1 := LowBits(x, bits), LowBits(y, bits);
    SeenExactly(x, bits, 2);
    SeenExactly(y, bits, 2);
    if x0 > x1 {
      PowersSeparate(x0, x1);
      SameJointLeft(2, Pow2(x0 + 1) + 1, x0, y0, x1, y1);
    }
    if y0 > y1 {
      PowersSeparate(y0, y1);
      SameJointRight(2, Pow2(y0 + 1) + 1, x0, y0, x1, y1);
    }
  }

  ghost predicate SameJoint(a: nat, b: nat, n: int, x0: nat, y0: nat, x1: nat, y1: nat)
    requires n > 0
  {
    Pow(a, x0) * Pow(b, y0) % n == Pow(a, x1) * Pow(b, y1) % n
  }

  lemma SameJointLeft(a: nat, n: int, x0: nat, y0: nat, x1: nat, y1: nat)
    requires n > 0
    ensures SameJoint(a, 1, n, x0, y0, x1, y1) <==> SamePower(a, n, x0, x1)
  {
    PowOne(y0);
    PowOne(y1);
  }

  lemma SameJointRight(b: nat, n: int, x0: nat, y0: nat, x1: nat, y1: nat)
    requires n > 0
    ensures SameJoint(1, b, n, x0, y0, x1, y1) <==> SamePower(b, n, y0, y1)
  {
    PowOne(x0);
    PowOne(x1);
  }

  // ------------------------------------------------------------- the ladders

  /** A residue in Montgomery form, stored at the width of the modulus. */
  ghost predicate Holds(m: MontModulus, v: seq<Limb>, x: int) {
    m.Shape() && |v| == |m.n| && m.InMont(Val(B, v, m.s), x)
  }

  /** Into the domain, for any `s`-limb operand. */
  method ToMont(m: MontModulus, x: seq<Limb>) returns (v: seq<Limb>)
    requires m.Valid() && m.s <= |x|
    ensures Holds(m, v, Val(B, x, m.s))
  {
    v := MontMul(m, x, m.r2);
    MontOfR2(m, Val(B, v, m.s), Val(B, x, m.s), Val(B, m.r2, m.s));
  }

  method Times2(m: MontModulus, a: seq<Limb>, b: seq<Limb>, ghost x: int, ghost y: int) returns (v: seq<Limb>)
    requires m.Valid() && Holds(m, a, x) && Holds(m, b, y)
    ensures Holds(m, v, x * y)
  {
    v := MontMul(m, a, b);
    MontOfProduct(m, Val(B, v, m.s), Val(B, a, m.s), Val(B, b, m.s), x, y);
  }

  /** `k` squarings: the power rises by `2^k`. */
  method SquareTimes(m: MontModulus, a: seq<Limb>, k: nat, ghost x: int) returns (v: seq<Limb>)
    requires m.Valid() && Holds(m, a, x)
    ensures Holds(m, v, Pow(x, Pow2(k)))
  {
    v := a;
    var i := 0;
    assert Pow2(0) == 1 && Pow(x, 1) == x by { assert Pow(x, 0) == 1; }
    while i < k
      invariant 0 <= i <= k && Holds(m, v, Pow(x, Pow2(i)))
    {
      ghost var y := Pow(x, Pow2(i));
      ghost var before := Val(B, v, m.s);
      v := MontSqr(m, v);
      MontOfProduct(m, Val(B, v, m.s), before, before, y, y);
      PowAdd(x, Pow2(i), Pow2(i));
      assert Pow2(i + 1) == Pow2(i) + Pow2(i) by { assert Pow(2, i + 1) == 2 * Pow(2, i); }
      i := i + 1;
    }
  }

  /** The masked scan of every entry returns the indexed one. */
  method Gather<T>(table: seq<T>, idx: nat) returns (sel: T)
    requires idx < |table|
    ensures sel == table[idx]
  {
    sel := table[0];
    for j := 0 to |table|
      invariant idx < j ==> sel == table[idx]
    {
      sel := if j == idx then table[j] else sel;
    }
  }

  /** Entry `i` is `base^i`. */
  ghost predicate PowerTable(m: MontModulus, table: seq<seq<Limb>>, base: int) {
    |table| == 16 && forall i :: 0 <= i < 16 ==> Holds(m, table[i], Pow(base, i))
  }

  method BuildPowers(m: MontModulus, base: seq<Limb>) returns (table: seq<seq<Limb>>)
    requires m.Valid() && m.s <= |base|
    ensures PowerTable(m, table, Val(B, base, m.s))
  {
    ghost var b := Val(B, base, m.s);
    var baseM := ToMont(m, base);
    var one: seq<Limb> := seq(m.s, j => if j == 0 then 1 else 0);
    ValSingle(one, 0, m.s);
    assert Pow(B, 0) == 1;
    var oneM := ToMont(m, one);
    table := [oneM, baseM];
    assert Pow(b, 0) == 1 && Pow(b, 1) == b;
    var i := 2;
    while i < 16
      invariant 2 <= i <= 16 && |table| == i && table[1] == baseM
      invariant forall k :: 0 <= k < i ==> Holds(m, table[k], Pow(b, k))
    {
      var next := Times2(m, table[i - 1], baseM, Pow(b, i - 1), b);
      assert Pow(b, i - 1) * b == Pow(b, i);
      table := table + [next];
      i := i + 1;
    }
  }

  /**
   * `base^exp mod N` with 4-bit windows over `bits` exponent bits, the base padded or cut to the
   * modulus' width. For any exponent the result is that of its low `4·⌈bits/4⌉` bits; it is that
   * of its low `bits` bits when the rest of the last window is clear.
   */
  method PowBits(m: MontModulus, base: seq<Limb>, exp: seq<Limb>, bits: nat) returns (out: seq<Limb>)
    requires m.Valid()
    ensures |out| == |m.n| && m.N() > 0
    ensures Nat(out) == Pow(Nat(Resized(base, m.s)), Seen(exp, Windows(bits, 4), 4)) % m.N()
    ensures Nat(exp) < Pow2(bits) ==> Nat(out) == Pow(Nat(Resized(base, m.s)), Nat(exp)) % m.N()
    ensures Field(Nat(exp), bits, Rest(bits, 4)) == 0 ==>
              Nat(out) == Pow(Nat(Resized(base, m.s)), LowBits(exp, bits)) % m.N()
  {
    var sized := Resized(base, m.s);
    ghost var b := Nat(sized);
    assert Pow2(4) == 16 by { Pow2Limb(); }
    var table := BuildPowers(m, sized);
    var windows := Windows(bits, 4);
    var w := windows - 1;
    var acc := Gather(table, WindowDigit(exp, w, 4));
    FromTop(exp, windows, 4);
    while w > 0
      invariant 0 <= w < windows
      invariant Holds(m, acc, Pow(b, From(exp, windows, 4, w)))
    {
      ghost var hi := From(exp, windows, 4, w);
      w := w - 1;
      acc := SquareTimes(m, acc, 4, Pow(b, hi));
      var d := WindowDigit(exp, w, 4);
      var sel := Gather(table, d);
      acc := Times2(m, acc, sel, Pow(Pow(b, hi), 16), Pow(b, d));
      FromStep(exp, windows, 4, w);
      WindowPower(b, hi, 16, d);
    }
    FromBottom(exp, windows, 4);
    out := Demont(m, acc, Pow(b, Seen(exp, windows, 4)));
    if Nat(exp) < Pow2(bits) { SeenWhole(exp, bits, 4); }
    SeenExactly(exp, bits, 4);
  }

  /** One exponent bit and exponent two: base three differs modulo every odd `n` above one. */
  lemma IgnoredBitsDiffer(n: int)
    requires n >= 1 && n % 2 == 1
    ensures Seen([2], Windows(1, 4), 4) == 2 && LowBits([2], 1) == 0
    ensures SamePower(3, n, 2, 0) <==> n == 1
  {
    var e: seq<Limb> := [2];
    assert Nat(e) == 2 by { assert Val(B, e, 1) == Val(B, e, 0) + e[0] * Pow(B, 0); }
    assert Windows(1, 4) == 1;
    Pow2Limb();
    assert Pow(3, 2) == 3 * Pow(3, 1) && Pow(3, 1) == 3 * Pow(3, 0) && Pow(3, 0) == 1;
    if n > 1 {
      CongIsMod(9, 1, n);
      OddDivisorOfEight(n);
    }
  }

  lemma OddDivisorOfEight(n: int)
    requires n > 1 && n % 2 == 1
    ensures !Cong(9, 1, n)
  {
    if Cong(9, 1, n) { NoOddFactor(CongWitness(9, 1, n), n); }
  }

  lemma NoOddFactor(k: int, n: int)
    requires n > 1 && n % 2 == 1
    ensures k * n != 8
  {
    if k <= 0 {
      MulMono(k, 0, n);
    } else if k >= 8 {
      MulMono(8, k, n);
    } else {
      assert k == 1 || k == 2 || k == 3 || k == 4 || k == 5 || k == 6 || k == 7;
    }
  }

  /** A call whose result is the documented power only modulo one. */
  method IgnoredBitCounts(m: MontModulus) returns (out: seq<Limb>)
    requires m.Valid()
    ensures |out| == |m.n| && m.N() > 0 && Nat(out) == 9 % m.N()
    ensures Nat(out) == Pow(3, LowBits([2], 1)) % m.N() <==> m.N() == 1
  {
    out := PowBits(m, [3], [2], 1);
    ModulusPositive(m);
    IgnoredBitsDiffer(m.N());
    assert Nat([3]) == 3 by { assert Val(B, [3], 1) == Val(B, [3], 0) + 3 * Pow(B, 0); }
    assert Pow(3, 2) == 3 * Pow(3, 1) && Pow(3, 1) == 3 * Pow(3, 0) && Pow(3, 0) == 1;
  }

  lemma WindowPower(b: int, hi: nat, k: nat, d: nat)
    ensures Pow(Pow(b, hi), k) * Pow(b, d) == Pow(b, hi * k + d)
  {
    PowMul(b, hi, k);
    MulNonNegative(hi, k);
    PowAdd(b, hi * k, d);
  }

  // ------------------------------------------------------- the joint window

  /** Entry `i + 4j` is `a^i·b^j`. */
  ghost predicate JointEntry(m: MontModulus, v: seq<Limb>, a: int, b: int, k: nat) {
    Holds(m, v, Pow(a, k % 4) * Pow(b, k / 4))
  }

  /** Row `j` is complete once its first entry is: each entry is the one before times `a`. */
  method FillRow(m: MontModulus, table0: seq<seq<Limb>>, j: nat, ghost a: int, ghost b: int)
    returns (table: seq<seq<Limb>>)
    requires m.Valid() && |table0| == 16 && j < 4
    requires JointEntry(m, table0[4 * j], a, b, 4 * j) && Holds(m, table0[1], a)
    ensures |table| == 16 && forall k :: 0 <= k < 16 && !(4 * j < k < 4 * j + 4) ==> table[k] == table0[k]
    ensures forall k :: 4 * j <= k < 4 * j + 4 ==> JointEntry(m, table[k], a, b, k)
    ensures Holds(m, table[1], a)
  {
    table := table0;
    var i := 1;
    while i < 4
      invariant 1 <= i <= 4 && |table| == 16 && table[1] == table0[1]
      invariant forall k :: 0 <= k < 16 && !(4 * j < k < 4 * j + 4) ==> table[k] == table0[k]
      invariant forall k :: 4 * j <= k < 4 * j + i ==> JointEntry(m, table[k], a, b, k)
    {
      var k := 4 * j + i;
      JointNext(a, b, j, i);
      if k != 1 {
        var v := Times2(m, table[k - 1], table[1], Pow(a, i - 1) * Pow(b, j), a);
        table := table[k := v];
      }
      i := i + 1;
    }
  }

  lemma JointNext(a: int, b: int, j: nat, i: nat)
    requires j < 4 && 1 <= i < 4
    ensures (4 * j + i) % 4 == i && (4 * j + i) / 4 == j && (4 * j + i - 1) % 4 == i - 1 && (4 * j + i - 1) / 4 == j
    ensures Pow(a, i - 1) * Pow(b, j) * a == Pow(a, i) * Pow(b, j)
    ensures j == 0 && i == 1 ==> Pow(a, i) * Pow(b, j) == a
  {
    var x, y := Pow(a, i - 1), Pow(b, j);
    assert (x * y) * a == (a * x) * y;
    if j == 0 && i == 1 { assert Pow(a, 0) == 1 && Pow(b, 0) == 1; }
  }

  /** The first column: `1, b, b^2, b^3` at entries 0, 4, 8, 12, and `a` at entry 1. */
  method FirstColumn(m: MontModulus, a: seq<Limb>, b: seq<Limb>) returns (table: seq<seq<Limb>>)
    requires m.Valid() && m.s <= |a| && m.s <= |b|
    ensures |table| == 16 && Holds(m, table[1], Val(B, a, m.s))
    ensures forall j :: 0 <= j < 4 ==> JointEntry(m, table[4 * j], Val(B, a, m.s), Val(B, b, m.s), 4 * j)
  {
    ghost var x, y := Val(B, a, m.s), Val(B, b, m.s);
    var one: seq<Limb> := seq(m.s, j => if j == 0 then 1 else 0);
    ValSingle(one, 0, m.s);
    assert Pow(B, 0) == 1;
    var oneM := ToMont(m, one);
    var aM := ToMont(m, a);
    var bM := ToMont(m, b);
    ColumnPowers(x, y);
    var b2 := SquareTimes(m, bM, 1, y);
    var b3 := Times2(m, b2, bM, y * y, y);
    assert JointEntry(m, oneM, x, y, 0) && JointEntry(m, bM, x, y, 4);
    assert JointEntry(m, b2, x, y, 8) && JointEntry(m, b3, x, y, 12);
    table := seq(16, _ => oneM);
    table := table[1 := aM][4 := bM][8 := b2][12 := b3];
  }

  lemma ColumnPowers(x: int, y: int)
    ensures Pow(x, 0) * Pow(y, 0) == 1 && Pow(x, 0) * Pow(y, 1) == y
    ensures Pow2(1) == 2 && Pow(y, 2) == y * y && Pow(x, 0) * Pow(y, 2) == y * y && Pow(x, 0) * Pow(y, 3) == y * y * y
  {
    assert Pow(y, 3) == y * Pow(y, 2) && Pow(y, 2) == y * Pow(y, 1) && Pow(y, 1) == y * Pow(y, 0);
  }

  /**
   * `a^x·b^y mod N` with one chain of squarings and 2-bit joint windows over `bits` bits.
   */
  method Pow2Bits(m: MontModulus, a: seq<Limb>, x: seq<Limb>, b: seq<Limb>, y: seq<Limb>, bits: nat)
    returns (out: seq<Limb>)
    requires m.Valid()
    ensures |out| == |m.n| && m.N() > 0
    ensures var (w, u, v) := (Windows(bits, 2), Nat(Resized(a, m.s)), Nat(Resized(b, m.s)));
            Nat(out) == Pow(u, Seen(x, w, 2)) * Pow(v, Seen(y, w, 2)) % m.N()
    ensures Nat(x) < Pow2(bits) && Nat(y) < Pow2(bits) ==>
              Nat(out) == Pow(Nat(Resized(a, m.s)), Nat(x)) * Pow(Nat(Resized(b, m.s)), Nat(y)) % m.N()
    ensures Field(Nat(x), bits, Rest(bits, 2)) == 0 && Field(Nat(y), bits, Rest(bits, 2)) == 0 ==>
              var (u, v) := (Nat(Resized(a, m.s)), Nat(Resized(b, m.s)));
              Nat(out) == Pow(u, LowBits(x, bits)) * Pow(v, LowBits(y, bits)) % m.N()
  {
    var sizedA, sizedB := Resized(a, m.s), Resized(b, m.s);
    ghost var va, vb := Nat(sizedA), Nat(sizedB);
    var table := JointTable(m, sizedA, sizedB);
    var windows := Windows(bits, 2);
    var w := windows - 1;
    assert Pow2(2) == 4 by { Pow2Limb(); }
    var acc := Gather(table, WindowDigit(x, w, 2) + 4 * WindowDigit(y, w, 2));
    JointDigit(m, acc, va, vb, WindowDigit(x, w, 2), WindowDigit(y, w, 2));
    FromTop(x, windows, 2);
    FromTop(y, windows, 2);
    while w > 0
      invariant 0 <= w < windows
      invariant Holds(m, acc, Pow(va, From(x, windows, 2, w)) * Pow(vb, From(y, windows, 2, w)))
    {
      ghost var hx, hy := From(x, windows, 2, w), From(y, windows, 2, w);
      w := w - 1;
      var dx, dy := WindowDigit(x, w, 2), WindowDigit(y, w, 2);
      acc := JointStep(m, table, acc, dx, dy, va, vb, hx, hy);
      FromStep(x, windows, 2, w);
      FromStep(y, windows, 2, w);
    }
    FromBottom(x, windows, 2);
    FromBottom(y, windows, 2);
    out := Demont(m, acc, Pow(va, Seen(x, windows, 2)) * Pow(vb, Seen(y, windows, 2)));
    if Nat(x) < Pow2(bits) && Nat(y) < Pow2(bits) {
      SeenWhole(x, bits, 2);
      SeenWhole(y, bits, 2);
    }
    SeenExactly(x, bits, 2);
    SeenExactly(y, bits, 2);
  }

  method JointTable(m: MontModulus, a: seq<Limb>, b: seq<Limb>) returns (table: seq<seq<Limb>>)
    requires m.Valid() && m.s <= |a| && m.s <= |b|
    ensures |table| == 16 && forall k :: 0 <= k < 16 ==> JointEntry(m, table[k], Val(B, a, m.s), Val(B, b, m.s), k)
  {
    ghost var va, vb := Val(B, a, m.s), Val(B, b, m.s);
    table := FirstColumn(m, a, b);
    var j := 0;
    while j < 4
      invariant 0 <= j <= 4 && |table| == 16 && Holds(m, table[1], va)
      invariant forall i :: j <= i < 4 ==> JointEntry(m, table[4 * i], va, vb, 4 * i)
      invariant forall k :: 0 <= k < 4 * j ==> JointEntry(m, table[k], va, vb, k)
    {
      table := FillRow(m, table, j, va, vb);
      j := j + 1;
    }
  }

  lemma JointDigit(m: MontModulus, v: seq<Limb>, a: int, b: int, dx: nat, dy: nat)
    requires dx < 4 && dy < 4 && JointEntry(m, v, a, b, dx + 4 * dy)
    ensures Holds(m, v, Pow(a, dx) * Pow(b, dy))
  {
    assert (dx + 4 * dy) % 4 == dx && (dx + 4 * dy) / 4 == dy;
  }

  /** One joint window: two squarings and one table entry raise both exponents. */
  method JointStep(m: MontModulus, table: seq<seq<Limb>>, acc: seq<Limb>, dx: nat, dy: nat,
                   ghost a: int, ghost b: int, ghost hx: nat, ghost hy: nat) returns (next: seq<Limb>)
    requires m.Valid() && |table| == 16 && (forall k :: 0 <= k < 16 ==> JointEntry(m, table[k], a, b, k))
    requires dx < 4 && dy < 4 && Holds(m, acc, Pow(a, hx) * Pow(b, hy))
    ensures Holds(m, next, Pow(a, hx * 4 + dx) * Pow(b, hy * 4 + dy))
  {
    next := SquareTimes(m, acc, 2, Pow(a, hx) * Pow(b, hy));
    var sel := Gather(table, dx + 4 * dy);
    JointDigit(m, sel, a, b, dx, dy);
    assert Pow2(2) == 4 by { Pow2Limb(); }
    next := Times2(m, next, sel, Pow(Pow(a, hx) * Pow(b, hy), 4), Pow(a, dx) * Pow(b, dy));
    JointPower(a, b, hx, hy, dx, dy);
  }

  lemma JointPower(a: int, b: int, hx: nat, hy: nat, dx: nat, dy: nat)
    ensures Pow(Pow(a, hx) * Pow(b, hy), 4) * (Pow(a, dx) * Pow(b, dy)) == Pow(a, hx * 4 + dx) * Pow(b, hy * 4 + dy)
  {
    PowBase(Pow(a, hx), Pow(b, hy), 4);
    WindowPower(a, hx, 4, dx);
    WindowPower(b, hy, 4, dy);
    MulSwap(Pow(Pow(a, hx), 4), Pow(Pow(b, hy), 4), Pow(a, dx), Pow(b, dy));
  }

  // ----------------------------------------------------- public exponents

  /** The bit length of a limb string; zero for zero. */
  method BitLen(e: seq<Limb>) returns (bits: nat)
    ensures bits == 0 <==> Nat(e) == 0
    ensures bits > 0 ==> bits <= 64 * |e| && Pow2(bits - 1) <= Nat(e) < Pow2(bits)
  {
    var i := |e|;
    while i > 0
      invariant 0 <= i <= |e| && forall k :: i <= k < |e| ==> e[k] == 0
    {
      i := i - 1;
      if e[i] != 0 {
        BitLength(e, i + 1);
        ValZeroTail(B, e, i + 1, |e|);
        return 64 * i + LimbBits(e[i]);
      }
    }
    ValZeroTail(B, e, 0, |e|);
    return 0;
  }

  lemma PowerStep(b: int, hi: nat)
    ensures Pow(Pow(b, hi), 2) == Pow(b, 2 * hi) && Pow(b, 2 * hi) * b == Pow(b, 2 * hi + 1)
  {
    PowMul(b, hi, 2);
    assert b * Pow(b, 2 * hi) == Pow(b, 2 * hi + 1);
  }

  /** Exponent bit `i`. */
  function ExpBit(e: seq<Limb>, i: nat): (d: int)
    requires i < 64 * |e|
    ensures 0 <= d < 2
  {
    assert Pow2(1) == 2 by { Pow2Limb(); }
    Field(e[i / 64], i % 64, 1)
  }

  lemma ExpBitStep(e: seq<Limb>, i: nat)
    requires i < 64 * |e|
    ensures Nat(e) / Pow2(i) == 2 * (Nat(e) / Pow2(i + 1)) + ExpBit(e, i)
  {
    Pow2Limb();
    ShiftStep(Nat(e), i, 1);
    LimbField(e, i / 64, i % 64, 1);
    assert 64 * (i / 64) + i % 64 == i;
  }

  /** Left-to-right binary over the significant bits, multiplying only on set bits. */
  method BinaryLadder(m: MontModulus, baseM: seq<Limb>, exp: seq<Limb>, bits: nat, ghost b: int)
    returns (acc: seq<Limb>)
    requires m.Valid() && Holds(m, baseM, b)
    requires 1 <= bits <= 64 * |exp| && Pow2(bits - 1) <= Nat(exp) < Pow2(bits)
    ensures Holds(m, acc, Pow(b, Nat(exp)))
  {
    acc := baseM;
    TopBit(exp, bits);
    assert Pow(b, 1) == b by { assert Pow(b, 0) == 1; }
    var i := bits - 1;
    while i > 0
      invariant 0 <= i <= bits - 1
      invariant Nat(exp) / Pow2(i) >= 0 && Holds(m, acc, Pow(b, Nat(exp) / Pow2(i)))
    {
      ghost var hi := Nat(exp) / Pow2(i);
      i := i - 1;
      ExpBitStep(exp, i);
      acc := SquareTimes(m, acc, 1, Pow(b, hi));
      assert Pow2(1) == 2 by { Pow2Limb(); }
      PowerStep(b, hi);
      if ExpBit(exp, i) == 1 {
        acc := Times2(m, acc, baseM, Pow(b, 2 * hi), b);
      }
    }
    assert Pow2(0) == 1;
  }

  lemma TopBit(e: seq<Limb>, bits: nat)
    requires bits >= 1 && Pow2(bits - 1) <= Nat(e) < Pow2(bits)
    ensures Nat(e) / Pow2(bits - 1) == 1
  {
    assert Pow2(bits) == 2 * Pow2(bits - 1) by { assert Pow(2, bits) == 2 * Pow(2, bits - 1); }
    DivModIs(Nat(e), 1, Nat(e) - Pow2(bits - 1), Pow2(bits - 1));
  }

  /** Four-bit windows from the top nonzero one, skipping zero windows. */
  method PublicWindows(m: MontModulus, base: seq<Limb>, exp: seq<Limb>, bits: nat) returns (acc: seq<Limb>)
    requires m.Valid() && m.s <= |base|
    requires 1 <= bits <= 64 * |exp| && Pow2(bits - 1) <= Nat(exp) < Pow2(bits)
    ensures Holds(m, acc, Pow(Val(B, base, m.s), Nat(exp)))
  {
    ghost var b := Val(B, base, m.s);
    var table := BuildPowers(m, base);
    var w := (bits - 1) / 4;
    ghost var windows := w + 1;
    assert Pow2(4) == 16 by { Pow2Limb(); }
    PublicSeen(exp, bits, windows);
    acc := table[WindowDigit(exp, w, 4)];
    FromTop(exp, windows, 4);
    while w > 0
      invariant 0 <= w < windows
      invariant Holds(m, acc, Pow(b, From(exp, windows, 4, w)))
    {
      ghost var hi := From(exp, windows, 4, w);
      w := w - 1;
      acc := SquareTimes(m, acc, 4, Pow(b, hi));
      var d := WindowDigit(exp, w, 4);
      FromStep(exp, windows, 4, w);
      WindowPower(b, hi, 16, d);
      if d != 0 {
        acc := Times2(m, acc, table[d], Pow(Pow(b, hi), 16), Pow(b, d));
      } else {
        assert Pow(b, 0) == 1;
      }
    }
    FromBottom(exp, windows, 4);
  }

  lemma PublicSeen(e: seq<Limb>, bits: nat, windows: nat)
    requires bits >= 1 && windows == (bits - 1) / 4 + 1 && Nat(e) < Pow2(bits)
    ensures Seen(e, windows, 4) == Nat(e)
  {
    PowMonotone(2, bits, 4 * windows);
    DivModIs(Nat(e), 0, Nat(e), Pow2(4 * windows));
  }

  /** `base^exp mod N` for a public exponent of any width; agrees with `PowBits`. */
  method PowPublic(m: MontModulus, base: seq<Limb>, exp: seq<Limb>) returns (out: seq<Limb>)
    requires m.Valid()
    ensures |out| == |m.n| && m.N() > 0 && Nat(out) == Pow(Nat(Resized(base, m.s)), Nat(exp)) % m.N()
  {
    var sized := Resized(base, m.s);
    ghost var b := Nat(sized);
    var bits := BitLen(exp);
    var acc: seq<Limb>;
    if bits == 0 {
      var one: seq<Limb> := seq(m.s, j => if j == 0 then 1 else 0);
      ValSingle(one, 0, m.s);
      assert Pow(B, 0) == 1 && Pow(b, 0) == 1;
      acc := ToMont(m, one);
    } else if bits <= 64 {
      var baseM := ToMont(m, sized);
      acc := BinaryLadder(m, baseM, exp, bits, b);
    } else {
      acc := PublicWindows(m, sized, exp, bits);
    }
    out := Demont(m, acc, Pow(b, Nat(exp)));
  }
}
