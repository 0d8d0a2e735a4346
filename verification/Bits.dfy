/** Bit fields of multi-limb integers: shifts, windows and bit lengths as arithmetic. */
module Bits {
  import opened Arith
  import opened Limbs

  function Pow2(k: nat): (p: int)
    ensures p >= 1
  {
    PowPositive(2, k);
    Pow(2, k)
  }

  lemma Pow2Add(j: nat, k: nat)
    ensures Pow2(j + k) == Pow2(j) * Pow2(k)
  {
    PowAdd(2, j, k);
  }

  lemma Pow2Limb()
    ensures Pow2(64) == B && Pow2(32) == 0x1_0000_0000 && Pow2(4) == 16 && Pow2(2) == 4 && Pow2(1) == 2
  {
    assert Pow(2, 4) == 16;
    PowAdd(2, 4, 4);
    PowAdd(2, 8, 8);
    PowAdd(2, 16, 16);
    PowAdd(2, 32, 32);
  }

  lemma Pow2OfLimbs(i: nat)
    ensures Pow2(64 * i) == Pow(B, i)
  {
    Pow2Limb();
    PowMul(2, 64, i);
  }

  /** `width` bits of `x` from bit `pos`. */
  function Field(x: int, pos: nat, width: nat): (r: int)
    ensures 0 <= r < Pow2(width)
  {
    (x / Pow2(pos)) % Pow2(width)
  }

  /** Multiples of a higher power of two do not show in a lower field. */
  lemma FieldIgnoresHigh(x: int, h: int, pos: nat, width: nat, top: nat)
    requires pos + width <= top
    ensures Field(x + h * Pow2(top), pos, width) == Field(x, pos, width)
  {
    var a, b, c := Pow2(pos), Pow2(width), Pow2(top - pos - width);
    Pow2Add(pos, width);
    Pow2Add(pos + width, top - pos - width);
    assert h * ((a * b) * c) == (h * c * b) * a;
    AddMultiple(x, h * c * b, a);
    AddMultiple(x / a, h * c, b);
  }

  /** A field inside one limb is read from that limb alone. */
  lemma LimbField(e: seq<Limb>, i: nat, pos: nat, width: nat)
    requires i < |e| && pos + width <= 64
    ensures Field(Nat(e), 64 * i + pos, width) == Field(e[i], pos, width)
  {
    Pow2Limb();
    Pow2OfLimbs(i);
    LimbsAbove(e, i);
    DivTwice(Nat(e), Pow(B, i), Pow2(pos));
    Pow2Add(64 * i, pos);
    var h := Val(B, e[i + 1..], |e| - i - 1);
    FieldIgnoresHigh(e[i], h, pos, width, 64);
  }

  /** Dropping `i` limbs divides by the `i`-th power of the radix. */
  lemma LimbsFrom(e: seq<Limb>, i: nat)
    requires i <= |e|
    ensures Pow(B, i) > 0 && Nat(e) / Pow(B, i) == Val(B, e[i..], |e| - i)
  {
    ValSplit(B, e, i, |e|);
    ValBound(B, e, i);
    DivExact(Nat(e), Val(B, e, i), Pow(B, i), Val(B, e[i..], |e| - i));
  }

  lemma DivExact(x: int, r: int, p: int, q: int)
    requires 0 <= r < p && x == r + p * q
    ensures x / p == q
  {
    assert p * q == q * p;
    DivModIs(x, q, r, p);
  }

  /** What remains is limb `i` plus a multiple of the radix. */
  lemma LimbsAbove(e: seq<Limb>, i: nat)
    requires i < |e|
    ensures Pow(B, i) > 0 && Nat(e) / Pow(B, i) == e[i] + Val(B, e[i + 1..], |e| - i - 1) * B
  {
    LimbsFrom(e, i);
    ValAt(e, i);
  }

  lemma ValAt(e: seq<Limb>, i: nat)
    requires i < |e|
    ensures Val(B, e[i..], |e| - i) == e[i] + Val(B, e[i + 1..], |e| - i - 1) * B
  {
    var s := e[i..];
    ValHead(B, s, |s|);
    assert s[1..] == e[i + 1..];
  }

  /** Positions past the storage read as zero. */
  lemma FieldPastEnd(e: seq<Limb>, pos: nat, width: nat)
    requires pos >= 64 * |e|
    ensures Field(Nat(e), pos, width) == 0
  {
    Pow2OfLimbs(|e|);
    ValBound(B, e, |e|);
    Pow2Add(64 * |e|, pos - 64 * |e|);
    MulMono(1, Pow2(pos - 64 * |e|), Pow2(64 * |e|));
    DivModIs(Nat(e), 0, Nat(e), Pow2(pos));
    DivModIs(0, 0, 0, Pow2(width));
  }

  /** Reading one more low field: `x >> pos` from `x >> (pos + width)`. */
  lemma ShiftStep(x: int, pos: nat, width: nat)
    ensures x / Pow2(pos) == (x / Pow2(pos + width)) * Pow2(width) + Field(x, pos, width)
  {
    Pow2Add(pos, width);
    DivTwice(x, Pow2(pos), Pow2(width));
    var y := x / Pow2(pos);
    assert y == Pow2(width) * (y / Pow2(width)) + y % Pow2(width);
  }

  /** A field below bit `top` sees only `x mod 2^top`. */
  lemma FieldOfLow(x: int, pos: nat, width: nat, top: nat)
    requires pos + width <= top
    ensures Field(x % Pow2(top), pos, width) == Field(x, pos, width)
  {
    var q := x / Pow2(top);
    assert x == x % Pow2(top) + q * Pow2(top);
    FieldIgnoresHigh(x % Pow2(top), q, pos, width, top);
  }

  /** A top field is everything from its position up. */
  lemma TopField(x: int, pos: nat, width: nat)
    requires 0 <= x < Pow2(pos + width)
    ensures x / Pow2(pos) == Field(x, pos, width)
  {
    Pow2Add(width, pos);
    DivBelow(x, Pow2(width), Pow2(pos));
    DivNonNegative(x, Pow2(pos));
    DivModIs(x / Pow2(pos), 0, x / Pow2(pos), Pow2(width));
  }

  /** Bits of a limb: 64 minus its leading zeros. */
  function LimbBits(w: nat): (k: nat)
    ensures w == 0 <==> k == 0
  {
    if w == 0 then 0 else 1 + LimbBits(w / 2)
  }

  lemma {:induction false} LimbBitsBound(w: nat)
    ensures w < Pow2(LimbBits(w)) && (w > 0 ==> Pow2(LimbBits(w) - 1) <= w)
  {
    if w == 0 {
      assert Pow2(0) == 1;
    } else if w == 1 {
      assert LimbBits(1) == 1 + LimbBits(0);
      assert Pow2(0) == 1 && Pow2(1) == 2;
    } else {
      var k := LimbBits(w / 2);
      LimbBitsBound(w / 2);
      assert LimbBits(w) == k + 1 && k >= 1;
      assert Pow2(k + 1) == 2 * Pow2(k) && Pow2(k) == 2 * Pow2(k - 1);
    }
  }

  lemma LimbBitsAtMost(w: Limb)
    ensures LimbBits(w) <= 64
  {
    LimbBitsBound(w);
    Pow2Limb();
    if LimbBits(w) >= 65 { PowMonotone(2, 64, LimbBits(w) - 1); }
  }

  /** The bit length of a limb string whose top limb is nonzero. */
  lemma BitLength(n: seq<Limb>, s: nat)
    requires 1 <= s <= |n| && n[s - 1] != 0
    ensures var bits := 64 * (s - 1) + LimbBits(n[s - 1]);
            1 <= LimbBits(n[s - 1]) <= 64 && Pow2(bits - 1) <= Val(B, n, s) < Pow2(bits)
  {
    var k := LimbBits(n[s - 1]);
    LimbBitsBound(n[s - 1]);
    LimbBitsAtMost(n[s - 1]);
    Pow2OfLimbs(s - 1);
    ValBound(B, n, s - 1);
    Pow2Add(64 * (s - 1), k - 1);
    Pow2Add(64 * (s - 1), k);
    BitLengthAlgebra(Val(B, n, s - 1), n[s - 1], Pow(B, s - 1), Pow2(k - 1), Pow2(k));
  }

  lemma BitLengthAlgebra(lo: int, w: int, p: int, a: int, b: int)
    requires 0 <= lo < p && a <= w < b
    ensures p * a <= lo + w * p < p * b
  {
    MulMono(a, w, p);
    MulMono(w + 1, b, p);
  }

  /** A string with one nonzero limb. */
  lemma ValSingle(x: seq<Limb>, i: nat, k: nat)
    requires i < k <= |x|
    requires forall j :: 0 <= j < k && j != i ==> x[j] == 0
    ensures Val(B, x, k) == x[i] * Pow(B, i)
  {
    ValZeroTail(B, x, i + 1, k);
    ValZeroTail(B, x, 0, i);
  }
}
