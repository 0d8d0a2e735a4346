/** Regrouping 64-bit limbs into narrower digits and back, by shifts and disjoint unions. */
module Radix {
  import opened Arith
  import opened Limbs
  import opened Bits
  import opened BitOps

  /** Limb `i`, zero past the end. */
  function LimbAt(a: seq<Limb>, i: nat): Limb { if i < |a| then a[i] else 0 }

  /** `w` bits of `a` from bit `bit`, from at most two limbs. */
  function ReadDigit(a: seq<Limb>, bit: nat, w: nat): (d: int)
    requires 1 <= w <= 64
  {
    var li, sh := bit / 64, bit % 64;
    var lo: nat := Shr(LimbAt(a, li), sh);
    var hi: nat := if sh + w > 64 then Shl(LimbAt(a, li + 1), 64 - sh) else 0;
    Or(hi, lo) % Pow2(w)
  }

  /** Logical right shift. */
  function Shr(x: Limb, k: nat): (r: Limb) {
    DivNonNegative(x, Pow2(k));
    x / Pow2(k)
  }

  /** Left shift, dropping the bits past the limb. */
  function Shl(x: Limb, k: nat): (r: Limb) { x * Pow2(k) % B }

  /** What lies above limb `i`, as limb `i`, limb `i + 1` and the rest. */
  lemma AboveTwo(a: seq<Limb>, i: nat) returns (h: int)
    ensures Pow(B, i) > 0 && Nat(a) / Pow(B, i) == LimbAt(a, i) + (LimbAt(a, i + 1) + h * B) * B
  {
    PowPositive(B, i);
    if i < |a| {
      LimbsAbove(a, i);
      if i + 1 < |a| {
        ValAt(a, i + 1);
        h := Val(B, a[i + 2..], |a| - i - 2);
      } else {
        h := 0;
      }
    } else {
      h := 0;
      PowMonotone(B, |a|, i);
      DivModIs(Nat(a), 0, Nat(a), Pow(B, i));
    }
  }

  /** The two-limb read is the bit field of the whole value. */
  lemma ReadDigitIsField(a: seq<Limb>, bit: nat, w: nat)
    requires 1 <= w <= 64
    ensures ReadDigit(a, bit, w) == Field(Nat(a), bit, w)
  {
    var li, sh := bit / 64, bit % 64;
    var h := AboveTwo(a, li);
    Pow2OfLimbs(li);
    Pow2Add(64 * li, sh);
    DivTwice(Nat(a), Pow(B, li), Pow2(sh));
    var x, y := LimbAt(a, li), LimbAt(a, li + 1);
    if sh + w > 64 {
      ReadStraddle(x, y, h, sh, w);
    } else {
      ReadWithin(x, y + h * B, sh, w);
    }
  }

  lemma ReadWithin(x: Limb, y: int, sh: nat, w: nat)
    requires sh + w <= 64 && sh < 64
    ensures ((x + y * B) / Pow2(sh)) % Pow2(w) == Or(0, Shr(x, sh)) % Pow2(w)
  {
    Pow2Limb();
    FieldIgnoresHigh(x, y, sh, w, 64);
    OrCommutes(0, Shr(x, sh));
    OrZero(Shr(x, sh));
  }

  lemma ReadStraddle(x: Limb, y: Limb, h: int, sh: nat, w: nat)
    requires sh + w > 64 && 1 <= sh < 64 && w <= 64
    ensures ((x + (y + h * B) * B) / Pow2(sh)) % Pow2(w) == Or(Shl(y, 64 - sh), Shr(x, sh)) % Pow2(w)
  {
    Pow2Limb();
    Pow2Add(sh, 64 - sh);
    Pow2Add(w, 64 - w);
    var p, q := Pow2(sh), Pow2(64 - sh);
    ShlParts(y, sh);
    ShrBound(x, sh);
    OrDisjoint(Shl(y, 64 - sh), Shr(x, sh), 64 - sh);
    StraddleAlgebra(x, y, h, p, q, Pow2(w), Pow2(64 - w));
  }

  lemma ShrBound(x: Limb, sh: nat)
    requires sh <= 64
    ensures Shr(x, sh) < Pow2(64 - sh)
  {
    Pow2Limb();
    Pow2Add(sh, 64 - sh);
    DivBelow(x, Pow2(64 - sh), Pow2(sh));
  }

  /** The low bits of a limb, moved to the top. */
  lemma ShlParts(y: Limb, sh: nat)
    requires sh <= 64
    ensures Shl(y, 64 - sh) == (y % Pow2(sh)) * Pow2(64 - sh) && Shl(y, 64 - sh) % Pow2(64 - sh) == 0
  {
    Pow2Limb();
    Pow2Add(sh, 64 - sh);
    ShlAlgebra(y, Pow2(sh), Pow2(64 - sh));
  }

  lemma ShlAlgebra(y: int, p: int, q: int)
    requires p >= 1 && q >= 1 && p * q == B
    ensures y * q % B == (y % p) * q && (y % p) * q % q == 0
  {
    var r, k := y % p, y / p;
    assert y == p * k + r;
    assert y * q == k * (p * q) + r * q;
    MulMono(0, r, q);
    MulMono(r + 1, p, q);
    DivModIs(y * q, k, r * q, B);
    DivModIs(r * q, r, 0, q);
  }

  lemma StraddleAlgebra(x: int, y: int, h: int, p: int, q: int, m: int, k: int)
    requires p >= 1 && q >= 1 && m >= 1 && p * q == B && m * k == B
    ensures ((x + (y + h * B) * B) / p) % m == ((y % p) * q + x / p) % m
  {
    var z := y + h * B;
    assert z * B == (z * q) * p by { assert z * (p * q) == (z * q) * p; }
    AddMultiple(x, z * q, p);
    var r, j := y % p, y / p;
    assert y == p * j + r;
    assert z * q == r * q + (j + h * q) * B by {
      assert (p * j + r + h * B) * q == (p * q) * j + r * q + h * q * B;
    }
    assert (j + h * q) * B == ((j + h * q) * k) * m by { assert (j + h * q) * (m * k) == ((j + h * q) * k) * m; }
    AddMultiple(r * q + x / p, (j + h * q) * k, m);
  }

  // ------------------------------------------------------- digits of a value

  lemma {:induction false} FieldsValue(x: int, ds: seq<int>, w: nat, k: nat)
    requires k <= |ds| && forall i :: 0 <= i < k ==> ds[i] == Field(x, w * i, w)
    ensures Val(Pow2(w), ds, k) == x % Pow2(w * k)
  {
    if k == 0 {
      assert Pow2(0) == 1;
    } else {
      FieldsValue(x, ds, w, k - 1);
      PowMul(2, w, k - 1);
      Pow2Add(w * (k - 1), w);
      assert w * (k - 1) + w == w * k;
      ModSplit(x, Pow2(w * (k - 1)), Pow2(w));
    }
  }

  /** `count` digits of `w` bits; digits past the storage are zero. */
  method ToDigits(x: seq<Limb>, count: nat, w: nat) returns (out: seq<int>)
    requires 1 <= w <= 64
    ensures |out| == count && Digits(Pow2(w), out, count)
    ensures Val(Pow2(w), out, count) == Nat(x) % Pow2(w * count)
  {
    out := [];
    for j := 0 to count
      invariant |out| == j && forall i :: 0 <= i < j ==> out[i] == Field(Nat(x), w * i, w)
    {
      ReadDigitIsField(x, w * j, w);
      out := out + [ReadDigit(x, w * j, w)];
    }
    FieldsValue(Nat(x), out, w, count);
  }

  // ---------------------------------------------------------- back to limbs

  /** A value below `2^(64i + sh)` leaves limb `i` below `2^sh` and everything above it zero. */
  lemma LowLimbs(o: seq<Limb>, i: nat, sh: nat)
    requires i < |o| && sh <= 64 && Nat(o) < Pow2(64 * i + sh)
    ensures o[i] < Pow2(sh) && Val(B, o[i + 1..], |o| - i - 1) == 0
  {
    Pow2OfLimbs(i);
    Pow2Add(sh, 64 * i);
    LimbsAbove(o, i);
    DivBelow(Nat(o), Pow2(sh), Pow(B, i));
    ValBound(B, o[i + 1..], |o| - i - 1);
    Pow2Limb();
    PowMonotone(2, sh, 64);
    NothingAbove(o[i], Val(B, o[i + 1..], |o| - i - 1), Pow2(sh));
  }

  lemma NothingAbove(x: int, h: int, q: int)
    requires 0 <= x && 0 <= h && x + h * B < q <= B
    ensures x < q && h == 0
  {
  }

  /** A shifted digit: the part inside the limb and the part above it. */
  lemma ShiftedDigit(d: Limb, sh: nat, w: nat)
    requires 1 <= w <= 64 && sh < 64 && d < Pow2(w)
    ensures d * Pow2(sh) == Shl(d, sh) + (if sh + w > 64 then Shr(d, 64 - sh) else 0) * B
    ensures Shl(d, sh) % Pow2(sh) == 0
  {
    Pow2Limb();
    if sh + w > 64 {
      Pow2Add(sh, 64 - sh);
      ShlParts(d, 64 - sh);
      DigitSplit(d, Pow2(sh), Pow2(64 - sh));
    } else {
      Pow2Add(w, sh);
      PowMonotone(2, w + sh, 64);
      DigitWithin(d, Pow2(w), Pow2(sh));
    }
  }

  lemma DigitSplit(d: int, p: int, q: int)
    requires q >= 1 && p * q == B
    ensures d * p == (d % q) * p + (d / q) * B
  {
    assert d == q * (d / q) + d % q;
    assert (q * (d / q) + d % q) * p == (d / q) * (p * q) + (d % q) * p;
  }

  lemma DigitWithin(d: int, m: int, p: int)
    requires 0 <= d < m && p >= 1 && m * p <= B
    ensures d * p % B == d * p && d * p % p == 0
  {
    MulStrict(d, m, p);
    MulNonNegative(d, p);
    DivModIs(d * p, 0, d * p, B);
    DivModIs(d * p, d, 0, p);
  }

  /** Joining one digit: its low part is a disjoint union with limb `li`, its high part opens limb `li + 1`. */
  method JoinDigit(out: array<Limb>, d: int, j: nat, w: nat)
    requires 1 <= w <= 64 && 0 <= d < Pow2(w) && d < B
    requires Nat(out[..]) < Pow2(w * j)
    requires Nat(out[..]) + d * Pow2(w * j) < Pow(B, out.Length)
    modifies out
    ensures Nat(out[..]) == old(Nat(out[..])) + d * Pow2(w * j)
  {
    var bit := w * j;
    var li, sh := bit / 64, bit % 64;
    ghost var o: seq<Limb> := out[..];
    Pow2OfLimbs(li);
    Pow2Add(64 * li, sh);
    ShiftedDigit(d, sh, w);
    var lo: Limb, hi: Limb := Shl(d, sh), if sh + w > 64 then Shr(d, 64 - sh) else 0;
    JoinFits(Nat(o), d, Pow2(sh), lo, hi, li, out.Length);
    if li < out.Length {
      LowJoin(o, li, sh, lo);
      out[li] := Or(lo, out[li]);
      ghost var o1: seq<Limb> := o[li := lo + o[li]];
      assert out[..] == o1;
      if li + 1 < out.Length {
        HighJoin(o1, li, hi);
        if sh + w > 64 {
          out[li + 1] := Or(hi, out[li + 1]);
        }
        assert out[..] == o1[li + 1 := hi];
      }
      JoinAlgebra(d, Pow2(sh), lo, hi, Pow(B, li));
    }
  }

  /** Below the digit's position the limb still has room: union is addition. */
  lemma LowJoin(o: seq<Limb>, li: nat, sh: nat, lo: Limb)
    requires li < |o| && sh < 64 && Nat(o) < Pow2(64 * li + sh) && lo % Pow2(sh) == 0
    ensures Or(lo, o[li]) == lo + o[li] < B && (li + 1 < |o| ==> o[li + 1] == 0)
    ensures var o1: seq<Limb> := o[li := lo + o[li]]; Nat(o1) == Nat(o) + lo * Pow(B, li)
  {
    LowLimbs(o, li, sh);
    OrDisjoint(lo, o[li], sh);
    JoinLimb(lo, o[li], sh);
    ValUpdate(B, o, li, lo + o[li], |o|);
    if li + 1 < |o| { ZeroAbove(o, li + 1); }
  }

  lemma HighJoin(o: seq<Limb>, li: nat, hi: Limb)
    requires li + 1 < |o| && o[li + 1] == 0
    ensures Or(hi, o[li + 1]) == hi && (hi == 0 ==> o == o[li + 1 := hi])
    ensures var o1: seq<Limb> := o[li + 1 := hi]; Nat(o1) == Nat(o) + hi * Pow(B, li + 1)
  {
    OrZero(hi);
    ValUpdate(B, o, li + 1, hi, |o|);
  }

  lemma JoinLimb(lo: Limb, x: Limb, sh: nat)
    requires sh < 64 && x < Pow2(sh) && lo % Pow2(sh) == 0
    ensures lo + x < B
  {
    Pow2Limb();
    Pow2Add(sh, 64 - sh);
    DivParts(lo, Pow2(sh));
    JoinRoom(lo, x, lo / Pow2(sh), Pow2(sh), Pow2(64 - sh));
  }

  lemma JoinRoom(lo: int, x: int, k: int, p: int, q: int)
    requires p >= 1 && 0 <= x < p && lo == p * k && 0 <= lo < p * q
    ensures lo + x < p * q
  {
    assert k * p < q * p;
    MulCancelLess(k, q, p);
    MulMono(k + 1, q, p);
  }

  lemma ZeroAbove(o: seq<Limb>, i: nat)
    requires i < |o| && Val(B, o[i..], |o| - i) == 0
    ensures o[i] == 0
  {
    ValAt(o, i);
    ValBound(B, o[i + 1..], |o| - i - 1);
  }

  lemma JoinAlgebra(d: int, s: int, lo: int, hi: int, p: int)
    requires d * s == lo + hi * B
    ensures d * (p * s) == lo * p + hi * (B * p)
  {
    assert d * (p * s) == (d * s) * p;
  }

  /** Nothing is dropped: past the last limb the digit, or its high part, is zero. */
  lemma JoinFits(v: int, d: int, s: int, lo: int, hi: int, li: nat, l: nat)
    requires v >= 0 && d >= 0 && lo >= 0 && hi >= 0 && s >= 1 && d * s == lo + hi * B
    requires v + d * (Pow(B, li) * s) < Pow(B, l)
    ensures li >= l ==> d == 0
    ensures li + 1 >= l ==> hi == 0
  {
    JoinAlgebra(d, s, lo, hi, Pow(B, li));
    PowPositive(B, li);
    MulNonNegative(lo, Pow(B, li));
    if li >= l && d >= 1 {
      PowMonotone(B, l, li);
      MulMono(1, s, Pow(B, li));
      MulMono(1, d, Pow(B, li) * s);
    }
    if li + 1 >= l && hi >= 1 {
      PowMonotone(B, l, li + 1);
      MulMono(1, hi, B * Pow(B, li));
    }
  }

  /** Digits joined into `l` limbs, for a value that fits them. */
  method FromDigits(dg: seq<int>, l: nat, w: nat) returns (limbs: seq<Limb>)
    requires 1 <= w < 64 && Digits(Pow2(w), dg, |dg|) && Val(Pow2(w), dg, |dg|) < Pow(B, l)
    ensures |limbs| == l && Nat(limbs) == Val(Pow2(w), dg, |dg|)
  {
    var out := new Limb[l](_ => 0);
    ValZeroTail(B, out[..], 0, l);
    var b := Pow2(w);
    Pow2Limb();
    PowMonotone(2, w, 64);
    for j := 0 to |dg|
      invariant Nat(out[..]) == Val(b, dg, j)
    {
      PowMul(2, w, j);
      ValBound(b, dg, j);
      PrefixBelow(b, dg, j + 1);
      JoinDigit(out, dg[j], j, w);
    }
    limbs := out[..];
  }

  lemma {:induction false} PrefixBelow(b: int, s: seq<int>, k: nat)
    requires b > 0 && k <= |s| && Digits(b, s, |s|)
    ensures Val(b, s, k) <= Val(b, s, |s|)
    decreases |s| - k
  {
    if k < |s| {
      PrefixBelow(b, s, k + 1);
      PowPositive(b, k);
      MulNonNegative(s[k], Pow(b, k));
    }
  }
}
