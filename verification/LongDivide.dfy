/** Bitwise long division in place, with the top limbs of the dividend preloaded. */
module LongDivide {
  import opened Arith
  import opened Limbs
  import opened LimbOps
  import opened Bits
  import opened BitOps
  import opened Montgomery
  import opened BoxedMont

  /** The dividend from bit `pos` up. */
  ghost function Top(x: seq<Limb>, pos: nat): int { Nat(x) / Pow2(pos) }

  /** Bit `64i + bit` of the dividend joins the part already consumed. */
  lemma NextBit(x: seq<Limb>, i: nat, bit: nat)
    requires i < |x| && bit < 64
    ensures Top(x, 64 * i + bit) == 2 * Top(x, 64 * i + bit + 1) + Field(x[i], bit, 1)
  {
    Pow2Limb();
    ShiftStep(Nat(x), 64 * i + bit, 1);
    LimbField(x, i, bit, 1);
  }

  /** `Top(x, pos)` is `q·2^-pos` times `n` plus the running remainder. */
  ghost predicate Divided(x: seq<Limb>, pos: nat, q: int, n: int, r: int) {
    exists k: int :: q == Times(k, Pow2(pos)) && Top(x, pos) == k * n + r
  }

  lemma DividedStep(x: seq<Limb>, i: nat, bit: nat, q: int, n: int, r: int, r': int, ge: bool)
    requires i < |x| && bit < 64 && Divided(x, 64 * i + bit + 1, q, n, r)
    requires r' == 2 * r + Field(x[i], bit, 1) - (if ge then n else 0)
    ensures Divided(x, 64 * i + bit, q + (if ge then Pow2(64 * i + bit) else 0), n, r')
  {
    NextBit(x, i, bit);
    var pos := 64 * i + bit;
    var k :| q == Times(k, Pow2(pos + 1)) && Top(x, pos + 1) == k * n + r;
    var p := Pow2(pos);
    assert Pow2(pos + 1) == 2 * p by { assert Pow(2, pos + 1) == 2 * Pow(2, pos); }
    DividedAlgebra(k, p, n, r, Field(x[i], bit, 1), ge);
    assert q + (if ge then p else 0) == Times(2 * k + (if ge then 1 else 0), p);
  }

  lemma DividedAlgebra(k: int, p: int, n: int, r: int, b: int, ge: bool)
    ensures var g := if ge then 1 else 0;
            k * (2 * p) + (if ge then p else 0) == (2 * k + g) * p
            && 2 * (k * n + r) + b == (2 * k + g) * n + (2 * r + b - (if ge then n else 0))
  {
    assert k * (2 * p) == (2 * k) * p && 2 * (k * n) == (2 * k) * n;
    if ge { assert (2 * k + 1) * p == (2 * k) * p + p && (2 * k + 1) * n == (2 * k) * n + n; }
  }

  /** One quotient bit: shift the remainder left, bring in the next bit, subtract when it fits. */
  method DivideBit(n: seq<Limb>, r: array<Limb>, scratch: array<Limb>, b: Limb) returns (ge: bool)
    requires |n| == r.Length == scratch.Length && r != scratch && b <= 1
    requires Val(B, r[..], |n|) < Nat(n)
    modifies r, scratch
    ensures ge <==> 2 * Val(B, old(r[..]), |n|) + b >= Nat(n)
    ensures Val(B, r[..], |n|) == 2 * Val(B, old(r[..]), |n|) + b - (if ge then Nat(n) else 0)
  {
    ghost var v := Val(B, r[..], |n|);
    ValBound(B, r[..], |n|);
    var carry := ShlOne(r, |n|, b);
    ghost var shifted := r[..];
    var bo := SubtractInto(n, r[..], scratch);
    ghost var diff := scratch[..];
    ValBound(B, shifted, |n|);
    ValBound(B, diff, |n|);
    AddModSelect(v, v + b, Nat(n), Val(B, shifted, |n|), carry, Val(B, diff, |n|), bo, Pow(B, |n|));
    ge := carry == 1 || bo == 0;
    AssignLimbs(r, scratch[..], ge);
    ValAgree(B, if ge then diff else shifted, r[..], |n|);
  }

  /** The quotient bit lands in a bit that is still clear. */
  lemma QuotientBit(w: Limb, bit: nat)
    requires bit < 64 && w % Pow2(bit + 1) == 0
    ensures Or(w, Pow2(bit)) == w + Pow2(bit) < B
    ensures Or(w, 0) == w && (w + Pow2(bit)) % Pow2(bit) == 0 && w % Pow2(bit) == 0
  {
    var p := Pow2(bit);
    assert Pow2(bit + 1) == 2 * p by { assert Pow(2, bit + 1) == 2 * Pow(2, bit); }
    OrDisjoint(w, p, bit + 1);
    OrZero(w);
    LimbPowers(bit);
    QuotientRoom(w, p, Pow2(63 - bit));
  }

  lemma LimbPowers(bit: nat)
    requires bit < 64
    ensures B == 2 * Pow2(bit) * Pow2(63 - bit)
  {
    assert Pow2(64) == B by { Pow2Limb(); }
    Pow2Add(bit, 63 - bit);
    Pow2Add(1, 63);
    assert Pow2(1) == 2;
  }

  lemma QuotientRoom(w: int, p: int, q: int)
    requires p >= 1 && q >= 1 && 0 <= w < 2 * p * q && w % (2 * p) == 0
    ensures w + p < 2 * p * q && (w + p) % p == 0 && w % p == 0
  {
    var k := w / (2 * p);
    assert w == 2 * p * k;
    assert 2 * p * k == (2 * k) * p && (2 * k + 1) * p == 2 * p * k + p;
    DivModIs(w, 2 * k, 0, p);
    DivModIs(w + p, 2 * k + 1, 0, p);
    if k >= q { MulMono(q, k, 2 * p); }
    MulMono(k + 1, q, 2 * p);
  }

  /** One bit of dividend limb `i`, recorded in quotient limb `i`. */
  method DivideOne(x: seq<Limb>, n: seq<Limb>, i: nat, bit: nat, r: array<Limb>, scratch: array<Limb>, q: array<Limb>)
    requires i < |x| == q.Length && bit < 64 && |n| == r.Length == scratch.Length
    requires r != scratch && q != r && q != scratch
    requires Val(B, r[..], |n|) < Nat(n) && q[i] % Pow2(bit + 1) == 0
    requires Divided(x, 64 * i + bit + 1, Val(B, q[..], |x|), Nat(n), Val(B, r[..], |n|))
    modifies r, scratch, q
    ensures Val(B, r[..], |n|) < Nat(n) && q[i] % Pow2(bit) == 0
    ensures Divided(x, 64 * i + bit, Val(B, q[..], |x|), Nat(n), Val(B, r[..], |n|))
    ensures forall k :: 0 <= k < q.Length && k != i ==> q[k] == old(q[k])
  {
    ghost var r0, q0: seq<Limb> := Val(B, r[..], |n|), q[..];
    assert Pow2(1) == 2 by { Pow2Limb(); }
    var b: Limb := Field(x[i], bit, 1);
    var ge := DivideBit(n, r, scratch, b);
    DividedStep(x, i, bit, Val(B, q0, |x|), Nat(n), r0, Val(B, r[..], |n|), ge);
    QuotientBit(q[i], bit);
    var w: Limb := Or(q[i], if ge then Pow2(bit) else 0);
    q[i] := w;
    assert q[..] == q0[i := w];
    QuotientValue(q0, i, w, bit, ge);
  }

  lemma QuotientValue(q: seq<Limb>, i: nat, w: Limb, bit: nat, ge: bool)
    requires i < |q| && w == q[i] + (if ge then Pow2(bit) else 0)
    ensures Val(B, q[i := w], |q|) == Val(B, q, |q|) + (if ge then Pow2(64 * i + bit) else 0)
  {
    ValUpdate(B, q, i, w, |q|);
    Pow2OfLimbs(i);
    Pow2Add(64 * i, bit);
  }

  /** All 64 bits of dividend limb `i`. */
  method DivideLimb(x: seq<Limb>, n: seq<Limb>, i: nat, r: array<Limb>, scratch: array<Limb>, q: array<Limb>)
    requires i < |x| == q.Length && |n| == r.Length == scratch.Length
    requires r != scratch && q != r && q != scratch
    requires Val(B, r[..], |n|) < Nat(n) && q[i] == 0
    requires Divided(x, 64 * i + 64, Val(B, q[..], |x|), Nat(n), Val(B, r[..], |n|))
    modifies r, scratch, q
    ensures Val(B, r[..], |n|) < Nat(n)
    ensures Divided(x, 64 * i, Val(B, q[..], |x|), Nat(n), Val(B, r[..], |n|))
    ensures forall k :: 0 <= k < q.Length && k != i ==> q[k] == old(q[k])
  {
    var bit := 64;
    assert 0 % Pow2(64) == 0 by { DivModIs(0, 0, 0, Pow2(64)); }
    while bit > 0
      invariant 0 <= bit <= 64
      invariant Val(B, r[..], |n|) < Nat(n) && q[i] % Pow2(bit) == 0
      invariant Divided(x, 64 * i + bit, Val(B, q[..], |x|), Nat(n), Val(B, r[..], |n|))
      invariant forall k :: 0 <= k < q.Length && k != i ==> q[k] == old(q[k])
    {
      bit := bit - 1;
      DivideOne(x, n, i, bit, r, scratch, q);
    }
  }

  /**
   * Quotient and remainder of `x` by any nonzero `n`: the top `m - 1` limbs are loaded into the
   * remainder directly, the rest run one bit at a time.
   */
  method LongDivision(x: seq<Limb>, n: seq<Limb>) returns (quo: seq<Limb>, rem: seq<Limb>)
    requires |n| >= 1 && n[|n| - 1] != 0
    ensures |quo| == |x| && |rem| == |n|
    ensures Nat(x) == Nat(quo) * Nat(n) + Nat(rem) && Nat(rem) < Nat(n)
  {
    var m := |n|;
    var pre := if |x| < m - 1 then |x| else m - 1;
    var rest := |x| - pre;
    var q := new Limb[|x|](_ => 0);
    var scratch := new Limb[m](_ => 0);
    var r := new Limb[m](k requires 0 <= k < m => if k < pre then x[rest + k] else 0);
    Preloaded(x, n, pre, r[..]);
    ValZeroTail(B, q[..], 0, |x|);
    assert Divided(x, 64 * rest, 0, Nat(n), Val(B, r[..], m)) by {
      assert 0 == Times(0, Pow2(64 * rest));
    }
    var i := rest;
    while i > 0
      invariant 0 <= i <= rest
      invariant Val(B, r[..], m) < Nat(n) && forall k :: 0 <= k < i ==> q[k] == 0
      invariant Divided(x, 64 * i, Val(B, q[..], |x|), Nat(n), Val(B, r[..], m))
    {
      i := i - 1;
      DivideLimb(x, n, i, r, scratch, q);
    }
    quo, rem := q[..], r[..];
    DividedAll(x, Nat(quo), Nat(n), Nat(rem));
  }

  /** A value below `B^(m-1)` is its own remainder. */
  lemma Preloaded(x: seq<Limb>, n: seq<Limb>, pre: nat, r: seq<Limb>)
    requires |n| >= 1 && n[|n| - 1] != 0 && |r| == |n| && pre <= |x| && pre <= |n| - 1
    requires forall k :: 0 <= k < |n| ==> r[k] == if k < pre then x[|x| - pre + k] else 0
    ensures Nat(r) < Nat(n) && Top(x, 64 * (|x| - pre)) == Nat(r)
  {
    var rest := |x| - pre;
    ValZeroTail(B, r, pre, |n|);
    ValAgree(B, x[rest..], r, pre);
    Pow2OfLimbs(rest);
    LimbsFrom(x, rest);
    ValBound(B, r, pre);
    PowMonotone(B, pre, |n| - 1);
    ValBound(B, n, |n| - 1);
    MulMono(1, n[|n| - 1], Pow(B, |n| - 1));
  }

  lemma DividedAll(x: seq<Limb>, q: int, n: int, r: int)
    requires Divided(x, 0, q, n, r)
    ensures Nat(x) == q * n + r
  {
    assert Pow2(0) == 1;
    var k :| q == Times(k, Pow2(0)) && Top(x, 0) == k * n + r;
  }

  /** Division at the divisor's significant width. */
  method DivRem(x: seq<Limb>, d: seq<Limb>) returns (quo: seq<Limb>, rem: seq<Limb>)
    requires |d| >= 1 && Nat(d) > 0
    ensures |quo| == |x| && |rem| <= |d|
    ensures Nat(quo) == Nat(x) / Nat(d) && Nat(rem) == Nat(x) % Nat(d)
  {
    var s := SignificantLimbs(d);
    ValZeroTail(B, d, s, |d|);
    ValAgree(B, d, d[..s], s);
    quo, rem := LongDivision(x, d[..s]);
    DivModIs(Nat(x), Nat(quo), Nat(rem), Nat(d));
  }
}
