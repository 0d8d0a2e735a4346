/** Multi-limb integers: positional values and the 64-bit limb primitives. */
module Limbs {
  import opened Arith

  /** The limb radix, 2^64. */
  const B: int := 0x1_0000_0000_0000_0000

  type Limb = x: int | 0 <= x < B

  /** The value of the first `k` digits of `s`, least significant first. */
  function Val(b: int, s: seq<int>, k: nat): int
    requires k <= |s|
  {
    if k == 0 then 0 else Val(b, s, k - 1) + s[k - 1] * Pow(b, k - 1)
  }

  /** The value of a whole limb sequence. */
  function Nat(s: seq<Limb>): (v: int)
    ensures 0 <= v < Pow(B, |s|)
  {
    ValBound(B, s, |s|);
    Val(B, s, |s|)
  }

  ghost predicate Digits(b: int, s: seq<int>, k: nat)
    requires k <= |s|
  {
    forall i :: 0 <= i < k ==> 0 <= s[i] < b
  }

  lemma {:induction false} ValAgree(b: int, s: seq<int>, r: seq<int>, k: nat)
    requires k <= |s| && k <= |r|
    requires forall i :: 0 <= i < k ==> s[i] == r[i]
    ensures Val(b, s, k) == Val(b, r, k)
  {
    if k > 0 { ValAgree(b, s, r, k - 1); }
  }

  lemma {:induction false} ValBound(b: int, s: seq<int>, k: nat)
    requires b > 0 && k <= |s| && Digits(b, s, k)
    ensures 0 <= Val(b, s, k) < Pow(b, k)
  {
    if k > 0 {
      ValBound(b, s, k - 1);
      PowPositive(b, k - 1);
      MulNonNegative(s[k - 1], Pow(b, k - 1));
      MulMono(s[k - 1] + 1, b, Pow(b, k - 1));
    }
  }

  /** Digits from `j` up being equal, the prefixes differ by the same amount. */
  lemma {:induction false} ValTailAgree(b: int, s: seq<int>, r: seq<int>, j: nat, k: nat)
    requires j <= k <= |s| && k <= |r|
    requires forall i :: j <= i < k ==> s[i] == r[i]
    ensures Val(b, s, k) - Val(b, s, j) == Val(b, r, k) - Val(b, r, j)
  {
    if j < k { ValTailAgree(b, s, r, j, k - 1); }
  }

  /** Writing one digit changes the value by the difference at that position. */
  lemma ValUpdate(b: int, s: seq<int>, i: nat, w: int, k: nat)
    requires i < k <= |s|
    ensures Val(b, s[i := w], k) == Val(b, s, k) + (w - s[i]) * Pow(b, i)
  {
    var s' := s[i := w];
    ValAgree(b, s, s', i);
    ValTailAgree(b, s, s', i + 1, k);
    assert (w - s[i]) * Pow(b, i) == w * Pow(b, i) - s[i] * Pow(b, i);
  }

  /** Digits outside the prefix being zero, a longer prefix has the same value. */
  lemma {:induction false} ValZeroTail(b: int, s: seq<int>, j: nat, k: nat)
    requires j <= k <= |s|
    requires forall i :: j <= i < k ==> s[i] == 0
    ensures Val(b, s, k) == Val(b, s, j)
  {
    if j < k { ValZeroTail(b, s, j, k - 1); }
  }

  /** Canonical digit strings of equal length and value are equal. */
  lemma {:induction false} ValUnique(b: int, s: seq<int>, r: seq<int>, k: nat)
    requires b > 0 && k <= |s| && k <= |r| && Digits(b, s, k) && Digits(b, r, k)
    requires Val(b, s, k) == Val(b, r, k)
    ensures forall i :: 0 <= i < k ==> s[i] == r[i]
  {
    if k > 0 {
      var p := Pow(b, k - 1);
      ValBound(b, s, k - 1);
      ValBound(b, r, k - 1);
      DivModIs(Val(b, s, k), s[k - 1], Val(b, s, k - 1), p);
      DivModIs(Val(b, r, k), r[k - 1], Val(b, r, k - 1), p);
      ValUnique(b, s, r, k - 1);
    }
  }

  /** Splitting a value at digit `j`. */
  lemma {:induction false} ValSplit(b: int, s: seq<int>, j: nat, k: nat)
    requires j <= k <= |s|
    ensures Val(b, s, k) == Val(b, s, j) + Pow(b, j) * Val(b, s[j..], k - j)
  {
    if j < k {
      ValSplit(b, s, j, k - 1);
      PowAdd(b, j, k - 1 - j);
      var p, q, v, d := Pow(b, j), Pow(b, k - 1 - j), Val(b, s[j..], k - 1 - j), s[k - 1];
      assert s[j..][k - 1 - j] == d;
      assert p * (v + d * q) == p * v + d * (p * q);
    }
  }

  /** The low digit and the value of the rest. */
  lemma ValHead(b: int, s: seq<int>, k: nat)
    requires 1 <= k <= |s|
    ensures Val(b, s, k) == s[0] + b * Val(b, s[1..], k - 1)
  {
    ValSplit(b, s, 1, k);
    assert Val(b, s, 1) == s[0] by { assert Val(b, s, 0) == 0; assert Pow(b, 0) == 1; }
    assert Pow(b, 1) == b by { assert Pow(b, 0) == 1; }
  }

  /** The low limb decides the parity. */
  lemma ParityOfLow(s: seq<Limb>, k: nat)
    requires 1 <= k <= |s|
    ensures Val(B, s, k) % 2 == s[0] % 2
  {
    ValHead(B, s, k);
  }

  // ------------------------------------------------- the limb primitives

  lemma LimbProduct(x: Limb, y: Limb)
    ensures 0 <= x * y <= (B - 1) * (B - 1)
  {
    MulNonNegative(x, y);
    MulMono(x, B - 1, y);
    MulMono(y, B - 1, B - 1);
  }

  /** `a + b·c + carry` always fits two limbs. */
  function Mac(a: Limb, b: Limb, c: Limb, carry: Limb): (r: (Limb, Limb))
    ensures r.0 + B * r.1 == a + b * c + carry
  {
    LimbProduct(b, c);
    var ret := a + b * c + carry;
    (ret % B, ret / B)
  }

  function Adc(a: Limb, b: Limb, carry: Limb): (r: (Limb, Limb))
    ensures r.0 + B * r.1 == a + b + carry
    ensures carry <= 1 ==> r.1 <= 1
  {
    var ret := a + b + carry;
    (ret % B, ret / B)
  }

  /** The wrapping 128-bit difference keeps exactly one borrow bit. */
  function Sbb(a: Limb, b: Limb, borrow: Limb): (r: (Limb, Limb))
    ensures borrow <= 1 ==> r.1 <= 1 && r.0 - B * r.1 == a - b - borrow
  {
    var ret := (a - b - borrow) % (B * B);
    (ret % B, (ret / B) % 2)
  }

  /** Wrapping limb product. */
  function MulLow(a: Limb, b: Limb): (r: Limb) { a * b % B }
}
