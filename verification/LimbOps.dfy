/** Limb loops shared by the kernels, the long division and the inversions. */
module LimbOps {
  import opened Arith
  import opened Limbs

  /** One limb of `x <- 2x + carry`: the doubled low bits with the carry in the freed bit. */
  function ShlLimb(w: Limb, carry: Limb): (r: (Limb, Limb))
    requires carry <= 1
    ensures r.0 + B * r.1 == 2 * w + carry && r.1 <= 1
  {
    ((2 * w) % B + carry, w / 0x8000_0000_0000_0000)
  }

  lemma ShlAlgebra(o: int, v: int, cin: int, c: int, p: int, d: int, c': int, w: int)
    requires o + c * p == 2 * v + cin
    requires d + B * c' == 2 * w + c
    ensures (o + d * p) + c' * (B * p) == 2 * (v + w * p) + cin
  {
    assert p * (d + B * c') == p * (2 * w + c);
  }

  /** `x <- 2x + cin` over the first `l` limbs; the carry out is returned. */
  method ShlOne(x: array<Limb>, l: nat, cin: Limb) returns (carry: Limb)
    requires l <= x.Length && cin <= 1
    modifies x
    ensures carry <= 1 && Val(B, x[..], l) + carry * Pow(B, l) == 2 * Val(B, old(x[..]), l) + cin
    ensures forall k :: l <= k < x.Length ==> x[k] == old(x[k])
  {
    ghost var x0: seq<int> := x[..];
    carry := cin;
    for j := 0 to l
      invariant carry <= 1
      invariant Val(B, x[..], j) + carry * Pow(B, j) == 2 * Val(B, x0, j) + cin
      invariant forall k :: j <= k < x.Length ==> x[k] == x0[k]
    {
      var (d, next) := ShlLimb(x[j], carry);
      ghost var before := x[..];
      x[j] := d;
      ValAgree(B, before, x[..], j);
      ShlAlgebra(Val(B, before, j), Val(B, x0, j), cin, carry, Pow(B, j), d, next, x0[j]);
      carry := next;
    }
  }

  /** `out <- t - n` over the limbs of `n`, returning the borrow. */
  method SubtractInto(n: seq<Limb>, t: seq<Limb>, out: array<Limb>) returns (bo: Limb)
    requires |n| <= |t| && |n| <= out.Length
    modifies out
    ensures bo <= 1 && Val(B, out[..], |n|) - bo * Pow(B, |n|) == Val(B, t, |n|) - Val(B, n, |n|)
    ensures forall k :: |n| <= k < out.Length ==> out[k] == old(out[k])
  {
    bo := 0;
    var j := 0;
    while j < |n|
      invariant 0 <= j <= |n| && bo <= 1
      invariant Val(B, out[..], j) - bo * Pow(B, j) == Val(B, t, j) - Val(B, n, j)
      invariant forall k :: |n| <= k < out.Length ==> out[k] == old(out[k])
    {
      var (d, b) := Sbb(t[j], n[j], bo);
      ghost var before := out[..];
      out[j] := d;
      ValAgree(B, before, out[..], j);
      BorrowAlgebra(Val(B, before, j), Val(B, t, j), Val(B, n, j), bo, Pow(B, j), d, b, t[j], n[j]);
      bo := b;
      j := j + 1;
    }
  }

  lemma BorrowAlgebra(o: int, t: int, n: int, bo: int, p: int, d: int, b: int, tj: int, nj: int)
    requires o - bo * p == t - n
    requires d - B * b == tj - nj - bo
    ensures (o + d * p) - b * (B * p) == (t + tj * p) - (n + nj * p)
  {
    assert p * (d - B * b) == p * (tj - nj - bo);
  }

  lemma AddAlgebra(o: int, x: int, y: int, cin: int, c: int, p: int, d: int, c': int, xj: int, yj: int)
    requires o + c * p == x + y + cin
    requires d + B * c' == xj + yj + c
    ensures (o + d * p) + c' * (B * p) == (x + xj * p) + (y + yj * p) + cin
  {
    assert p * (d + B * c') == p * (xj + yj + c);
  }

  /** The limbs padded with zeros or cut to exactly `n`: the value modulo `B^n`. */
  function Resized(x: seq<Limb>, n: nat): (r: seq<Limb>)
    ensures |r| == n && Pow(B, n) > 0 && Nat(r) == Nat(x) % Pow(B, n)
    ensures |x| <= n ==> Nat(r) == Nat(x)
  {
    PowPositive(B, n);
    if |x| >= n then
      ResizedCut(x, n);
      x[..n]
    else
      var r: seq<Limb> := x + seq(n - |x|, _ => 0);
      ResizedPad(x, r, n);
      r
  }

  lemma ResizedCut(x: seq<Limb>, n: nat)
    requires n <= |x|
    ensures Pow(B, n) > 0 && Nat(x[..n]) == Nat(x) % Pow(B, n)
    ensures |x| == n ==> x[..n] == x
  {
    PowPositive(B, n);
    ValSplit(B, x, n, |x|);
    ValAgree(B, x, x[..n], n);
    ValBound(B, x, n);
    LowPart(Nat(x), Val(B, x, n), Val(B, x[n..], |x| - n), Pow(B, n));
  }

  lemma LowPart(v: int, lo: int, h: int, p: int)
    requires v == lo + p * h && 0 <= lo < p
    ensures v % p == lo
  {
    assert p * h == h * p;
    DivModIs(v, h, lo, p);
  }

  lemma ResizedPad(x: seq<Limb>, r: seq<Limb>, n: nat)
    requires |x| <= n == |r| && r[..|x|] == x && forall i :: |x| <= i < n ==> r[i] == 0
    ensures Pow(B, n) > 0 && Nat(r) == Nat(x) == Nat(x) % Pow(B, n)
  {
    ValZeroTail(B, r, |x|, n);
    ValAgree(B, r, x, |x|);
    PowMonotone(B, |x|, n);
    DivModIs(Nat(x), 0, Nat(x), Pow(B, n));
  }

  /** `a + b + cin` over equal-length limb strings. */
  method AdcLimbs(a: seq<Limb>, b: seq<Limb>, cin: Limb) returns (out: seq<Limb>, c: Limb)
    requires |a| == |b| && cin <= 1
    ensures |out| == |a| && c <= 1
    ensures Val(B, out, |a|) + c * Pow(B, |a|) == Val(B, a, |a|) + Val(B, b, |b|) + cin
  {
    out, c := [], cin;
    for i := 0 to |a|
      invariant |out| == i && c <= 1
      invariant Val(B, out, i) + c * Pow(B, i) == Val(B, a, i) + Val(B, b, i) + cin
    {
      var (s, co) := Adc(a[i], b[i], c);
      ValAgree(B, out, out + [s], i);
      AddAlgebra(Val(B, out, i), Val(B, a, i), Val(B, b, i), cin, c, Pow(B, i), s, co, a[i], b[i]);
      out, c := out + [s], co;
    }
  }

  /** `a - b - bin` over equal-length limb strings. */
  method SbbLimbs(a: seq<Limb>, b: seq<Limb>, bin: Limb) returns (out: seq<Limb>, bo: Limb)
    requires |a| == |b| && bin <= 1
    ensures |out| == |a| && bo <= 1
    ensures Val(B, out, |a|) - bo * Pow(B, |a|) == Val(B, a, |a|) - Val(B, b, |b|) - bin
  {
    out, bo := [], bin;
    for i := 0 to |a|
      invariant |out| == i && bo <= 1
      invariant Val(B, out, i) - bo * Pow(B, i) == Val(B, a, i) - Val(B, b, i) - bin
    {
      var (d, b') := Sbb(a[i], b[i], bo);
      ValAgree(B, out, out + [d], i);
      BorrowAlgebra(Val(B, out, i), Val(B, a, i), Val(B, b, i) + bin, bo, Pow(B, i), d, b', a[i], b[i]);
      out, bo := out + [d], b';
    }
  }

  /** `x <- x + y` when `mask`, else unchanged; the carry is returned. */
  method AddMaskedInPlace(x: array<Limb>, y: seq<Limb>, mask: bool) returns (c: Limb)
    requires x.Length == |y|
    modifies x
    ensures c <= 1
    ensures Val(B, x[..], |y|) + c * Pow(B, |y|) == Val(B, old(x[..]), |y|) + (if mask then Val(B, y, |y|) else 0)
  {
    ghost var x0 := x[..];
    c := 0;
    for i := 0 to |y|
      invariant c <= 1
      invariant Val(B, x[..], i) + c * Pow(B, i) == Val(B, x0, i) + (if mask then Val(B, y, i) else 0) + 0
      invariant forall k :: i <= k < x.Length ==> x[k] == x0[k]
    {
      var yi: Limb := if mask then y[i] else 0;
      var (s, co) := Adc(x[i], yi, c);
      ghost var before := x[..];
      x[i] := s;
      ValAgree(B, before, x[..], i);
      AddAlgebra(Val(B, before, i), Val(B, x0, i), if mask then Val(B, y, i) else 0, 0, c, Pow(B, i), s, co, x0[i], yi);
      c := co;
    }
  }

  /** `x <- x - y`, returning the borrow. */
  method SubInPlace(x: array<Limb>, y: seq<Limb>) returns (bo: Limb)
    requires x.Length == |y|
    modifies x
    ensures bo <= 1
    ensures Val(B, x[..], |y|) - bo * Pow(B, |y|) == Val(B, old(x[..]), |y|) - Val(B, y, |y|)
  {
    ghost var x0 := x[..];
    bo := 0;
    for i := 0 to |y|
      invariant bo <= 1
      invariant Val(B, x[..], i) - bo * Pow(B, i) == Val(B, x0, i) - Val(B, y, i)
      invariant forall k :: i <= k < x.Length ==> x[k] == x0[k]
    {
      var (d, b) := Sbb(x[i], y[i], bo);
      ghost var before := x[..];
      x[i] := d;
      ValAgree(B, before, x[..], i);
      BorrowAlgebra(Val(B, before, i), Val(B, x0, i), Val(B, y, i), bo, Pow(B, i), d, b, x0[i], y[i]);
      bo := b;
    }
  }

  /** One limb of a right shift, the incoming bit on top. */
  function ShrLimb(w: Limb, carry: Limb): (r: (Limb, Limb))
    requires carry <= 1
    ensures 2 * r.0 + r.1 == w + B * carry && r.1 <= 1
  {
    (w / 2 + carry * 0x8000_0000_0000_0000, w % 2)
  }

  lemma ShrAlgebra(hi: int, hi0: int, c: int, p: int, top: int, x: int, x0: int, c': int)
    requires 2 * hi + c * (B * p) == hi0 + top
    requires 2 * x + c' == x0 + B * c
    ensures 2 * (hi + x * p) + c' * p == (hi0 + x0 * p) + top
  {
    assert p * (2 * x + c') == p * (x0 + B * c);
  }

  /** The limbs from `i` up have been shifted; `carry` is the bit leaving them. */
  ghost predicate ShrInv(x0: seq<Limb>, x: seq<Limb>, i: nat, carry: int, t: int)
    requires i <= |x| == |x0|
  {
    2 * (Val(B, x, |x|) - Val(B, x, i)) + carry * Pow(B, i) == Val(B, x0, |x|) - Val(B, x0, i) + t
  }

  lemma ShrExtend(x0: seq<Limb>, x: seq<Limb>, i: nat, carry: int, t: int, w: Limb, next: int)
    requires i < |x| == |x0| && ShrInv(x0, x, i + 1, carry, t)
    requires 2 * (w as int) + next == x0[i] + B * carry
    ensures ShrInv(x0, x[i := w], i, next, t)
  {
    ValTailAgree(B, x, x[i := w], i + 1, |x|);
    ShrAlgebra(Val(B, x, |x|) - Val(B, x, i + 1), Val(B, x0, |x|) - Val(B, x0, i + 1), carry, Pow(B, i), t, w, x0[i],
               next);
  }

  /** `x <- (x + top·R) / 2`, from the top limb down; the bit shifted out is the old parity. */
  method ShrOneInPlace(x: array<Limb>, top: Limb)
    requires top <= 1 && x.Length >= 1
    modifies x
    ensures 2 * Val(B, x[..], x.Length) + old(x[0]) % 2 == Val(B, old(x[..]), x.Length) + top * Pow(B, x.Length)
  {
    ghost var x0 := x[..];
    ghost var t := top * Pow(B, x.Length);
    var carry: Limb := top;
    var i := x.Length;
    while i > 0
      invariant 0 <= i <= x.Length && carry <= 1
      invariant ShrInv(x0, x[..], i, carry, t)
      invariant forall k :: 0 <= k < i ==> x[k] == x0[k]
      invariant i == 0 ==> carry == x0[0] % 2
    {
      i := i - 1;
      var (w, next) := ShrLimb(x[i], carry);
      ghost var before: seq<Limb> := x[..];
      ShrExtend(x0, before, i, carry, t, w, next);
      x[i] := w;
      assert x[..] == before[i := w];
      carry := next;
    }
    assert Pow(B, 0) == 1;
  }
}
