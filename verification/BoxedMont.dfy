/** The runtime-width modulus: in-place doubling, the in-place `R^2` chain and Horner reduction. */
module BoxedMont {
  import opened Arith
  import opened Limbs
  import opened LimbOps
  import opened Bits
  import opened Newton
  import opened MontKernel
  import opened MontSquare
  import opened Montgomery
  import opened MontSetup

  /** A modulus stored at exactly its significant width. */
  ghost predicate Tight(m: MontModulus) { m.Shape() && m.s == |m.n| && m.n[m.s - 1] != 0 }

  /** Copies `src` over `dst` when `choice`, limb by limb. */
  method AssignLimbs(dst: array<Limb>, src: seq<Limb>, choice: bool)
    requires |src| <= dst.Length
    modifies dst
    ensures forall k :: 0 <= k < |src| ==> dst[k] == if choice then src[k] else old(dst[k])
    ensures forall k :: |src| <= k < dst.Length ==> dst[k] == old(dst[k])
  {
    for j := 0 to |src|
      invariant forall k :: 0 <= k < j ==> dst[k] == if choice then src[k] else old(dst[k])
      invariant forall k :: j <= k < dst.Length ==> dst[k] == old(dst[k])
    {
      dst[j] := if choice then src[j] else dst[j];
    }
  }

  /** `x <- 2x mod n` for `x <= n`: shift, trial subtraction, masked select. */
  method DoubleInPlace(n: seq<Limb>, x: array<Limb>, tmp: array<Limb>)
    requires x.Length == |n| <= tmp.Length && x != tmp && Val(B, x[..], |n|) <= Nat(n)
    modifies x, tmp
    ensures var v := 2 * Val(B, old(x[..]), |n|);
            Val(B, x[..], |n|) == if v >= Nat(n) then v - Nat(n) else v
  {
    ghost var v := Val(B, x[..], |n|);
    ValBound(B, x[..], |n|);
    var carry := ShlOne(x, |n|, 0);
    ghost var shifted := x[..];
    var bo := SubtractInto(n, x[..], tmp);
    ghost var diff := tmp[..];
    ValBound(B, shifted, |n|);
    ValBound(B, diff, |n|);
    AddModSelect(v, v, Nat(n), Val(B, shifted, |n|), carry, Val(B, diff, |n|), bo, Pow(B, |n|));
    AssignLimbs(x, tmp[..|n|], carry == 1 || bo == 0);
    ValAgree(B, if carry == 1 || bo == 0 then diff else shifted, x[..], |n|);
  }

  /** The doubling phase of the chain, in place. */
  method DoublingsInPlace(m: MontModulus, x: array<Limb>, tmp: array<Limb>, count: nat, ghost e: nat)
    requires Tight(m) && x.Length == m.s <= tmp.Length && x != tmp
    requires Val(B, x[..], m.s) <= m.N() && Cong(Val(B, x[..], m.s), Pow2(e), m.N())
    modifies x, tmp
    ensures Val(B, x[..], m.s) <= m.N() && Cong(Val(B, x[..], m.s), Pow2(e + count), m.N())
  {
    for i := 0 to count
      invariant Val(B, x[..], m.s) <= m.N() && Cong(Val(B, x[..], m.s), Pow2(e + i), m.N())
    {
      ghost var before := Val(B, x[..], m.s);
      DoubleInPlace(m.n, x, tmp);
      DoublingStep(before, Val(B, x[..], m.s), e + i, m.N());
    }
  }

  /** `R^2 mod n`, in place over three buffers, squaring through the squaring kernel. */
  method ComputeR2(m: MontModulus) returns (r2: seq<Limb>)
    requires Tight(m)
    ensures |r2| == m.s && m.InMont(Val(B, r2, m.s), m.R())
  {
    var l := m.s;
    var start, bits := TopPower(m.n, l);
    var x := new Limb[l](i requires 0 <= i < l => start[i]);
    assert x[..] == start;
    var tmp := new Limb[2 * l](_ => 0);
    CongSelf(Pow2(bits - 1), m.N());
    DoublingsInPlace(m, x, tmp, 64 * l - bits + 1 + l, bits - 1);
    Pow2Add(64 * l, l);
    Pow2OfLimbs(l);
    assert Pow2(64 * l) * Pow2(l) == Pow2(l) * m.R();
    ModulusPositive(m);
    var out := new Limb[l](_ => 0);
    ghost var e := l;
    for i := 0 to 6
      invariant x.Length == out.Length == l && x != tmp && out != tmp && x != out && fresh(x) && fresh(out)
      invariant e == Doubled(l, i) && Val(B, x[..], l) <= m.N() && Cong(Val(B, x[..], l), Pow2(e) * m.R(), m.N())
      invariant i > 0 ==> m.InMont(Val(B, x[..], l), Pow2(e))
    {
      ghost var before := Val(B, x[..], l);
      MontSqrKernel(m.n, m.np, x[..], tmp, out);
      SquaringStep(m, Val(B, out[..], l), before, e);
      x, out := out, x;
      e := 2 * e;
    }
    DoubledSix(l);
    r2 := x[..];
  }

  // ------------------------------------------------------- Horner reduction

  /** `out <- (a + b) mod n` with `a` consumed as the sum buffer. */
  method AddModInPlace(n: seq<Limb>, a: array<Limb>, b: seq<Limb>, out: array<Limb>)
    requires a.Length == out.Length == |n| == |b| && a != out
    requires Val(B, a[..], |n|) <= Nat(n) && Nat(b) <= Nat(n)
    modifies a, out
    ensures var v := Val(B, old(a[..]), |n|) + Nat(b);
            Val(B, out[..], |n|) == if v >= Nat(n) then v - Nat(n) else v
  {
    ghost var va := Val(B, a[..], |n|);
    ValBound(B, a[..], |n|);
    var c := AddMaskedInPlace(a, b, true);
    var bo := SubtractInto(n, a[..], out);
    ghost var diff := out[..];
    ValBound(B, a[..], |n|);
    ValBound(B, diff, |n|);
    AddModSelect(va, Nat(b), Nat(n), Val(B, a[..], |n|), c, Val(B, diff, |n|), bo, Pow(B, |n|));
    AssignLimbs(out, a[..], !(c == 1 || bo == 0));
    ValAgree(B, if c == 1 || bo == 0 then diff else a[..], out[..], |n|);
  }

  /** The value of the limbs of `x` from `off` up. */
  ghost function Above(x: seq<Limb>, off: nat): int
    requires off <= |x|
  {
    Val(B, x[off..], |x| - off)
  }

  /** One `l`-limb chunk of `x` from `off`, zero-padded. */
  method ReadChunk(x: seq<Limb>, off: nat, c: array<Limb>)
    requires off <= |x|
    modifies c
    ensures forall k :: 0 <= k < c.Length ==> c[k] == if off + k < |x| then x[off + k] else 0
  {
    for j := 0 to c.Length
      invariant forall k :: 0 <= k < j ==> c[k] == if off + k < |x| then x[off + k] else 0
    {
      c[j] := if off + j < |x| then x[off + j] else 0;
    }
  }

  /** A chunk is the low part of what is above `off`. */
  lemma ChunkSplits(x: seq<Limb>, off: nat, c: seq<Limb>)
    requires off <= |x|
    requires forall k :: 0 <= k < |c| ==> c[k] == if off + k < |x| then x[off + k] else 0
    ensures off + |c| <= |x| ==> Above(x, off) == Nat(c) + Pow(B, |c|) * Above(x, off + |c|)
    ensures off + |c| >= |x| ==> Above(x, off) == Nat(c)
  {
    if off + |c| <= |x| {
      ValSplit(B, x[off..], |c|, |x| - off);
      assert x[off..][|c|..] == x[off + |c|..];
      ValAgree(B, x[off..], c, |c|);
    }
    if off + |c| >= |x| {
      ValZeroTail(B, c, |x| - off, |c|);
      ValAgree(B, x[off..], c, |x| - off);
    }
  }

  /** Horner's step in the Montgomery domain: `M(p)·R + M(c) = M(p·R + c)`. */
  lemma HornerStep(m: MontModulus, acc: int, shifted: int, cm: int, sum: int, p: int, c: int)
    requires m.Valid() && m.InMont(acc, p) && m.InMont(cm, c) && m.InMont(shifted, acc)
    requires sum == shifted + cm || sum == shifted + cm - m.N()
    requires 0 <= sum < m.N()
    ensures m.InMont(sum, c + m.R() * p)
  {
    var r, n := m.R(), m.N();
    CongScale(acc, p * r, r, n);
    CongTrans(shifted, acc * r, p * r * r, n);
    CongAdd(shifted, p * r * r, cm, c * r, n);
    assert p * r * r + c * r == (c + r * p) * r;
    if sum == shifted + cm - n {
      CongBy(sum, shifted + cm, n, -1);
      CongTrans(sum, shifted + cm, (c + r * p) * r, n);
    }
  }

  /** The body of the Horner loop below the top chunk: `acc <- M(prefix·R + chunk)`. */
  method HornerChunk(m: MontModulus, x: seq<Limb>, off: nat, t: array<Limb>, acc: array<Limb>, c: array<Limb>,
                     cm: array<Limb>)
    requires Tight(m) && m.Valid() && m.s == acc.Length == c.Length == cm.Length == t.Length
    requires acc != c && acc != cm && acc != t && c != cm && c != t && cm != t
    requires off + m.s <= |x| && m.InMont(Val(B, acc[..], m.s), Above(x, off + m.s))
    modifies t, acc, c, cm
    ensures m.InMont(Val(B, acc[..], m.s), Above(x, off))
  {
    ModulusPositive(m);
    ReadChunk(x, off, c);
    ghost var chunk := Nat(c[..]);
    ChunkSplits(x, off, c[..]);
    MontMulKernel(m.n, m.np, c[..], m.r2, t, cm);
    MontOfR2(m, Val(B, cm[..], m.s), chunk, Val(B, m.r2, m.s));
    ghost var before := Val(B, acc[..], m.s);
    MontMulKernel(m.n, m.np, acc[..], m.r2, t, c);
    ghost var shifted := Val(B, c[..], m.s);
    MontOfR2(m, shifted, before, Val(B, m.r2, m.s));
    AddModInPlace(m.n, c, cm[..], acc);
    HornerStep(m, before, shifted, Val(B, cm[..], m.s), Val(B, acc[..], m.s), Above(x, off + m.s), chunk);
  }

  /** The top chunk enters the domain alone. */
  method HornerTop(m: MontModulus, x: seq<Limb>, off: nat, t: array<Limb>, c: array<Limb>, cm: array<Limb>)
    requires Tight(m) && m.Valid() && m.s == c.Length == cm.Length == t.Length
    requires c != cm && c != t && cm != t
    requires off <= |x| <= off + m.s
    modifies t, c, cm
    ensures m.InMont(Val(B, cm[..], m.s), Above(x, off))
  {
    ModulusPositive(m);
    ReadChunk(x, off, c);
    ChunkSplits(x, off, c[..]);
    MontMulKernel(m.n, m.np, c[..], m.r2, t, cm);
    MontOfR2(m, Val(B, cm[..], m.s), Nat(c[..]), Val(B, m.r2, m.s));
  }

  /** Out of the domain: a product with plain 1. */
  method Demont(m: MontModulus, a: seq<Limb>, ghost x: int) returns (out: seq<Limb>)
    requires m.Shape() && m.s <= |a| && m.InMont(Val(B, a, m.s), x)
    ensures |out| == |m.n| && m.N() > 0 && Nat(out) == Val(B, out, m.s) == x % m.N()
  {
    ModulusPositive(m);
    var one: seq<Limb> := seq(m.s, j => if j == 0 then 1 else 0);
    ValSingle(one, 0, m.s);
    assert Pow(B, 0) == 1;
    out := MontMul(m, a, one);
    MontOfOne(m, Val(B, out, m.s), Val(B, a, m.s), x);
    ValZeroTail(B, out, m.s, |out|);
  }

  /** The remaining `i` chunks, from limb `i·l` down to limb 0. */
  method HornerDown(m: MontModulus, x: seq<Limb>, chunks: nat, off: nat, t: array<Limb>, acc: array<Limb>,
                    c: array<Limb>, cm: array<Limb>)
    requires Tight(m) && m.Valid() && m.s == acc.Length == c.Length == cm.Length == t.Length
    requires acc != c && acc != cm && acc != t && c != cm && c != t && cm != t
    requires off == chunks * m.s <= |x| && m.InMont(Val(B, acc[..], m.s), Above(x, off))
    modifies t, acc, c, cm
    ensures m.InMont(Val(B, acc[..], m.s), Nat(x))
  {
    var i, o := chunks, off;
    while i > 0
      invariant 0 <= o == i * m.s <= |x|
      invariant m.InMont(Val(B, acc[..], m.s), Above(x, o))
    {
      assert i * m.s == (i - 1) * m.s + m.s;
      MulNonNegative(i - 1, m.s);
      i, o := i - 1, o - m.s;
      HornerChunk(m, x, o, t, acc, c, cm);
    }
    assert x[0..] == x;
  }

  /** `x mod n` for `x` of any width, `⌈|x|/l⌉` chunks from the top, two multiplications each. */
  method Reduce(m: MontModulus, x: seq<Limb>) returns (out: seq<Limb>)
    requires Tight(m) && m.Valid() && |x| >= 1
    ensures |out| == m.s && m.N() > 0 && Nat(out) == Nat(x) % m.N()
  {
    var l := m.s;
    var i := (|x| + l - 1) / l - 1;
    ChunkCount(|x|, l);
    var t, acc := new Limb[l](_ => 0), new Limb[l](_ => 0);
    var c, cm := new Limb[l](_ => 0), new Limb[l](_ => 0);
    var off := i * l;
    HornerTop(m, x, off, t, c, cm);
    acc, cm := cm, acc;
    HornerDown(m, x, i, off, t, acc, c, cm);
    out := Demont(m, acc[..], Nat(x));
  }

  lemma ChunkCount(w: nat, l: nat)
    requires w >= 1 && l >= 1
    ensures var chunks := (w + l - 1) / l;
            chunks >= 1 && 0 <= (chunks - 1) * l < w <= (chunks - 1) * l + l
  {
    var q := (w + l - 1) / l;
    assert w + l - 1 == l * q + (w + l - 1) % l;
    assert l * q == q * l == (q - 1) * l + l;
    if q <= 0 { MulMono(q, 0, l); }
    MulNonNegative(if q >= 1 then q - 1 else 0, l);
  }

  /** Parameters for an odd runtime-sized modulus, trimmed to its significant limbs. */
  method NewBoxed(n: seq<Limb>) returns (m: MontModulus)
    requires |n| >= 1 && n[0] % 2 == 1
    ensures Tight(m) && m.Valid() && m.N() == Nat(n) && m.s <= |n| && m.n == n[..m.s]
  {
    var s := SignificantLimbs(n);
    var inv := InvModLimb(n[0]);
    NPrimeOfInverse(n[0], inv);
    ValZeroTail(B, n, s, |n|);
    ValAgree(B, n, n[..s], s);
    m := MontModulus(n[..s], NegLimb(inv), [], s);
    var r2 := ComputeR2(m);
    m := m.(r2 := r2);
  }
}
