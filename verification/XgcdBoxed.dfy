/** The binary extended GCD in place over limb buffers. */
module XgcdBoxed {
  import opened Arith
  import opened Limbs
  import opened Bits
  import opened LimbOps
  import opened Gcd
  import opened BinaryGcd
  import opened BoxedMont
  import opened LongDivide
  import opened Ladders

  /** `dst` becomes `b` when `choice`, else `a`: a copy and a masked move. */
  method Select(dst: array<Limb>, a: seq<Limb>, b: seq<Limb>, choice: bool)
    requires |a| == |b| == dst.Length
    modifies dst
    ensures dst[..] == if choice then b else a
  {
    forall k | 0 <= k < dst.Length { dst[k] := a[k]; }
    AssignLimbs(dst, b, choice);
  }

  // -------------------------------------------------------- the integer side

  /** `x <- (x - other) / 2`, subtracting only when both sides are odd. */
  method HalveSelected(x: array<Limb>, other: seq<Limb>, d: array<Limb>, both: bool)
    requires x.Length == |other| == d.Length >= 1 && x != d
    requires both ==> Nat(x[..]) >= Nat(other)
    modifies x, d
    ensures Nat(x[..]) == (old(Nat(x[..])) - (if both then Nat(other) else 0)) / 2
  {
    var selected := x[..];
    ghost var v := Nat(selected);
    Select(d, selected, selected, true);
    var bo := SubInPlace(d, other);
    var difference := d[..];
    if both { BorrowIsZero(Nat(difference), bo, Pow(B, |other|), v - Nat(other)); }
    Select(x, selected, difference, both);
    ghost var y := Nat(x[..]);
    ShrOneInPlace(x, 0);
    HalfOf(Nat(x[..]), y);
  }

  lemma BorrowIsZero(r: int, bo: int, p: int, v: int)
    requires 0 <= bo <= 1 && 0 <= r < p && r - bo * p == v && v >= 0
    ensures bo == 0 && r == v
  {
  }

  lemma HalfOf(h: int, y: int)
    requires 0 <= y - 2 * h <= 1
    ensures h == y / 2
  {
  }

  // ---------------------------------------------------- the coefficient side

  /** `d <- d - t mod m`: subtract, then add the modulus back under the borrow. */
  method SubModInPlace(d: array<Limb>, t: seq<Limb>, m: seq<Limb>)
    requires d.Length == |t| == |m| >= 1 && Nat(d[..]) < Nat(m) && Nat(t) < Nat(m)
    modifies d
    ensures Nat(d[..]) == SubMod(old(Nat(d[..])), Nat(t), Nat(m))
  {
    ghost var x := Nat(d[..]);
    var bo := SubInPlace(d, t);
    ghost var r := Nat(d[..]);
    var c := AddMaskedInPlace(d, m, bo == 1);
    SubModWraps(x, Nat(t), Nat(m), r, bo, Nat(d[..]), c, if bo == 1 then Nat(m) else 0, Pow(B, |m|));
  }

  /** `x <- x / 2 mod m`: the carry out of the masked addition is shifted back in. */
  method HalfModInPlace(x: array<Limb>, m: seq<Limb>)
    requires x.Length == |m| >= 1 && m[0] % 2 == 1
    modifies x
    ensures Nat(x[..]) == HalfMod(old(Nat(x[..])), Nat(m))
  {
    ghost var v := Nat(x[..]);
    ParityOfLow(x[..], x.Length);
    ParityOfLow(m, |m|);
    var odd := x[0] % 2;
    var carry := AddMaskedInPlace(x, m, odd == 1);
    ghost var low := x[0] % 2;
    ShrOneInPlace(x, carry);
    HalfModValue(Nat(x[..]), low, v, Nat(m));
  }

  lemma HalfModValue(h: int, low: int, v: nat, m: nat)
    requires 0 <= low <= 1 && m % 2 == 1 && 2 * h + low == v + (if v % 2 == 1 then m else 0)
    ensures h == HalfMod(v, m)
  {
  }

  /** `x <- (x - other) / 2 mod m`, subtracting only when both sides are odd. */
  method HalveCoefficient(x: array<Limb>, other: seq<Limb>, d: array<Limb>, m: seq<Limb>, both: bool)
    requires x.Length == |other| == d.Length == |m| >= 1 && x != d && m[0] % 2 == 1
    requires Nat(x[..]) < Nat(m) && Nat(other) < Nat(m)
    modifies x, d
    ensures Nat(x[..]) == HalfMod(if both then SubMod(old(Nat(x[..])), Nat(other), Nat(m)) else old(Nat(x[..])), Nat(m))
  {
    var selected := x[..];
    Select(d, selected, selected, true);
    SubModInPlace(d, other, m);
    Select(x, selected, d[..], both);
    HalfModInPlace(x, m);
  }

  // ----------------------------------------------------------------- a round

  /** The four buffers, as one state of the value-level machine. */
  ghost function Abstract(u: seq<Limb>, v: seq<Limb>, a: seq<Limb>, c: seq<Limb>): State {
    State(Nat(u), Nat(v), Nat(a), Nat(c))
  }

  /** Whether the `(u, A)` side moves. */
  predicate MovesLeft(s: State) { s.u % 2 == 0 || (s.v % 2 == 1 && s.u >= s.v) }

  /** One selected side, one subtraction and one halving make the same step as the four cases. */
  lemma SharedShape(s: State, m: nat)
    requires s.a < m && s.c < m && (s.u % 2 == 1 || s.v % 2 == 1)
    ensures var both := s.u % 2 == 1 && s.v % 2 == 1;
            Step(s, m) ==
            if MovesLeft(s) then
              s.(u := (s.u - (if both then s.v else 0)) / 2, a := HalfMod(if both then SubMod(s.a, s.c, m) else s.a, m))
            else
              s.(v := (s.v - (if both then s.u else 0)) / 2, c := HalfMod(if both then SubMod(s.c, s.a, m) else s.c, m))
  {
  }

  /** `u >= v`, from the borrow of a discarded subtraction. */
  method AtLeast(u: array<Limb>, v: seq<Limb>, t: array<Limb>) returns (ge: bool)
    requires u.Length == |v| == t.Length && u != t
    modifies t
    ensures ge <==> Nat(u[..]) >= Nat(v)
  {
    Select(t, u[..], u[..], true);
    var bo := SubInPlace(t, v);
    ghost var r := Nat(t[..]);
    ge := bo == 0;
    if bo == 0 { assert bo * Pow(B, |v|) == 0; } else { assert bo * Pow(B, |v|) == Pow(B, |v|); }
  }

  /** Buffers are pairwise different objects of the modulus' width. */
  ghost predicate Distinct(s: seq<array<Limb>>, n: nat) {
    (forall i :: 0 <= i < |s| ==> s[i].Length == n) && forall i, j :: 0 <= i < j < |s| ==> s[i] != s[j]
  }

  method IntegerRound(u: array<Limb>, v: array<Limb>, x: array<Limb>, t: array<Limb>, d: array<Limb>, su: bool,
                      both: bool)
    requires Distinct([u, v, x, t, d], u.Length) && u.Length >= 1
    requires both ==> if su then Nat(u[..]) >= Nat(v[..]) else Nat(v[..]) >= Nat(u[..])
    modifies u, v, x, t, d
    ensures var p, q := old(Nat(u[..])), old(Nat(v[..]));
            && Nat(u[..]) == (if su then (p - (if both then q else 0)) / 2 else p)
            && Nat(v[..]) == (if su then q else (q - (if both then p else 0)) / 2)
  {
    Different([u, v, x, t, d], u.Length);
    Select(x, v[..], u[..], su);
    Select(t, u[..], v[..], su);
    HalveSelected(x, t[..], d, both);
    Select(u, u[..], x[..], su);
    Select(v, v[..], x[..], !su);
  }

  method CoefficientRound(a: array<Limb>, c: array<Limb>, x: array<Limb>, t: array<Limb>, d: array<Limb>, m: seq<Limb>,
                          su: bool, both: bool)
    requires Distinct([a, c, x, t, d], a.Length) && a.Length == |m| >= 1 && m[0] % 2 == 1
    requires Nat(a[..]) < Nat(m) && Nat(c[..]) < Nat(m)
    modifies a, c, x, t, d
    ensures var p, q := old(Nat(a[..])), old(Nat(c[..]));
            && Nat(a[..]) == (if su then HalfMod(if both then SubMod(p, q, Nat(m)) else p, Nat(m)) else p)
            && Nat(c[..]) == (if su then q else HalfMod(if both then SubMod(q, p, Nat(m)) else q, Nat(m)))
  {
    Different([a, c, x, t, d], a.Length);
    Select(x, c[..], a[..], su);
    Select(t, a[..], c[..], su);
    HalveCoefficient(x, t[..], d, m, both);
    Select(a, a[..], x[..], su);
    Select(c, c[..], x[..], !su);
  }

  lemma Different(s: seq<array<Limb>>, n: nat)
    requires Distinct(s, n) && |s| == 5
    ensures s[0] != s[1] && s[0] != s[2] && s[0] != s[3] && s[0] != s[4] && s[1] != s[2]
    ensures s[1] != s[3] && s[1] != s[4] && s[2] != s[3] && s[2] != s[4] && s[3] != s[4]
    ensures s[1].Length == n && s[2].Length == n && s[3].Length == n && s[4].Length == n
  {
  }

  /** One round over the seven buffers is one step of the machine. */
  method Round(u: array<Limb>, v: array<Limb>, a: array<Limb>, c: array<Limb>,
               x: array<Limb>, t: array<Limb>, d: array<Limb>, m: seq<Limb>)
    requires Distinct([u, v, a, c, x, t, d], |m|) && |m| >= 1 && m[0] % 2 == 1
    requires Nat(a[..]) < Nat(m) && Nat(c[..]) < Nat(m) && (Nat(u[..]) % 2 == 1 || Nat(v[..]) % 2 == 1)
    modifies u, v, a, c, x, t, d
    ensures Abstract(u[..], v[..], a[..], c[..]) == old(Step(Abstract(u[..], v[..], a[..], c[..]), Nat(m)))
  {
    var buffers := [u, v, a, c, x, t, d];
    assert buffers[0] == u && buffers[1] == v && buffers[2] == a && buffers[3] == c;
    assert buffers[4] == x && buffers[5] == t && buffers[6] == d;
    ghost var s := Abstract(u[..], v[..], a[..], c[..]);
    ParityOfLow(u[..], u.Length);
    ParityOfLow(v[..], v.Length);
    var ge := AtLeast(u, v[..], t);
    var uOdd, vOdd := u[0] % 2 == 1, v[0] % 2 == 1;
    var both := uOdd && vOdd;
    var su := !uOdd || (vOdd && ge);
    IntegerRound(u, v, x, t, d, su, both);
    CoefficientRound(a, c, x, t, d, m, su, both);
    SharedShape(s, Nat(m));
  }

  /**
   * The candidate inverse and whether it is one: `ok` exactly when `gcd(a, m) = 1`, and then the
   * result times `a` is one. For any `a`, the result times `a` is the gcd.
   */
  method Xgcd(a: seq<Limb>, m: seq<Limb>) returns (inv: seq<Limb>, ok: bool)
    requires |m| >= 1 && m[0] % 2 == 1 && Nat(m) > 1
    ensures |inv| == |m| && Nat(inv) < Nat(m)
    ensures ok <==> GcdOf(Nat(a), Nat(m)) == 1
    ensures Cong(Nat(inv) * Nat(a), GcdOf(Nat(a), Nat(m)), Nat(m))
  {
    var n := |m|;
    ParityOfLow(m, n);
    var _, rem := DivRem(a, m);
    var bits := BitLen(m);
    inv, ok := RunRounds(Resized(rem, n), m, 2 * bits, Nat(a));
    EnoughRounds(Nat(a), Nat(m), bits);
  }

  method RunRounds(r: seq<Limb>, m: seq<Limb>, count: nat, ghost a: nat) returns (inv: seq<Limb>, ok: bool)
    requires |r| == |m| >= 1 && m[0] % 2 == 1 && Nat(m) > 1 && Nat(m) % 2 == 1 && Nat(r) == a % Nat(m)
    ensures |inv| == |m| && Inv(State(a % Nat(m), Nat(m), 1, 0), a, Nat(m))
    ensures var s := Rounds(State(a % Nat(m), Nat(m), 1, 0), Nat(m), a, count);
            Nat(inv) == s.c && (ok <==> s.v == 1)
  {
    var n := |m|;
    var u := new Limb[n](i requires 0 <= i < n => r[i]);
    var v := new Limb[n](i requires 0 <= i < n => m[i]);
    var bigA := new Limb[n](i => if i == 0 then 1 else 0);
    var bigC := new Limb[n](_ => 0);
    var x, t, d := new Limb[n](_ => 0), new Limb[n](_ => 0), new Limb[n](_ => 0);
    assert u[..] == r && v[..] == m;
    ValSingle(bigA[..], 0, n);
    assert Pow(B, 0) == 1;
    ValZeroTail(B, bigC[..], 0, n);
    StartInv(a, Nat(m));
    Repeat(u, v, bigA, bigC, x, t, d, m, count, State(a % Nat(m), Nat(m), 1, 0), a);
    inv := bigC[..];
    ok := IsOne(v[..]);
  }

  method Repeat(u: array<Limb>, v: array<Limb>, a: array<Limb>, c: array<Limb>, x: array<Limb>, t: array<Limb>,
                d: array<Limb>, m: seq<Limb>, count: nat, ghost s: State, ghost a0: nat)
    requires Distinct([u, v, a, c, x, t, d], |m|) && |m| >= 1 && m[0] % 2 == 1 && Nat(m) % 2 == 1
    requires Inv(s, a0, Nat(m)) && Abstract(u[..], v[..], a[..], c[..]) == s
    modifies u, v, a, c, x, t, d
    ensures Abstract(u[..], v[..], a[..], c[..]) == Rounds(s, Nat(m), a0, count)
  {
    var k := 0;
    while k < count
      invariant 0 <= k <= count && Abstract(u[..], v[..], a[..], c[..]) == Rounds(s, Nat(m), a0, k)
    {
      ghost var r := Rounds(s, Nat(m), a0, k);
      Round(u, v, a, c, x, t, d, m);
      k := k + 1;
      assert Rounds(s, Nat(m), a0, k) == Step(r, Nat(m));
    }
  }

  method IsOne(v: seq<Limb>) returns (one: bool)
    requires |v| >= 1
    ensures one <==> Nat(v) == 1
  {
    one := v[0] == 1 && forall k :: 1 <= k < |v| ==> v[k] == 0;
    ghost var e: seq<Limb> := seq(|v|, i => if i == 0 then 1 else 0);
    ValSingle(e, 0, |v|);
    assert Pow(B, 0) == 1;
    if Nat(v) == 1 { ValUnique(B, v, e, |v|); }
    if one { ValSingle(v, 0, |v|); }
  }
}
