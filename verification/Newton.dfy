/** 2-adic inverses by Newton iteration on wrapping words. */
module Newton {
  import opened Arith
  import opened Limbs

  /** One Newton step squares the precision of a 2-adic inverse. */
  lemma NewtonStep(n: int, x: int, m: int)
    requires Cong(n * x, 1, m)
    ensures Cong(n * (x * (2 - n * x)), 1, m * m)
  {
    var k := CongWitness(n * x, 1, m);
    var y := n * x;
    assert n * (x * (2 - y)) == y * (2 - y);
    assert (1 + k * m) * (2 - (1 + k * m)) == 1 + (-(k * k)) * (m * m);
    CongBy(n * (x * (2 - y)), 1, m * m, -(k * k));
  }

  /** The machine step keeps only the value modulo a multiple of the precision. */
  lemma NewtonMachineStep(n: int, x: int, m: int, w: int, q: int)
    requires w == m * m * q && w > 0 && Cong(n * x, 1, m)
    ensures Cong(n * (x * (2 - n * x) % w), 1, m * m)
  {
    NewtonStep(n, x, m);
    var y := x * (2 - n * x);
    CongMod(y, w);
    CongFactor(y % w, y, m * m, q);
    CongScale(y % w, y, n, m * m);
    CongTrans(n * (y % w), n * y, 1, m * m);
  }

  /** The precision after `i` Newton steps from one bit. */
  function Precision(i: nat): int { if i == 0 then 2 else Precision(i - 1) * Precision(i - 1) }

  lemma PrecisionOfSix()
    ensures Precision(0) == 2 && Precision(1) == 4 && Precision(2) == 16 && Precision(3) == 0x100
    ensures Precision(4) == 0x1_0000 && Precision(5) == 0x1_0000_0000 && Precision(6) == B
  {
    assert Precision(1) == 4;
    assert Precision(2) == 16;
    assert Precision(3) == 0x100;
    assert Precision(4) == 0x1_0000;
    assert Precision(5) == 0x1_0000_0000;
  }

  /** `n^-1 mod 2^64` for odd `n`, six Newton steps from the trivial inverse modulo 2. */
  method InvModLimb(n: Limb) returns (x: Limb)
    requires n % 2 == 1
    ensures n * x % B == 1
  {
    x := 1;
    PrecisionOfSix();
    assert n * 1 == 1 + (n / 2) * 2;
    CongBy(n * 1, 1, 2, n / 2);
    var i := 0;
    while i < 6
      invariant 0 <= i <= 6
      invariant Cong(n * x, 1, Precision(i))
    {
      ghost var m := Precision(i);
      ghost var q := if i == 0 then 0x4000_0000_0000_0000 else if i == 1 then 0x1000_0000_0000_0000
                     else if i == 2 then 0x100_0000_0000_0000 else if i == 3 then 0x1_0000_0000_0000
                     else if i == 4 then 0x1_0000_0000 else 1;
      NewtonMachineStep(n, x, m, B, q);
      WrappingNewton(n, x);
      x := MulLow(x, (2 - MulLow(n, x)) % B);
      i := i + 1;
    }
    CongIsMod(n * x, 1, B);
  }

  /** The wrapping form `x·(2 - n·x)` computed limb by limb. */
  lemma WrappingNewton(n: Limb, x: Limb)
    ensures MulLow(x, (2 - MulLow(n, x)) % B) == x * (2 - n * x) % B
  {
    var y := MulLow(n, x);
    CongMod(n * x, B);
    CongSelf(2, B);
    CongSub(2, 2, y, n * x, B);
    CongMod(2 - y, B);
    CongTrans((2 - y) % B, 2 - y, 2 - n * x, B);
    CongScale((2 - y) % B, 2 - n * x, x, B);
    CongIsMod(x * ((2 - y) % B), x * (2 - n * x), B);
  }

  /** When the squared precision passes the word, the machine step is exact for the whole word. */
  lemma NewtonLastStep(n: int, x: int, m: int, w: int, q: int)
    requires m * m == w * q && w > 0 && Cong(n * x, 1, m)
    ensures Cong(n * (x * (2 - n * x) % w), 1, w)
  {
    NewtonStep(n, x, m);
    var y := x * (2 - n * x);
    CongFactor(n * y, 1, w, q);
    CongMod(y, w);
    CongScale(y % w, y, n, w);
    CongTrans(n * (y % w), n * y, 1, w);
  }

  /** An odd number is its own inverse modulo 8. */
  lemma OddSquare(n: int)
    requires n % 2 == 1
    ensures Cong(n * n, 1, 8)
  {
    var k := n / 2;
    var j := HalfConsecutive(k);
    assert (2 * k + 1) * (2 * k + 1) == 4 * (k * (k + 1)) + 1;
    CongBy(n * n, 1, 8, j);
  }

  lemma HalfConsecutive(k: int) returns (j: int)
    ensures k * (k + 1) == 2 * j
  {
    if k % 2 == 0 {
      j := (k / 2) * (k + 1);
      assert (2 * (k / 2)) * (k + 1) == 2 * j;
    } else {
      j := k * ((k + 1) / 2);
      assert k * (2 * ((k + 1) / 2)) == 2 * j;
    }
  }
}
