# Verified model of the purecrypto arithmetic core

purecrypto is a pure-Rust cryptography library. This project models the parts of it where a wrong
carry, a missed branch or a wrong loop bound would silently corrupt a key or a signature, and proves
that they compute what their documentation promises:

* **Montgomery arithmetic**: the two-rows-per-pass multiplication kernel, the dedicated squaring
  kernel, the setup of `R^2 mod n`, Horner reduction, long division, and the exponentiation ladders.
* **Wide-vector exponentiation**: almost-Montgomery multiplication on 52-bit digits with deferred
  carries, the carry-lookahead normalization, the window ladders on top of it for one job or two, and
  the entry points that choose between it and the portable ladders.
* **Inversion**: Bernstein-Yang divsteps in batches of 59 on signed 62-bit digits, with a proof that the
  built-in 590 divsteps (and the larger counts for wider moduli) are enough; the constant-time
  binary extended GCD (by selection and in place), the even-modulus exact division, and extended
  Euclid, each on limbs at fixed and at runtime width.
* **Primality**: the sieve, reciprocal remainders, Miller-Rabin with masked squarings, and the
  safe-prime certificate.
* **BLS12-381 support**: square roots in the quadratic extension, simultaneous-window scalar
  multiplication over any commutative group, and the constant-time scalar split.
* **Ascon**: the in-place AEAD of NIST SP 800-232 section 4 and the three version 1.2 variants.

Conventions. A limb is an integer in `[0, 2^64)`; wrap-around, carries and borrows are written out.
`Limbs.Val(b, s, k)` is the value of the first `k` digits of `s` in base `b`, `Limbs.Nat` the value of
a limb sequence, and `Arith.Cong` congruence with an explicit witness. Buffers that the library
updates in place are arrays; loops are loops. Randomness is a parameter (the sequence of draws), the
Ascon permutations are arbitrary functions on states, and the curve is any set of representations
closed under addition and doubling, with a homomorphism to a commutative group. Masked selections are
written as conditionals on the same condition: constant-time behaviour is not a property of this model.

Layout. `Arith`, `Limbs`, `LimbOps`, `UintOps`, `Bits`, `BitOps`, `Radix`, `Gcd` and `Primes` hold the shared
mathematics; every other module follows one source component. `dafny verify dfyconfig.toml` checks
the whole project.

Where code and documentation differ:

* The ladders document that exponent bits at or above `bits` are ignored. The portable ones read whole
  windows. Their result is the documented power for every base and odd modulus exactly when the rest
  of the last window is clear (`Ladders.IgnoredExactly`, `Ladders.JointIgnoredExactly`). With one bit
  and exponent two, `3^2` and `3^0` differ modulo every odd number above one
  (`Ladders.IgnoredBitsDiffer`), and `Ladders.IgnoredBitCounts` is that call. The 52-bit ladder does
  ignore those bits, so only then do the two paths of one entry point return the same.
* The divstep coefficients are documented to stay in `(-2m, m)`. They do, in every state of every run,
  exactly when the modulus is above one (`SafegcdInvert.RangeExactly`); for `m = 1` the initial
  `e = 1` is already outside (`SafegcdInvert.StartModuloOne`).
* The reciprocal remainders are documented for `0 < p`. At `p = 1` the reciprocal's increment overflows
  its word, and only there (`Reciprocal.RecipFits`): with overflow checks that is a panic, and wrapped
  to zero it still gives the remainder zero (`Reciprocal.ModWithRecipIs`).
* Extended Euclid documents that the coefficient magnitude stays below `m`. The last coefficient formed
  is `m / gcd(a, m)`, every earlier one is below `m`, so the claim holds exactly when `a` and `m` are
  not coprime (`Euclid.CoefficientsBelow`; for two modulo five the last one is five,
  `Euclid.CoprimeExample`). It also documents that the product `q·|s|` stays below `m`: that holds
  exactly when `a mod m` is not one (`Euclid.ProductsBelow`). Magnitudes never exceed `m`, so nothing
  overflows, and the coefficient returned is below `m`.

## Model

| member | source | states |
|---|---|---|
| `Limbs.Mac` | src/bignum/mul.rs:14-17 | `a + b·c + carry` as two limbs, exactly: no carry is lost for any operands |
| `Limbs.Adc` | src/bignum/uint.rs:156-159 | sum and carry, the carry a bit when the incoming one is |
| `Limbs.Sbb` | src/bignum/uint.rs:164-167 | difference and borrow, the borrow a bit when the incoming one is |
| `LimbOps.AdcLimbs` | src/bignum/boxed.rs:20-29 | multi-limb sum with the carry out as the top digit |
| `LimbOps.SbbLimbs` | src/bignum/boxed.rs:33-42 | multi-limb difference with borrow in and borrow out |
| `LimbOps.Resized` | src/bignum/boxed.rs:270-284 | padding or cutting to `n` limbs is the value modulo `B^n`, unchanged when it fits |
| `LimbOps.AddMaskedInPlace` | src/bignum/ct_inverse.rs:189-198 | in-place `x + (y or 0)`, value and carry |
| `LimbOps.SubInPlace` | src/bignum/ct_inverse.rs:173-181 | in-place `x - y`, value and borrow |
| `LimbOps.ShrOneInPlace` | src/bignum/ct_inverse.rs:162-169 | in-place halving with a bit shifted in at the top and the low bit dropped |
| `MontKernel.PairPass` | src/bignum/montgomery.rs:119-164 | one two-row pass divides the accumulator plus two operand rows and two multiples of `n` by the radix squared, exactly |
| `MontKernel.SingleRow` | src/bignum/montgomery.rs:165-183 | the odd trailing row does the same for one row |
| `MontKernel.AccBound` | src/bignum/montgomery.rs:98-185 | after every row the accumulator is below `a + n`, so the top limb is at most one |
| `MontKernel.MontFinalSub` | src/bignum/montgomery.rs:58-76 | one conditional subtraction of `n` from a value below `2n`, top limb included |
| `MontKernel.MontMulKernel` | src/bignum/montgomery.rs:98-185 | for every width, odd or even: result below `n` and result·R ≡ a·b (mod n), one operand below `n` |
| `MontSquare.SquareIsTriangleAndDiagonal` | src/bignum/montgomery.rs:205-265 | a square is twice the strict triangle plus the diagonal |
| `MontSquare.FormTriangle` | src/bignum/montgomery.rs:215-244 | the paired rows accumulate exactly the strict triangle of products |
| `MontSquare.AddDiagonal` | src/bignum/montgomery.rs:258-265 | adds the diagonal with the carry out |
| `MontSquare.FormSquare` | src/bignum/montgomery.rs:215-265 | the double-width buffer ends holding `a^2`: neither the doubling nor the diagonal loses a carry |
| `MontSquare.SosPair` | src/bignum/montgomery.rs:270-309 | one paired reduction step with its riding carry is exact |
| `MontSquare.SosReduce` | src/bignum/montgomery.rs:267-309 | the separated reduction leaves `(a^2 + M·n)/R` with `M < R` |
| `MontSquare.MontSqrKernel` | src/bignum/montgomery.rs:205-313 | for every width: result below `n` and result·R ≡ a² (mod n) |
| `Montgomery.KernelsAgree` | src/bignum/montgomery.rs:205-313 | outputs meeting the two kernels' promises on `(a, a)` are the same limbs |
| `Montgomery.SquareBothWays` | src/bignum/montgomery.rs:205-313 | running both kernels on one operand gives the same limbs |
| `Montgomery.MontProductUnique` | src/bignum/montgomery.rs:98-185 | the reduced Montgomery product is unique |
| `Newton.InvModLimb` | src/bignum/montgomery.rs:16-24 | the inverse of any odd limb modulo `2^64` |
| `Montgomery.NPrimeOfInverse` | src/bignum/montgomery.rs:379-388 | its negation is the `n'` the kernels need |
| `Montgomery.MontMul` | src/bignum/montgomery.rs:479-494 | Montgomery product at the significant width, zero above it |
| `Montgomery.MontSqr` | src/bignum/montgomery.rs:505-516 | Montgomery square at the significant width |
| `Montgomery.MontOfProduct` | src/bignum/montgomery.rs:479-494 | the product of Montgomery forms is the Montgomery form of the product |
| `Montgomery.AddMod` | src/bignum/montgomery.rs:316-326 | `(a + b) mod n` for reduced operands, carry out of the top included |
| `Montgomery.SubMod` | src/bignum/montgomery.rs:329-338 | `(a - b) mod n` for reduced operands |
| `Montgomery.SignificantLimbs` | src/bignum/boxed.rs:255-261 | the least width that loses nothing, at least one |
| `MontSetup.RSquared` | src/bignum/montgomery.rs:428-454 | `64s - bits + 1 + s` doublings of `2^(bits-1)` and six squarings give `R^2 mod n` |
| `MontSetup.New` | src/bignum/montgomery.rs:379-388 | valid parameters for every odd modulus, `n = 1` included |
| `BoxedMont.DoubleInPlace` | src/bignum/boxed_montgomery.rs:228-244 | in-place `2x mod n` for `x <= n` |
| `BoxedMont.ComputeR2` | src/bignum/boxed_montgomery.rs:200-223 | the in-place chain ends in `R^2 mod n` |
| `BoxedMont.NewBoxed` | src/bignum/boxed_montgomery.rs:118-147 | valid parameters at exactly the significant width, same modulus value |
| `BoxedMont.AddModInPlace` | src/bignum/boxed_montgomery.rs:41-58 | in-place modular addition |
| `BoxedMont.Demont` | src/bignum/boxed_montgomery.rs:297-301 | leaves the domain with the canonical residue |
| `BoxedMont.Reduce` | src/bignum/boxed_montgomery.rs:339-368 | `x mod n` for an `x` of any width, by Horner's rule in the domain |
| `LongDivide.DivideBit` | src/bignum/boxed.rs:79-95 | one shifted bit: the subtraction happens exactly when it fits, overflow bit included |
| `LongDivide.Preloaded` | src/bignum/boxed.rs:53-74 | the preloaded top limbs are already a remainder below `n` |
| `LongDivide.LongDivision` | src/bignum/boxed.rs:63-98 | `x = q·n + r` and `r < n` |
| `LongDivide.DivRem` | src/bignum/boxed.rs:405-422 | quotient and remainder by any nonzero divisor, leading zero limbs allowed |
| `UintOps.Multiply` | src/bignum/boxed.rs:375-389 | the schoolbook rows give the exact product of operands of any widths |
| `UintOps.MulWide` | src/bignum/mul.rs:22-50 | low and high halves of the exact double-width product |
| `UintOps.WrappingSub` | src/bignum/uint.rs:279-302 | difference modulo the width, exact unless it borrows, and the borrow is the comparison |
| `UintOps.Add` | src/bignum/boxed.rs:345-372 | sum of any widths, one limb wider, nothing lost |
| `UintOps.Sub` | src/bignum/boxed.rs:288-292 | difference at the wider width, exact when not negative |
| `UintOps.HalveWith` | src/bignum/uint.rs:352-363 | halving with a bit shifted in at the top |
| `UintOps.DivRemFixed` | src/bignum/uint.rs:407-437 | quotient and remainder by trial subtraction of every bit, no quotient bit lost |
| `Ladders.WindowDigitIsField` | src/bignum/boxed_montgomery.rs:467-469 | a window read from one limb is the bit field of the whole exponent, zero past its storage |
| `Ladders.Gather` | src/bignum/boxed_montgomery.rs:582-627 | the full masked scan returns the indexed entry |
| `Ladders.PowBits` | src/bignum/boxed_montgomery.rs:445-473 | `base^e mod n` for the windows' exponent and a base of any width padded or cut; `base^exp` whenever `exp < 2^bits`; `base^(exp mod 2^bits)` whenever the last window is clear from `bits` up |
| `Ladders.Pow2Bits` | src/bignum/boxed_montgomery.rs:515-569 | `a^x·b^y mod n` with one squaring chain, under the same two conditions |
| `Ladders.BitLen` | src/bignum/boxed.rs:216-223 | the bit length of a limb sequence, zero exactly for zero |
| `Ladders.PowPublic` | src/bignum/boxed_montgomery.rs:660-720 | `base^exp mod n` for every exponent and base width, short binary or long windowed path, zero included |
| `Ladders.SeenWhole` | src/bignum/modpow.rs:31-43 | an exponent below `2^bits` is seen whole by any window width |
| `Ladders.SeenExactly` | src/bignum/modpow.rs:31-43 | the exponent seen is at least `exp mod 2^bits`, and equal exactly when the rest of the last window is clear |
| `Ladders.IgnoredExactly` | src/bignum/boxed_montgomery.rs:408-415 | the power returned is that of `exp mod 2^bits` for every base and odd modulus exactly when the rest of the last window is clear |
| `Ladders.JointIgnoredExactly` | src/bignum/boxed_montgomery.rs:475-480 | the same for two bases: exactly when both rests are clear |
| `Ladders.IgnoredBitsDiffer` | src/bignum/boxed_montgomery.rs:408-415 | one bit, exponent two, base three: the residue seen and the documented one agree modulo an odd `n` only for `n = 1` |
| `Ladders.IgnoredBitCounts` | src/bignum/boxed_montgomery.rs:445-473 | that call to the ladder returns the documented power only modulo one |
| `Divsteps.DivstepCommon` | src/bignum/safegcd.rs:316-351 | a half-delta divstep keeps exactly the common divisors of the pair |
| `Divsteps.LowTracks` | src/bignum/safegcd.rs:316-351 | the masked step on low words agrees with the full divstep, losing one known bit |
| `Divsteps.MapsStep` | src/bignum/safegcd.rs:316-351 | the transition matrix follows each divstep with both row sums within its scale |
| `Divsteps.Divsteps59` | src/bignum/safegcd.rs:316-351 | the masked loop's matrix maps the full pair to `2^62` times its 59-divstep successor, rows within `2^62` |
| `Divsteps.ReachesZero` | src/bignum/safegcd.rs:316-351 | from every pair with `f` odd and every `ζ`, some number of divsteps makes `g` zero |
| `DivstepRate.NextBlock` | src/bignum/safegcd.rs:316-351 | from `ζ = -1` with `g = 2^k·h`, `h` odd, the next `2k + 1` divsteps give `ζ = -1` and the pair `(h, (q·h - f)/2^(k+1))` for an odd `q` below `2^(k+1)` |
| `DivstepPolygon.Row` | src/bignum/safegcd.rs:316-351 | a side of a polygon after a block is a combination of sides before it, at both ends of the range of `q` and so between them |
| `DivstepRate.EveryBlock` | src/bignum/safegcd.rs:316-351 | each such block shrinks a fixed 48-sided polygon around the pair by `379/512` for every divstep in it, whatever its length |
| `DivstepRate.Converges` | src/bignum/safegcd.rs:316-351 | a pair inside the polygon scaled by less than `(512/379)^n` has `g = 0` after `n` divsteps |
| `DivstepRate.DivstepsSuffice` | src/bignum/safegcd.rs:15-23 | `n` divsteps suffice for every input below an odd `m < 2^b` once `2^b <= (512/379)^n` |
| `DivstepRate.TenRoundRate` | src/bignum/safegcd.rs:22-23 | 590 divsteps meet that for 256 bits |
| `DivstepRate.LinearBound` | src/bignum/safegcd.rs:15-23 | seven divsteps for every three bits suffice at every size |
| `Safegcd.UpdateFg` | src/bignum/safegcd.rs:355-372 | the new pair is exactly the quotient, in normal digits, every sum within its 128-bit accumulator |
| `Safegcd.CorrectionClears` | src/bignum/safegcd.rs:234-274 | the multiple of `m` added makes the low digit divisible |
| `Safegcd.CoefficientRange` | src/bignum/safegcd.rs:234-274 | the corrected coefficients stay in `(-2m, m)`, the value one added for `m = 1` |
| `Safegcd.UpdateDe` | src/bignum/safegcd.rs:234-274 | new coefficients in the same range, congruent to the transformed ones over `2^62`, no overflow |
| `Safegcd.Carry62` | src/bignum/safegcd.rs:304-309 | moves carries without changing the value and leaves normal digits |
| `Safegcd.Normalize` | src/bignum/safegcd.rs:278-298 | the representative in `[0, m)` of the signed coefficient |
| `SafegcdInvert.ToSigned62` | src/bignum/safegcd.rs:137-152 | signed digits of the same value, in normal form |
| `SafegcdInvert.FromSigned62` | src/bignum/safegcd.rs:156-170 | limbs of the same non-negative value |
| `SafegcdInvert.New` | src/bignum/safegcd.rs:182-207 | digits, low inverse and round count for every odd modulus |
| `SafegcdInvert.Round` | src/bignum/safegcd.rs:216-222 | every round keeps `d·a ≡ f`, `e·a ≡ g`, `f` odd, the pair at its divstep state and the coefficient range |
| `SafegcdInvert.StartModuloOne` | src/bignum/safegcd.rs:211-215 | the run modulo one starts with `e = 1`, kept by every round but outside the documented range |
| `SafegcdInvert.RangeExactly` | src/bignum/safegcd.rs:231-232 | both coefficients are in `(-2m, m)` in every state of every run exactly when `m > 1` |
| `SafegcdInvert.FinalGcd` | src/bignum/safegcd.rs:223-228 | once `g` is zero, the magnitude of `f` is the gcd of the inputs |
| `SafegcdInvert.Invert` | src/bignum/safegcd.rs:211-229 | with the built-in round count the result times `a` is the gcd for every `a < m`, so it is the inverse in `[0, m)` of every unit, and 0 maps to 0; for any count it is the inverse exactly when the final `f` is one in magnitude |
| `SafegcdInvert.BuiltInRounds` | src/bignum/safegcd.rs:97-114 | the built-in round count brings `g` to zero for every input below every odd modulus of up to nine limbs: ten rounds up to 256 bits, the closed form and its spare round above |
| `SafegcdInvert.RoundsSuffice` | src/bignum/safegcd.rs:211-229 | any round count worth seven divsteps for every three bits brings `g` to zero for all inputs of any modulus |
| `Gcd.InverseUnique` | src/bignum/safegcd.rs:209-211 | an inverse in `[0, m)` is unique |
| `Radix.ToDigits` | src/bignum/ifma.rs:120-132 | narrower digits with the same value modulo the digits' span |
| `Radix.FromDigits` | src/bignum/ifma.rs:136-148 | limbs of the same value, when it fits |
| `CarryLookahead.LookaheadSum` | src/bignum/ifma.rs:343-347 | `2G + P` is the propagate mask exclusive-or the ripple carries, with the last carry on top |
| `CarryLookahead.CarryWordIsRipple` | src/bignum/ifma.rs:366-376 | for a total that fits, the carry word is exactly the ripple's carries, in either mask width |
| `CarryLookahead.Normalize` | src/bignum/ifma.rs:349-381 | canonical digits of the same value, equal to those of a sequential ripple |
| `IfmaKernel.Multiplier` | src/bignum/ifma.rs:419-425 | the split multiplier is `(l0 + a0·b)·n' mod 2^52` |
| `IfmaKernel.Row` | src/bignum/ifma.rs:412-440 | a row divides the accumulator plus `a·b_i + m·n` by `2^52` exactly, and each lane grows by a fixed bound |
| `IfmaKernel.Amm` | src/bignum/ifma.rs:388-450 | up to 128 rows: canonical digits below `2n` with out·R = a·b + M·n, no lane wraps |
| `IfmaLadder.New` | src/bignum/ifma.rs:183-212 | none exactly when too wide; otherwise `R >= 4n`, `R` above the limb width, `n'` and `R^2 mod n` right |
| `IfmaLadder.Mul` | src/bignum/ifma.rs:512 | the domain of values below `2n` is closed under multiplication |
| `IfmaLadder.Enter` | src/bignum/ifma.rs:528-532 | any operand below `R` enters the domain |
| `IfmaLadder.Product` | src/bignum/ifma.rs:388-450 | a product smaller than `R` comes out at most `n`, so one subtraction is enough |
| `IfmaLadder.Finish` | src/bignum/ifma.rs:485-491 | multiplying by one, converting and one subtraction give the canonical residue |
| `IfmaLadder.WindowIsField` | src/bignum/ifma.rs:244-257 | the bounded window is the plain window of the exponent cut to its bound |
| `IfmaLadder.PrefixStep` | src/bignum/ifma.rs:585-611 | squarings and one table entry take in one more window, for one base or two |
| `IfmaLadder.RunOne` | src/bignum/ifma.rs:495-621 | `base^(exp mod 2^bits)` or `a^(x mod 2^bits)·b^(y mod 2^bits)` modulo `n`, fully reduced, for any exponents |
| `IfmaLadder.RunPair` | src/bignum/ifma.rs:495-621 | two jobs in lockstep each give their own result |
| `IfmaLadder.PowPublicWord` | src/bignum/ifma.rs:624-653 | `base^exp mod n` for every 64-bit exponent, zero included |
| `Dispatch.NewModulus` | src/bignum/boxed_montgomery.rs:118-162 | both sets of parameters are right for the same number, the 52-bit ones present exactly when supported and not too wide |
| `Dispatch.PowBitsDispatch` | src/bignum/boxed_montgomery.rs:426-442 | whichever ladder runs: the documented power for exponents below `2^bits`, and above whenever the 52-bit path runs or the last window is clear |
| `Dispatch.Pow2BitsDispatch` | src/bignum/boxed_montgomery.rs:486-512 | the same for two bases |
| `Dispatch.PowPublicDispatch` | src/bignum/boxed_montgomery.rs:643-657 | `base^exp mod n` for every public exponent, whichever of the three paths runs |
| `BinaryGcd.HalfModIs` | src/bignum/ct_inverse.rs:34-39 | halving modulo an odd `m` |
| `BinaryGcd.SubModIs` | src/bignum/ct_inverse.rs:42-46 | reduced difference |
| `BinaryGcd.StepKeeps` | src/bignum/ct_inverse.rs:56-102 | a round keeps `A·a ≡ u`, `C·a ≡ v`, the common divisors, and one of `u`, `v` odd |
| `BinaryGcd.StepShrinks` | src/bignum/ct_inverse.rs:56-102 | a round at least halves `u·v` |
| `BinaryGcd.EnoughRounds` | src/bignum/ct_inverse.rs:48-102 | `2·bits(m)` rounds always end with `u = 0`, `v = gcd(a, m)` and its coefficient |
| `XgcdBoxed.SharedShape` | src/bignum/ct_inverse.rs:223-283 | selecting one side, subtracting and halving is the same step as the four-way choice |
| `XgcdBoxed.HalfModInPlace` | src/bignum/ct_inverse.rs:268-272 | masked addition and shift with its carry halve modulo `m` in place |
| `XgcdBoxed.Round` | src/bignum/ct_inverse.rs:235-275 | one in-place round over the seven buffers is one step |
| `XgcdBoxed.Xgcd` | src/bignum/ct_inverse.rs:223-283 | the flag says `gcd(a, m) = 1`, and the result times `a` is the gcd, below `m` |
| `ModInverse.SelectStep` | src/bignum/ct_inverse.rs:71-101 | all candidates and four masks on limbs are one step of the masked GCD |
| `ModInverse.InvModOddCt` | src/bignum/ct_inverse.rs:56-103 | the inverse in `[0, m)` at the operands' width, none exactly when not coprime |
| `ModInverse.InvModOddCtBoxed` | src/bignum/ct_inverse.rs:202-205 | the same for the in-place form and operands of any width; the result has the modulus' limb count |
| `ModInverse.InvModPow2` | src/bignum/ct_inverse.rs:106-118 | the inverse of an odd limb string modulo its width, by limb products |
| `ModInverse.ExactQuotient` | src/bignum/ct_inverse.rs:121-128 | `1 + phi·y` is a multiple of `e` whose quotient is the inverse, below `phi` |
| `ModInverse.ExactDivision` | src/bignum/ct_inverse.rs:129-141 | multiplying the truncated numerator by the word inverse gives the true quotient |
| `ModInverse.InvModCt` | src/bignum/ct_inverse.rs:129-141 | `e^-1 mod phi` in range for either parity of `phi`, none exactly when not coprime, all on limbs |
| `ModInverse.InvModCtBoxed` | src/bignum/ct_inverse.rs:287-318 | the same for operands of any widths; the result has the limb count of `phi` |
| `Euclid.SignedSubIs` | src/bignum/inverse.rs:112-129 | sign-magnitude subtraction is exact while the magnitudes fit |
| `Euclid.DivideKeeps` | src/bignum/inverse.rs:84-98 | a division keeps the congruences, the conserved sum of cross products of remainders and coefficient magnitudes, and alternating signs |
| `Euclid.DivideMagnitude` | src/bignum/inverse.rs:88-91 | the new magnitude is the older one plus the product, untruncated and at most `m` |
| `Euclid.EuclidEnd` | src/bignum/inverse.rs:100-108 | at the end the remainder is the gcd, the returned coefficient is below `m`, and the last one formed times the gcd is `m`, so it is `m` exactly for coprime inputs |
| `Euclid.CoefficientsBelow` | src/bignum/inverse.rs:66-68 | all magnitudes stay below `m` exactly when the inputs are not coprime |
| `Euclid.ProductsBelow` | src/bignum/inverse.rs:88-89 | all products stay below `m` exactly when `a mod m` is not one |
| `Euclid.CoprimeExample` | src/bignum/inverse.rs:66-68 | two modulo five forms the magnitudes one, two, five |
| `Euclid.CommonFactorExample` | src/bignum/inverse.rs:66-68 | two modulo four forms the magnitudes one, two |
| `Euclid.ProductExample` | src/bignum/inverse.rs:88-89 | one modulo three forms the product three |
| `Euclid.InvMod` | src/bignum/inverse.rs:73-108 | on limbs, the inverse at the operands' width for any modulus of either parity, none exactly for zero arguments or no coprimality |
| `Euclid.InvModBoxed` | src/bignum/inverse.rs:13-47 | the same for operands of any widths: trimming the coefficient to the modulus' width loses nothing |
| `ModInverse.InverseDetermined` | src/bignum/inverse.rs:13-108 | any two routines meeting the promise return the same option |
| `ModInverse.LimbsDetermined` | src/bignum/ct_inverse.rs:56-318 | at one width they return the same limbs |
| `Reciprocal.ReciprocalExact` | src/bignum/uint.rs:28-57 | the reciprocal remainder is exact while the error times the dividend fits the word |
| `Reciprocal.RecipFits` | src/bignum/uint.rs:45 | adding one to `(w - 1)/p` fits the word exactly when `p >= 2` |
| `Reciprocal.ModWithRecipIs` | src/bignum/uint.rs:107-110 | `v mod p` for all 32-bit `v` and `p >= 1`, the wrapped reciprocal included |
| `Reciprocal.MulHiIs` | src/bignum/uint.rs:71-75 | the two-half product is the high part of the full product |
| `Reciprocal.ModSmallLimbs` | src/bignum/uint.rs:43-57 | `n mod p` for every limb sequence and `1 <= p < 2^32` |
| `TrialDivision.StruckIsComposite` | src/bignum/prime.rs:44-63 | with all smaller odd primes found, an odd number is struck exactly when composite |
| `TrialDivision.Strike` | src/bignum/prime.rs:56-60 | in place, marks exactly the odd multiples from the square on |
| `TrialDivision.Sieve` | src/bignum/prime.rs:44-63 | exactly the odd primes below the bound, ascending |
| `TrialDivision.New` | src/bignum/prime.rs:44-63 | the table of odd primes below `2^14` with their reciprocals |
| `TrialDivision.Residues` | src/bignum/prime.rs:78-95 | `n mod p` for every table prime, from batches of products below `2^32` |
| `TrialDivision.Passes` | src/bignum/prime.rs:102-110 | true exactly when no table prime divides `n + delta` |
| `TrialDivision.SmallFactor` | src/bignum/prime.rs:144-153 | the smallest table prime dividing `n`, none exactly when there is none |
| `TrialDivision.NoFactorDecides` | src/bignum/prime.rs:204-212 | below `2^28` an odd number without table factors is prime |
| `PowerSplit.SpreadCount` | src/bignum/uint.rs:146-152 | the population count of `x` or-ed with `-x` is the width less the trailing zeros |
| `PowerSplit.WordZeros` | src/bignum/uint.rs:146-152 | trailing zeros of a limb, 64 for zero |
| `PowerSplit.TrailingZeros` | src/bignum/prime.rs:119-123 | trailing zeros of any nonzero multi-limb value |
| `PowerSplit.ShrBits` | src/bignum/boxed.rs:295-311 | a right shift by any amount is floor division by the power of two |
| `PowerSplit.SplitPow2` | src/bignum/prime.rs:118-133 | `x = d·2^s` with `d` odd, the unique such split |
| `MillerRabin.PrimePasses` | src/bignum/prime.rs:215-219 | a prime is a strong probable prime to every base it does not divide |
| `MillerRabin.StrongExactly` | src/bignum/prime.rs:233-252 | the condition holds exactly when `a^(n-1)` is one and no square root of one other than plus or minus one comes up among `a^(d·2^j)` |
| `MillerRabin.AllBasesDecide` | src/bignum/prime.rs:216-219 | an odd `n >= 5` is prime exactly when every base in `[2, n - 2]` passes |
| `MillerRabin.MaskedSquarings` | src/bignum/prime.rs:236-248 | squarings compared under the mask `j < s` find minus one exactly when some unmasked power reaches it |
| `MillerRabin.Round` | src/bignum/prime.rs:231-253 | with `n - 1 = d·2^s`, `d` odd, passes exactly when `a^(n-1)` is one and every `a^(d·2^j)` whose square is one is plus or minus one |
| `MillerRabin.RandomBase` | src/bignum/prime.rs:258-270 | the residue of the draw when it is in `[2, n - 2]`, and two otherwise |
| `MillerRabin.Rounds` | src/bignum/prime.rs:220-256 | accepts exactly when every drawn base passes, and never rejects a prime |
| `PrimeTests.IsPrimeWith` | src/bignum/prime.rs:185-214 | accepts exactly the primes and the odd numbers from `2^28` on that have no prime factor below `2^14` and pass every drawn base; an accepted composite passes every draw whose residue is in `[2, n - 2]` |
| `Primes.Fermat` | src/bignum/prime.rs:272-297 | Fermat's little theorem, which the tests rest on |
| `Primes.Lucas` | src/bignum/prime.rs:272-297 | with `q` an odd prime, one base with `a^q ≡ -1` proves `2q + 1` prime |
| `Primes.HalfPower` | src/bignum/prime.rs:288-292 | for a prime `p` the power `a^((p-1)/2)` is one or minus one |
| `Primes.EulerCriterion` | src/bignum/prime.rs:288-292 | for a prime `p = 2q + 1` with `q` odd, `a^q ≡ 1` exactly when `a` is a square |
| `PrimeTests.LucasRounds` | src/bignum/prime.rs:329-344 | accepts exactly when some drawn base has `a^q = -1` and all before it have `a^q = 1`; that proves `p` prime if `q` is; a rejected prime has `x^q = 1` for every draw's residue `x` in `[2, p - 2]` |
| `PrimeTests.IsSafePrime` | src/bignum/prime.rs:307-345 | the exact condition at every size; an accept with `q` prime proves `p` prime; a safe prime is rejected only above `2^28`, exactly when every drawn base is a square, so any draw whose residue in `[2, p - 2]` is not a square makes it accepted |
| `Fp2.MulIs` | src/bls/fp2.rs:95-101 | the product with `u^2 = -1`, from sums of products |
| `Fp2.SquareIsMul` | src/bls/fp2.rs:105-112 | the two-multiplication square equals the product with itself |
| `Fp2.InvertIs` | src/bls/fp2.rs:150-157 | none exactly for zero; otherwise the product with the input is one |
| `Fp2.RegularRoot` | src/bls/fp2.rs:182-217 | with a square norm and `delta` nonzero the selected shape squares to the input |
| `Fp2.SpecialRoot` | src/bls/fp2.rs:196-198 | with `delta = 0` the second shape does, zero and subfield elements included |
| `Fp2.SqrtExact` | src/bls/fp2.rs:202-217 | a root is returned exactly for the squares, and it is a root |
| `CurveMul.Gather` | src/bls/curve.rs:253-268 | the limb-wise masked union returns exactly the indexed entry |
| `CurveMul.DotAdd` | src/bls/curve.rs:270-331 | `Σ d_i·P_i` is linear in the digits in any commutative group |
| `CurveMul.BuildSubsets` | src/bls/curve.rs:274-281 | entry `k` is the subset sum of the set bits of `k` |
| `CurveMul.Mul4x64` | src/bls/curve.rs:273-298 | `Σ d_i·P_i` for all four 64-bit digits and points on the curve |
| `CurveMul.BuildPairs` | src/bls/curve.rs:305-316 | entry `a + 4b` is `a·P_0 + b·P_1` |
| `CurveMul.Mul2x128` | src/bls/curve.rs:304-331 | `d_0·P_0 + d_1·P_1` for all 128-bit digits and points on the curve |
| `ScalarSplit.WideStep` | src/bls/curve.rs:473-484 | the comparison is right even when the shift overflows 128 bits |
| `ScalarSplit.DivRemCt` | src/bls/curve.rs:469-487 | `k = q·d + rem` and `rem < d` for every nonzero `d < 2^128` |
| `Ascon.DecryptEncrypted` | src/ascon/aead.rs:98-223 | decryption undoes encryption and ends in the same state, for any permutation |
| `Ascon.EncryptDecrypted` | src/ascon/v12.rs:239-252 | encryption undoes decryption: the restoring pass |
| `Ascon.OpenIsSeal` | src/ascon/aead.rs:98-223 | opening accepts exactly what sealing produces, and returns what was sealed |
| `Ascon.XorAtByte` | src/ascon/v12.rs:207-212 | folding changes exactly the bytes from the offset on, each by exclusive-or |
| `Ascon.AbsorbRun` | src/ascon/aead.rs:63-77 | absorption is a run of one step for each whole block and one for the padded rest, each a block folded in and the permutation; the blocks joined are data, padding byte, zeros |
| `Ascon.EncryptRun` | src/ascon/v12.rs:239-252 | encryption is a run over the padded text without the last permutation, each byte masked by the rate of its state |
| `Ascon.AbsorbedDiffers` | src/ascon/aead.rs:63-80 | under an injective permutation, data that differ only after a common run of whole blocks lead to different states |
| `Ascon.NoDataDiffers` | src/ascon/aead.rs:63-80 | no data and one short block lead to the same state exactly when the permutation undoes folding that block |
| `AsconWords.StoreLoad` | src/ascon/v12.rs:185-203 | loading and storing words are inverse in either byte order |
| `AsconWords.StoreXor` | src/ascon/v12.rs:207-212 | exclusive-or of words is exclusive-or of their bytes |
| `AsconWords.LoadNumber` | src/ascon/v12.rs:62-70 | loading is the number with these bytes, by place value from either end |
| `AsconWords.ShiftNumber` | src/ascon/v12.rs:98-102 | the two 32-bit shifts are multiplication modulo `2^64` and division by `2^32` |
| `AsconWords.Aead128` | src/ascon/aead.rs:16-46 | every SP 800-232 parameter: little-endian, rate 16, rounds 12 and 8, padding byte 1, separator `2^63`, the initialization value as a number and by its bytes; and words that hold the given key |
| `AsconWords.Ascon128` | src/ascon/v12.rs:322-327 | every Ascon-128 parameter: big-endian, rate 8, rounds 12 and 6, padding byte `0x80`, separator 1; the initialization value is key bits, rate bits, 12, 6, zeros; and words that hold the given key |
| `AsconWords.Ascon128a` | src/ascon/v12.rs:329-334 | the same with rate 16 and rounds 12 and 8 |
| `AsconWords.Ascon80pq` | src/ascon/v12.rs:336-340 | the same with rate 8, rounds 12 and 6, and three words that hold the given 160-bit key |
| `AsconWords.XorRateIs` | src/ascon/v12.rs:207-212 | folding a block into the rate words folds its bytes into the front of the state |
| `AsconWords.SetRateIs` | src/ascon/v12.rs:198-203 | overwriting the rate words replaces exactly the first `rate` bytes |
| `AsconWords.InitIs` | src/ascon/v12.rs:77-86 | the word form and the byte form of initialization agree for both key sizes |
| `AsconWords.InitBytes` | src/ascon/aead.rs:50-59 | the bytes after initialization: those of the permuted `IV ‖ K ‖ N`, with the key folded into as many of the last as it has bytes, and nothing else changed |
| `AsconWords.FoldKeyRateIs` | src/ascon/v12.rs:89-105 | each of the three word patterns, shifts included, folds the key's bytes in right behind the rate |
| `AsconWords.TagIs` | src/ascon/aead.rs:84-92 | tag byte `i` is byte `24 + i` of the permuted state, its key folded in behind the rate, masked by byte `i` of the last sixteen of the key |
| `AsconInPlace.PadBlockIs` | src/ascon/aead.rs:229-237 | the sixteen-byte padded block cut to the rate is remainder, padding byte, zeros |
| `AsconInPlace.AbsorbAd` | src/ascon/aead.rs:63-80 | the run of states: each is the permutation of the last with a block folded in; the blocks joined are `aad`, padding byte, zeros, or there are none for no data; the separator is folded into the last byte always |
| `AsconInPlace.EncryptBlock` | src/ascon/v12.rs:242-246 | one block in place: ciphertext written over plaintext, state permuted |
| `AsconInPlace.DecryptBlock` | src/ascon/v12.rs:133-142 | one block in place: plaintext written, the ciphertext becomes the rate |
| `AsconInPlace.EncryptData` | src/ascon/v12.rs:239-252 | the run over the padded text: every byte written is masked by the rate of its state, and the last block is folded in without a permutation; the same as the recursive specification |
| `AsconInPlace.Encrypt` | src/ascon/aead.rs:98-122 | the whole run from the initial state through associated data, separator, plaintext and tag, in terms of the two permutations; buffer and tag are those of sealing |
| `AsconInPlace.Decrypt` | src/ascon/aead.rs:140-223 | accepts exactly when sealing some plaintext gives this ciphertext and tag, and leaves that plaintext; otherwise the buffer ends as the ciphertext passed in |
| `AsconInPlace.DecryptV12` | src/ascon/v12.rs:120-165 | the same for the version 1.2 order of work, both rates |
| `AsconInPlace.PrefixOnly` | src/ascon/aead.rs:196-213 | whole output blocks depend only on whole input blocks, so restoring them ignores the tail |

## Left out

- DivstepRate.DivstepsSuffice: the closed form `(45907·b + 26313)/19929` is a little below this rate for some sizes from 391 bits on; there the round counts are proved with the spare round they include, not the closed form alone.
- IfmaLadder.RunPair: the two problems are stepped one after the other; their rows are not interleaved, which shares no state.
- CarryLookahead.Normalize: the vector registers are one flat sequence of lanes; the 8-bit lane masks are assembled as one bit string.
- PrimeTests.IsSafePrime: `random_base` draws are parameters, and nothing is said about the probability of an unlucky or adversarial draw.
- Fp2.SqrtExact: base-field elements are integers modulo `p` and fixed-exponent powers are integer powers; the Montgomery form of the base field and its windowed power are not modelled.
- CurveMul.Mul4x64: points are any set of representations closed under addition and doubling, with a homomorphism to a commutative group; the complete addition formulas, and that they obey the group law on the curve, are not modelled.
- AsconInPlace.Encrypt: a 64-bit word is its eight bytes, which is exact for the exclusive-or, union and 32-bit shifts used here; the permutation itself is an arbitrary function on states.
- Constant-time behaviour, zeroization and the `declassify` annotations.
- Hash functions, ciphers, signature schemes, TLS and X.509, which would add members without adding harder properties of this core.
