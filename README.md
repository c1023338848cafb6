# A verified model of the RLWE-over-ZZX encryption crate

The crate implements a ring-LWE public-key scheme over the ring Z[X]/(X^p + 1).
Its core is `ZZX`, a dense polynomial with arbitrary-precision integer
coefficients (a partial clone of NTL's `ZZX`), together with the polynomial
arithmetic the scheme needs: schoolbook multiplication and squaring,
pseudo-division, reduction modulo a monic polynomial (`mulmod`), truncation,
shifts and the formal derivative. On top of it sit the integer parts of the
scheme: the residue function `_mod`, construction of the ring modulus
X^p + 1, coefficient-wise reduction, `encode`/`decode` by thresholding, and
the rejection loop of `poly_sampling`. From the sampler there are the
branch-free `select` and the greedy binary expansion of a probability.

The model is written in Dafny. Its modules follow the source:

- `Wrappers` holds `Option`, for the `Option<T>` argument of `set_coeff`, and
  `Outcome`, for an explicit `panic!`.
- `Coefficients` gives the meaning of the vector operations as values:
  coefficient lookup, `Vec::resize`, `normalize`, `set_coeff`.
- `PolyArith` defines convolution, the product and pseudo-congruence. It also
  holds the lemmas about them, among them uniqueness of the remainder.
- `Polynomial` has the class `ZZX`, with its coefficient vector as a field
  that the methods reassign.
- `Multiplication` covers `mul`, `sqr`, `PlainMul` and `PlainSqr`.
- `Division` covers `rem`, `const_rem`, `pseudo_rem`, `plain_pseudo_rem` and
  `plain_pseudo_div_rem`.
- `Modular` covers `mulmod`.
- `Shifts` covers `trunc`, `right_shift`, `left_shift` and `diff`.
- `Scheme` covers `_mod` and the modelled part of `EncryptionScheme`.
- `Sampling` covers `select` and `binary_expansion`.

Modelling conventions:

- `Integer` is Dafny's unbounded `int`.
- `i32` and `i64` arithmetic that could overflow, and every implicit crash
  (indexing out of range, `normalize` on an empty vector), is excluded by a
  precondition.
- An explicit `panic!` is a returned `Outcome.Panic` carrying the source's
  message. The output is then left unchanged.
- Rust's borrow rules forbid an `&mut` output from aliasing an input, so each
  method requires its output to be a different object from its inputs.
- `normalize` never removes entry 0. So the zero polynomial is `[]` (for
  example after `new` or `clear`) or `[0]` (after `normalize`), and
  `is_zero` is true only for `[]`. The model keeps this distinction.

## Model

| member | source | states |
|---|---|---|
| Coefficients.Resize | src/util.rs:46-48 | `set_length`'s `Vec::resize(n, 0)`: exactly n entries, entry k being the old coefficient k (0 past the old end) |
| Coefficients.Stripped | src/util.rs:38-44 | `normalize` leaves a normalized vector (top entry non-zero unless it is the only one) that is a prefix of the input and denotes the same polynomial |
| Coefficients.StrippedUnique | src/util.rs:38-44 | two normalized vectors that denote the same polynomial are equal, so `normalize` gives one representative per polynomial |
| Coefficients.StrippedIdempotent | src/util.rs:38-44 | `normalize` leaves a normalized vector as it is, so normalizing twice is normalizing once |
| Coefficients.StrippedCanonical | src/util.rs:38-44 | normalizing two vectors with the same coefficients gives the same vector |
| Coefficients.SetCoeffEffect | src/util.rs:94-109 | after `set_coeff(i, v)` coefficient i is v and every other coefficient is unchanged; the vector is normalized, no longer than max(len, i+1), and exactly i+1 long when the vector grew and v is non-zero |
| Polynomial.ZZX.constructor | src/util.rs:14-16 | `new` is the empty vector |
| Polynomial.ZZX.WithVal | src/util.rs:19-23 | `new_with_val(n)` stores `[n]` |
| Polynomial.ZZX.WithVec | src/util.rs:26-29 | `new_with_vec` stores the vector as given |
| Polynomial.ZZX.WithSize | src/util.rs:32-35 | `new_with_size` is the empty vector (its capacity is not part of the value) |
| Polynomial.ZZX.Normalize | src/util.rs:38-44 | the new vector is `Stripped` of the old one; an empty vector is excluded (`len() - 1` underflows) |
| Polynomial.ZZX.SetLength | src/util.rs:46-48 | the new vector is the old one resized to `len` with zero padding |
| Polynomial.ZZX.Deg | src/util.rs:53-56 | the degree is at least −1, and −1 exactly for the empty vector; every coefficient above it is 0, and on a normalized non-constant vector the coefficient at the degree is non-zero |
| Polynomial.ZZX.Coeff | src/util.rs:58-64 | `coeff(i)` is the polynomial's coefficient of X^i, 0 past the stored length |
| Polynomial.ZZX.GetCoeff | src/util.rs:67-73 | `get_coeff` agrees with `coeff` at every index |
| Polynomial.ZZX.LeadCoeff | src/util.rs:76-82 | the coefficient at the degree, 0 for the empty vector, non-zero for a normalized vector of degree >= 1 |
| Polynomial.ZZX.ConstTerm | src/util.rs:85-91 | the coefficient of X^0 |
| Polynomial.ZZX.SetCoeff | src/util.rs:94-109 | the new vector is `SetCoeffResult` of the old one (grow to i+1 if i is past the degree, write n or 1 for `None`, normalize); an empty vector is excluded, since the early return can never fire and the write would index out of range |
| Polynomial.ZZX.IsZero | src/util.rs:119-121 | true exactly for the empty vector, and then every coefficient is 0 |
| Polynomial.ZZX.IsX | src/util.rs:123-125 | true exactly for the vector `[0, 1]` |
| Polynomial.ZZX.SetX | src/util.rs:112-117 | `set_x` builds a fresh polynomial with vector `[0, 1]` |
| Polynomial.ZZX.Clear | src/util.rs:127-129 | `clear` leaves the empty vector |
| Polynomial.ZZX.Set | src/util.rs:131-133 | `set` leaves the constant 1 |
| Polynomial.ZZX.MaxSize | src/util.rs:135-144 | the result is the bit length of some stored coefficient and at least the bit length of each, and 0 for the empty vector |
| Polynomial.BitLength | src/util.rs:135-144 | `significant_bits`: 0 only for 0, otherwise 2^(r−1) <= n < 2^r |
| PolyArith.Conv | src/util.rs:428-459 | the full convolution has |a|+|b|−1 entries, entry i being Σ a_j·b_{i−j} |
| PolyArith.ProductCoeffs | src/util.rs:428-459 | every coefficient of the product is the convolution sum, and the product of non-empty vectors is normalized |
| PolyArith.ProductLength | src/util.rs:428-459 | for non-zero top entries the product has degree deg a + deg b and top coefficient a_top·b_top |
| PolyArith.ConvAtWindow | src/util.rs:448-454 | the convolution at i is the sum over the loop window max(0, i − deg b) ≤ j ≤ min(deg a, i) |
| PolyArith.SquareCoeff | src/util.rs:507-524 | the squaring shortcut (twice the lower half of the window, plus the middle square when the window is odd) equals the convolution sum |
| PolyArith.SquareWindow | src/util.rs:507-524 | a window of odd or even length m: twice the sum over its lower half of length ⌊m/2⌋, plus the square of the middle entry when m is odd, is the convolution of a with itself |
| PolyArith.ConvSumMirror | src/util.rs:507-524 | the convolution window of a with itself is symmetric, which is what the squaring shortcut relies on |
| PolyArith.Neg | src/util.rs:212-214 | `neg` negates every coefficient and keeps the length |
| PolyArith.PseudoCongruentNeg | src/util.rs:212-214 | a remainder with respect to −b is a remainder with respect to b, so `rem` may divide by `b.neg()` |
| PolyArith.QuotientStep | src/util.rs:277-287 | one elimination step scales quotient and remainder by lc, adds t·X^s to the quotient and subtracts t·X^s·b from the remainder, keeping c·a − r = q·b with c multiplied by lc |
| PolyArith.MultipleVanishes | src/util.rs:243-304 | a multiple d·b of a polynomial with non-zero top coefficient that has no coefficient at or above deg b is zero |
| PolyArith.RemainderUnique | src/util.rs:243-304 | for b with non-zero top coefficient, two normalized remainders of degree below deg b of the same pseudo-division are equal |
| Multiplication.Mul | src/util.rs:165-196 | `mul(c, a, b)` leaves the normalized product a·b in c (the empty vector when either operand is empty) |
| Multiplication.Sqr | src/util.rs:404-426 | `sqr(c, a)` leaves a·a in c |
| Multiplication.PlainMul | src/util.rs:428-459 | the loop sets coefficient i to its convolution sum for every i ≤ deg a + deg b; after `normalize` c is the product, whatever c held before |
| Multiplication.MulCoeff | src/util.rs:448-454 | the inner loop of `PlainMul` accumulates exactly the convolution coefficient i |
| Multiplication.SqrCoeff | src/util.rs:507-524 | the inner loop of `PlainSqr`, with its doubling and the odd middle square, accumulates the convolution coefficient i of a with itself |
| Multiplication.PlainSqr | src/util.rs:495-528 | the half-window loop leaves the product a·a in c |
| Multiplication.FinishProduct | src/util.rs:448-458 | a vector holding every convolution coefficient normalizes to the product |
| Division.Prescale | src/util.rs:267-275 | after the prescaling loop, entry k of the working copy is a_k·lc^(dq−k) for k < dq and a_k otherwise |
| Division.Eliminate | src/util.rs:280-286 | the inner loop replaces entry m, for i ≤ m < i + db, by lc·x_m − t·b_{m−i}, or by x_m − t·b_{m−i} when lc = 1, and leaves every other entry alone |
| Division.ScaleQuotient | src/util.rs:289-297 | after the final loop, quotient entry k is multiplied by lc^k |
| Division.ReducedInitially | src/util.rs:257-276 | before the main loop, the prescaled working vector and the zero quotient satisfy the loop invariant with nothing eliminated |
| Division.EliminationStep | src/util.rs:277-287 | one pass of the main loop keeps the loop invariant: the working vector is the scaled remainder up to the lag powers of lc, and the partial quotient witnesses lc^(dq+1−i)·a − r = q·b |
| Division.ReducedFinally | src/util.rs:289-297 | once the main loop is done, rescaling the quotient by lc^k turns the loop invariant into lc^(dq+1)·a − r = q·b for the low db entries r |
| Division.PseudoDivRemLoops | src/util.rs:257-297 | after all three loops the computed quotient qp and the low db entries of the working vector satisfy lc^(dq+1)·a − r = qp·b |
| Division.StoreRemainder | src/util.rs:299-303 | r becomes the normalized vector of the low db entries of the working vector |
| Division.PlainPseudoDivRem | src/util.rs:243-304 | as written: an empty b panics with the source's message and leaves q and r alone; deg a < deg b copies a into r and clears q; otherwise r is normalized, deg r < deg b and lc^(dq+1)·a ≡ r modulo b, while q is only resized to dq+1 entries |
| Division.PlainPseudoDivRemCorrected | src/util.rs:243-304 | the same, with the quotient stored back: q has dq+1 entries and lc^(dq+1)·a − r = q·b |
| Division.LostQuotient | src/util.rs:264-265 | dividing X by X + 1 from an empty q leaves q = `[0]`, which is not the quotient for any remainder of degree below 1 |
| Division.PlainPseudoRem | src/util.rs:238-241 | `plain_pseudo_rem` gives the pseudo-remainder: normalized, of degree below deg b, congruent to lc^(dq+1)·a modulo b |
| Division.PseudoRem | src/util.rs:234-236 | `pseudo_rem` has the contract of `plain_pseudo_rem` |
| Division.ConstRem | src/util.rs:227-232 | a zero constant panics with "const_rem: division by zero" and leaves r alone; otherwise r is `[0]` |
| Division.Rem | src/util.rs:198-214 | an empty b panics with "rem: division by zero"; deg a < deg b copies a; a constant b panics if zero and gives `[0]` otherwise; a monic b, or one with leading coefficient −1, gives r normalized with deg r < deg b and a ≡ r modulo b |
| Division.RemUnique | src/util.rs:198-214 | for b with leading coefficient ±1 the remainder `rem` computes is the only normalized one of degree below deg b |
| Modular.MulMod | src/util.rs:155-163 | bad arguments (deg a or deg b ≥ deg f, f constant or not monic) panic with "MulMod: bad args" and leave x alone; otherwise x is normalized or empty, deg x < deg f and a·b ≡ x modulo f |
| Modular.ZeroQuotient | src/util.rs:206-207 | a polynomial is congruent to itself with quotient 0, the `da < db` branch of `rem` |
| Shifts.Truncated | src/util.rs:542-551 | a mod X^m is normalized, keeps the coefficients below m and has none from m on |
| Shifts.TruncatedIdempotent | src/util.rs:542-551 | truncating twice at the same bound is truncating once |
| Shifts.TruncInto | src/util.rs:543-551 | `_trunc` leaves a mod X^m in x |
| Shifts.Trunc | src/util.rs:553-557 | `trunc` returns a fresh polynomial holding a mod X^m |
| Shifts.ShiftRight | src/util.rs:559-560 | a / X^n for either sign of n: coefficient k is a_{k+n} for every k ≥ 0, the empty vector when nothing is left, normalized otherwise |
| Shifts.RightShiftAsWritten | src/util.rs:578-587 | as written, for 0 ≤ n ≤ deg a, coefficient deg a − n of the result is x's old entry there instead of a's top coefficient; every other coefficient is a_{k+n} |
| Shifts.RightShiftInto | src/util.rs:560-588 | as written: `_right_shift` leaves `RightShiftAsWritten` of x's old vector and a |
| Shifts.RightShiftIntoCorrected | src/util.rs:560-588 | with the copy loop running to da − n inclusive, x becomes a / X^n |
| Shifts.RightShiftLosesTop | src/util.rs:583-585 | whenever a's top coefficient is non-zero and x starts empty, the as-written result differs from a / X^n |
| Shifts.RightShiftExample | src/util.rs:583-585 | shifting 1 + 2X right by 0 gives 1 as written and 1 + 2X as intended |
| Shifts.RightShift | src/util.rs:590-594 | as written: `right_shift` returns a fresh polynomial holding `RightShiftAsWritten` of the empty vector and a, which loses a's top coefficient |
| Shifts.RightShiftCorrected | src/util.rs:590-594 | as intended: a fresh polynomial holding a / X^n |
| Shifts.LeftShiftAsWritten | src/util.rs:597-619 | `_left_shift` gives a·X^n (n zeros followed by a, normalized) for n ≥ 0, and the as-written right shift by −n for n < 0 |
| Shifts.LeftShiftInto | src/util.rs:597-619 | as written: `_left_shift` leaves `LeftShiftAsWritten` of x's old vector and a |
| Shifts.LeftShift | src/util.rs:621-625 | as written: `left_shift` returns a fresh polynomial holding `LeftShiftAsWritten` of the empty vector and a |
| Shifts.LeftShiftCorrected | src/util.rs:621-625 | as intended: a fresh polynomial holding a·X^n for either sign of n |
| Shifts.LeftShiftExample | src/util.rs:603-606 | shifting 1 + 2X left by −1 gives 0 as written and 2 as intended |
| Shifts.ShiftRoundTrip | src/util.rs:590-625 | for the intended shifts (`ShiftRight`), shifting right by n after shifting left by n gives back every coefficient, and the vector itself when it is normalized with a non-zero top entry |
| Shifts.Derivative | src/util.rs:629-645 | the formal derivative: coefficient k is (k+1)·a_{k+1}; empty for a constant, otherwise normalized and shorter than a |
| Shifts.DiffInto | src/util.rs:630-645 | `_diff` leaves the derivative of a in x |
| Shifts.Diff | src/util.rs:647-651 | `diff` returns a fresh polynomial holding the derivative |
| Shifts.DerivativeMonomial | src/util.rs:629-645 | the derivative of c·X^n is n·c·X^(n−1) |
| Scheme.TruncRem | src/encryption_scheme.rs:144-146 | rug's `%` truncates: the remainder is smaller than the divisor in magnitude and has the dividend's sign |
| Scheme.TruncDiv | src/encryption_scheme.rs:84-84 | Rust's `/` truncates: d·(x / d) + x % d = x |
| Scheme.Mod | src/encryption_scheme.rs:144-146 | `_mod(i, n)` lies in [0, n) for n > 0 and in (n, 0] for n < 0, whatever the sign of i |
| Scheme.ModQuotient | src/encryption_scheme.rs:144-146 | `_mod(i, n)` differs from i by a multiple of n |
| Scheme.ModIsEuclidean | src/encryption_scheme.rs:144-146 | for n > 0, `_mod(i, n)` is the Euclidean remainder of i by n |
| Scheme.ModNegative | src/encryption_scheme.rs:144-146 | for n < 0, `_mod(i, n)` is the Euclidean remainder moved into (n, 0] |
| Scheme.RingModulus | src/encryption_scheme.rs:47-50 | X^p + 1 as a vector: p + 1 entries, 1 at 0 and at p, 0 in between |
| Scheme.RingModulusMonic | src/encryption_scheme.rs:47-50 | for p ≥ 1 the modulus is normalized and monic of degree p, so factors of degree below p meet `mulmod`'s argument check |
| Scheme.RingModulusBuilt | src/encryption_scheme.rs:47-50 | `set_length(p+1)`, `set_coeff(p, 1)`, `set_coeff(0, 1)` give X^p + 1, or the constant 1 when p = 0 |
| Scheme.EncryptionScheme.constructor | src/encryption_scheme.rs:46-50 | `new` keeps p and q and builds f = X^p + 1 by `set_length(p+1)`, `set_coeff(p, 1)`, `set_coeff(0, 1)` (the constant 1 when p = 0) |
| Scheme.ReducedBelow | src/encryption_scheme.rs:38-42 | reduction leaves every coefficient below p replaced by `_mod(·, q)` and every other one unchanged, normalized |
| Scheme.EncryptionScheme.ModCoeffs | src/encryption_scheme.rs:38-42 | the `_mod` method leaves `ReducedBelow(a, p, q)`, where each `set_coeff` needs a non-empty vector and q must be non-zero |
| Scheme.EncryptionScheme.Encode | src/encryption_scheme.rs:81-88 | `encode` leaves exactly p entries, entry i being a[i]·((q−1)/2) with `i32` division |
| Scheme.DecodeBit | src/encryption_scheme.rs:90-101 | the decoded bit is 1 exactly when (q−1)/4 ≤ c < 3·((q−1)/4), and 0 otherwise |
| Scheme.EncryptionScheme.Decode | src/encryption_scheme.rs:90-101 | `decode` sets a[i] to the bit read from coefficient i for i < min(p, len a) and leaves the other entries of a alone |
| Scheme.DecodeEncodeBit | src/encryption_scheme.rs:81-101 | decoding an encoded bit gives it back once (q−1)/4 ≥ 2 |
| Scheme.DecodeEncode | src/encryption_scheme.rs:81-101 | decoding the encoding of a bit vector gives back every one of its first p bits |
| Scheme.Filtered | src/encryption_scheme.rs:29-34 | the accepted draws, in order, all strictly between center − bound and center + bound |
| Scheme.NextAccepted | src/encryption_scheme.rs:30-33 | the rejection loop returns the first acceptable draw and moves past it |
| Scheme.FilteredSkip | src/encryption_scheme.rs:31-33 | a draw outside the open interval is rejected and contributes nothing |
| Scheme.FilteredTake | src/encryption_scheme.rs:31-34 | a draw inside the open interval is the next accepted value |
| Scheme.DrawnStep | src/encryption_scheme.rs:29-35 | one round of the loop, drawing the next accepted value and storing it at i by `set_coeff`, extends the stored prefix of accepted values by one |
| Scheme.SampleInto | src/encryption_scheme.rs:28-35 | the loop leaves the first p accepted draws as the coefficients below p, normalized (the empty vector for p = 0), each strictly between center − bound and center + bound |
| Scheme.EncryptionScheme.PolySampling | src/encryption_scheme.rs:24-36 | `poly_sampling` leaves the first p accepted draws as the coefficients below p, normalized, each strictly between center − bound and center + bound |
| Sampling.Select | src/sampling.rs:65-69 | `select` takes each bit from b where mask = −bit is set and from a elsewhere |
| Sampling.SelectBit | src/sampling.rs:65-69 | bit 0 selects a and bit 1 selects b, as the comment says |
| Sampling.Digits | src/sampling.rs:52-62 | the digits the loop writes are 0 or 1, and there are at most `precision` of them |
| Sampling.DigitsNext | src/sampling.rs:53-61 | each iteration writes 1 and subtracts 2^−(j+1) when that fits in the remaining probability, and writes 0 otherwise |
| Sampling.BinaryExpansion | src/sampling.rs:41-63 | row j of column `index` receives digit j for every step the loop runs; every other cell of the matrix is unchanged |
| Sampling.ExpansionExact | src/sampling.rs:52-62 | from step j on, the value of the digits written plus the probability left when the loop stops is the probability at step j |
| Sampling.ResidualBound | src/sampling.rs:52-62 | starting from a probability in [0, 2^−j], what is left after k steps lies in [0, 2^−(j+k)] |
| Sampling.ResidualOnlyAtPrecision | src/sampling.rs:52-62 | the loop stops with probability left over only when j has reached `precision` |
| Sampling.ExpansionError | src/sampling.rs:41-63 | for a probability in [0, 1] the written digits are worth between the probability minus 2^−precision and the probability |
| Sampling.Pow2NegAntitone | src/sampling.rs:53-53 | 2^−n shrinks as n grows |

## Left out

- `divide`, `plain_divide` and the general fallback of `rem`: they call functions the crate does not define and do not compile. The fallback of `rem` calls a two-argument `divide(a, b)` and `power`, and uses an undeclared `m`. `plain_divide` calls `content`, and `divide` with integer arguments. `divide` calls `hom_divide`. Division.Rem therefore requires a leading coefficient ±1 when 2 ≤ |b| ≤ |a|.
- `KarMul`, `SSMul`, `HomMul`, `KarSqr`, `SSSqr`, `HomSqr` and `choose_ss` are `todo!`. The size-based dispatch in `mul` and `sqr` is commented out, so the sizes they compute only feed unused variables.
- `max_bits` is not used by the modelled code.
- The commented-out Newton inverse (`inv_trunc`, `newton_inv_trunc`) and the shift operators named in a TODO are not code.
- `neg` is not defined in src/util.rs. PolyArith.Neg models it as negation of every coefficient.
- Division.PlainPseudoDivRem requires `|b| == 1 ==> |a| == 0`. For a constant divisor and a non-empty dividend, `set_length(0)` is followed by `normalize` on an empty vector, which underflows.
- Division.PlainPseudoRem uses the corrected pseudo-division. The quotient it allocates is discarded, so its remainder contract is the same as with the as-written version.
- A shift amount of `i64::MIN` on a non-empty polynomial is excluded, since negating it overflows. On an empty polynomial x is cleared first, and the model allows it.
- `key_generation`, `encryption` and `decryption` are compositions of the modelled pieces with the sampler. They are left out.
- The Gaussian parameters of `EncryptionScheme` (`tailcut`, `sigma`, `center`) and `Sampling::new` are left out: they are floating point, and `Sampling::new` calls `todo!` code.
- `knuth_yao`, `build_probability_matrix` and `probability` are `todo!`.
- Scheme.EncryptionScheme.PolySampling takes the sampler's successive results as the sequence `draws`. The sequence must hold at least p acceptable values, whereas the source would loop until one is drawn. `bound` and `center` are taken as integers, where the source rounds floats.
- Sampling.BinaryExpansion models `RR` as exact `real` arithmetic, with no rounding. The source declares `pow` with a `todo!()` initialiser, and `i`, `j` and `probability` without `mut`. The model treats all four as mutable locals.
- Sampling.BinaryExpansion takes the matrix as a rectangular `array2`, and requires `index` below its width. The source's `Vec<Vec<i32>>` may be jagged, and only the rows it writes need to reach column `index`.
- `aprime[i]` in `encode` uses an index operator that is not defined in src/util.rs. The model writes entry i of the vector.
- Random bits (src/util/mod.rs), `ZZ_p` (src/util/zz_p.rs) and the driver (src/main.rs) are not part of this model.
- Allocation failure and `usize` limits on vector lengths are not modelled.

## Findings

| source | as written | input that shows it | evidently intended | confidence | as-written member | corrected member |
|---|---|---|---|---|---|---|
| src/util.rs:583 | the copy loop `for i in 0..da - n` stops before index da − n, so a's top coefficient is never copied, and x's old entry at that index survives the resize | a = 1 + 2X, n = 0, x empty: the result is 1 | a / X^n, copying up to da − n inclusive, as NTL's `RightShift` does | high, not executed | Shifts.RightShiftInto, used by Shifts.RightShift and Shifts.LeftShiftInto (Shifts.RightShiftLosesTop, Shifts.RightShiftExample, Shifts.LeftShiftExample) | Shifts.RightShiftIntoCorrected, Shifts.RightShiftCorrected, Shifts.LeftShiftCorrected (Shifts.ShiftRight, Shifts.ShiftRoundTrip) |
| src/util.rs:265 | `qp` is a clone of `q.coeffs` and is never stored back, so q keeps its old entries, resized to dq+1 (zeros when q starts empty) | a = X, b = X + 1, q empty: q ends as `[0]`, not the quotient 1 | q holds the quotient, with lc^(dq+1)·a − r = q·b | high, not executed | Division.PlainPseudoDivRem (Division.LostQuotient) | Division.PlainPseudoDivRemCorrected |
