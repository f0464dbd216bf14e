# Verified models of the compiler headers' own algorithms

Most of the C headers under `c_headers/` only forward to compiler builtins. Four pieces hold an algorithm of their own,
and this project models those four and proves what they are for.

* **Complex product and quotient** of the CUDA headers (`__muldc3`, `__divdc3` and their float twins): the scaled
  textbook formulas and the recovery of infinities that Annex G of ISO/IEC 9899:1999 asks for.
* **`__swp`**, the atomic swap made of a load-exclusive/store-exclusive retry loop.
* **Packed lane arithmetic** of the CUDA SIMD functions: halving sums, comparison masks, the signed maximum.
* **Word rotations, reversals and lowest-set-bit operations** of `arm_acle.h` and `bmiintrin.h`.

`dafny verify dfyconfig.toml` checks everything.

## How it is modelled

`Ieee.dfy` gives data the special-value rules of sections 6.1 to 6.3 of IEEE 754-2008. Every operation on finite nonzero
data yields an exact real that a rounding `R`, a parameter of every operation, turns into a datum: possibly a zero,
possibly an infinity. The theorems about the complex helpers hold for every `Faithful` rounding: one that depends on the
value only, is symmetric and monotone, fixes the numbers 1, 2, 4, 8 and its own results, and underflows gradually. Two
instances are proved faithful. `ComplexExact.dfy` has the one without rounding, for the algebraic laws. `BinaryFormat.dfy`
has round-to-nearest-even in any binary format with subnormals and overflow, so the theorems speak of `float` and
`double` as they are, overflow included; that the rounding it defines delivers the nearest value of the format, and the
even one of two equally near, is `BinaryFormat.NearestValue`. CUDA's `max` is taken to be the `fmax` that ignores a NaN operand, and `logb` to
deliver the exact exponent.

`Swap.dfy` is a transition system: any number of threads, their loads and stores in any order, reservations that may be
lost at any moment, and plain stores by other code. `SwapLoop.dfy` is the loop itself, over an object with an exclusive
monitor, tied to the runs of that system. Words are naturals below a power of two (`Words.dfy`), with wrap-around and
shifts written out, and the lane and bit theorems hold at every width and lane count.

## Where the code does less than Annex G

Section G.5.1 of ISO/IEC 9899:1999 asks for a zero when a finite dividend is divided by an infinite divisor. The recovery
multiplies zero by a sum of the dividend's parts, and that sum can overflow: when both parts of the divisor are infinite
and the magnitudes of the dividend's parts add up to more than the format holds, one part of the result is NaN and only
the other is zero. `ComplexDiv.FiniteOverInfinity` proves that this is the only exception, and
`ComplexFormats.OverflowingDividend` gives an input for every format: 2^emax + i 2^emax over inf + i inf. Without overflow
the result is always zero (`ComplexExact.FiniteOverInfinityIsZero`).

The recovery of an infinite dividend uses the divisor as it was scaled. Scaling can round the smaller divisor part to zero,
and a direction that rests on that part alone is then lost: the result is still infinite, as Annex G asks, but the part is
NaN. `ComplexFormats.DirectionInFormat` proves when exactly this happens and `ComplexFormats.LostDirection` gives an input
for every format: inf + i NaN over the smallest positive value + i 2^emax. The signs themselves are never wrong
(`ComplexDiv.InfinityDirection`).

## Model

| member | source | states |
|---|---|---|
| ComplexMul.Muldc3 | c_headers/__clang_cuda_complex_builtins.h:32-81 | The statements of the helper, its three successive rewrites of its operands included, deliver a product that is written symmetrically in both operands, and meet the whole classification under every faithful rounding: the kind of the result and the direction of every infinity in it. |
| ComplexMul.Classification | c_headers/__clang_cuda_complex_builtins.h:41-79 | For all operands: an infinity times anything nonzero is infinite and times a zero or NaN is NaN in both parts; a NaN part poisons both parts unless the product of what is left overflows, and then the result is infinite; finite operands never recover; restored infinities have the direction of the operands, and what is not recovered is left as the formula gives it. |
| ComplexMul.InfiniteOperand | c_headers/__clang_cuda_complex_builtins.h:43-60 | With an infinite operand, even one with a NaN part, the product is infinite exactly when the other operand has a part that is neither zero nor NaN. |
| ComplexMul.NoZeroDivisors | c_headers/__clang_cuda_complex_builtins.h:73-77 | The recomputed product of a boxed operand and a finite one has no NaN and vanishes only if an operand does. |
| ComplexMul.NaNOperand | c_headers/__clang_cuda_complex_builtins.h:61-72 | Without infinite operands a NaN part gives NaN in both parts, except that the third rewrite delivers an infinity when the product of the operands with their NaN parts cleared overflows. |
| ComplexMul.FiniteOperands | c_headers/__clang_cuda_complex_builtins.h:34-41 | Finite operands never give NaN in both parts, whichever partial products overflow. |
| ComplexMul.Commutes | c_headers/__clang_cuda_complex_builtins.h:32-81 | The product commutes for all operands, NaN, infinities and signs of zeros included, although the rewrites treat the operands in turn. |
| ComplexMul.NaNOnlyFromZeroTimesInfinity | c_headers/__clang_cuda_complex_builtins.h:41-79 | For operands without NaN the result is NaN in both parts if and only if it is an infinity times a zero, overflow notwithstanding. |
| ComplexMul.Direction | c_headers/__clang_cuda_complex_builtins.h:43-77 | Whichever of the three rewrites ran, each part of the result is an infinity with the sign of that part of the real product of the operands, an infinite operand counted by the signs of its infinite parts and a NaN as zero, and is NaN if and only if that real number is zero. |
| ComplexMul.OverflowDirection | c_headers/__clang_cuda_complex_builtins.h:61-77 | After an overflow no other partial product has underflowed, so the third rewrite recovers the exact direction too. |
| ComplexMul.InfinityDirection | c_headers/__clang_cuda_complex_builtins.h:34-79 | With one infinite operand every part is NaN or an infinity of that sign, recovered or not. |
| ComplexDiv.Divdc3 | c_headers/__clang_cuda_complex_builtins.h:132-167 | The statements of the helper deliver the recovered scaled quotient and meet the whole classification of quotients under every faithful rounding, with the signs of the infinities and zeros. |
| ComplexDiv.Classification | c_headers/__clang_cuda_complex_builtins.h:144-165 | For all operands, NaN parts included, whether the quotient is infinite, zero, NaN in both parts or the unrecovered value, and the sign of every part that is infinite or zero by recovery. |
| ComplexDiv.ZeroDivisor | c_headers/__clang_cuda_complex_builtins.h:149-151 | Over a zero each part is infinite exactly when that part of the dividend is neither zero nor NaN, with the exclusive or of its sign and that of the real part of the divisor, and is NaN otherwise. |
| ComplexDiv.InfiniteDividend | c_headers/__clang_cuda_complex_builtins.h:152-157 | Infinite over finite nonzero is infinite, whether the formula shows the infinity or the second recovery restores it. |
| ComplexDiv.InfinityDirection | c_headers/__clang_cuda_complex_builtins.h:144-157 | Infinite over finite nonzero, recovered or not: every part is NaN or an infinity with the sign of that part of the dividend's direction times the conjugate of the divisor. |
| ComplexDiv.RecoveredDirection | c_headers/__clang_cuda_complex_builtins.h:152-157 | A recovered part is NaN if and only if the divisor as it was scaled makes that real number zero, for every faithful rounding. |
| ComplexFormats.DirectionInFormat | c_headers/__clang_cuda_complex_builtins.h:138-157 | In every binary format with values below one in its normal range, float and double among them, a recovered part is NaN if and only if that number is zero for the original divisor, or one infinity decides alone and its divisor part is so far below the other that the scaling rounds it to zero. |
| ComplexFormats.LostDirection | c_headers/__clang_cuda_complex_builtins.h:138-157 | Such a dividend and divisor for every format. |
| ComplexExact.DirectionOfQuotient | c_headers/__clang_cuda_complex_builtins.h:138-157 | Without rounding a recovered part is NaN if and only if the number is zero for the original divisor. |
| ComplexDiv.InfiniteOperands | c_headers/__clang_cuda_complex_builtins.h:148-164 | Infinite over infinite is NaN in both parts: no recovery applies. |
| ComplexDiv.InfiniteDivisor | c_headers/__clang_cuda_complex_builtins.h:158-164 | Finite over infinite always takes the third recovery; which parts of the result are zero and when exactly one is NaN. |
| ComplexDiv.RecoveredFromInfinity | c_headers/__clang_cuda_complex_builtins.h:138-164 | Finite over infinite: both unrecovered parts are NaN on every such input and exactly the third recovery is taken. |
| ComplexDiv.ZeroDirection | c_headers/__clang_cuda_complex_builtins.h:158-164 | Finite over infinite: each zero has the sign of that part of the dividend times the conjugate of the divisor's direction, the exact sign of a vanishing sum included, and which part is NaN after an overflow. |
| ComplexDiv.FiniteOverInfinity | c_headers/__clang_cuda_complex_builtins.h:158-164 | Finite over infinite is zero in both parts if and only if it is not the case that both divisor parts are infinite and the magnitudes of the dividend's parts overflow when added. |
| ComplexFormats.OverflowingDividend | c_headers/__clang_cuda_complex_builtins.h:158-164 | In every format a concrete finite dividend over an infinity gives a NaN part. |
| ComplexExact.FiniteOverInfinityIsZero | c_headers/__clang_cuda_complex_builtins.h:158-164 | Without rounding finite over infinite is zero in both parts for every input. |
| ComplexDiv.FiniteOperands | c_headers/__clang_cuda_complex_builtins.h:144-148 | Finite over finite nonzero is never NaN in both parts, whatever overflows or underflows, so no recovery runs. |
| ComplexDiv.NaNDividend | c_headers/__clang_cuda_complex_builtins.h:148-164 | A dividend with a NaN part and no infinite one over anything but a zero is NaN in both parts. |
| ComplexDiv.NaNDivisor | c_headers/__clang_cuda_complex_builtins.h:148-164 | A divisor with a NaN part and no infinite one gives NaN in both parts. |
| ComplexDiv.ScalingBound | c_headers/__clang_cuda_complex_builtins.h:138-144 | For every finite nonzero divisor and every faithful rounding the larger scaled part is between 1 and 2 and the denominator between 1 and 8. |
| ComplexFormats.ScalingBound | c_headers/__clang_cuda_complex_builtins.h:138-144 | In the binary formats the part the exponent is taken from is scaled exactly, into [1,2), and the rounded denominator lies in [1,8). |
| ComplexExact.ExactQuotient | c_headers/__clang_cuda_complex_builtins.h:138-147 | Without rounding the scaled quotient is the unscaled textbook quotient, for every exponent of the divisor. |
| ComplexExact.DivideThenMultiply | c_headers/__clang_cuda_complex_builtins.h:132-147 | For finite x and finite nonzero y, multiplying the quotient x / y by y gives back x. |
| ComplexExact.MultiplyThenDivide | c_headers/__clang_cuda_complex_builtins.h:132-147 | For finite x and finite nonzero y, dividing the product x y by y gives back x. |
| ComplexFormats.ClassifiedInFormat | c_headers/__clang_cuda_complex_builtins.h:32-201 | Both classifications hold of rounding to nearest in every binary format, so of the double helpers and of their float twins. |
| ComplexFormats.FloatAndDouble | c_headers/__clang_cuda_complex_builtins.h:32-201 | The arithmetic of float and of double, rounded to nearest with overflow and gradual underflow, is a faithful rounding, so what is proved for every faithful rounding holds of both. |
| ComplexFormats.NamedFormats | c_headers/__clang_cuda_complex_builtins.h:32-201 | The two formats have the parameters of the 32-bit and 64-bit interchange formats. |
| Swap.StepRefines | c_headers/arm_acle.h:74-81 | Every step keeps the invariant that a live reservation belongs to a thread that has loaded the value still in the cell, and is an atomic exchange if a store succeeds, a plain write, or invisible. |
| Swap.Linearizable | c_headers/arm_acle.h:74-81 | In every interleaving, with spurious losses and other writers, the k-th event, if an exchange, returns what the one before it left in the cell or the initial value, and the last event's value is in the cell at the end. |
| Swap.ReturnsOnce | c_headers/arm_acle.h:74-81 | A thread takes part in exactly one exchange if it has returned, with its own operand and the value it returns, and in none before. |
| Swap.RunRefines | c_headers/arm_acle.h:74-81 | Every run of the retry loops is a run of the atomic exchange with the same events. |
| Swap.Conservation | c_headers/arm_acle.h:74-81 | In every reachable state the multiset of the cell, the values returned and the values still to be stored is the initial one, but for what plain writes exchange. |
| Swap.OneWinner | c_headers/arm_acle.h:74-81 | Used as a lock: at most one thread gets the only copy of a value that no caller stores. |
| Swap.OwnStepWorks | c_headers/arm_acle.h:77-79 | Every load and every store, failed or not, reduces the work left. |
| Swap.Progress | c_headers/arm_acle.h:77-79 | Every run of n threads has at most n(n+1) loads and stores, two more for every reservation lost spuriously and 2n more for every plain write. |
| Swap.ProgressIsTight | c_headers/arm_acle.h:77-79 | For every n some schedule without interference has exactly n(n+1) steps and ends with every thread returned. |
| Swap.NoDeadlock | c_headers/arm_acle.h:77-79 | No thread has a step left exactly when all have returned. |
| SwapLoop.Location.Swp | c_headers/arm_acle.h:74-81 | The loop stores its operand, and with any interference between its loads and stores it is a run of one thread of the transition system, ending with the value returned here. |
| SwapLoop.Location.LoadExclusive | c_headers/arm_acle.h:78-78 | Load-exclusive returns the value and takes the reservation. |
| SwapLoop.Location.StoreExclusive | c_headers/arm_acle.h:79-79 | Store-exclusive fails exactly without a reservation, stores otherwise, and always gives the reservation up. |
| SwapLoop.Round | c_headers/arm_acle.h:77-79 | An attempt that is not disturbed returns what it loaded; a disturbed one starts over from what the interference left. |
| Lanes.HalvingSumIsLanewise | c_headers/__clang_cuda_device_functions.h:1333-1343 | For every lane count and width the masked shift plus the common bits is made of the lanes' averages: no carry crosses a lane. |
| Lanes.VhadduIsAverage | c_headers/__clang_cuda_device_functions.h:1338-1343 | Every lane of the halving sum is the floor of the average of the operands' lanes, and the sum never wraps. |
| Lanes.SumByUnion | c_headers/__clang_cuda_device_functions.h:1333-1334 | The sum of two words is their union plus their intersection. |
| Lanes.WrittenMasks | c_headers/__clang_cuda_device_functions.h:1338-1343 | The two written masks are the top bits of two lanes of 16 and of four lanes of 8 bits. |
| Lanes.Bool2maskSpreads | c_headers/__clang_cuda_device_functions.h:1051-1056 | On words of lanes 0 or 1 the shift and wrapping subtraction give all ones in the lanes that are 1 and zero elsewhere, at every lane count and width. |
| Lanes.VcmpLane | c_headers/__clang_cuda_device_functions.h:1172-1331 | A comparison fills exactly the lanes in which the relation holds, signed or unsigned. |
| Lanes.VcmpOfVset | c_headers/__clang_cuda_device_functions.h:1172-1331 | A comparison fills exactly the lanes that the set instruction marks with a one. |
| Lanes.VcmpTrichotomy | c_headers/__clang_cuda_device_functions.h:1172-1331 | Equal fills the equal lanes; greater and less fill none of these and exactly one of them fills every other lane; the other three are put together from these. |
| Lanes.GreaterByTopBits | c_headers/__clang_cuda_device_functions.h:1220-1251 | Greater on bare lane values: by size if unsigned, by the top bits first if signed. |
| Lanes.VcmpOpposite | c_headers/__clang_cuda_device_functions.h:1172-1331 | Opposite relations give complementary words and mirrored relations with exchanged operands the same word. |
| Lanes.TwosComplement | c_headers/__clang_cuda_device_functions.h:1188-1200 | The signed value of a lane is its only representative modulo 2^n in the signed range, negative exactly with the top bit. |
| Lanes.SelectedMaximum | c_headers/__clang_cuda_device_functions.h:1347-1351 | Blending by the greater-than mask is the signed maximum in every lane. |
| Lanes.Vmaxs2IsMaximum | c_headers/__clang_cuda_device_functions.h:1345-1358 | Both branches of the workaround deliver the signed maximum in both lanes. |
| Lanes.Vmaxs2ByTopBits | c_headers/__clang_cuda_device_functions.h:1345-1358 | In each lane the operand without the top bit wins over one with it, and otherwise the larger wins. |
| Rotations.Ror | c_headers/arm_acle.h:114-120 | Bit i of the result is bit (i + y) mod 32 of the operand, for every y. |
| Rotations.Rorll | c_headers/arm_acle.h:122-128 | Bit i of the result is bit (i + y) mod 64 of the operand, for every y. |
| Rotations.ShiftsRotate | c_headers/arm_acle.h:115-128 | Two shifts by amounts between 1 and the width less one make up the rotation, at every width. |
| Words.ShiftsAreArithmetic | c_headers/arm_acle.h:119-127 | The two shifts are the division and the wrapping multiplication by powers of two that C defines them by. |
| Rotations.RotationsCompose | c_headers/arm_acle.h:114-128 | Rotating by a and then by b is rotating by a + b, also when the sum wraps around in its type. |
| Rotations.RotationUndone | c_headers/arm_acle.h:114-128 | Every rotation is undone by another. |
| Rotations.Rev16TradesBytes | c_headers/arm_acle.h:177-180 | The byte swap rotated by 16 trades the two bytes of each halfword. |
| Rotations.Rev16llTradesBytes | c_headers/arm_acle.h:182-185 | The two halves put together trade the bytes of all four halfwords. |
| Rotations.RbitllReverses | c_headers/arm_acle.h:208-212 | The reversal put together from 32-bit halves reverses all 64 bits. |
| Rotations.Rev16Involution | c_headers/arm_acle.h:177-180 | Applied twice it gives back every word. |
| Rotations.Rev16llInvolution | c_headers/arm_acle.h:182-185 | Applied twice it gives back every double word. |
| Rotations.RbitllInvolution | c_headers/arm_acle.h:208-212 | Applied twice it gives back every double word. |
| LowBits.LowestBit | c_headers/bmiintrin.h:147-184 | With b the power of two at the trailing-zero count, the three operations give b, x - b and 2b - 1; for zero they give 0, 0 and all ones. |
| LowBits.LowestBitAlgebra | c_headers/bmiintrin.h:81-184 | At every width, zero included: the isolated bit and the rest add up to the word and share no bit, the mask is twice the bit less one with wrap-around, and clearing by the complemented mask is the reset. |
| LowBits.AndnBit | c_headers/bmiintrin.h:81-85 | A bit is set in the result if and only if it is set in the second operand and not in the first. |
| LowBits.TrailingZeros | c_headers/bmiintrin.h:187-200 | The count ends at the lowest set bit, and is the width for zero only. |
| LowBits.ClearsOneBit | c_headers/bmiintrin.h:180-184 | Resetting lowers the population count by one, clears the lowest set bit and keeps every other bit. |
| LowBits.LowestBitRises | c_headers/bmiintrin.h:146-184 | After a reset the next lowest bit is a higher one. |
| LowBits.EnumerationCounts | c_headers/bmiintrin.h:146-184 | Isolating and resetting in turn takes as many rounds as bits are set, and what it yields adds up to the word. |
| LowBits.EnumerationIsExact | c_headers/bmiintrin.h:146-184 | It yields a number if and only if that is the power of two of a set bit. |
| LowBits.EnumerationIncreases | c_headers/bmiintrin.h:146-184 | It yields them in strictly increasing order. |
| LowBits.PackedControlFields | c_headers/bmiintrin.h:130-133 | Both fields of the packed control are the low bits of the arguments, whatever is above them. |
| LowBits.ExtractedBit | c_headers/bmiintrin.h:88-108 | Under any control, bit i is bit i + start for i below the length and zero from there on, start and length being the two low bytes. |
| LowBits.PackedExtraction | c_headers/bmiintrin.h:109-133 | Bit i of the extraction is bit i + start of the operand for i below the length, and zero from there on. |

## Left out

- The float twins `__mulsc3` and `__divsc3` have no text of their own here: they are the same statements, and the rounding parameter stands for the format.
- NaN payloads, and the sign of a computed NaN, which no code here reads; floating-point exception flags.
- Directed rounding and flush-to-zero: an exact sum that cancels is +0 as in round-to-nearest, and underflow is gradual.
- Fused multiply-add contraction of the complex formulas.
- The double that logb delivers is converted to int exactly; the exponents of the formats fit.
- The relative error of the rounded complex product and quotient: only their class, the scaling bound and the exact value are proved.
- ComplexFormats.DirectionInFormat: formats whose smallest normal number is one or more, of which IEEE 754 has none, since there rounding can also merge two divisor parts; `ComplexDiv.RecoveredDirection` covers them in terms of the scaled divisor.
- Swap.Word: memory ordering between different addresses; one location with an exclusive monitor per thread is modelled.
- SwapLoop.Location.Swp: interference is a finite list of attempts, without which the loop need not end; the transition system has no such bound.
- Inline assembly (`vset2`, `vset4`, `vmax2`) has its meaning lane by lane from the PTX ISA as a specification function.
- The byte swap, bit reversal, trailing-zero count and bit-field extraction builtins have their documented meaning.
- `__rorl`, `__rev16l` and `__rbitl`, which only choose between the 32-bit and 64-bit forms.
- The 64-bit and 32-bit forms of the `bmiintrin.h` operations are one definition at every width.
- The CUDA warp shuffles, `scalbln`, and the vector, cryptographic, system-register and prefetch headers, which forward to builtins.
