# Numerical core of the Beamerscope phase microscope

The Android microscope keeps its image arithmetic in three C++ files: `cvComplex.cpp` (circular
shifts, two-channel complex matrices, Fourier transforms, Fresnel propagation, a square root),
`jni_qDPC.cpp` (refocusing by shift and add, differential phase contrast, the regularised phase
inversion) and `jni_illparameter.cpp` (the spectrum vector that feeds the network). This project
models that arithmetic in Dafny and proves what it keeps, what it loses and for which inputs it does
what it is for. `dafny verify dfyconfig.toml` checks everything.

## How the code is modelled

* A `Mat` header is an object of class `CircularShifts.Mat` whose field `data` is a two-dimensional
  array; headers may share a buffer, and assigning a header moves it. The value of a buffer is a
  sequence of rows (`Grids.View`). Loops of the source are loops here, over arrays updated in place,
  each proved against a function on such values.
* `double` and `float` are `real`; eight- and sixteen-bit pixels are integers with saturation written out.
* Where OpenCV refuses a region outside its matrix, a method returns `ok == false` and says what it has
  left alone. `fftShift` allocates its scratch matrix with rows and columns exchanged, so in place it
  works exactly on square frames, and the methods that use it in place say so.
* OpenCV's transform is its documented double sum. The only thing assumed of the exponential is
  `Fourier.IsPhase`: t -> exp(i t) is a homomorphism to the unit circle that first returns to one at
  2 pi. That the transforms are inverse to each other, keep energy and exchange real images with
  Hermitian spectra is proved from this. It enters as a parameter (`Spectra.Library`), together with the
  length to which a transform pads.
* Parameters also stand for the circular mask of `calcDPC` and for the range below which
  `normalize` regards an image as constant.

| file | contents |
|---|---|
| `Grids.dfy`, `CircularShift.dfy` | modular arithmetic, rotations of frames, `circularShift`, `fftShift`, `ifftShift` |
| `ComplexField.dfy`, `ComplexMats.dfy` | complex numbers and the element-wise loops |
| `Sums.dfy`, `Fourier.dfy`, `Dft.dfy`, `Spectra.dfy` | finite sums, roots of one, the transforms |
| `FresnelTheory.dfy`, `PlaneWaves.dfy`, `Fresnel.dfy` | propagation as a function, what it does to plane waves, and the methods on matrices |
| `QuantDpcTheory.dfy`, `PhaseReality.dfy`, `PhaseLaws.dfy`, `Schedules.dfy`, `QuantDpc.dfy` | one frequency of the inversion, when the phase is real, the equation it solves, the interleavings of the pixel loop, the loop |
| `Rescaling.dfy`, `DpcImages.dfy`, `Qdpc.dfy` | min-max rescaling, `calcDPC`, the pipeline |
| `Totals.dfy`, `Accumulators.dfy`, `OrderOfAddition.dfy`, `RefocusTheory.dfy`, `RefocusLaws.dfy`, `Refocus.dfy` | refocusing |
| `FastSqrt.dfy`, `FftVector.dfy`, `Letterbox.dfy` | square root, spectrum vector, letterboxing |

## Where the code differs from what it is for

* **Fresnel propagation** composes (z1, then z2, is z1 + z2) exactly on even sizes and on size one. On
  odd sizes it applies `fftShift` where the inverse shift is needed, and every propagation drifts the
  spectrum by one (`FresnelTheory.PropagationAddsExactly`). Energy is kept on every size.
* **The phase image is real** for all image pairs exactly when the summed transfer function is paired at
  opposite frequencies: the values are opposite, or their product is `-reg`
  (`PhaseReality.PhaseIsRealExactly`). The pipeline rescales transfer functions to [-1, 1] first. For odd
  ones the phase of any two differential images is then real exactly if both have contrast
  (`Qdpc.PipelinePhaseRealExactly`).
* **The phase inversion** sums its two channels before it multiplies and divides. That minimises the cost of
  the summed measurement; it finds the minimiser for both channels at once, for all measurements, only where
  both transfer values are zero (`QuantDpcTheory.SumsMissJoint`).
* **The final image** does not show that the backward transform is unscaled, unless that factor alone
  decides whether the phase has range (`Qdpc.FinalImageScaleFree`), which it does for some spectrum on every
  size above one and every positive threshold (`Qdpc.ScaleNeverDecidesExactly`).
* **Brightfield light** is conserved exactly when no pixel's true sum exceeds 65535. The differential sums
  are exact at every moment exactly when no step clips. A differential image is the same in every order of
  the stack exactly when at each pixel the values added stay within 32767 and those subtracted within
  32768, or there are only values of one kind (`RefocusTheory.DifferentialOrderFreeExactly`).
* **`complexInverse`** never yields 1/b. In a buffer apart from its operand it yields (1 + i)/b; in the
  operand's own buffer it does so exactly where the real part does not change or becomes zero, or the
  imaginary part of (1 + i)/b is that of b (`ComplexMats.InverseInPlace`; 2 becomes 1/2 + 2i).
* **`complexMultiply`** into one of its inputs, or of a matrix with itself in place, is right exactly where
  the other factor's imaginary part is zero or the real part does not change; **`complexDivide`** into its
  dividend likewise, and into its divisor exactly where `ComplexMats.KeepsQuotient` holds.
* **The refocusing loop** hands the vertical shift to `circularShift` as the horizontal one and the other way
  round. For a given angle and distance no image shows it exactly when the two shifts agree modulo the
  height and modulo the width (`RefocusTheory.ExchangeShowsExactly`).
* **The square root loop** ends in exact arithmetic for the even powers of two and no other number; it
  relies on rounding. Rounded to the nearest point of a grid, it always ends (`FastSqrt.Iterated`).
* A comment in `computeFocusDPC` speaks of grayscale images, but three channels are kept. The model follows
  the code.

## Model

| member | source | states |
|---|---|---|
| Grids.RotateLands | jni-native/jni/cvComplex.cpp:70-89 | under a shift by (dy, dx) every pixel (r, c) lands at ((r + dy) mod h, (c + dx) mod w), for all integer shifts |
| Grids.RotateCompose | jni-native/jni/cvComplex.cpp:57-90 | shifts form a group action: (a, b) then (c, d) is (a + c, b + d) |
| Grids.RotateFaithful | jni-native/jni/cvComplex.cpp:61-68 | two shifts act alike on all frames exactly when they agree modulo the frame size |
| Grids.OverlayForgets | jni-native/jni/jni_qDPC.cpp:82-96 | a shift into a reused buffer is independent of the old contents exactly when the image covers the buffer |
| CircularShifts.FixedRemainder | jni-native/jni/cvComplex.cpp:61-68 | the truncating remainder with one turn added when negative is the mathematical remainder |
| CircularShifts.Tiling | jni-native/jni/cvComplex.cpp:70-80 | exactly one of the four destination regions contains a pixel of the frame, and none contains a pixel outside it |
| CircularShifts.BlocksRotate | jni-native/jni/cvComplex.cpp:70-89 | the four block copies, made in order, are one modular rotation |
| CircularShifts.CopyTo | jni-native/jni/cvComplex.cpp:82-89 | copies one region into another matrix and nothing else; a destination outside is refused before any write |
| CircularShifts.CircularShift | jni-native/jni/cvComplex.cpp:57-90 | rotates into a separate buffer for all integer shifts, leaves the rest of a larger buffer alone, and fails without writing exactly on a smaller buffer |
| CircularShifts.ShiftThrough | jni-native/jni/cvComplex.cpp:261-268 | shared or empty output: works exactly on square frames, through a new buffer, old buffer untouched; otherwise in the given buffer |
| CircularShifts.FftShift | jni-native/jni/cvComplex.cpp:259-269 | the frame rotated by half its size, rounded up; success exactly on square frames in place, on large enough outputs otherwise |
| CircularShifts.IfftShift | jni-native/jni/cvComplex.cpp:271-281 | the frame rotated by half its size, rounded down, with the same conditions |
| CircularShifts.ShiftsInvert | jni-native/jni/cvComplex.cpp:259-281 | `ifftShift` undoes `fftShift` and the other way round, for every shape |
| CircularShifts.FftShiftTwice | jni-native/jni/cvComplex.cpp:259-269 | `fftShift` twice rotates each odd dimension by one |
| CircularShifts.FftShiftTwiceIdentity | jni-native/jni/cvComplex.cpp:259-269 | `fftShift` twice is the identity on all frames exactly when each dimension is even or one |
| ComplexField.Norm2Mul | jni-native/jni/cvComplex.cpp:170-186 | the squared modulus is multiplicative |
| ComplexField.ConjMul | jni-native/jni/cvComplex.cpp:121-137 | conjugation distributes over products |
| ComplexMats.ProductInPlace | jni-native/jni/cvComplex.cpp:182-183 | on separate buffers the two assignments give the product; into either input, or squaring in place, exactly where the other factor's imaginary part is zero or the real part is unchanged |
| ComplexMats.ComplexMultiply | jni-native/jni/cvComplex.cpp:170-186 | for every way of sharing headers and buffers, each pixel becomes what its two assignments leave there; an empty output is allocated, any other keeps its buffer and the pixels outside |
| ComplexMats.StoreAll | jni-native/jni/cvComplex.cpp:174-185 | the nested loops apply the two assignments to the pixels as they were before the call, once each, and touch nothing else |
| ComplexMats.ComplexDivide | jni-native/jni/cvComplex.cpp:205-221 | for every way of sharing, each pixel becomes what its two assignments leave there, with the same care for the output; defined where neither divides by zero |
| ComplexMats.QuotientInPlace | jni-native/jni/cvComplex.cpp:217-218 | on separate buffers the quotient; in the dividend's buffer exactly where the divisor is real or the real part is unchanged; a matrix divided by itself in place becomes one |
| ComplexMats.QuotientInDivisor | jni-native/jni/cvComplex.cpp:217-218 | in the divisor's buffer the quotient q exactly where q.re is the divisor's or zero or q.im is the divisor's, also as polynomial conditions on the two operands |
| ComplexMats.DivisionUndone | jni-native/jni/cvComplex.cpp:217-218 | dividing and multiplying by b undo each other wherever b is not zero |
| ComplexMats.InverseIsOff | jni-native/jni/cvComplex.cpp:235-236 | on separate buffers the computed inverse is (1 + i)/b, so its product with b is 1 + i, never 1 |
| ComplexMats.InverseInPlace | jni-native/jni/cvComplex.cpp:235-236 | in the operand's own buffer it is (1 + i)/b exactly under a polynomial condition on b |
| ComplexMats.InverseNeverRight | jni-native/jni/cvComplex.cpp:235-236 | shared or not, its product with b is never 1 |
| ComplexMats.InverseOfTwo | jni-native/jni/cvComplex.cpp:235-236 | in place 2 becomes 1/2 + 2i, while (1 + i)/2 is 1/2 + i/2 |
| ComplexMats.ComplexInverse | jni-native/jni/cvComplex.cpp:223-239 | each pixel becomes what its two assignments leave there, shared or not: (1 + i)/b exactly if the buffers are apart or the condition on b holds; apart, output times operand is 1 + i |
| ComplexMats.ComplexConj | jni-native/jni/cvComplex.cpp:121-137 | conjugates every pixel, from a header into itself too, and keeps or allocates the output in the same way |
| Fourier.ForwardRoot | beamerscope/src/main/include/opencv2/core.hpp:1878-1891 | the documented kernel exp(-2 pi i j k / n) consists of powers of a primitive n-th root of one |
| Fourier.CharacterSum | beamerscope/src/main/include/opencv2/core.hpp:1878-1891 | the powers of a character sum to n or to zero |
| Dft.DftInverse | beamerscope/src/main/include/opencv2/core.hpp:1881-1885 | the backward transform of a spectrum is n times the signal |
| Dft.DftExchange | beamerscope/src/main/include/opencv2/core.hpp:1886-1889 | transforming rows and transforming columns commute |
| Dft.Dft2Inverse | beamerscope/src/main/include/opencv2/core.hpp:1886-1889 | the two-dimensional backward transform of a spectrum is h w times the plane |
| Dft.Dft2Conjugated | beamerscope/src/main/include/opencv2/core.hpp:1886-1889 | conjugating a plane conjugates its spectrum and negates its frequencies |
| Dft.Dft2Plus | beamerscope/src/main/include/opencv2/core.hpp:1886-1889 | the transform of a sum of planes is the sum of their transforms |
| Dft.Parseval2 | beamerscope/src/main/include/opencv2/core.hpp:1886-1889 | the energy of a spectrum is h w times the energy of the plane |
| Spectra.IfftUndoesFft | jni-native/jni/cvComplex.cpp:290-311 | without padding `ifft2` undoes `fft2` |
| Spectra.FftUndoesIfft | jni-native/jni/cvComplex.cpp:290-311 | without padding `fft2` undoes `ifft2` |
| PlaneWaves.WaveSpectrum | beamerscope/src/main/include/opencv2/core.hpp:1881-1889 | the forward transform of exp(2 pi i (p r / h + q c / w)) is h w at (p mod h, q mod w) and zero elsewhere, for all integers p and q |
| PlaneWaves.MarkTransformsBack | beamerscope/src/main/include/opencv2/core.hpp:1881-1891 | the unscaled backward transform of a single coefficient at (p, q) is that plane wave |
| Fresnel.Fft2 | jni-native/jni/cvComplex.cpp:290-299 | output holds the transform of the input padded by zeros to the preferred size |
| Fresnel.Ifft2 | jni-native/jni/cvComplex.cpp:302-311 | output holds the scaled backward transform of the padded input |
| Fresnel.GenFresnelKernel | jni-native/jni/cvComplex.cpp:503-519 | fills the kernel, rows and columns exchanged, with the product of carrier and chirp; entry (i, j) is the paraxial phase of the frequency (i - h/2, j - w/2), halves cut to whole indices |
| Fresnel.FresnelProp | jni-native/jni/cvComplex.cpp:481-500 | on unpadded sizes fails exactly on frames that are not square, leaving the output alone; otherwise output is the propagated field, also in place |
| FresnelTheory.KernelPhase | jni-native/jni/cvComplex.cpp:511-513 | the two exponentials multiply to the paraxial phase pi z (2/lambda - lambda f f), and -z conjugates it |
| FresnelTheory.KernelAdds | jni-native/jni/cvComplex.cpp:511-513 | kernels of two distances multiply to the kernel of their sum |
| FresnelTheory.OffsetMet | jni-native/jni/cvComplex.cpp:509-512 | coefficient k meets the kernel at an offset congruent to k + (n mod 2); for even n at its signed frequency, zero at offset zero |
| FresnelTheory.OffsetsAligned | jni-native/jni/cvComplex.cpp:259-269 | spectrum and kernel line up at all frequencies exactly for even n and n = 1 |
| FresnelTheory.PropagationFilters | jni-native/jni/cvComplex.cpp:481-500 | each spectral coefficient is multiplied by the kernel at the frequency it meets and moves by n mod 2, so for even n by its own frequency and in place |
| FresnelTheory.SpectrumAfter | jni-native/jni/cvComplex.cpp:490-498 | the spectrum after propagation is the filtered one rotated by n mod 2 |
| FresnelTheory.PropagationAdds | jni-native/jni/cvComplex.cpp:481-500 | on even sizes and size one, propagating by z1 and then z2 is propagating by z1 + z2 |
| FresnelTheory.PropagationUndone | jni-native/jni/cvComplex.cpp:481-500 | on those sizes distance zero changes nothing and -z undoes z |
| FresnelTheory.PropagationDrifts | jni-native/jni/cvComplex.cpp:492-496 | on every other size there is a field on which it does not compose, for any two distances |
| FresnelTheory.PropagationAddsExactly | jni-native/jni/cvComplex.cpp:481-500 | propagation composes on all fields exactly on even sizes and size one |
| FresnelTheory.PropagationKeepsEnergy | jni-native/jni/cvComplex.cpp:481-500 | the energy of the field is kept on every square size and at every distance |
| PlaneWaves.KernelEntry | jni-native/jni/cvComplex.cpp:505-513 | entry (i, j) of an h by w kernel is exp(i pi z (2/lambda - lambda f f)) for the frequency ((i - h/2) / (h pixel), (j - w/2) / (w pixel)) |
| PlaneWaves.PropagationWeighs | jni-native/jni/cvComplex.cpp:481-500 | every coefficient of every field gains the paraxial phase of the frequency for which its index, moved by n mod 2, stands |
| PlaneWaves.WavePropagates | jni-native/jni/cvComplex.cpp:481-500 | a plane wave propagates to itself times its paraxial phase on even sizes, and to the wave of the next frequency in both directions, times that one's phase, on odd ones |
| PlaneWaves.ConstantPropagates | jni-native/jni/cvComplex.cpp:481-500 | on even sizes a constant field gains exp(2 pi i z / lambda) and nothing else |
| QuantDpcTheory.CostExcess | jni-native/jni/jni_qDPC.cpp:232-260 | any candidate costs more than the filtered coefficient by its weighted squared distance from it |
| QuantDpcTheory.FilterMinimises | jni-native/jni/jni_qDPC.cpp:232-260 | the filtered coefficient is the one and only minimiser of misfit plus regularisation, for every reg > 0 |
| QuantDpcTheory.FilterStable | jni-native/jni/jni_qDPC.cpp:260 | 4 reg times its squared modulus is at most that of the measurement, with equality exactly where h h = reg or nothing was measured |
| QuantDpcTheory.JointMinimises | jni-native/jni/jni_qDPC.cpp:232-260 | the joint coefficient of both channels is the one and only minimiser of both misfits plus regularisation |
| QuantDpcTheory.SumsMissJoint | jni-native/jni/jni_qDPC.cpp:238-260 | summing the channels first gives the joint coefficient for all measurements exactly where both transfer values are zero |
| PhaseReality.RealToHermitian | jni-native/jni/jni_qDPC.cpp:209-218 | the spectrum of a real image is Hermitian |
| PhaseReality.RealExactlyHermitian | jni-native/jni/jni_qDPC.cpp:276-280 | a backward transform is real exactly when the spectrum is Hermitian |
| PhaseReality.OddPairFilters | jni-native/jni/jni_qDPC.cpp:238-260 | filtering respects conjugation exactly on paired transfer values |
| PhaseReality.PhaseIsReal | jni-native/jni/jni_qDPC.cpp:209-280 | real images and paired transfer functions give a complex image without imaginary part |
| PhaseReality.PhaseIsRealExactly | jni-native/jni/jni_qDPC.cpp:209-280 | the complex image is real for all image pairs exactly when the transfer functions are paired |
| PhaseReality.PhaseOfSums | jni-native/jni/jni_qDPC.cpp:209-280 | the complex image depends on the two images and the two transfer functions only through their two sums |
| PhaseLaws.PhaseSolves | jni-native/jni/jni_qDPC.cpp:209-280 | at every frequency, H H + reg times the coefficient of the complex image is n n times -i H times that of the sum of the two images, H the sum of the transfer values |
| PhaseLaws.PhaseSolvesExactly | jni-native/jni/jni_qDPC.cpp:209-280 | no other complex image does that |
| QuantDpc.FilterStep | jni-native/jni/jni_qDPC.cpp:232-260 | the running sums of one frequency amount to the filtered value of the summed measurement, and leave the local variables that the interleaving machine has after three statements |
| QuantDpc.VisitPixel | jni-native/jni/jni_qDPC.cpp:232-269 | the body at one pixel changes the two result matrices as the five statements of the machine do |
| QuantDpc.FilterLoop | jni-native/jni/jni_qDPC.cpp:230-270 | the nested loops execute the statements in row-major order, the matrices are at every moment those of the machine that executed them, and at the end hold the filtered spectrum |
| QuantDpc.QdpcLoop | jni-native/jni/jni_qDPC.cpp:177-281 | returns the first plane of the unscaled backward transform of the filtered spectrum of the two images |
| Schedules.RunEntry | jni-native/jni/jni_qDPC.cpp:229-270 | in every interleaving of the five statements of the pixels, at every moment a pixel is as far as it was given turns, and each entry is final or untouched |
| Schedules.DivisionSound | jni-native/jni/jni_qDPC.cpp:260 | from the locals that two accumulations leave, the division is defined and gives the filtered value |
| Schedules.StepEntry | jni-native/jni/jni_qDPC.cpp:229-270 | one statement moves its own pixel on and leaves every other pixel's progress and results alone |
| Schedules.ScheduleIndependent | jni-native/jni/jni_qDPC.cpp:229-270 | a run leaves the filtered spectrum, whatever was there before, exactly when every pixel has executed its five statements |
| Schedules.SequentialRuns | jni-native/jni/jni_qDPC.cpp:230-270 | the row-major order of the nested loops is one of these runs and ends with the filtered spectrum |
| Schedules.NextVisit | jni-native/jni/jni_qDPC.cpp:230-270 | the nested loops reach each pixel before it has begun and continue the run by its five statements |
| Rescaling.NormalizedSpans | beamerscope/src/main/include/opencv2/core.hpp:682-689 | a rescaled image spans its interval and keeps the order of pixel values both ways |
| Rescaling.SpreadExactly | beamerscope/src/main/include/opencv2/core.hpp:682-689 | rescaling spreads the values over the interval in proportion, or puts them all at the lower end without range, and nothing else does |
| Rescaling.NormalizedFlat | jni-native/jni/jni_qDPC.cpp:313-314 | an image without range is rescaled to the lower end |
| Rescaling.NormalizedAbsorbsExactly | jni-native/jni/jni_qDPC.cpp:342-349 | an earlier increasing affine map disappears exactly when it does not carry the range across the threshold |
| Rescaling.NormalizedTwice | jni-native/jni/jni_qDPC.cpp:342-349 | rescaling twice is rescaling once to the last interval, exactly unless the first interval is no longer than eps and the image has range |
| DpcImages.ContrastBounded | jni-native/jni/jni_qDPC.cpp:150-155 | the contrast of non-negative images lies in [-1, 1] and reaches an end exactly when one image is dark and the other not |
| DpcImages.ExposureInvariant | jni-native/jni/jni_qDPC.cpp:147-174 | a common exposure factor leaves the differential image as it is |
| DpcImages.LevelBounded | jni-native/jni/jni_qDPC.cpp:170-172 | levels stay within 0 and 255, the extremes reach the ends, and saturation never acts |
| DpcImages.RoundNearest | jni-native/jni/jni_qDPC.cpp:172 | rounding picks a nearest integer, and the even one of two |
| DpcImages.LevelsShow | jni-native/jni/jni_qDPC.cpp:170-172 | a result is the rescaled image exactly if every level is the integer nearest to 255 (v - min) / (max - min), the even one on a tie, or the image is constant and reported so |
| DpcImages.ContrastsExactly | jni-native/jni/jni_qDPC.cpp:147-166 | a frame is the masked contrast exactly if inside the mask it times the sum of the images is their difference, zero where the sum is, and zero outside |
| DpcImages.DifferentialExactly | jni-native/jni/jni_qDPC.cpp:139-175 | exactly one result shows the contrast of two images in equally spaced levels |
| DpcImages.BrighterIsHigher | jni-native/jni/jni_qDPC.cpp:139-175 | where the first image is the brighter one the level is at least that of any pixel where it is not |
| DpcImages.SwapComplements | jni-native/jni/jni_qDPC.cpp:139-175 | swapping the images turns each level v into 255 - v, off by at most one and exact unless the unrounded level is a tie; constant stays constant |
| DpcImages.CalcDPC | jni-native/jni/jni_qDPC.cpp:139-175 | returns the one result that shows the masked contrast of its two images in equally spaced levels, or the report that it is constant |
| Qdpc.NormalizeInPlace | jni-native/jni/jni_qDPC.cpp:313-314 | replaces a matrix by its rescaled values in its own buffer |
| Qdpc.QDPC | jni-native/jni/jni_qDPC.cpp:284-354 | returns the rescaled phase image of four images and leaves the rescaled transfer functions behind: there are differential images of the two pairs and a complex image that solves the inversion for their sum with regularisation one, and the answer spreads its real part over [0, 255]; stops exactly when a differential image is constant |
| Qdpc.PipelineRecovers | jni-native/jni/jni_qDPC.cpp:284-349 | the final image is the only one of which that holds |
| Qdpc.FinalImageScaleFree | jni-native/jni/jni_qDPC.cpp:277-349 | the missing scale factor and the rescaling to [-0.3, 1.4] do not show in the final image exactly when scaled and unscaled phase lie on the same side of the range threshold |
| Qdpc.ScaleDecides | jni-native/jni/jni_qDPC.cpp:277-349 | an image whose scaled phase has range eps loses it only by the scale, for every eps > 0 and size above one |
| Qdpc.ScaleNeverDecidesExactly | jni-native/jni/jni_qDPC.cpp:277-349 | the scale decides for no spectrum exactly on size one or without threshold |
| Qdpc.NormalizedOdd | jni-native/jni/jni_qDPC.cpp:313-314 | rescaling to [-1, 1] keeps an odd transfer function odd exactly if it has contrast |
| Qdpc.PipelinePhaseRealExactly | jni-native/jni/jni_qDPC.cpp:309-341 | for any two differential images and odd transfer functions the pipeline's phase is real exactly when both transfer functions have contrast |
| Qdpc.BiasedPhase | jni-native/jni/jni_qDPC.cpp:209-280 | images with light and a transfer value other than zero at frequency zero give a phase that is not real |
| Accumulators.BrightExact | jni-native/jni/jni_qDPC.cpp:99 | the unsigned accumulator holds the true sum cut off at 65535, whatever the order |
| Accumulators.SignedExact | jni-native/jni/jni_qDPC.cpp:103-114 | the signed accumulator holds the true sum after every step exactly when no value and no partial sum leaves sixteen bits |
| Accumulators.SmallNeverClips | jni-native/jni/jni_qDPC.cpp:98-114 | if the count times the greatest value is at most 32767, nothing clips |
| Accumulators.SignedWithinBright | jni-native/jni/jni_qDPC.cpp:98-114 | the signed accumulator never exceeds the unsigned one in size, clipped or not |
| Accumulators.ClippingDependsOnOrder | jni-native/jni/jni_qDPC.cpp:106-114 | the same three images in two orders end at 0 and at 32767 |
| OrderOfAddition.FoldSafe | jni-native/jni/jni_qDPC.cpp:106-114 | terms whose gains and losses each fit, or of one kind only, end at their true sum cut to sixteen bits |
| OrderOfAddition.OrderFreeExactly | jni-native/jni/jni_qDPC.cpp:106-114 | the signed accumulator ends alike in every order exactly when gains stay within 32767 and losses within 32768, or one of them is zero |
| RefocusTheory.ScratchFresh | jni-native/jni/jni_qDPC.cpp:82-96 | on stacks of equal sizes the scratch buffer holds the current shifted image only |
| RefocusLaws.RoundAwayExactly | jni-native/jni/jni_qDPC.cpp:92-93 | a shift is the nearest integer, away from zero on a tie of either sign |
| RefocusLaws.ScratchLands | jni-native/jni/jni_qDPC.cpp:92-96 | after a pass, pixel (r, c) of its image stands at ((r + x) mod h, (c + y) mod w), for the integers x and y nearest to z tan_x and z tan_y |
| RefocusLaws.ColumnArrives | jni-native/jni/jni_qDPC.cpp:85-114 | what the loop adds at (i, j) are the pixels ((i - x) mod h, (j - y) mod w) of the images, each with its own shifts |
| RefocusLaws.BrightArrives | jni-native/jni/jni_qDPC.cpp:85-99 | a brightfield value is the sum of what arrives, cut off at 65535 |
| RefocusLaws.SignedArrives | jni-native/jni/jni_qDPC.cpp:102-114 | a differential value is the saturating sum of the green values that arrive, cut off at 32767 and negative for LEDs not listed, and where these are safe their true sum |
| RefocusLaws.LeftRows | jni-native/jni/jni_qDPC.cpp:32 | the left LEDs, row by row |
| RefocusLaws.TopRows | jni-native/jni/jni_qDPC.cpp:34 | the top LEDs, row by row |
| RefocusTheory.ExchangeShowsExactly | jni-native/jni/jni_qDPC.cpp:92-96 | the exchanged shifts move every image as the unexchanged ones would exactly when they agree modulo height and width |
| RefocusTheory.ExchangeSeen | jni-native/jni/jni_qDPC.cpp:92-96 | a pixel whose angle shifts it by a column moves down by a row |
| RefocusTheory.PassAtPixel | jni-native/jni/jni_qDPC.cpp:98-114 | one pass adds the shifted pixel with saturation and adds or subtracts its converted green value |
| RefocusTheory.BrightfieldConserves | jni-native/jni/jni_qDPC.cpp:85-116 | the brightfield total never exceeds the light of the images and equals it exactly when no pixel saturates, at every distance |
| RefocusTheory.DifferentialConserves | jni-native/jni/jni_qDPC.cpp:105-114 | without clipping the total is the light of the listed images minus that of the others, at every distance |
| RefocusTheory.OrderFree | jni-native/jni/jni_qDPC.cpp:85-99 | the brightfield image does not depend on the order of the stack, saturated or not |
| RefocusTheory.DifferentialOrderFreeExactly | jni-native/jni/jni_qDPC.cpp:85-114 | a differential image is the same in every order of the stack exactly when every pixel's terms are safe in that sense |
| RefocusTheory.DimOrderFree | jni-native/jni/jni_qDPC.cpp:85-114 | a stack dim in green has the same differential images in every order |
| RefocusTheory.DistanceAndOrderFree | jni-native/jni/jni_qDPC.cpp:85-116 | on dim stacks the differential total is the same at every two distances and for every two orders |
| RefocusTheory.DimNeverClips | jni-native/jni/jni_qDPC.cpp:98-114 | the bound on count times the values of a channel rules out clipping at every pixel of that channel |
| RefocusTheory.DimConserves | jni-native/jni/jni_qDPC.cpp:85-99 | in a channel under that bound the brightfield total equals the light of the stack at every distance |
| RefocusTheory.SignedWithinBrightfield | jni-native/jni/jni_qDPC.cpp:98-114 | at every pixel and every moment the differential value is at most the green brightfield value in size |
| RefocusTheory.BrightfieldMinusSigned | jni-native/jni/jni_qDPC.cpp:98-114 | on dim stacks the two differ by exactly twice the sum of the images that are not listed |
| Refocus.ShiftAndAdd | jni-native/jni/jni_qDPC.cpp:86-114 | one pass of the loop updates the scratch buffer and the three accumulators to their next values |
| Refocus.Accumulate | jni-native/jni/jni_qDPC.cpp:72-116 | after the loop the accumulators hold the saturating sums over the stack at every pixel |
| Refocus.ComputeFocusDPC | jni-native/jni/jni_qDPC.cpp:68-136 | returns the three sums in equally spaced levels, each or a report that it is constant: first the three colours that arrive, then left against right, then top against bottom, in terms of the lighting angles on stacks of equal images |
| Refocus.RefocusedExactly | jni-native/jni/jni_qDPC.cpp:85-136 | no other three results show those sums |
| Refocus.OneShotResults | jni-native/jni/jni_qDPC.cpp:85-136 | on one image the second result shows its shifted green values, negative unless the LED is on the left, and the third likewise for the top |
| Refocus.ResultsOrderFree | jni-native/jni/jni_qDPC.cpp:85-136 | the three final images are the same in every order of a stack that is safe at every pixel |
| Refocus.DimResultsOrderFree | jni-native/jni/jni_qDPC.cpp:85-136 | in particular of a stack dim in green |
| FastSqrt.Reduce | jni-native/jni/cvComplex.cpp:97-102 | range reduction keeps the number: mantissa in [1/2, 2), even exponent |
| FastSqrt.IterateConverges | jni-native/jni/cvComplex.cpp:103-108 | after k exact passes the square of the iterate exceeds x by at most twice 8^-(2^k), and never falls below |
| FastSqrt.RescaledError | jni-native/jni/cvComplex.cpp:103-109 | after rescaling, the relative error of the square is at most four times 8^-(2^k) |
| FastSqrt.ExactIterationStops | jni-native/jni/cvComplex.cpp:105-108 | in exact arithmetic two successive iterates are equal only for x = 1 |
| FastSqrt.LoopEndsExactly | jni-native/jni/cvComplex.cpp:97-108 | in exact arithmetic the loop ends for the even powers of two and for no other number |
| FastSqrt.NearestStep | jni-native/jni/cvComplex.cpp:106-107 | a step rounded to nearest stays on or above the grid point under the root, and goes up only from that point, by one |
| FastSqrt.NoReturn | jni-native/jni/cvComplex.cpp:105-108 | no oscillation: if the grid point under the root is left for the next one, that one is kept |
| FastSqrt.RankDrops | jni-native/jni/cvComplex.cpp:105-108 | every pass that moves lowers a bound on the number of passes left |
| FastSqrt.GridStep | jni-native/jni/cvComplex.cpp:106-107 | a step rounded to the nearest grid point, ties either way, stays put if the error of the square is below u y, and only if it is at most u y |
| FastSqrt.Iterated | jni-native/jni/cvComplex.cpp:103-108 | the loop with steps rounded to the nearest grid point terminates however ties are broken, with y y within u y of x |
| FastSqrt.Sqrt | jni-native/jni/cvComplex.cpp:94-110 | zero for numbers that are not positive; otherwise the square has a relative error of at most 2 u |
| FftVector.PackedEntry | jni-native/jni/jni_illparameter.cpp:66-75 | real part of (r, c) at r w + c, imaginary part h w entries further |
| FftVector.UnpackedPacked | jni-native/jni/jni_illparameter.cpp:66-75 | packing loses nothing |
| FftVector.DoubledSpectrum | jni-native/jni/jni_illparameter.cpp:57-62 | the planes of the doubled image's spectrum are R - M and R + M for the image's own spectrum R + i M |
| FftVector.VectorEntry | jni-native/jni/jni_illparameter.cpp:57-75 | the vector holds frequency (k, l) of the padded image at (k + m/2, l + n/2), halves rounded up and indices wrapped: R - M in the first half and R + M in the second |
| FftVector.VectorDeterminesImage | jni-native/jni/jni_illparameter.cpp:57-75 | at every padded size, unpacking, unshifting and transforming back recovers the padded planes, with the image in their corner |
| FftVector.GetFFTVector | jni-native/jni/jni_illparameter.cpp:54-75 | the packed shifted spectrum of the padded image; fails exactly when padding leaves it not square |
| Letterbox.SquareRoi | jni-native/jni/cvComplex.cpp:538-561 | the region lies in the square, spans it on the longer side, has the proportional length cut to whole pixels and margins differing by at most one; it is empty exactly when short side times target is below the long side |

## Left out

- JNI entry points, logging, TensorFlow, asset and image files, windows and colour maps: no arithmetic of this project.
- The bodies of OpenCV's `dft`, `circle`, `resize`, `exp` and `log`, and of `frexp`: `dft` is its documented sum, the exponential and the mask are parameters, `FastSqrt.Frexp` is a stand-in with the contract of `frexp`.
- Floating point: `double` and `float` arithmetic is exact here, including the shift distances of the refocusing loop and the scale of the letterbox.
- FastSqrt.Sqrt: rounds each step once, to the nearest point of a fixed grid of spacing u, instead of every operation to the nearest double, because that grid is what makes termination and error statements about one spacing.
- FastSqrt.Iterated: rounds to the same grid, which must be finer than twice the first approximation.
- ComplexMats.ComplexDivide: requires divisors that are not zero at either assignment, because the source's quotient is then not a number; in the divisor's buffer the second assignment divides by what the first has left.
- ComplexMats.ComplexInverse: requires a second operand without zeros, for the same reason.
- Qdpc.QDPC: stops at a differential image without contrast, because the source continues with values that are not numbers; it takes transfer functions already stored as doubles, which is the case in which the source rescales them in the caller's buffers.
- Refocus.ComputeFocusDPC: reports a constant accumulator instead of dividing by its zero range.
- DpcImages.CalcDPC: takes the mask as given, so the radius and the centre of the circle are not part of this model.
- Matrices that overlap in part: headers share a buffer and have its size, or their buffers are separate. Headers that start at the same pixel with different sizes are not modelled either.
- Colour conversion, `complexAbs`, `complexScalarMultiply`, means and magnitudes: easy members.
- The logarithm and the last rescaling of the spectrum vector, and `getAngleVector`: a library call and one more rescaling.
- Stacks of eight-bit images: the images are three-channel sixteen-bit ones, as the accumulators are. On an eight-bit stack `copyTo` would reallocate its temporary header and leave the scratch buffer zero.
