# Raster filters of the image-processing pages

The pages of this Next.js application each apply one filter to an RGBA image.
Every filter works on the page's `ImageData` buffer: a flat `Uint8ClampedArray`
of `width * height * 4` samples, row by row, with channels R, G, B and A.
Each filter copies the input buffer, overwrites the R, G and B samples of the
pixels it handles, and leaves alpha alone. Every store saturates to 0..255.

This project models those filters in Dafny and proves what each one computes.

- **Raster**: the buffer and its sample index `(y * width + x) * 4 + c`.
  It also holds the saturating store and the row-by-row scan shared by every
  filter. The scan's invariants say which samples are already written and that
  nothing else changes.
- **Window**: the `(2h+1) x (2h+1)` neighbourhood, `h = floor(kernelSize / 2)`,
  walked with `ky` in the outer loop and `kx` in the inner one.
  - The weighted sums of that walk are specified as a recursive function.
  - The gathered values are specified as a sequence.
- **Mean** (`media.tsx`): the mean filter. Modes 9, 5 and 10 give different
  weights; the total is divided and rounded as `Math.round` does.
- **Median** (`mediana.tsx`): the median filter. The sort is modelled as an
  ascending insertion sort on values.
- **Mode** (`moda.tsx`): the mode filter and `getMode`.
  - The counting `Map` is modelled as a `map` plus the sequence of its keys in
    insertion order.
  - `getMode` returns the most frequent value; ties go to the value seen first.
- **HighPass** (`passa-alta.tsx`): the high-pass masks, modes 1 to 3. Each is a
  signed sum, not divided, that the store clamps.
- **Gradient** (`passa-alta.tsx`): the Roberts and Sobel edge detectors.
  - Two 3 x 3 convolutions are computed per channel.
  - They are combined as `sqrt(gx*gx + gy*gy)`, passed through `normalize`,
    and stored.
  - The stored byte is described exactly in integers: `min(255, r)`, where `r`
    is `sqrt(n)` rounded to the nearest integer (`RoundSqrt`).
- **Logic** (`logicas.tsx`): pointwise AND, OR and XOR of two images, or the
  negative of the first. It runs over every pixel, borders included.
  - `&`, `|` and `^` are defined one binary digit at a time.

The source's loops are the model's methods, with the same loop structure:

- the y/x scan;
- the ky/kx window walk;
- the counting and scanning loops of `getMode`;
- the i/j loops of `convolution`.

Each method is proved against a specification function. The properties of each
filter are lemmas about those functions.

## Model

| member | source | states |
|---|---|---|
| `Raster.Clamp` | src/pages/passa-alta.tsx:137-139 | `normalize` and the Uint8ClampedArray store: values in 0..255 are kept, negatives become 0, values above 255 become 255 |
| `Raster.StoreRGB` | src/pages/media.tsx:82-84 | writing R, G, B of pixel (x, y) changes exactly those three samples; alpha and every other pixel keep their value |
| `Raster.SameAtEveryPixel` | src/pages/media.tsx:29 | two buffers that agree at every (x, y, c) are equal: the index `(y*width+x)*4+c` covers the whole buffer |
| `Raster.DecodeOfIdx` | src/pages/media.tsx:29 | the sample index decodes back to its pixel and channel, so distinct (x, y, c) never share a sample |
| `Raster.RowsEnd` | src/pages/media.tsx:27-28 | when the y loop has passed the last interior row, the buffer is the filter's intended image: interior RGB replaced, everything else copied |
| `Window.WeightedTotals` | src/pages/media.tsx:37-66 | the ky/kx loops accumulate totalRed/Green/Blue equal to the weighted window sum of each channel |
| `Window.GatherWindow` | src/pages/mediana.tsx:47-56 | the ky/kx loops push exactly the window's samples of each channel, row-major, into redValues/greenValues/blueValues |
| `Window.WindowValuesAt` | src/pages/moda.tsx:31-39 | the gathered list has (2h+1)^2 entries, and entry (ky+h)*(2h+1)+(kx+h) is the sample at (x+kx, y+ky) |
| `Window.WindowTotalFlat` | src/pages/media.tsx:37-66 | on a flat channel, the weighted window sum is the value times the sum of the weights |
| `Window.WindowSame` | src/pages/media.tsx:39-45 | the window sum and values depend only on the same channel of the input window |
| `Window.WindowTotalCentreOnly` | src/pages/media.tsx:58-63 | weights that vanish off the centre leave only the centre sample |
| `Window.WeightSumConstant` | src/pages/media.tsx:42-45 | constant weights v sum to v*(2h+1)^2 |
| `Window.WindowTotal3x3` | src/pages/passa-alta.tsx:37-88 | with h = 1 the window sum is the nine weighted samples written out |
| `Mean.RoundDiv` | src/pages/media.tsx:72-80 | `Math.round(t / d)` for d > 0: the result r satisfies r - 1/2 <= t/d < r + 1/2, so halves round up |
| `Mean.StoreQuotient` | src/pages/media.tsx:72-84 | the byte `Math.round(t / d)` leaves in the buffer: for d = 0 it is 255 exactly when t > 0 (+Infinity) and 0 otherwise (-Infinity or NaN); for d > 0 a quotient within 0..255 is stored rounded and unclamped, one above 255 (mode 5 with k >= 5, mode 9 with even k on a bright window) is stored as 255, and a negative one as 0 |
| `Mean.MeanWeight` | src/pages/media.tsx:42-64 | the coefficient of the neighbour at (kx, ky) is 0, 1 or 2, and it is 2 exactly at the centre in mode 10 |
| `Mean.Divisor` | src/pages/media.tsx:72-80 | mode 9 divides by kernelSize^2 and modes 5 and 10 by the mode number; the divisor is zero only for mode 9 with kernelSize 0 |
| `Mean.MeanSample` | src/pages/media.tsx:37-84 | the byte stored at an interior sample: the weighted window total under `StoreQuotient` with `Divisor`; its properties are the lemmas below |
| `Mean.MeanRow` | src/pages/media.tsx:28-85 | the x loop stores every interior pixel of row y and changes nothing else |
| `Mean.DivideExact` | src/pages/media.tsx:73 | an exact multiple divides back without rounding: round(v*d/d) = v |
| `Mean.WindowMeans` | src/pages/media.tsx:30-80 | one pixel's averageRed/Green/Blue are its weighted window sums divided, rounded and stored as `StoreQuotient` describes, division by zero included |
| `Mean.ApplyAverageFilter` | src/pages/media.tsx:16-89 | the output has the input's size; interior RGB is MeanSample and everything else is the input; with no interior pixels, or in mode 9 with odd k on a flat-colour image, the output equals the input; every natural kernel size is accepted |
| `Mean.MeanFilterFixedPoints` | src/pages/media.tsx:27-28 | an image with no interior pixel, and a flat-colour image under mode 9 with odd k, come out unchanged |
| `Mean.FullMeanOfFlat` | src/pages/media.tsx:42-45 | mode 9 with odd k returns v on a channel that is v everywhere |
| `Mean.Partial5Of3x3` | src/pages/media.tsx:46-57 | mode 5 with k = 3 averages the five samples at (-1,-1), (0,-1), (1,-1), (-1,0), (0,1) over 5; (1,0), (0,0), (-1,1), (1,1) are skipped |
| `Mean.Centre10IgnoresNeighbours` | src/pages/media.tsx:58-63 | mode 10 gives round(2*centre/10) whatever the neighbours and kernel size, hence at most 51 |
| `Mean.ZeroKernelSaturates` | src/pages/media.tsx:24-75 | with kernelSize 0 every pixel is interior and mode 9 divides the centre sample by zero: a positive sample is stored as 255, a zero sample as 0 |
| `Mean.MeanSampleLocal` | src/pages/media.tsx:39-45 | channel c of the result depends only on channel c of the input window |
| `Median.InsertMultiset` | src/pages/mediana.tsx:59-61 | inserting a value adds exactly that value to the list's multiset |
| `Median.InsertSorted` | src/pages/mediana.tsx:59-61 | insertion into a sorted list keeps it sorted |
| `Median.Insert` | src/pages/mediana.tsx:59-61 | one insertion step of the ascending sort: the list grows by one entry |
| `Median.SortAscending` | src/pages/mediana.tsx:59-61 | the sort keeps the list's length |
| `Median.SortFacts` | src/pages/mediana.tsx:59-61 | `sort((a, b) => a - b)` yields an ascending permutation of the list |
| `Median.SortedUnique` | src/pages/mediana.tsx:59-61 | two ascending lists with the same elements are equal, so the sort's result is determined by the multiset |
| `Median.MedianRank` | src/pages/mediana.tsx:64-66 | the element at floor(n/2) of the sorted list belongs to the list; at least floor(n/2)+1 values are <= it and at least n-floor(n/2) are >= it |
| `Median.MedianOrderFree` | src/pages/mediana.tsx:59-66 | the median depends only on the multiset of the window values, not on their order |
| `Median.MedianOfConstant` | src/pages/mediana.tsx:64-66 | a list of equal values has that value as its median |
| `Median.MedianOf` | src/pages/mediana.tsx:59-66 | the entry at floor(n * 0.5) of the sorted list is one of the list's values |
| `Median.MedianSample` | src/pages/mediana.tsx:47-66 | the stored sample is a window value with at least floor(k'^2/2)+1 window values <= it and at least k'^2-floor(k'^2/2) >= it, where k' = 2*floor(kernelSize/2)+1 |
| `Median.MedianOfFlat` | src/pages/mediana.tsx:47-66 | on a flat channel the median is the channel's value for any kernel size |
| `Median.MedianSampleLocal` | src/pages/mediana.tsx:52-66 | channel c of the result depends only on channel c of the input window |
| `Median.WindowMedians` | src/pages/mediana.tsx:39-66 | one pixel's medianRed/Green/Blue are the medians of its three window lists |
| `Median.ApplyMedianFilter` | src/pages/mediana.tsx:27-76 | interior RGB is the window median and everything else is the input; with no interior pixels, or on a flat-colour image for any k, the output equals the input |
| `Median.MedianRow` | src/pages/mediana.tsx:38-72 | the x loop stores every interior pixel of row y and changes nothing else |
| `Median.MedianFilterFixedPoints` | src/pages/mediana.tsx:37-38 | an image with no interior pixel, and a flat-colour image, come out unchanged |
| `Mode.FirstIndex` | src/pages/moda.tsx:66-72 | the position where a value first occurs: the order in which the Map receives its keys |
| `Mode.ModeIndex` | src/pages/moda.tsx:78-83 | the reference scan over the first n entries of the list, repeats included, settles on one of those n positions |
| `Mode.ModeIndexBest` | src/pages/moda.tsx:78-83 | the chosen position has a count no smaller than any value's and strictly larger than that of every value first seen before it |
| `Mode.ModeOfIsMode` | src/pages/moda.tsx:62-86 | the specified mode occurs in the list, no value occurs more often, and every value seen earlier occurs strictly less often |
| `Mode.IsMode` | src/pages/moda.tsx:62-86 | the characterisation of getMode's result: an entry of the list that no value outnumbers, with every entry before its first occurrence strictly rarer |
| `Mode.ModeOf` | src/pages/moda.tsx:62-86 | the reference mode: the entry the reference scan picks over the whole list |
| `Mode.IsModeUnique` | src/pages/moda.tsx:78-83 | that characterisation admits exactly one value |
| `Mode.ModeOfConstant` | src/pages/moda.tsx:74-85 | a list of equal values has that value as its mode |
| `Mode.ModeOfMajority` | src/pages/moda.tsx:62-86 | a value that fills more than half the list is its mode |
| `Mode.ModeOfDistinct` | src/pages/moda.tsx:74-82 | if all values are distinct, the first one is returned |
| `Mode.CountOccurrences` | src/pages/moda.tsx:66-72 | after the counting loop, the Map's keys are exactly the list's values, each with its number of occurrences, in first-occurrence order |
| `Mode.GetMode` | src/pages/moda.tsx:62-86 | for a non-empty list it returns the mode: a member of the list that no value outnumbers, with ties going to the earliest first occurrence |
| `Mode.ModeSample` | src/pages/moda.tsx:31-45 | the stored sample satisfies `IsMode` for the window's gathered values |
| `Mode.ModeOfFlat` | src/pages/moda.tsx:36-45 | on a flat channel the mode is the channel's value |
| `Mode.ModeSampleLocal` | src/pages/moda.tsx:36-45 | channel c of the result depends only on channel c of the input window |
| `Mode.WindowModes` | src/pages/moda.tsx:23-45 | one pixel's modeRed/Green/Blue are getMode of its three window lists |
| `Mode.ApplyModeFilter` | src/pages/moda.tsx:16-55 | interior RGB is the window mode and everything else is the input; with no interior pixels, or on a flat-colour image, the output equals the input |
| `Mode.ModeRow` | src/pages/moda.tsx:22-51 | the x loop stores every interior pixel of row y and changes nothing else |
| `Mode.ModeFilterFixedPoints` | src/pages/moda.tsx:21-22 | an image with no interior pixel, and a flat-colour image, come out unchanged |
| `HighPass.WindowHighPass` | src/pages/passa-alta.tsx:29-97 | one pixel's three stored values are the clamped, undivided weighted window sums of the chosen mask |
| `HighPass.HighPassWeight` | src/pages/passa-alta.tsx:42-85 | the mask coefficient of the neighbour at (kx, ky) lies in -2..8, and in modes 1 and 2 only the centre is positive |
| `HighPass.HighPassSample` | src/pages/passa-alta.tsx:37-101 | the byte stored at an interior sample: the undivided mask sum, saturated; its properties are the lemmas below |
| `HighPass.HighPassRow` | src/pages/passa-alta.tsx:28-102 | the x loop stores every interior pixel of row y and changes nothing else |
| `HighPass.ApplyAverageFilter` | src/pages/passa-alta.tsx:16-106 | interior RGB is the clamped mask sum and everything else is the input; with no interior pixels the output equals the input |
| `HighPass.Mode1Of3x3` | src/pages/passa-alta.tsx:42-51 | mode 1 with k = 3 is 8*centre minus the eight neighbours, clamped |
| `HighPass.Mode2Of3x3` | src/pages/passa-alta.tsx:52-66 | mode 2 with k = 3 is 4*centre minus the samples at (0,-1), (-1,0), (1,1), (0,1), clamped; (1,0) is not subtracted |
| `HighPass.Mode3Of3x3` | src/pages/passa-alta.tsx:67-85 | mode 3 with k = 3 is 4*centre, minus twice those four samples, plus the other four neighbours, clamped |
| `HighPass.HighPassOfFlat` | src/pages/passa-alta.tsx:42-85 | with k = 3 every mask's weights cancel, so a flat channel gives 0 |
| `HighPass.HighPassOfUniform` | src/pages/passa-alta.tsx:23-101 | a flat-colour image with k = 3 becomes black inside its copied border |
| `HighPass.HighPassSampleLocal` | src/pages/passa-alta.tsx:37-88 | channel c of the result depends only on channel c of the input window |
| `Gradient.ColumnsAreRows` | src/pages/passa-alta.tsx:124-134 | summing the kernel products column by column, i outer and j inner, gives the window total taken row by row |
| `Gradient.KernelWeights` | src/pages/passa-alta.tsx:128-130 | the neighbour at (i, j) is weighted by kernel[j+1][i+1]; `RobertsOf` and `SobelOf` state what that gives for the four kernels |
| `Gradient.Convolved` | src/pages/passa-alta.tsx:124-134 | the value `convolution` returns, as a window total; `Convolution` is proved to compute it |
| `Gradient.ConvolutionColumn` | src/pages/passa-alta.tsx:126-132 | the inner j loop adds column i's three kernel-weighted samples to the running sum |
| `Gradient.Convolution` | src/pages/passa-alta.tsx:124-134 | `convolution(x, y, p, kernel)` returns the sum of kernel[j+1][i+1] * sample(x+i, y+j, p) over i, j in -1..1 |
| `Gradient.RoundSqrtFrom` | src/pages/passa-alta.tsx:147 | searching upward from m finds the least r >= m with n <= r*r + r, and that r also has r*r - r < n |
| `Gradient.RoundSqrt` | src/pages/passa-alta.tsx:147 | the stored square root of n: 0 for n = 0; otherwise r with (2r-1)^2 < 4n < (2r+1)^2, that is r - 1/2 < sqrt(n) < r + 1/2 |
| `Gradient.RoundSqrtUnique` | src/pages/passa-alta.tsx:147 | exactly one r >= 1 satisfies r*r - r < n <= r*r + r, and RoundSqrt finds it |
| `Gradient.RoundSqrtOfSquare` | src/pages/passa-alta.tsx:147 | the square root of a perfect square k*k is k |
| `Gradient.RoundSqrtMonotone` | src/pages/passa-alta.tsx:147 | a larger n never gives a smaller rounded root |
| `Gradient.Magnitude` | src/pages/passa-alta.tsx:145-160 | the stored byte for gradients gx and gy; `MagnitudeZero`, `MagnitudeSymmetric` and `MagnitudeMonotone` state its properties |
| `Gradient.MagnitudeZero` | src/pages/passa-alta.tsx:145-160 | the stored magnitude is 0 exactly when both convolutions are 0 |
| `Gradient.MagnitudeSymmetric` | src/pages/passa-alta.tsx:145-147 | the magnitude ignores the signs of gx and gy and their order |
| `Gradient.MagnitudeMonotone` | src/pages/passa-alta.tsx:145-160 | a larger gx^2 + gy^2 never gives a darker pixel |
| `Gradient.PixelGradient` | src/pages/passa-alta.tsx:143-157 | one pixel's tempRed/Green/Blue are normalize(sqrt(gx^2 + gy^2)) of that channel's two convolutions |
| `Gradient.ApplyGradientFilter` | src/pages/passa-alta.tsx:141-166 | for 1 <= x < width-1 and 1 <= y < height-1, RGB is the gradient magnitude and everything else is the input; images narrower or shorter than 3 come out unchanged |
| `Gradient.GradientRow` | src/pages/passa-alta.tsx:142-163 | the x loop stores every pixel 1 <= x < width-1 of row y and changes nothing else |
| `Gradient.RobertsOf` | src/pages/passa-alta.tsx:112-134 | the Roberts kernels give gx = p(x,y) - p(x+1,y-1) and gy = p(x,y) - p(x-1,y-1) |
| `Gradient.ApplyRobertsFilter` | src/pages/passa-alta.tsx:109-167 | interior RGB is Magnitude(p(x,y) - p(x+1,y-1), p(x,y) - p(x-1,y-1)) and everything else is the input |
| `Gradient.SobelOf` | src/pages/passa-alta.tsx:174-196 | the Sobel kernels give gx = (left column, 1-2-1 weighted) minus (right column) and gy = (top row) minus (bottom row) |
| `Gradient.ApplySobelFilter` | src/pages/passa-alta.tsx:171-229 | interior RGB is the Sobel gradient magnitude and everything else is the input |
| `Gradient.RobertsAndSobelZeroSum` | src/pages/passa-alta.tsx:112-122 | the weights of each of the four kernels sum to 0 |
| `Gradient.GradientOfFlat` | src/pages/passa-alta.tsx:174-184 | with cancelling kernels, a flat channel has gradient 0 |
| `Gradient.GradientOfUniform` | src/pages/passa-alta.tsx:203-224 | Roberts and Sobel turn a flat-colour image black inside its copied border |
| `Gradient.GradientSampleLocal` | src/pages/passa-alta.tsx:124-134 | channel c of the result depends only on channel c of the 3 x 3 input window |
| `Logic.BitAnd` | src/pages/logicas.tsx:31-37 | a & b is no larger than either operand |
| `Logic.BitOr` | src/pages/logicas.tsx:38-44 | a \| b is no smaller than either operand |
| `Logic.BitXor` | src/pages/logicas.tsx:45-51 | a ^ b never exceeds a + b |
| `Logic.BitsBelow` | src/pages/logicas.tsx:31-51 | &, \| and ^ of two n-bit numbers are n-bit numbers, so byte operands give bytes |
| `Logic.BitsCommute` | src/pages/logicas.tsx:31-51 | &, \| and ^ are symmetric in their operands |
| `Logic.AndPlusOr` | src/pages/logicas.tsx:31-44 | (a & b) + (a \| b) = a + b |
| `Logic.XorSelfAndZero` | src/pages/logicas.tsx:45-51 | a ^ a = 0 and a ^ 0 = a |
| `Logic.XorAllOnes` | src/pages/logicas.tsx:45-51 | XOR with 2^n - 1 flips the n low bits: a ^ (2^n - 1) = 2^n - 1 - a for a < 2^n |
| `Logic.ApplyFilter` | src/pages/logicas.tsx:16-61 | every pixel, borders included, gets its R, G, B from the mode's operator on the two images' samples at the same index; alpha is the first image's |
| `Logic.LogicSample` | src/pages/logicas.tsx:31-56 | the sample stored from the two inputs: AND for mode 1, OR for 2, XOR for 3, 255 minus the first otherwise; the lemmas below state its properties |
| `Logic.LogicRow` | src/pages/logicas.tsx:28-57 | the x loop stores every pixel of row y, borders included, and changes nothing else |
| `Logic.LogicCommutes` | src/pages/logicas.tsx:31-51 | modes 1, 2 and 3 give the same sample with the operands swapped |
| `Logic.AndOrBounds` | src/pages/logicas.tsx:31-44 | on bytes, AND <= min(a, b), OR >= max(a, b), and AND + OR = a + b |
| `Logic.XorFacts` | src/pages/logicas.tsx:45-51 | on bytes, a ^ a = 0, a ^ 0 = a and a ^ 255 = 255 - a |
| `Logic.LogicImageCommutes` | src/pages/logicas.tsx:31-51 | AND, OR and XOR images are the same in R, G, B with the two inputs swapped |
| `Logic.XorSelfIsBlack` | src/pages/logicas.tsx:45-51 | XOR of an image with itself is black, with the image's own alpha |
| `Logic.InvertIgnoresSecond` | src/pages/logicas.tsx:52-56 | any mode other than 1, 2 and 3 ignores the second image |
| `Logic.InvertTwice` | src/pages/logicas.tsx:52-56 | applying the negative twice restores the original buffer exactly |

## Left out

- The React components are not modelled: state, effects, event handlers, file
  upload, canvas drawing, `getImageData`/`putImageData` and the JPEG download.
  They are UI and browser I/O. A filter's inputs are its parameters, and its
  result is returned as a sequence.
- The 500-pixel display resize is not modelled. It is display policy with
  floating-point division.
- `calculateMedian` in `mediana.tsx` is not modelled. It is never called.
- The unused `kernelSize` parameter of the logic page's `applyFilter` is not
  part of `Logic.ApplyFilter`.
- The NavBar component is not part of this model.
- `Uint8ClampedArray` is modelled only through its clamped store of integers.
  The source's buffers always have `width * height * 4` samples, and the model
  requires that (`IsImage`).
- Gradient.RoundSqrt: floating-point `Math.sqrt`, followed by `normalize` and
  the store's round-half-to-even, is described by its exact integer outcome,
  not by modelling IEEE doubles.
  - For an integer n, sqrt(n) is never exactly halfway between two integers,
    so no tie can arise.
  - The model assumes `Math.sqrt` is correctly rounded enough that this
    rounding is not disturbed.
- Median.SortAscending: `Array.prototype.sort` with `(a, b) => a - b` is
  modelled as a functional insertion sort. The in-place update of the three
  lists is not modelled; only their sorted contents are.
- Mode.CountOccurrences: the JavaScript `Map` is modelled as a `map` plus the
  sequence of its keys in insertion order. Its identity and in-place mutation
  are not modelled.
- Mode.GetMode requires a non-empty list, as the source's `values[0]` and
  `countMap.get(mode)!` do. Every window has at least one sample.
- Mean.ApplyAverageFilter requires a mode of 9, 5 or 10, the options of the
  page's select; a kernel size of 0 is modelled (`Mean.StoreQuotient`).
- The kernel-size number field of the mean, median and mode pages suggests
  `min={1}` and `step={2}`. `handleKernelSizeChange` rejects only a NaN from `parseInt`, so
  typed values that are 0, even or negative reach the filter. Sizes 0 and even
  sizes are modelled; negative sizes are not.
  - With a negative size the loops run over a range wider than the image with
    an empty window. They write through indices that the typed array ignores
    or that belong to other pixels.
  - Median and mode then index an empty list, which yields `undefined`.
- Mean.ApplyAverageFilter takes `kernelSize` as a natural number: negative sizes are not modelled.
- Median.ApplyMedianFilter takes `kernelSize` as a natural number: negative sizes are not modelled.
- Mode.ApplyModeFilter takes `kernelSize` as a natural number: negative sizes are not modelled.
- HighPass.ApplyAverageFilter takes `kernelSize` as a natural number: negative sizes are not modelled.
- Mode 9 with an even `kernelSize` is still modelled as written: it divides by
  `kernelSize^2` while summing `(kernelSize + 1)^2` samples. Only the
  fixed-point property is restricted to odd sizes.
- HighPass.ApplyAverageFilter requires mode 1, 2 or 3, the only modes the
  page passes. For any other mode the source stores `undefined`, which the
  buffer turns into 0; that branch is not modelled.
- Logic.ApplyFilter requires both images to have the same size, as the page
  arranges by drawing both into the same canvas. Reads past the end of a
  smaller second image are not modelled.
- Mean.RoundDiv: `Math.round(t / d)` divides in double precision; the model
  rounds the exact rational t/d. This gives the same result:
  - t and d are small integers, so the only rounding happens in the division.
  - If t/d is not a half-integer, it lies at least 1/(2d) from every
    half-integer. The correctly rounded double of t/d stays on the same side.
  - Half-integers of this size are exact doubles, so a tie quotient is
    computed exactly, and `Math.round` sends it up as `RoundDiv` does.
- The other values the filters compute are integer sums and products of bytes.
  The model computes them with exact integers.
