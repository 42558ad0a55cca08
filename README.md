# sipl core in Dafny

sipl is a small C++ image processing library. This project models its core
and proves properties of that model. The core has these parts:

- the matrix containers: `Vector`, the n-dimensional `Matrix` and the 2-D
  `MatrixX`;
- element-wise and linear-algebra operators, plus per-pixel statistics over a
  stack of frames;
- the image filters: thresholding, the nonlinear k-th-order (median) filter,
  erosion and dilation, 8-connected component labelling and histogram
  equalisation;
- the readers and writers for PGM/PPM, BMP and PNG, and the file-extension
  dispatch in front of them;
- the two car-counting drivers, `examples/pngtest.cpp` and `hw4.py`, which
  rasterise a line with Bresenham's algorithm, build a time slice along it and
  count the blobs in it.

A 2-D matrix is the value `Grid.Matrix<T>`: rows, columns and a row-major
buffer, so element (r, c) sits at index `r * cols + c`. sipl's matrices have
value semantics, so most operators return new matrices. In the model:

- a kernel that fills its result with nested loops is a `method` that fills a
  local array and returns the matrix built from it;
- each such method is tied by its `ensures` to a pure specification function
  (`Eroded`, `KthOfWindow`, `PixelMedian`, `Line`, `HeaderSpec`, ...);
- the properties the library promises are lemmas about those functions;
- state that sipl updates in place is a `class`: the `Vector` buffer with its
  element and byte counts, and a connected component that `push_back` grows;
- errors raised by sipl (`IOException`, `std::invalid_argument`,
  `std::out_of_range`, `std::runtime_error`) are the `Failure` side of
  `Wrappers.Result`, and so is the one `assert` whose failure depends on the
  file being read ("wrong type for matrix" in the Netpbm readers); every
  other `assert` of sipl is a precondition (`requires`) of the operation
  that makes it, as listed under "Left out";
- file contents are parameters: a `string` or byte sequence, with `None` for a
  file that cannot be opened. The PNG codec's decode and encode results are
  parameters too.

The window a filter reads around pixel (i, j) is `Grid.Patch`: the
(2h+1) x (2w+1) neighbourhood in row-major window order, with replicated
borders. It is a model; the lemmas use only two facts about it:

- every window value is a value of the image;
- the window's centre is the pixel itself.

`std::sort` and `std::nth_element` are the pure `Order.Sort` and
`Order.KthSmallest`. They are specified by rank: fewer than k+1 elements lie
strictly below the k-th smallest, and more than k lie at or below it.

Integers are unbounded. Where the source narrows or truncates, the model
writes this out:

- `int32_t(std::stoul(...))` wraps modulo 2^32 (`NetpbmHeader.Int32`);
- `stoul` rejects values above `ULONG_MAX`;
- C++ integer division truncates toward zero (`MatrixOps.TruncDiv`);
- `% 256` is the uint8 store of the equalisation table;
- `np.clip` is followed by `astype(uint8)`.

## Model

| member | source | states |
|---|---|---|
| Util.MultiplyUnfold | include/array/util.hpp:14-24 | `multiply(x)` is x, and `multiply(first, rest...)` is first times the product of the rest |
| Util.MultiplyPermutation | include/array/util.hpp:14-24 | the product of the dimensions does not depend on their order |
| Util.MultiplyZero | include/array/util.hpp:20-24 | a zero dimension makes the product zero |
| NdMatrix.ProductIsMultiply | include/matrix/Matrix.hpp:24-30 | the element count a sized matrix stores is `multiply(dims...)` |
| NdMatrix.Sized | include/matrix/Matrix.hpp:24-30 | a sized matrix keeps its dims and holds the product of the dims elements, zero when some dim is zero |
| NdMatrix.Default | include/matrix/Matrix.hpp:21 | the default matrix has all dims zero and no elements |
| NdMatrix.SizeInBytesFacts | include/matrix/Matrix.hpp:60 | the byte size is the element count times the element size, and zero for a default matrix |
| NdMatrix.CalculateIndex | include/matrix/Matrix.hpp:65-72 | the loop computes the index formula exactly as written: `index += idxs[i] * dims[i + 1]` plus `idxs[Dims-1]` |
| NdMatrix.WrittenIsRowMajorUpToTwoDims | include/matrix/Matrix.hpp:65-72 | for one or two dims the written formula is row-major, `idxs[0] * dims[1] + idxs[1]` |
| NdMatrix.TwoDimsInjective | include/matrix/Matrix.hpp:65-72 | for two dims, in-range indices give in-range, distinct offsets |
| NdMatrix.WrittenIndexCollides | include/matrix/Matrix.hpp:68-71 | for dims [2,2,2] the written formula sends [0,1,0] and [1,0,0] to the same offset |
| NdMatrix.CalculateIndexRowMajor | include/matrix/Matrix.hpp:65-72 | the corrected loop computes the row-major offset |
| NdMatrix.RowMajorInRange | include/matrix/Matrix.hpp:65-72 | the row-major offset of an in-range index is below the element count |
| NdMatrix.RowMajorInjective | include/matrix/Matrix.hpp:65-72 | distinct in-range indices have distinct row-major offsets |
| Grid.CellInRange | include/matrix/MatrixBase.hpp:59-68 | `r * cols + c` of an in-range cell lies inside the buffer |
| Grid.CellInjective | include/matrix/MatrixBase.hpp:59-68 | distinct in-range cells have distinct buffer indices |
| Grid.Clamp | include/matrix/Common.hpp:10 | the REPLICATE border maps any index into [0, n) and leaves in-range indices alone |
| Grid.Patch | include/matrix/Common.hpp:10 | a window of half-sizes h, w has (2h+1)(2w+1) values |
| Grid.PatchFromImage | include/matrix/Common.hpp:10 | every window value is an element of the image |
| Grid.PatchCentreValue | include/matrix/Common.hpp:10 | the window's centre is the pixel it is centred on |
| Grid.PatchOfConstant | include/matrix/Common.hpp:10 | every window of a constant image holds only the constant |
| VectorBase.Vector.Default | include/matrix/VectorBase.hpp:22-26 | a new vector has a fresh buffer of its length, and nelements and nbytes match it |
| VectorBase.Vector.Fill | include/matrix/VectorBase.hpp:39-44 | every element of a filled vector is the scalar |
| VectorBase.Vector.Move | include/matrix/VectorBase.hpp:46-54 | the new vector takes the source's elements and counts; the source is left with zero counts |
| VectorBase.Vector.MoveAssign | include/matrix/VectorBase.hpp:88-99 | self-assignment changes nothing; otherwise the target gets the source's elements and counts, and the source's counts become zero |
| VectorBase.Vector.Apply | include/matrix/VectorBase.hpp:188-194 | each element is replaced by f of its old value |
| VectorBase.Vector.DivAssign | include/matrix/VectorBase.hpp:148-154 | each element becomes its old value divided by the scalar, truncating |
| VectorBase.Vector.MulAssign | include/matrix/VectorBase.hpp:156-161 | each element becomes its old value times the scalar |
| VectorBase.Vector.AddAssign | include/matrix/VectorBase.hpp:163-168 | each element becomes its old value plus the scalar |
| VectorBase.Vector.SubAssign | include/matrix/VectorBase.hpp:170-175 | each element becomes its old value minus the scalar |
| VectorBase.Vector.ApplyCopy | include/matrix/VectorBase.hpp:196-204 | returns a fresh vector of f applied to each element; the original is untouched |
| VectorBase.Vector.Negate | include/matrix/VectorBase.hpp:177-186 | returns a fresh vector whose elements are the negated elements |
| VectorBase.ArgMaxOf | include/matrix/VectorBase.hpp:236-240 | argmax is an index of a maximal element, and no earlier element is as large |
| VectorBase.ArgMinOf | include/matrix/VectorBase.hpp:242-246 | argmin is an index of a minimal element, and no earlier element is as small |
| VectorBase.Vector.ArgMax | include/matrix/VectorBase.hpp:236-240 | argmax of a non-empty vector is a valid index |
| VectorBase.Vector.ArgMin | include/matrix/VectorBase.hpp:242-246 | argmin of a non-empty vector is a valid index |
| VectorBase.Vector.Max | include/matrix/VectorBase.hpp:226-229 | max is at least every element and is one of them |
| VectorBase.Vector.Min | include/matrix/VectorBase.hpp:231-234 | min is at most every element and is one of them |
| VectorBase.ArgMaxFirst | include/matrix/VectorBase.hpp:236-240 | the element at argmax is max, and every earlier element is strictly smaller |
| VectorOps.DivScalar | include/matrix/VectorOps.hpp:4-9 | `v / s` divides each element, truncating toward zero |
| VectorOps.MulScalar | include/matrix/VectorOps.hpp:11-16 | `v * s` scales each element |
| VectorOps.ScalarMul | include/matrix/VectorOps.hpp:18-22 | `s * v` scales each element |
| VectorOps.AddScalar | include/matrix/VectorOps.hpp:24-29 | `v + s` adds s to each element |
| VectorOps.SubScalar | include/matrix/VectorOps.hpp:37-42 | `v - s` subtracts s from each element |
| VectorOps.AddSubScalar | include/matrix/VectorOps.hpp:24-42 | subtracting the scalar undoes adding it |
| VectorOps.Add | include/matrix/VectorOps.hpp:45-55 | the sum of two vectors of one length is their element-wise sum |
| VectorOps.Sub | include/matrix/VectorOps.hpp:57-67 | the difference of two vectors of one length is their element-wise difference |
| VectorOps.Equal | include/matrix/VectorOps.hpp:70-81 | `==` holds iff every element pair is equal |
| VectorOps.NotEqual | include/matrix/VectorOps.hpp:83-88 | `!=` is the negation of `==` |
| VectorOps.DerivedOrders | include/matrix/VectorOps.hpp:99-120 | `>`, `<=` and `>=` as derived from `<`: `a > b` iff `b < a`, `a <= b` iff `b >= a`, and `a < b` and `a >= b` are never both true or both false |
| VectorOps.FormatText | include/matrix/VectorOps.hpp:137-148 | the printed text opens with `[` and closes with `]` |
| VectorOps.Format | include/matrix/VectorOps.hpp:137-148 | the printing loop computes `FormatText`: `operator<<` prints `[]` for an empty vector, otherwise `[` and the elements in `std::to_string` form separated by `, ` and then `]` |
| VectorOps.FormatShape | include/matrix/VectorOps.hpp:137-148 | just before its closing `]` the printed text ends with the last element's digits, and a one-element vector prints as `[x]` |
| VectorOps.FormatAppend | include/matrix/VectorOps.hpp:137-148 | printing one more element replaces the closing `]` by `, `, the new element's digits and `]` |
| MatrixOps.DivScalar | include/matrix/MatrixOps.hpp:11-21 | `m / s` divides each element with C++ truncating division and keeps the dims |
| MatrixOps.TruncDivRemainder | include/matrix/MatrixOps.hpp:11-21 | the truncating quotient leaves a remainder smaller than the divisor in magnitude, with the dividend's sign |
| MatrixOps.MulScalar | include/matrix/MatrixOps.hpp:23-33 | `m * s` scales each element and keeps the dims |
| MatrixOps.ScalarMul | include/matrix/MatrixOps.hpp:35-45 | `s * m` scales each element and keeps the dims |
| MatrixOps.AddScalar | include/matrix/MatrixOps.hpp:47-52 | `m + s` adds s to each element and keeps the dims |
| MatrixOps.ScalarAdd | include/matrix/MatrixOps.hpp:54-59 | `s + m` adds s to each element and keeps the dims |
| MatrixOps.SubScalar | include/matrix/MatrixOps.hpp:85-90 | `m - s` subtracts s from each element and keeps the dims |
| MatrixOps.AddSubScalarInverse | include/matrix/MatrixOps.hpp:47-90 | `(m + s) - s == m` |
| MatrixOps.Add | include/matrix/MatrixOps.hpp:61-71 | the sum of equal-size matrices is their element-wise sum, with the left operand's dims |
| MatrixOps.Sub | include/matrix/MatrixOps.hpp:73-83 | the difference is the element-wise difference, with the left operand's dims |
| MatrixOps.MatMul | include/matrix/MatrixOps.hpp:92-118 | the product is rows(m1) x cols(m2), and entry (r, c) is the dot product of row r and column c |
| MatrixOps.MatMulIdentity | include/matrix/MatrixOps.hpp:105-117 | multiplying by the identity gives back the matrix |
| MatrixOps.MatVecWritten | include/matrix/MatrixOps.hpp:120-135 | as written: the result has the vector's length, the row dot products come first and any remaining entries are zero |
| MatrixOps.MatVecAsWritten | include/matrix/MatrixOps.hpp:120-135 | the nested loops compute `MatVecWritten` |
| MatrixOps.MatVecLengthMismatch | include/matrix/MatrixOps.hpp:125-126 | as written, a 1 x 2 matrix times the length-2 vector [1, 1] gives two entries, [2, 0], one more than the matrix has rows |
| MatrixOps.MatVec | include/matrix/MatrixOps.hpp:120-135 | corrected: one entry per row, each the row's dot product with the vector |
| MatrixOps.MatVecSquareAgrees | include/matrix/MatrixOps.hpp:120-135 | for a square matrix the written and corrected products agree |
| MatrixOps.Equal | include/matrix/MatrixOps.hpp:137-153 | matrix `==` holds iff the buffers are equal |
| MatrixOps.AbsMatrix | include/matrix/MatrixOps.hpp:232-236 | `math::abs` takes the absolute value of each element and keeps the dims |
| MatrixOps.AbsMatrixFacts | include/matrix/MatrixOps.hpp:171-177 | the result is non-negative, `abs` is idempotent, and it fixes a non-negative matrix |
| Order.Sort | include/improc/Filter.hpp:92 | the window sort yields an ascending permutation of the window |
| Order.CountsOfPermutation | include/improc/Filter.hpp:92 | sorting changes no count of elements below or at most a value |
| Order.SortedRank | include/improc/Filter.hpp:92-93 | in a sorted sequence, element k has at most k elements strictly below it and more than k at or below it |
| Order.KthSmallestRank | include/improc/Filter.hpp:92-93 | the k-th smallest has at most k elements strictly below it and more than k at or below it |
| Order.KthSmallestMember | include/improc/Filter.hpp:92-93 | the k-th smallest is an element, lying between the minimum and the maximum |
| Order.KthSmallestConstant | include/improc/Filter.hpp:92-93 | the k-th smallest of a constant sequence is the constant |
| Statistics.Column | include/matrix/Statistics.hpp:52-54 | the pixel column holds frame f's value at (i, j) in place f |
| Statistics.Median | include/matrix/Statistics.hpp:45-63 | the output is half the size in both dims, and output pixel (a, b) is the median of the frames' values at (2a, 2b) |
| Statistics.MedianRow | include/matrix/Statistics.hpp:51-59 | one output row gets the per-pixel medians; all other rows are unchanged |
| Statistics.PixelMedianRank | include/matrix/Statistics.hpp:55-58 | at most N/2 frame values lie below the median and more than N/2 lie at or below it |
| Statistics.PixelMedianMember | include/matrix/Statistics.hpp:52-58 | the median is one of the frames' values |
| Statistics.PixelMedianBetween | include/matrix/Statistics.hpp:55-58 | the median lies within any bounds that hold for all frames |
| Statistics.PixelMedianConstant | include/matrix/Statistics.hpp:52-58 | identical frames (such as a single frame) give the frame subsampled by two |
| Filter.Thresholded | include/improc/Filter.hpp:112-116 | the output keeps the dims, and each pixel is hi when at least the threshold and lo otherwise |
| Filter.ThresholdBinary | include/improc/Filter.hpp:101-117 | `std::invalid_argument` exactly when the threshold lies outside [lo, hi]; otherwise the thresholded image |
| Filter.ThresholdedBinary | include/improc/Filter.hpp:112-116 | every output pixel is lo or hi, and with lo < hi it is hi iff the input pixel reaches the threshold |
| Filter.ThresholdedIdempotent | include/improc/Filter.hpp:112-116 | thresholding again at a threshold in (lo, hi] changes nothing |
| Filter.NonlinearKthFilter | include/improc/Filter.hpp:76-98 | the output keeps the dims, and pixel (i, j) is the k-th smallest value of the width x height window around it |
| Filter.KthRow | include/improc/Filter.hpp:90-94 | one output row gets the window k-th values; all other rows are unchanged |
| Filter.WindowSize | include/improc/Filter.hpp:82-91 | for odd sides the window of half-sizes height/2, width/2 has width * height values |
| Filter.KthOfWindowRank | include/improc/Filter.hpp:88-93 | the output pixel has at most k window values below it and more than k at or below it |
| Filter.KthOfWindowFromImage | include/improc/Filter.hpp:91-93 | the output pixel is a value of its window and so of the image |
| Filter.KthOfWindowConstant | include/improc/Filter.hpp:91-93 | the filter fixes a constant image |
| Improc.NonlinearKthFilter | include/improc/Improc.hpp:128-150 | the improc copy of the k-th filter computes the same window k-th values |
| Improc.MedianFilterIsMedian | include/improc/Improc.hpp:141-147 | with k = (w*h)/2 the output pixel is a median of its window: at most half the values lie below it and more than half lie at or below it |
| Improc.MedianFilterFixedPoint | include/improc/Improc.hpp:141-147 | the median filter leaves a constant image unchanged |
| Morphology.Rectangle | include/improc/Morphology.hpp:20-24 | `rectangle(w, h)` for odd sides is an all-ones element of h rows and w columns |
| Morphology.WindowMatchesElement | include/improc/Morphology.hpp:34-38 | the window an odd element reads has one value per element cell |
| Morphology.Eroded | include/improc/Morphology.hpp:28-55 | the erosion keeps the dims, and a pixel is max when every set element cell sees a non-zero window value, and 0 otherwise |
| Morphology.Dilated | include/improc/Morphology.hpp:57-85 | the dilation keeps the dims, and a pixel is max when some set element cell sees a non-zero window value, and 0 otherwise |
| Morphology.Erode | include/improc/Morphology.hpp:28-55 | with the corrected guard `ElementOk` (both element dims odd), the nested loops with the early break compute the erosion |
| Morphology.Dilate | include/improc/Morphology.hpp:57-85 | with the corrected guard `ElementOk` (both element dims odd), the nested loops with the early break compute the dilation |
| Morphology.Open | include/improc/Morphology.hpp:87-91 | opening is the dilation of the erosion |
| Morphology.Close | include/improc/Morphology.hpp:93-97 | closing is the erosion of the dilation |
| Morphology.ErodedDilatedBinary | include/improc/Morphology.hpp:28-85 | erosion and dilation yield only 0 and max |
| Morphology.CentreAligned | include/improc/Morphology.hpp:34-43 | the element's centre cell meets the window's centre, which is the pixel itself |
| Morphology.ErodeShrinks | include/improc/Morphology.hpp:41-50 | with the centre cell set, erosion sets only pixels that were set |
| Morphology.DilateGrows | include/improc/Morphology.hpp:71-80 | with the centre cell set, dilation keeps every set pixel set |
| Morphology.DilateOfZero | include/improc/Morphology.hpp:71-80 | dilating a blank image gives a blank image |
| Morphology.ErodeOfFull | include/improc/Morphology.hpp:41-50 | eroding an image that is non-zero everywhere gives max everywhere |
| Morphology.RectangleWindows | include/improc/Morphology.hpp:20-80 | with a rectangle element, erosion is max iff the whole window is non-zero, and dilation is max iff some window value is non-zero |
| Morphology.WrittenGuard | include/improc/Morphology.hpp:31-32 | the assertion as written tests the rows and the element's second data value, and is undefined on an element with fewer than two cells |
| Morphology.WrittenGuardAdmitsEvenWidth | include/improc/Morphology.hpp:31-38 | a 1 x 2 all-ones element passes the written assertion, yet its window has 3 values for 2 element cells |
| Morphology.ElementOkIffWindowFits | include/improc/Morphology.hpp:31-35 | the corrected guard (both dims odd) holds iff the window of half-sizes dims/2 has the element's shape |
| Label.Component.constructor | include/improc/Label.hpp:24 | a new component has mass 0 and no indices |
| Label.Component.PushBack | include/improc/Label.hpp:26-36 | `push_back` appends the pixel and adds one to the mass |
| Label.TotalMassCountsPixels | include/improc/Label.hpp:124-128 | when each mass counts its blob's pixels, `total_mass` counts all listed pixels |
| Label.TotalMassAppend | include/improc/Label.hpp:124-128 | `total_mass` of a concatenation is the sum of the parts |
| Label.DistinctFlatUnique | include/improc/Label.hpp:87-109 | when no pixel is listed twice, a pixel belongs to at most one component |
| Label.VisitNeighbours | include/improc/Label.hpp:98-111 | queues each not-yet-labelled in-range 8-neighbour once and marks it labelled, so that afterwards every neighbour is labelled |
| Label.Flood | include/improc/Label.hpp:93-112 | the queue loop yields distinct foreground pixels not in earlier components, and mass counts them; every neighbour of them is labelled, and the component is empty iff the seed queued nothing |
| Label.Dequeue | include/improc/Label.hpp:93-112 | one dequeue step pushes the pixel and keeps the flood invariant |
| Label.Grow | include/improc/Label.hpp:73-116 | a new component grows from a seed until it is closed under foreground adjacency |
| Label.SeedBlob | include/improc/Label.hpp:77-96 | the grown blob is well-formed; it contains the seed when the seed has a foreground neighbour and is empty when the seed is isolated |
| Label.SeedStep | include/improc/Label.hpp:73-115 | adding the grown blob keeps the labelling invariant |
| Label.LabelSeed | include/improc/Label.hpp:68-115 | labelling one unlabelled pixel keeps the invariant and the raster-scan progress |
| Label.ScanRow | include/improc/Label.hpp:61-118 | scanning one row keeps the invariant and advances the scan |
| Label.Finish | include/improc/Label.hpp:60-121 | after the scan the components form a labelling of the image |
| Label.Separated | include/improc/Label.hpp:87-109 | pixels of different components are never adjacent |
| Label.ConnectedComponents | include/improc/Label.hpp:51-122 | N4 throws `runtime_error("not implemented")` exactly when some pixel is foreground and returns no components otherwise; N8 returns a labelling: the masses count the pixels, no pixel is listed twice, only foreground pixels are listed, every foreground pixel with a foreground neighbour is listed, pixels of different components are never adjacent, and there is an empty component iff some foreground pixel is isolated |
| Label.LabelledForeground | include/improc/Label.hpp:55-88 | only foreground pixels appear in components |
| Label.EmptyImageNoComponents | include/improc/Label.hpp:55-66 | an all-background image has no components |
| Label.IsolatedPixelMassZero | include/improc/Label.hpp:77-96 | an isolated foreground pixel is not listed, and it produces a component of mass 0 |
| Histogram.Histo | include/improc/Histogram.hpp:17-21 | bin v counts the pixels equal to v, over 256 bins |
| Histogram.Hist | include/improc/Histogram.hpp:14-23 | the loop produces 256 bins, bin v counting the pixels of value v |
| Histogram.HistTotal | include/improc/Histogram.hpp:19-21 | the bins sum to the pixel count |
| Histogram.Cdf | include/improc/Histogram.hpp:26-39 | entry i is the number of pixels with value at most i |
| Histogram.CdfMonotone | include/improc/Histogram.hpp:31-36 | the cdf is non-decreasing |
| Histogram.CdfLast | include/improc/Histogram.hpp:31-36 | the last cdf entry is the pixel count |
| Histogram.CdfOfPresentValue | include/improc/Histogram.hpp:31-36 | the cdf is positive at every value present in the image |
| Histogram.CdfMin | include/improc/Histogram.hpp:47-54 | `cdf_min` is 0 iff the cdf is all zero, and otherwise the first non-zero entry |
| Histogram.FirstNonzeroUnique | include/improc/Histogram.hpp:47-54 | that characterisation picks out exactly the first non-zero entry |
| Histogram.EqualizedTable | include/improc/Histogram.hpp:55-65 | the table is 0 where the cdf is 0 and the scaling formula elsewhere |
| Histogram.Lookup | include/improc/Histogram.hpp:67-71 | each output pixel is the table entry of its input value, stored as uint8 |
| Histogram.EqualizeHist | include/improc/Histogram.hpp:41-74 | the output keeps the dims, and each pixel is the formula applied to the cdf at its value, the first non-zero cdf entry and the pixel count, modulo 256 |
| Decimal.Digits | include/io/NetpbmIOBase.hpp:130 | `std::to_string` of a non-negative value is a non-empty string of decimal digits |
| NetpbmHeader.Extract | src/io/NetpbmIOBase.cpp:12-16 | `stream >> word` skips whitespace and takes a maximal non-space token; at end of input the word is unchanged |
| NetpbmHeader.SkipComments | src/io/NetpbmIOBase.cpp:17-20 | the comment loop ends on a word that does not start with `#`, or loops forever when a `#` word is followed by end of input |
| NetpbmHeader.Stoul | src/io/NetpbmIOBase.cpp:22 | `stoul` returns at most `ULONG_MAX`, and otherwise throws `invalid_argument` or `out_of_range` |
| NetpbmHeader.StoulOfDigits | src/io/NetpbmIOBase.cpp:22 | `stoul` reads back the digits of n, whatever follows them |
| NetpbmHeader.StoulRejects | src/io/NetpbmIOBase.cpp:22 | an empty word, a `#` or a lone sign is `invalid_argument` |
| NetpbmHeader.Int32 | src/io/NetpbmIOBase.cpp:22 | the int32 cast lies in the int32 range, agrees modulo 2^32 and keeps small values |
| NetpbmHeader.FieldSpec | src/io/PgmIO.cpp:37-43 | a header field is a non-comment word whose value is at most `ULONG_MAX` |
| NetpbmHeader.ReadField | src/io/PgmIO.cpp:37-43 | the skip-comments-then-stoul loop computes the field |
| NetpbmHeader.ProcessHeader | src/io/PgmIO.cpp:28-62 | `process_header` computes the header: the magic is discarded and width, height, maxval are read in order and returned as (height, width, maxval) |
| NetpbmHeader.ProcessHeaderInt32 | src/io/NetpbmIOBase.cpp:7-41 | the int32 variant fails exactly when the size_t one does, and returns the three fields cast to int32 |
| NetpbmHeader.HeaderSpecSteps | src/io/PgmIO.cpp:31-61 | the header is the three successive fields, width first, returned as (height, width, maxval) |
| NetpbmHeader.HeaderRoundTrip | include/io/NetpbmIOBase.hpp:123-125 | a written header `magic\nW H\nmaxval\n` parses back to (H, W, maxval), leaving the final newline unread |
| NetpbmHeader.CommentLineSkipped | src/io/NetpbmIOBase.cpp:17-20 | a `#` comment line before a field is skipped through its newline |
| NetpbmHeader.FieldOfDigits | src/io/PgmIO.cpp:37-43 | a field written as digits followed by whitespace reads back as its value |
| NetpbmIO.PgmType | src/io/PgmIO.cpp:9-25 | an unopenable file is `IOException`; otherwise P5 is binary, P2 ascii and anything else unknown |
| NetpbmIO.PpmType | src/io/PpmIO.cpp:9-25 | an unopenable file is `NetpbmIOException`; otherwise P6 is binary, P3 ascii and anything else unknown |
| NetpbmIO.MagicClassified | src/io/PgmIO.cpp:16-24 | the classification depends only on the first whitespace-delimited word |
| NetpbmIO.WriteRow | include/io/NetpbmIOBase.hpp:128-131 | one row is written as each value followed by a space |
| NetpbmIO.WriteAscii | include/io/NetpbmIOBase.hpp:113-134 | an unopenable file is an error; otherwise the P2 header with the type's maximum, then each row's values, each followed by a space, and a newline after each row |
| NetpbmIO.Narrow | include/io/NetpbmIOBase.hpp:86 | `T(stoul(..))` yields a value of T, and keeps values that fit |
| NetpbmIO.AsciiValues | include/io/NetpbmIOBase.hpp:84-87 | reading n pixel words yields n values or the first `stoul` error |
| NetpbmIO.AsciiStepFails | include/io/NetpbmIOBase.hpp:85-86 | a word `stoul` rejects ends the read with its error |
| NetpbmIO.AsciiStepReads | include/io/NetpbmIOBase.hpp:85-86 | an accepted word contributes its narrowed value, and reading goes on after it |
| NetpbmIO.ReadAsciiSpec | include/io/NetpbmIOBase.hpp:70-90 | an ascii read that succeeds yields a well-formed height x width matrix |
| NetpbmIO.ReadAscii | include/io/NetpbmIOBase.hpp:70-90 | the open check, the header and the pixel loop compute the ascii read |
| NetpbmIO.ReadValues | include/io/NetpbmIOBase.hpp:83-87 | the pixel loop computes the sequence of pixel words read |
| NetpbmIO.ReadToken | include/io/NetpbmIOBase.hpp:85-86 | one `stream >> pixval` and `stoul` step, as the read sequence unfolds |
| NetpbmIO.BodyReadBack | include/io/NetpbmIOBase.hpp:82-87 | the body `write_ascii` prints reads back as the matrix's values |
| NetpbmIO.AsciiRoundTrip | include/io/NetpbmIOBase.hpp:70-134 | reading back what `write_ascii` wrote gives the original matrix, for values that fit the type |
| NetpbmIO.RawBytes | include/io/NetpbmIOBase.hpp:110 | the raw body has one byte per element, holding the element's value |
| NetpbmIO.WriteBinary | include/io/NetpbmIOBase.hpp:93-111 | an unopenable file is an error; otherwise the P5 header followed by one byte per element |
| NetpbmIO.ReadBytes | include/io/NetpbmIOBase.hpp:65 | `stream.read` fills n elements, leaving the matrix's prior contents where the file runs short |
| NetpbmIO.SkipRasterSeparator | include/io/NetpbmIOBase.hpp:57-65 | the corrected read drops exactly one whitespace byte after maxval |
| NetpbmIO.ReadBinarySpec | include/io/NetpbmIOBase.hpp:47-67 | as written: an unopenable file is an error, maxval above the type's maximum fails the "wrong type for matrix" assertion, and otherwise the raster is read starting at the byte after maxval |
| NetpbmIO.BinaryHeader | include/io/NetpbmIOBase.hpp:104-106 | the written binary header parses back to the dims and the type's maximum, leaving the newline and the raster unread |
| NetpbmIO.BinaryReadAsWritten | include/io/NetpbmIOBase.hpp:57-65 | as written, reading back a binary file yields a newline byte followed by all but the last pixel |
| NetpbmIO.BinaryReadAsWrittenExample | include/io/NetpbmIOBase.hpp:57-65 | a 1 x 1 image of value 0 reads back as 10 |
| NetpbmIO.ReadBinary | include/io/NetpbmIOBase.hpp:47-67 | corrected: a binary read that succeeds yields a well-formed height x width matrix |
| NetpbmIO.ReadBinaryOf | include/io/NetpbmIOBase.hpp:57-65 | the corrected read takes the raster after one separator byte |
| NetpbmIO.BinaryRoundTrip | include/io/NetpbmIOBase.hpp:48-111 | with the corrected read, reading back what `write_binary` wrote gives the original matrix |
| NetpbmIO.PgmRead | include/io/PGMIO.hpp:46-58 | as written, `PGMIO::read` dispatches on the magic: `read_binary` as written, `read_ascii`, or `IOException` for an unknown type or an unopenable file |
| NetpbmIO.PgmReadIntended | include/io/PGMIO.hpp:46-58 | corrected: the same dispatch, with the binary case going to the corrected `ReadBinary` and every other case as `PgmRead` |
| NetpbmIO.PgmWrite | include/io/PGMIO.hpp:69-85 | `PGMIO::write` writes ascii or binary as requested and throws for an unknown type |
| NetpbmIO.StartsWithMagic | include/io/PGMIO.hpp:153-155 | a written file's first word is its magic |
| NetpbmIO.PgmAsciiRoundTrip | include/io/PGMIO.hpp:119-183 | `read` of an ascii `write` gives back the matrix |
| NetpbmIO.PgmBinaryReadAsWritten | include/io/PGMIO.hpp:96-116 | as written, `read` of a binary `write` returns a newline byte followed by all but the last pixel |
| NetpbmIO.PgmBinaryRoundTrip | include/io/PGMIO.hpp:96-160 | corrected: `read` of a binary `write` gives back the matrix |
| BmpIO.ReadSpec | src/io/BmpIO.cpp:13-65 | an unopenable file is `IOException` with the file name; otherwise a biHeight x biWidth matrix |
| BmpIO.Read | src/io/BmpIO.cpp:13-65 | the bottom-up row-copy loop computes the BMP read |
| BmpIO.CopyRow | src/io/BmpIO.cpp:57-61 | `std::copy` puts w bytes of the file at the row's place and changes nothing else |
| BmpIO.CopyStoredRow | src/io/BmpIO.cpp:56-62 | one iteration extends the top-down image by the next stored row |
| BmpIO.TopDownAt | src/io/BmpIO.cpp:56-62 | image row h-1-r, column c, is file byte `off + r*w + c` |
| BmpIO.RowReversal | src/io/BmpIO.cpp:50-62 | pixel (H-1-i, j) of the image is byte `bfOffBits + i*biWidth + j` of the file: rows are stored bottom-up without padding |
| PngIO.Unpack | src/io/PngIO.cpp:25-29 | decoding groups the raw bytes into one pixel per three bytes |
| PngIO.Pack | src/io/PngIO.cpp:40-45 | packing writes channel c of pixel i at byte 3i + c |
| PngIO.ReadSpec | src/io/PngIO.cpp:13-31 | a decoder error is `IOException("could not load png file")`; otherwise a height x width matrix of RGB pixels |
| PngIO.Read | src/io/PngIO.cpp:13-31 | the pixel loop computes the PNG read |
| PngIO.PackPixels | src/io/PngIO.cpp:40-45 | the push_back loop computes the packed bytes |
| PngIO.WriteSpec | src/io/PngIO.cpp:38-52 | an encoder error is `IOException("could not save png")`; otherwise the encoder gets the packed bytes with width = cols and height = rows |
| PngIO.Write | src/io/PngIO.cpp:38-52 | the packing loop and the encoder call compute the PNG write |
| PngIO.UnpackPack | src/io/PngIO.cpp:25-45 | unpacking packed pixels gives the pixels back |
| PngIO.PackUnpack | src/io/PngIO.cpp:25-45 | packing unpacked bytes gives the bytes back |
| PngIO.WriteReadRoundTrip | src/io/PngIO.cpp:13-52 | decoding what was encoded gives the original matrix |
| ImageIO.LastDot | include/io/ImageIO.hpp:66 | `rfind('.')` is the position of the last dot, or none |
| ImageIO.FileTypeOf | include/io/ImageIO.hpp:64-80 | a name without a dot is `IOException("Bad file path: ...")`; otherwise the type of the text after the last dot |
| ImageIO.FileTypeOfSuffix | include/io/ImageIO.hpp:66-79 | the type of `stem.ext` is the type of ext |
| ImageIO.ExtensionCaseSensitive | include/io/ImageIO.hpp:70-79 | `.pgm` is PGM but `.PGM` is unknown |
| ImageIO.EmptyExtension | include/io/ImageIO.hpp:70-79 | a name ending in a dot is an unknown type |
| ImageIO.Dispatch | include/io/ImageIO.hpp:46-62 | `write` picks the codec of the extension and throws `IOException("Unknown file type: ...")` for an unknown one |
| ImageIO.Read | include/io/ImageIO.hpp:25-38 | as written: `read` always ends in an exception; with working codecs it is "Unknown file type" |
| ImageIO.ReadFallsThrough | include/io/ImageIO.hpp:28-37 | a `.bmp` file is reported unknown, and a `.pgm` read falls through into the PPM and BMP readers |
| ImageIO.ReadIntended | include/io/ImageIO.hpp:25-38 | corrected: each known extension returns its own reader's result |
| ImageIO.ReadIntendedSucceeds | include/io/ImageIO.hpp:28-37 | a readable `.pgm` file succeeds with the corrected dispatch and fails as written |
| Hw4.Normalise | hw4.py:9-35 | after the steep transpose and the swap, x1 <= x2 |
| Hw4.NormaliseSwap | hw4.py:23-27 | swapping the endpoints gives the same octant walk, with the swap flag flipped |
| Hw4.NormaliseSigns | hw4.py:15-35 | the octant walk runs along the caller's major axis, forwards unless swapped |
| Hw4.Bresenham | hw4.py:7-51 | `bresenham` returns the rasterised path, of max(\|dx\|, \|dy\|) + 1 points |
| Hw4.WalkPoints | hw4.py:37-46 | the error-term loop emits the octant walk |
| Hw4.WalkLength | hw4.py:40-42 | the loop emits one point per major-axis step |
| Hw4.WalkSteps | hw4.py:40-46 | each step moves the major coordinate by one and the minor by 0 or ystep |
| Hw4.WalkLast | hw4.py:43-46 | the error term fixes how many minor steps are taken, which fixes the last point |
| Hw4.ConstantMinor | hw4.py:43-46 | with dy = 0 the minor coordinate never changes |
| Hw4.Reversed | hw4.py:49-50 | `points.reverse()` puts element k at position n-1-k |
| Hw4.LineLength | hw4.py:15-40 | the path has max(\|dx\|, \|dy\|) + 1 points |
| Hw4.LineEndpoints | hw4.py:23-50 | the path starts at start and ends at end, also when they were swapped |
| Hw4.LineSymmetric | hw4.py:23-50 | the path from b to a is the path from a to b reversed |
| Hw4.LineDegenerate | hw4.py:40-41 | the path from a point to itself is that point |
| Hw4.LineSteps | hw4.py:34-46 | consecutive points step once along the major axis towards end, and by 0 or 1 towards end along the minor axis |
| Hw4.LineConnected | hw4.py:40-46 | consecutive points are 8-neighbours |
| Hw4.NumpyIndex | hw4.py:101 | numpy indexing: an index in [-n, n) selects a position, counting negatives from the end; any other index is an `IndexError` |
| Hw4.BuildSlice | hw4.py:98-102 | `IndexError` exactly when some line point cannot index some frame; otherwise rows 2i and 2i+1 both hold frame i's values along the line |
| Hw4.FillRows | hw4.py:100-102 | one frame's two rows are filled iff every point indexes it |
| Hw4.ToUint8 | hw4.py:71-72 | clipping to [0, 255] keeps the dims, yields bytes and keeps in-range values |
| Hw4.ToUint8Idempotent | hw4.py:71-72 | `to_uint8` of a `to_uint8` result changes nothing |
| Hw4.ToUint8Monotone | hw4.py:71-72 | `to_uint8` preserves the order of values |
| PngTest.Bresenham | examples/pngtest.cpp:177-238 | the path has max(\|dx\|, \|dy\|) + 1 points, from p1 to p2, each step moving one unit along the major axis towards p2; on a diagonal every step is diagonal |
| PngTest.XMajor | examples/pngtest.cpp:205-219 | the x-major loop emits dx + 1 points from (x0, y0) to (x0 ± dx, y0 ± dy), one x step each |
| PngTest.YMajor | examples/pngtest.cpp:220-235 | the y-major loop emits dy + 1 points to the far endpoint, one y step each and diagonal when dx = dy |
| PngTest.MinorCount | examples/pngtest.cpp:205-219 | the error-term bounds force the minor axis to move exactly dy times over dx steps |
| PngTest.BuildSlice | examples/pngtest.cpp:59-71 | slice rows 2i and 2i+1 hold thresholded frame i along the line, with (x, y) read as column and row |
| PngTest.OddKernelSize | examples/pngtest.cpp:77-80 | the median kernel size is odd: the truncated size, or one more when it is even |
| PngTest.HeaviestAtLeastAverage | include/improc/Label.hpp:124-133 | some blob's mass is at least `average_mass` |
| PngTest.PartitionBlobs | examples/pngtest.cpp:95-100 | `std::partition` splits the blobs, as a permutation, into those at or over the cutoff and those under it |
| PngTest.LargeNonEmpty | examples/pngtest.cpp:93-100 | with the cutoff at 0.2 times the average mass, at least one blob is large |
| PngTest.EraseBlobs | examples/pngtest.cpp:103-107 | the small blobs' pixels become 0 and every other pixel is unchanged |
| PngTest.EraseIndices | examples/pngtest.cpp:104-106 | one blob's pixels become 0 and every other pixel is unchanged |
| PngTest.CarCount | examples/pngtest.cpp:117-122 | the count is the number of large blobs plus those over 1.5 times their average mass, so it lies in [n, 2n] |
| PngTest.NotAllHeavy | examples/pngtest.cpp:117-122 | not every large blob exceeds 1.5 times the average, so the count is below 2n |

## Left out

- Floating point:
  - the equalisation scaling formula is a function parameter of `EqualizedTable` and `EqualizeHist`;
  - the pngtest cutoffs (0.2 and 1.5 times the average mass) are exact reals;
  - `int32_t(0.02 * points.size())` is an input of `OddKernelSize`;
  - the Gaussian blur, the colour conversion and `average` in the drivers are not modelled.
- Statistics `mode` is not modelled. It works on two-channel pixels (`m[i][c]`), and multi-channel pixel types are not part of this model.
- `as_string` of the matrix and vector classes is not modelled.
- The scalar-first `operator+` overload for vectors calls itself. It is not modelled because it never returns.
- lodepng is not part of this model:
  - decode and encode results are parameters;
  - `|raw| == 3 * width * height` is a precondition, the decoder's own contract.
- Streams and files are strings, byte sequences or `None`. Partial reads and stream failure flags after the header are not modelled.
- BmpIO.ReadSpec: requires the file to hold a full header and biWidth x biHeight raster bytes (`Readable`). The source reads past the buffer otherwise, so that case is not modelled.
- NetpbmIO.RawBytes: the binary raster is modelled for one-byte element types only (maxval at most 255). Multi-byte elements are not modelled.
- Integer wrap-around of `int32_t` and `size_t` arithmetic is not modelled, except the `stoul` range and the `int32_t` casts of the header. Loop counters and sizes are unbounded.
- Label.ConnectedComponents: the contract does not state that each component is 8-connected. It therefore does not prove that the number of components equals the number of foreground regions, and it does not prove that components appear in raster order. It does prove that regions never straddle two components.
- `calculate_center_of_mass` is not modelled. It is a floating-point average of the component's indices.
- Move and copy constructors of `MatrixX`, iterators and `bytes()` plumbing are not modelled beyond `VectorBase.Vector.Move` and `MoveAssign`.
- The drivers' `main` functions and their argument parsing are not modelled. Neither are printing or the OpenCV calls (`imread`, `imshow`, `GaussianBlur`).
- Grid.Patch: `MatrixX::patch` is not part of this model. The window uses replicated borders, and the lemmas rely only on "window values come from the image" and "the centre is the pixel itself".
- Source assertions other than "wrong type for matrix" are preconditions, not failures. A call that breaks one aborts the program, or is undefined when assertions are compiled out, and the model describes neither. They are:
  - the size checks of `MatrixOps.Add`, `Sub`, `MatMul`, `MatVec` and `Equal`;
  - the size checks of `VectorOps.Add`, `Sub` and `Equal`;
  - the odd-window and k-range checks (`Filter.KthArgs`, `Morphology.ElementOk`, the odd sides of the rectangle kernel);
  - the non-empty checks of the vector storage and the divide-by-zero check of `VectorBase.Vector.DivAssign`.
- Morphology.Erode and Morphology.Dilate: require the corrected guard `ElementOk` (both dims odd), not the assertion at Morphology.hpp lines 31-32 and 61-62. That assertion tests `element[1] % 2`, so a 3 x 1 element [1, 0, 1] aborts in the source but is eroded and dilated here.
- MatrixOps.MatVecAsWritten: the entries past `m.rows` are 0. Whether the source's result vector is zero-filled depends on `Vector`'s storage: the static wrapper zero-fills, the dynamic one leaves the buffer uninitialised. `Vector`'s definition for this case is not part of this model.
- Hw4.ToUint8: takes integer matrices. In hw4.py, `to_uint8` is applied to `np.abs(i - bg)`, which is floating point because `bg` is a median; `astype(np.uint8)` then also truncates the fraction. The float values and the truncation are not modelled.
- PngTest.BuildSlice: requires every line point to be inside every frame. pngtest.cpp lines 68-69 index without a check, so an out-of-range point is undefined behaviour there, and that case is not modelled.
- NetpbmIO.PgmRead: binary files go to `read_binary` as written, as in the source. The round trip holds only for `PgmReadIntended`.
- Interpolators, transforms and the kernel constructors other than `rectangle` are outside the core.

## Findings

| source | as written | input that shows it | evidently intended | confidence | as-written member | corrected member |
|---|---|---|---|---|---|---|
| include/improc/Morphology.hpp:31-32 | the assertion tests `element[1] % 2`, the second data value, not the column count | a 1 x 2 all-ones element passes, and its 3-wide window does not match the element | `element.dims[1] % 2 == 1` | not executed | Morphology.WrittenGuardAdmitsEvenWidth | Morphology.ElementOkIffWindowFits |
| include/matrix/MatrixOps.hpp:125-126 | the mat·vec result has the vector's length, not the row count | a 1 x 2 matrix times a length-2 vector gives 2 entries | one entry per row | not executed | MatrixOps.MatVecLengthMismatch | MatrixOps.MatVec |
| include/matrix/Matrix.hpp:68-71 | `calculate_index` weights index i by `dims[i + 1]` only, which is not row-major for three or more dims | dims [2,2,2]: [0,1,0] and [1,0,0] both map to 2 | row-major offsets, distinct for distinct indices | not executed | NdMatrix.WrittenIndexCollides | NdMatrix.RowMajorInjective |
| include/io/NetpbmIOBase.hpp:57-65 | `read_binary` starts the raster at the newline that follows maxval | a 1 x 1 P5 image of value 0 reads back as 10 | skip the single whitespace byte after maxval | not executed | NetpbmIO.BinaryReadAsWrittenExample | NetpbmIO.BinaryRoundTrip |
| include/io/PGMIO.hpp:96-116 | `PGMIO::read` of a P5 file uses the same raster offset, so it returns the newline after maxval as the first pixel | a 1 x 1 P5 image of value 0 reads back as 10 | skip the single whitespace byte after maxval | not executed | NetpbmIO.PgmBinaryReadAsWritten | NetpbmIO.PgmBinaryRoundTrip |
| include/io/ImageIO.hpp:28-37 | the switch in `read` has no `return` and no `break`, so every case falls through to the unknown-type throw | reading `a.pgm` with working codecs throws "Unknown file type" | return the selected reader's result | not executed | ImageIO.ReadFallsThrough | ImageIO.ReadIntendedSucceeds |
