# mua.js core, modelled and verified in Dafny

mua.js is a small reverse-mode automatic differentiation engine for JavaScript. It sits on three generations of
n-dimensional array. This project models its core in Dafny 4 and proves what that code promises. There is one Dafny
module per source file:

- **Strided arrays.** The Rust `NdArray` of `packages/ndarray` (`IndexMath`, `RustNdArray`, `RustOps`, `RustPad`,
  `RustIm2col`, `Windows`) and the generic matrix product of `packages/matops` (`Matops`, `Linalg`). Also the
  zero-copy views of `packages/ndarray-js` (`JsLib`, `JsDType`, `JsNdArray`, `JsOps`, `JsIm2col`) and the
  nested-array helpers of `packages/async-math` (`AsyncNdArray`). The modules cover strides, offsets, axis
  reordering, reshape with an inferred axis, slicing, padding, im2col windows and the elementwise operations.
- **Convolution geometry.** The output sizes of `packages/common` (`ConvGeometry`), the `async-math` 1-D convolution
  (`AsyncConv1d`), and the tensor convolution operators with the origin-to-window maps they record (`TensorConv1d`,
  `Conv2dMapping`, `TensorConv2d`).
- **The graph engine of `packages/tensor`.** The lazy/eager flags (`TensorMode`), the edge graph and its topological
  sort (`TensorGraph`), and the operators' compute and gradient rules (`TensorOps`). Also memoised realisation
  (`TensorValues`), the walk and sort of `computeGradient` (`TensorAutograd`), the gradient sweep
  (`TensorBackprop`), and the tensor class itself (`TensorEngine`).
- **`packages/nn`.** The NLL loss (`NnLoss`), parameter collection (`NnModule`) and the optimisers (`NnOptim`).

`Wrappers` holds the `Option`/`Result` types shared by all modules. A Rust panic or a JavaScript exception becomes a
`Failure` that carries the message.

Stateful code stays stateful:

- The tensor graph is a class, `TensorEngine.Engine`, whose node arrays are fields. Tensors are node indices.
- `Graph`, the convolution operators, the optimisers and the mode singleton are classes whose methods update their
  fields.
- Loops stay loops (`for` or `while`) with invariants, and each is proved equal to a specification function.

The properties proved about those functions include the following:

- round trips, such as reshape, permute and transpose;
- exact counts, for windows, output sizes and parameters;
- error conditions;
- the topological order of the sort;
- for each operator's gradient rule, that it is the exact derivative wherever the operator is linear (for `reshape`, of the corrected rule listed under Findings);
- for the backward pass, that every node the output depends on ends up with the sum of one gradient per use.

Element values are `real`. Shapes, strides and indices are integers.

On ties, `argmax` of `ndarray-js` returns the last maximal index. Its `reduce` keeps the later entry unless the earlier one is strictly greater (`JsOps.ArgmaxUnique`).

## Model

| member | source | states |
|---|---|---|
| IndexMath.StridesRowMajor | packages/ndarray/src/utils.rs:5-11 | the stride of the last axis is 1, each stride is the next extent times the next stride, and the first extent times the first stride is the element count |
| IndexMath.StridesSnoc | packages/ndarray/src/utils.rs:5-11 | adding a trailing axis of size s multiplies every old stride by s and gives the new axis stride 1 |
| IndexMath.StridesSuffix | packages/ndarray/src/utils.rs:9 | a suffix of the strides is the strides of the matching suffix of the shape |
| IndexMath.StridesExamples | packages/ndarray/src/utils.rs:13-17 | the strides of [1, 2, 3] are [6, 3, 1] and those of [9, 8, 7] are [56, 7, 1] |
| IndexMath.NdIdxToOffset | packages/ndarray/src/utils.rs:104-111 | fails exactly when the index and the strides differ in length; otherwise returns the sum of index times stride over the axes |
| IndexMath.OffsetConcat | packages/ndarray/src/utils.rs:107-109 | the offset of a concatenated index is the sum of the offsets of its two parts |
| IndexMath.GetIndexes | packages/ndarray/src/utils.rs:19-34 | fails exactly on an empty shape; otherwise returns the row-major enumeration of the shape's indexes |
| IndexMath.ExtendCells | packages/ndarray/src/utils.rs:23-31 | one pass of the outer loop extends every cell, in order, by each value below the next extent |
| IndexMath.FirstAxisIndexes | packages/ndarray/src/utils.rs:21 | the starting list [0], [1], … is the enumeration of the first axis alone |
| IndexMath.IndexesSnoc | packages/ndarray/src/utils.rs:22-32 | the enumeration of a shape with one more axis is the shorter enumeration with each cell extended |
| IndexMath.IndexesCount | packages/ndarray/src/utils.rs:19-34 | there are exactly as many indexes as elements (the product of the extents) |
| IndexMath.IndexesInBounds | packages/ndarray/src/utils.rs:19-34 | every enumerated index lies inside the shape |
| IndexMath.IndexesOffset | packages/ndarray/src/utils.rs:19-34 | position n of the enumeration is an in-bounds index whose row-major offset is n |
| IndexMath.IndexesComplete | packages/ndarray/src/utils.rs:19-34 | every in-bounds index occurs in the enumeration, at the position given by its offset |
| IndexMath.OffsetInjective | packages/ndarray/src/utils.rs:104-111 | two in-bounds indexes with the same row-major offset are equal |
| IndexMath.PrefixOffsetBound | packages/ndarray/src/utils.rs:104-111 | the block addressed by a prefix of an in-bounds index fits inside the array |
| IndexMath.IndexesExample | packages/ndarray/src/utils.rs:61-86 | the enumeration of [3, 2, 3] has 18 indexes and holds [0,0,0], [0,1,2], [2,0,1] and [2,1,2] at positions 0, 5, 13 and 17 |
| IndexMath.IndexesOf323 | packages/ndarray/src/utils.rs:61-86 | position 6i + 3j + k of the enumeration of [3, 2, 3] is [i, j, k] |
| IndexMath.Reorder | packages/ndarray/src/utils.rs:88-95 | fails exactly when the lengths differ or an order entry is past the end; otherwise position i takes the entry of axis order[i] |
| IndexMath.ProductReordered | packages/ndarray/src/utils.rs:88-95 | reordering a shape by a permutation keeps its element count |
| IndexMath.OffsetReordered | packages/ndarray/src/utils.rs:88-95 | reordering an index and its strides by the same permutation keeps the offset |
| IndexMath.ReorderedInBounds | packages/ndarray/src/utils.rs:88-95 | a permutation maps an in-bounds index to an in-bounds index of the reordered shape |
| IndexMath.ReorderedInjective | packages/ndarray/src/utils.rs:88-95 | two sequences with the same reordering under a permutation are equal |
| IndexMath.PermutationCovers | packages/ndarray/src/utils.rs:88-95 | n distinct axes below n cover every axis |
| IndexMath.ReorderAndOffsetExamples | packages/ndarray/src/utils.rs:97-116 | reordering [2, 4, 6] by [2, 0, 1] gives [6, 2, 4], and the offset of [1, 5, 1] under strides [3, 2, 3] is 16 |
| Matops.Matmul | packages/matops/src/ops/matmul.rs:7-29 | the loops compute exactly the specification: a failure on a rank mismatch, a rank other than 2 or an out-of-range read, otherwise the row-major product |
| Matops.MatmulSound | packages/matops/src/ops/matmul.rs:13-28 | the call panics exactly when the ranks differ, the rank is not 2, or a non-empty output reads past a buffer; otherwise entry (i, j) is row i of a dotted with column j of b |
| Linalg.MatProdAt | packages/matops/src/ops/matmul.rs:20-27 | entry i·n + j of the product is row i of a dotted with column j of b |
| Linalg.MatProdLength | packages/matops/src/ops/matmul.rs:18-19 | the product has m·n entries |
| Linalg.SumProducts | packages/matops/src/ops/matmul.rs:22-24 | the inner sum over k, accumulated in order, is row i dotted with column j |
| Linalg.MatProdPrefix | packages/matops/src/ops/matmul.rs:22-24 | the product reads only the first m·k entries of a and k·n of b |
| Linalg.MatProdExample | packages/ndarray/src/ops.rs:417 | [[1,2,3],[4,5,6]] times [[1,2],[3,4],[5,6]] is [22, 28, 49, 64] |
| RustNdArray.FromDefaults | packages/ndarray/src/ndarray.rs:20-28 | without a shape the array is one axis over the whole buffer; without strides the strides are the row-major ones, so the result is contiguous whenever the shape covers the buffer |
| RustNdArray.Arange | packages/ndarray/src/ndarray.rs:30-40 | fails exactly on a step of 0 (which `step_by` rejects); otherwise a contiguous one-axis array holding start, start + step, … below stop |
| RustNdArray.SteppedValues | packages/ndarray/src/ndarray.rs:32-35 | entry i of the range is start + i·step, every entry is below stop, and no further step fits |
| RustNdArray.Zeros | packages/ndarray/src/ndarray.rs:95-101 | a contiguous array of the requested shape whose every cell is 0 |
| RustNdArray.Ones | packages/ndarray/src/ndarray.rs:103-109 | a contiguous array of the requested shape whose every cell is 1 |
| RustNdArray.ScatterIndexes | packages/ndarray/src/ndarray.rs:117-122 | the permute loop panics on the first index whose rank differs from the strides'; otherwise it is the scatter of input offsets to output offsets over a copy of the buffer |
| RustNdArray.ScatterFacts | packages/ndarray/src/ndarray.rs:116-122 | with in-range, distinct output offsets the scatter succeeds, writes each source cell to its output offset and leaves every other cell as it was |
| RustNdArray.Permute | packages/ndarray/src/ndarray.rs:111-128 | the method computes exactly the permute specification (length assertion, reorder, strides, loop) |
| RustNdArray.PermuteMoves | packages/ndarray/src/ndarray.rs:111-128 | on a valid array and a permutation the result is contiguous with the reordered shape, and the cell at index idx lands at the reordered index |
| RustNdArray.PermuteShape | packages/ndarray/src/ndarray.rs:114-115 | the output shape is the reordered shape and the output is contiguous |
| RustNdArray.PermuteOffsets | packages/ndarray/src/ndarray.rs:117-121 | every read and write offset of the loop is inside the buffer and no two inputs are written to the same output offset |
| RustNdArray.OutOffsetInRange | packages/ndarray/src/ndarray.rs:119-120 | the output offset of an in-bounds index is below the element count |
| RustNdArray.OutOffsetInjective | packages/ndarray/src/ndarray.rs:119-120 | distinct in-bounds indexes get distinct output offsets |
| RustNdArray.Transpose | packages/ndarray/src/ndarray.rs:177-181 | transpose is permute by the reversed axes |
| RustNdArray.TransposeTwice | packages/ndarray/src/ndarray.rs:177-181 | transposing a contiguous array twice gives back its shape and buffer |
| RustNdArray.ReverseTwice | packages/ndarray/src/ndarray.rs:178-179 | reversing the axes twice is the identity |
| RustNdArray.TransposeMatrix | packages/ndarray/src/ndarray.rs:177-181 | a contiguous p × q matrix transposes to a contiguous q × p matrix whose (j, i) cell is the (i, j) cell |
| RustNdArray.TransposeExample | packages/ndarray/src/ndarray.rs:298-307 | transposing the 2 × 3 array 1…6 gives shape [3, 2], strides [2, 1] and buffer [1, 4, 2, 5, 3, 6] |
| RustNdArray.UsizeOf | packages/ndarray/src/ndarray.rs:135 | the `as usize` cast: in-range values unchanged, negative values wrapped modulo the word size |
| RustNdArray.FillProduct | packages/ndarray/src/ndarray.rs:162-171 | after filling the unknown axis with n the element count is n times the product of the known sizes |
| RustNdArray.ReshapeFixedSucceeds | packages/ndarray/src/ndarray.rs:130-175 | the corrected reshape succeeds exactly when the shape is non-empty, every entry is positive or -1, at most one is -1, and the known product equals the length (no -1) or divides it (one -1) |
| RustNdArray.ReshapeFixedSound | packages/ndarray/src/ndarray.rs:130-175 | a successful corrected reshape keeps the buffer, is contiguous, keeps every positive size and gives the -1 axis length divided by the known product |
| RustNdArray.ReshapeAgrees | packages/ndarray/src/ndarray.rs:130-175 | when the first requested size is positive and no product overflows, the reshape as written and the corrected reshape agree |
| RustNdArray.ReshapeAgreesNonNegative | packages/ndarray/src/ndarray.rs:130-175 | on a request with no negative entry, as the tensor package's convolutions build, the reshape as written and the corrected one agree on every buffer, panics included |
| RustNdArray.ReshapeExample | packages/ndarray/src/ndarray.rs:290-296 | reshaping the 2 × 3 array to [3, -1] gives shape [3, 2] and strides [2, 1] |
| RustNdArray.ReshapeLeadingUnknown | packages/ndarray/src/ndarray.rs:149-161 | as written, [-1, 2] on six cells yields shape [0, 2], which does not cover the buffer; the corrected reshape gives [3, 2] |
| RustNdArray.ReshapeIndivisible | packages/ndarray/src/ndarray.rs:161-172 | as written, [4, -1] on six cells yields [4, 1] without a panic; the corrected reshape refuses it |
| RustNdArray.FlattenShape | packages/ndarray/src/ndarray.rs:183-185 | flatten is reshape to [len]: a contiguous one-axis view of the same buffer, and an empty buffer panics with the division by zero; the reshape as written gives the same |
| RustNdArray.SliceSelects | packages/ndarray/src/ndarray.rs:187-204 | slicing a contiguous array at a leading index gives the contiguous sub-array of the remaining axes whose cell j is the cell idx ++ j |
| RustNdArray.SliceShape | packages/ndarray/src/ndarray.rs:187-204 | the slice is the block of the buffer starting at the leading offset, with the remaining axes as its shape |
| RustNdArray.LeadBlock | packages/ndarray/src/ndarray.rs:190-197 | the leading offset is the offset of the index under the first strides, and its block fits in the buffer |
| RustNdArray.SetThenSlice | packages/ndarray/src/ndarray.rs:206-224 | after `set`, slicing at the same index gives the written value, and every cell outside the block is unchanged |
| RustNdArray.SliceThenSet | packages/ndarray/src/ndarray.rs:206-224 | writing back a slice at its own index leaves the array unchanged |
| RustNdArray.ConcatContiguous | packages/ndarray/src/ndarray.rs:336-341 | concatenating contiguous arrays of matching trailing shape adds the first extents and stays contiguous |
| RustNdArray.ConcatStacks | packages/ndarray/src/ndarray.rs:336-341 | row i of the concatenation is row i of a for i below a's first extent, and row i − a.shape[0] of b after it |
| RustNdArray.ArangeReshapeExample | packages/ndarray/src/ndarray.rs:276 | arange(0, 12) reshaped to [2, 3, 2] is the contiguous 2 × 3 × 2 array 0…11 |
| RustNdArray.SliceSetExample | packages/ndarray/src/ndarray.rs:274-288 | slice [1] of that array is 6…11 with shape [3, 2], and setting [0] to zeros gives six zeros followed by 6…11 |
| RustNdArray.ConcatExample | packages/ndarray/src/ndarray.rs:343-353 | ones([2, 3]) concatenated with zeros([2, 3]) has shape [4, 3] and six ones then six zeros |
| RustOps.Matmul | packages/ndarray/src/ops.rs:95-112 | the three loops compute exactly the matmul specification: a failure on a rank mismatch, a rank above 2 or an out-of-range read, otherwise the product |
| RustOps.MatmulSound | packages/ndarray/src/ops.rs:95-112 | a successful matmul has rank-2 operands and returns the contiguous [m, n] array whose entry (i, j) is row i of a dotted with column j of b |
| RustOps.MatmulExample | packages/ndarray/src/ops.rs:411-418 | the 2 × 3 array 1…6 times its reshape to [3, -1] has shape [2, 2] and buffer [22, 28, 49, 64] |
| RustOps.MulScalar | packages/ndarray/src/ops.rs:114-121 | the result keeps shape and strides and holds each cell times the scalar |
| RustOps.AddScalar | packages/ndarray/src/ops.rs:144-151 | the result keeps shape and strides and holds each cell plus the scalar |
| RustOps.SubScalar | packages/ndarray/src/ops.rs:162-169 | the result keeps shape and strides and holds each cell minus the scalar |
| RustOps.Relu | packages/ndarray/src/ops.rs:198-205 | the result keeps shape and strides and holds max(0, cell) for every cell |
| RustOps.Dot | packages/ndarray/src/ops.rs:123-130 | panics exactly when b is shorter than a; otherwise the cell-wise products, with a's shape and strides |
| RustOps.Sub | packages/ndarray/src/ops.rs:153-160 | panics exactly when b is shorter than a; otherwise the cell-wise differences, with a's shape and strides |
| RustOps.Add | packages/ndarray/src/ops.rs:132-142 | an empty b panics on the remainder, a length of a not a multiple of b's panics as unimplemented, otherwise cell i is a[i] + b[i mod len(b)] |
| RustOps.ScaledCompose | packages/ndarray/src/ops.rs:114-121 | scaling by x then y is scaling by x·y, and scaling by 1 changes nothing |
| RustOps.ShiftRoundTrip | packages/ndarray/src/ops.rs:144-169 | adding then subtracting the same scalar gives the buffer back, in either order |
| RustOps.AddSubRoundTrip | packages/ndarray/src/ops.rs:132-160 | for equal lengths add is the cell-wise sum, and sub of b undoes add of b |
| RustOps.CyclicSumsBlocks | packages/ndarray/src/ops.rs:138-140 | b is broadcast block by block: cell q·len(b) + v gets b[v] added |
| RustOps.ProductsCommute | packages/ndarray/src/ops.rs:123-130 | for equal lengths the cell-wise product is symmetric |
| RustOps.RectifiedLaws | packages/ndarray/src/ops.rs:198-205 | every rectified cell is non-negative, non-negative cells are kept, and relu is idempotent |
| RustOps.AddExample | packages/ndarray/src/ops.rs:403-409 | zeros([2, 2, 2]) plus arange(0, 4) gives [0, 1, 2, 3, 0, 1, 2, 3] |
| RustPad.PadX1d | packages/ndarray/src/ops.rs:305-321 | the loop computes exactly the specification: size 0 returns the array, a rank-0 shape underflows, a zero last extent panics in `chunks`, otherwise every row is framed by size pad cells |
| RustPad.PadX1dSound | packages/ndarray/src/ops.rs:305-321 | on a contiguous array the result is contiguous, only the last extent grows by 2·size, and every row is pads, the original row, pads |
| RustPad.PadX1dExample | packages/ndarray/src/ops.rs:450-455 | padding [[1, 2], [3, 4]] by 1 gives shape [2, 4] and buffer [0, 1, 2, 0, 0, 3, 4, 0] |
| RustPad.PadX1dValueExample | packages/ndarray/src/ops.rs:457-459 | padding [[1, 2, 3, 4]] by 2 with value 1 gives [1, 1, 1, 2, 3, 4, 1, 1] |
| RustPad.PadY2d | packages/ndarray/src/ops.rs:280-300 | the loop computes exactly the specification: size 0 returns the array, rank below 2 underflows, an empty block panics in `chunks`, otherwise every h × w block is framed by size rows of pads |
| RustPad.PadBlocks | packages/ndarray/src/ops.rs:285-299 | with a positive size on an array of rank 2 or more: an empty block panics in `chunks`, otherwise every block is framed by size pad rows and the shape's second-to-last extent grows by 2·size |
| RustPad.PadY2dRows | packages/ndarray/src/ops.rs:285-299 | a non-empty block gives the framed buffer, with size copies of the w-cell pad row on each side, under the grown shape |
| RustPad.PadY2dValue | packages/ndarray/src/ops.rs:285-299 | the size copies of a w-cell pad row on each side of an h × w block (`Span(h, w)` cells) are one run of `Span(size, w)` = size·w pad cells |
| RustPad.PadY2dSound | packages/ndarray/src/ops.rs:280-300 | on a contiguous array the result is contiguous, only the second-to-last extent grows by 2·size, and every block is pads, the original block, pads |
| RustPad.PadSizes | packages/ndarray/src/ops.rs:285-289 | the grown shape keeps every other extent; the buffer is q blocks of h·w cells; the framed buffer under the grown shape is contiguous and is q framed blocks |
| RustPad.FrameRows | packages/ndarray/src/ops.rs:315-319 | the chunk loop builds the framed buffer: each chunk of w cells with the pad before and after it |
| RustPad.FrameBlocks | packages/ndarray/src/ops.rs:290-298 | the block loop builds each block with size pad rows before and after it |
| RustPad.PushPads | packages/ndarray/src/ops.rs:291-293 | the inner loop appends size copies of the pad |
| RustPad.FramedLength | packages/ndarray/src/ops.rs:315-319 | framing q chunks of w cells gives q·(w + 2·len(pad)) cells |
| RustPad.FramedIsFramedRows | packages/ndarray/src/ops.rs:315-319 | cell c of framed row r is a pad cell or cell c − len(pad) of source row r |
| RustPad.RepeatFill | packages/ndarray/src/ops.rs:287-297 | n copies of a w-cell fill are one fill of `Span(n, w)` = n·w cells |
| RustPad.Padding1d | packages/ndarray/src/ops.rs:79-88 | pads the last axis when px > 0, then the second-to-last when py > 0, each with the given value, stopping at the first failure |
| RustPad.Padding1dShape | packages/ndarray/src/ops.rs:79-88 | on a contiguous non-empty matrix with both paddings positive the result is contiguous with shape [h + 2·py, w + 2·px] |
| RustIm2col.Im2col | packages/ndarray/src/ops.rs:323-401 | the function computes exactly the specification: more than two padding entries panic, padding[0] pads the last axis, the row width is the kernel's product times the last extent, then the rank-2 or rank-3 branch; other ranks are `todo!()` |
| RustIm2col.Unfold | packages/ndarray/src/ops.rs:342-400 | the part after padding dispatches on the rank as the specification does, and an empty shape fails at `last().unwrap()` |
| RustIm2col.Im2col2 | packages/ndarray/src/ops.rs:345-362 | the rank-2 branch: a zero step divides by zero, otherwise candidate windows i below len / step, kept when they end inside the buffer, with shape [count, chunk] |
| RustIm2col.CutSlices | packages/ndarray/src/ops.rs:350-360 | the loop returns the concatenated fitting windows and their count |
| RustIm2col.SlicesLength | packages/ndarray/src/ops.rs:350-360 | the rank-2 output holds count·chunk cells |
| RustIm2col.SlicesAt | packages/ndarray/src/ops.rs:350-360 | cell u of output row t is buffer cell t·step + u |
| RustIm2col.Im2col3 | packages/ndarray/src/ops.rs:363-398 | the rank-3 branch: a zero stride divides by zero, a short kernel panics on indexing, an unaddressable window panics in the offset computation, otherwise the fitting windows in row-major origin order |
| RustIm2col.ScanColumns | packages/ndarray/src/ops.rs:373-395 | the column loop of one row origin returns the windows it emits and their count, or the panic it hits |
| RustIm2col.Im2col1dWindows | packages/ndarray/src/ops.rs:345-362 | with a stride at most the kernel and a kernel at most the length, the rank-2 branch gives (N − k)/s + 1 rows, row t being the k·C cells from row t·s |
| RustIm2col.Im2col2dWindows | packages/ndarray/src/ops.rs:363-398 | on a contiguous [H, W, C] image the rank-3 branch is contiguous with one row per fitting origin, each row the kh × kw window at that origin |
| RustIm2col.Im2col2DropsLastWindow | packages/ndarray/src/ops.rs:350 | as written, five one-channel rows with kernel 1 and stride 2 give 2 windows although the window at row 4 fits and (5 − 1)/2 + 1 = 3 are expected |
| RustIm2col.Im2col2FixedWindows | packages/ndarray/src/ops.rs:345-362 | with the loop bound corrected to (len − chunk)/step + 1, every kernel no longer than the input gives (N − k)/s + 1 rows, row t the window from row t·s, whatever the stride |
| RustIm2col.Im2colSequenceExample | packages/ndarray/src/ops.rs:462-485 | arange(15) as [5, 3] with kernel [3] gives shape [3, 9] for stride 1 and [2, 9] for stride 2, row t holding 3·s·t … 3·s·t + 8 |
| RustIm2col.Im2colImageExample | packages/ndarray/src/ops.rs:497-503 | a contiguous [28, 28, 3] image with kernel [3, 3] gives shape [676, 27] for stride 1 and [169, 27] for stride 2 |
| Windows.CountPrefix | packages/ndarray/src/ops.rs:350-354 | the candidates that fit form a prefix: at most n are counted, all of them when the last fits, and every counted candidate fits |
| Windows.CountClosed | packages/ndarray/src/ops.rs:368-376 | when the loop reaches past the last fitting start, exactly (len − k)/step + 1 candidates fit |
| Windows.Window | packages/ndarray/src/ops.rs:379-389 | the kernel-row loop fails at the first offset exactly when the grid is not addressable; otherwise it returns the concatenated kernel rows of the window |
| Windows.WindowCells | packages/ndarray/src/ops.rs:380-389 | on a contiguous image a window inside H × W is kh rows of kw·C cells, each read from image row r + k at column col |
| Windows.EmittedInside | packages/ndarray/src/ops.rs:375-392 | along a row origin inside the image, a window is emitted exactly when its columns lie inside W |
| Windows.ColumnsCounted | packages/ndarray/src/ops.rs:373-395 | the windows emitted along one row origin are the column candidates that fit in W, chunk cells each |
| Windows.ColumnWindowAt | packages/ndarray/src/ops.rs:373-395 | output row b of one row origin is the window at column b·stride |
| Windows.RowsCounted | packages/ndarray/src/ops.rs:368-396 | the emitted windows are the origins whose rows and columns both fit: the product of the two counts |
| Windows.RowWindowAt | packages/ndarray/src/ops.rs:368-396 | the windows come in row-major origin order: origin (a, b) is output row a·cc + b |
| JsDType.ArrayConstructor | packages/ndarray-js/src/dtype.ts:17-29 | every dtype has a typed-array class; `bool` and `uint8` are exactly the dtypes stored as `Uint8Array` |
| JsDType.GetDType | packages/ndarray-js/src/dtype.ts:45-67 | fails with "Unknown array type" exactly on a class outside the table; never answers `bool` |
| JsDType.GetDTypeInverts | packages/ndarray-js/src/dtype.ts:17-67 | reading back the class of a dtype's buffer gives the dtype itself, except that a `bool` buffer reads back as `uint8` |
| JsDType.ArrayConstructorShared | packages/ndarray-js/src/dtype.ts:17-29 | two dtypes share a class exactly when they are equal or both in {uint8, bool} |
| JsDType.ArrayConstructorOnto | packages/ndarray-js/src/dtype.ts:17-67 | every listed class is produced by the dtype `getDType` reports for it |
| JsLib.ArrayShape | packages/ndarray-js/src/lib.ts:1-8 | a plain number has the empty shape, and only a plain number does |
| JsLib.GetArrayShape | packages/ndarray-js/src/lib.ts:1-8 | the loop that follows element 0 returns the recursive shape of the array |
| JsLib.Inner | packages/ndarray-js/src/lib.ts:3-6 | one loop step records the current length in front of the shape of `array[0]` |
| JsLib.ArrayShapeOfRegular | packages/ndarray-js/src/lib.ts:1-8 | on a regular array with non-empty inner levels the reported shape is the array's shape |
| JsLib.RaggedNotDetected | packages/ndarray-js/src/lib.ts:3-6 | a ragged array [[1, 2], [3]] is reported as shape [2, 2] although it does not conform to it |
| JsLib.FlatLength | packages/ndarray-js/src/ndarray.ts:31-34 | a regular array of shape s has Product(s) leaves, the size of the buffer the constructor allocates |
| JsLib.FlattenOnceShallow | packages/ndarray-js/src/ndarray.ts:32-34 | for one or two nesting levels the one-level `flatten` already yields the numeric leaves |
| JsLib.LeavesOfRow | packages/ndarray-js/src/ndarray.ts:32-34 | a one-level array of numbers flattens to its own elements |
| JsLib.GetStridesExamples | packages/ndarray-js/test/ndarray.test.ts:18-26 | `getStrides` of [4, 5] is [5, 1] and of [4, 5, 6] is [30, 6, 1] |
| JsNdArray.Fill | packages/ndarray-js/src/ndarray.ts:31-34 | the zeroed buffer keeps the length the shape asks for, whatever the number of values written into it |
| JsNdArray.New | packages/ndarray-js/src/ndarray.ts:17-42 | the constructor's copy loop, with the nested branch corrected to store every leaf (see Findings), builds the view the constructor specification describes, on both the nested and the typed-array branch |
| JsNdArray.NewNested | packages/ndarray-js/src/ndarray.ts:28-35 | a regular nested array of rank 1 or more (given no options) yields its leaves in row-major order, its own shape and a contiguous view |
| JsNdArray.NewTyped | packages/ndarray-js/src/ndarray.ts:36-41 | a typed array is adopted as it is: shape [length], stride [1], dtype read from its class |
| JsNdArray.ToNumber | packages/ndarray-js/src/ndarray.ts:33-34 | a number written into a typed-array cell is stored unchanged |
| JsNdArray.StoredCells | packages/ndarray-js/src/ndarray.ts:31-34 | the constructor as written writes one cell per element of the one-level flatten into a buffer of the shape's size |
| JsNdArray.StoredCellsShallow | packages/ndarray-js/src/ndarray.ts:31-34 | on one- and two-level arrays the one-level flatten stores exactly the leaves, cell by cell |
| JsNdArray.StoredCellsRank3 | packages/ndarray-js/test/ndarray.test.ts:36-40 | on the rank-3 input of the test the one-level flatten stores four rows (not numbers) and leaves eight zeros, while the leaves-in-order constructor stores the twelve numbers |
| JsNdArray.ValueOf | packages/ndarray-js/src/ndarray.ts:122-139 | `value` is a buffer exactly as long as the view's buffer |
| JsNdArray.Visit | packages/ndarray-js/src/ndarray.ts:128-137 | the recursive walk writes the cells it visits from `cnt` on and advances `cnt` by their number |
| JsNdArray.Value | packages/ndarray-js/src/ndarray.ts:122-139 | the getter's walk into a zeroed buffer yields the specified `value` |
| JsNdArray.WalkLength | packages/ndarray-js/src/ndarray.ts:128-137 | the walk visits Product(shape) cells |
| JsNdArray.ValueAt | packages/ndarray-js/src/ndarray.ts:122-139 | `value` holds, at the row-major position of every in-bounds index, the buffer cell at that index's strided offset |
| JsNdArray.WalkContiguous | packages/ndarray-js/src/ndarray.ts:128-137 | with row-major strides the walk reads one block of the buffer in order |
| JsNdArray.ValueOfContiguous | packages/ndarray-js/src/ndarray.ts:122-139 | `value` of a contiguous view is its buffer |
| JsNdArray.FlatToArray | packages/ndarray-js/src/ndarray.ts:83-96 | the leaves of `toArray` are the cells `value` visits, in the same order |
| JsNdArray.ValueIsFlatToArray | packages/ndarray-js/src/ndarray.ts:83-139 | `value` is the flattened `toArray`, placed in a buffer of the view's length |
| JsNdArray.ToArrayOfFlat | packages/ndarray-js/src/ndarray.ts:83-96 | reading a block that holds the leaves of a regular nested array back with `toArray` rebuilds the array |
| JsNdArray.NewThenToArray | packages/ndarray-js/src/ndarray.ts:17-96 | for the corrected constructor, construction and `toArray` are inverse on regular nested arrays: `new NdArray(x).toArray()` is `x` |
| JsNdArray.Clamp | packages/ndarray-js/src/ndarray.ts:51 | a `subarray` position lies in 0..length and an in-range position is kept |
| JsNdArray.Slice | packages/ndarray-js/src/ndarray.ts:44-54 | the offset loop and `subarray` give the specified slice |
| JsNdArray.SliceOfContiguous | packages/ndarray-js/src/ndarray.ts:44-54 | with in-bounds leading indices the slice is the block buffer[o..o + p] at o = Σ idx[i]·strides[i], p the product of the remaining sizes, with the remaining shape, contiguous |
| JsNdArray.SliceRest | packages/ndarray-js/src/ndarray.ts:45-53 | a slice whose buffer has the block's length is a contiguous view of the remaining axes |
| JsNdArray.SliceGet | packages/ndarray-js/src/ndarray.ts:44-54 | a slice with an index for every axis holds exactly the one addressed cell |
| JsNdArray.SliceTooManyIndices | packages/ndarray-js/src/ndarray.ts:45-51 | more indices than axes give an empty buffer and shape [] |
| JsNdArray.SliceExamples | packages/ndarray-js/test/ndarray.test.ts:28-47 | row 1 of the 3×3 array of the test is [2, 3, 4]; `slice(0)`, `slice(0).slice(0)` and `slice(0, 1)` of a [2, 2, 3] view have shapes [2, 3], [3] and [3] |
| JsNdArray.Permute | packages/ndarray-js/src/ndarray.ts:98-107 | the permuted view shares the buffer and is marked discontinuous |
| JsNdArray.T | packages/ndarray-js/src/ndarray.ts:113-120 | the transpose shares the buffer, is discontinuous and has the reversed shape |
| JsNdArray.TIsPermute | packages/ndarray-js/src/ndarray.ts:98-120 | `T` is `permute` by the reversed axes |
| JsNdArray.PermuteValue | packages/ndarray-js/src/ndarray.ts:98-139 | the permuted view's `value` holds, at the row-major position of the permuted index, the cell the original index addresses |
| JsNdArray.PermuteOfContiguous | packages/ndarray-js/src/ndarray.ts:98-139 | on a contiguous view the permuted index reads the original's element at the original index |
| JsNdArray.TransposeMatrix | packages/ndarray-js/src/ndarray.ts:113-139 | element (i, j) of a contiguous p×q matrix sits at position j·p + i of its transpose's value |
| JsNdArray.TransposeExample | packages/ndarray-js/test/ndarray.test.ts:59-67 | the transpose of [[1, 2, 3], [4, 5, 6]] has shape [3, 2], strides [1, 3] and reads [[1, 4], [2, 5], [3, 6]] |
| JsNdArray.CountUnknown | packages/ndarray-js/src/ndarray.ts:57-58 | the count of -1 sizes is zero exactly when no size is -1 |
| JsNdArray.KnownSize | packages/ndarray-js/src/ndarray.ts:66-73 | the known-size loop yields a positive product or fails with the "-1 or positive" error |
| JsNdArray.Substitute | packages/ndarray-js/src/ndarray.ts:77 | the resolved shape has as many axes as the request |
| JsNdArray.Reshape | packages/ndarray-js/src/ndarray.ts:56-81 | the loop-based reshape equals the reshape specification on every input, errors included |
| JsNdArray.KnownSizeChecks | packages/ndarray-js/src/ndarray.ts:66-73 | the known-size loop fails exactly when some size is below -1 |
| JsNdArray.SubstituteProduct | packages/ndarray-js/src/ndarray.ts:66-77 | with sizes positive or -1 and at most one -1, the resolved shape's product is the known product times the substituted size |
| JsNdArray.ReshapeContiguous | packages/ndarray-js/src/ndarray.ts:56-81 | a successful reshape to positive-or-(-1) sizes is contiguous, and without a -1 it has exactly the requested shape |
| JsNdArray.UnknownShape | packages/ndarray-js/src/ndarray.ts:74-77 | the shape a single -1 resolves to has no negative size and as many cells as the buffer |
| JsNdArray.ReshapeFixedKeepsValue | packages/ndarray-js/src/ndarray.ts:56-81 | the corrected reshape keeps the elements in row-major order: the new view's `value` is the old one's |
| JsNdArray.ReshapeShares | packages/ndarray-js/src/ndarray.ts:58-80 | reshaping a view that is not discontinuous shares its buffer, and there the corrected reshape agrees with the one as written |
| JsNdArray.ReshapeExamples | packages/ndarray-js/test/ndarray.test.ts:49-57 | (-1, 2) gives shape [3, 2], (1, -1) gives [1, 6], and (1, 2, 3) reads back [[[1, 2, 3], [2, 3, 4]]] |
| JsNdArray.UnknownIndivisible | packages/ndarray-js/src/ndarray.ts:74-76 | reshaping six cells to (4, -1) throws "NdArray: cannot reshape array of size 6 into shape [4,-1]", the length and the request printed in full |
| JsNdArray.TransposeValue23 | packages/ndarray-js/src/ndarray.ts:113-139 | `value` of the transpose of a contiguous 2×3 matrix lists its columns one after the other |
| JsNdArray.ReshapeSkipsMaterialising | packages/ndarray-js/src/ndarray.ts:58-62 | on the transpose of [[1, 2, 3], [4, 5, 6]], `reshape(6)` keeps the raw buffer [1..6] while `reshape(-1)` materialises [1, 4, 2, 5, 3, 6]; the corrected reshape gives the latter both times |
| JsNdArray.TransposeReshapeExample | packages/ndarray-js/test/ndarray.test.ts:70-71 | `b.reshape(-1, 1)` of the transpose b reads [[1], [4], [2], [5], [3], [6]] |
| JsOps.WasmProcedure | packages/ndarray-js/src/ops/matmul.ts:18-35 | the kernel answers only for equal dtypes other than `bool` and two matrices, and its answer is the matrix product of the two buffers |
| JsOps.MatmulSound | packages/ndarray-js/src/ops/matmul.ts:37-45 | `matmul` fails with the rank error when neither operand is a matrix and with the dtype error on differing dtypes; it succeeds exactly for two matrices of one supported dtype whose buffers cover their shapes; a result is the row-major product of the two `value`s, of shape [M, N] |
| JsOps.MatmulLoop | packages/ndarray-js/src/ops/matmul.ts:46-56 | the loop fallback returns the specified row-by-column product with out-of-range reads taken as 0 |
| JsOps.WriteRow | packages/ndarray-js/src/ops/matmul.ts:51-54 | the column loop of row i extends the rows already written by row i of the product |
| JsOps.RowColumnSum | packages/ndarray-js/src/ops/matmul.ts:52 | the mapped and reduced sum is the dot product of row i and column j |
| JsOps.LoopAgrees | packages/ndarray-js/src/ops/matmul.ts:37-56 | wherever the kernel succeeds, the loop fallback computes the same array |
| JsOps.ProductUnique | packages/ndarray-js/src/ops/matmul.ts:37-56 | two results meeting the product specification on the same operands are equal |
| JsOps.MatmulExample | packages/ndarray-js/test/ops.test.ts:7-12 | [[1, 2, 3], [2, 3, 4]] times its transpose is [[14, 20], [20, 29]] |
| JsOps.MatmulExampleOperands | packages/ndarray-js/src/ops/matmul.ts:43 | the kernel receives the materialised transpose [1, 2, 2, 3, 3, 4] |
| JsOps.Concat | packages/ndarray-js/src/ops/concat.ts:6-24 | the summed first size, the zeroed buffer and the `set` loop give the specified concatenation |
| JsOps.Set | packages/ndarray-js/src/ops/concat.ts:14 | `buf.set(src, offset)` writes `src` from `offset` on and leaves the rest of the buffer as it was |
| JsOps.FillThenWrite | packages/ndarray-js/src/ops/concat.ts:13-16 | writing the next buffer after those already copied extends the copied prefix |
| JsOps.BuffersLength | packages/ndarray-js/src/ops/concat.ts:7-11 | stacked contiguous views hold rows × product(rest) cells, as many as the result's shape |
| JsOps.ConcatOfContiguous | packages/ndarray-js/src/ops/concat.ts:6-24 | concatenating stacked contiguous views succeeds with their buffers one after the other, the summed first size, the first dtype, contiguous |
| JsOps.ConcatBlock | packages/ndarray-js/src/ops/concat.ts:12-16 | each argument comes back out: argument i occupies the cells after those of the arguments before it |
| JsOps.ConcatCopiesBuffer | packages/ndarray-js/src/ops/concat.ts:14 | a single view is copied as its raw buffer under fresh row-major strides, whatever strides it was read through |
| JsOps.Best | packages/ndarray-js/src/ops/argmax.ts:4 | the running `reduce` entry is a maximum of the first n entries and no later entry among them equals it |
| JsOps.Argmax | packages/ndarray-js/src/ops/argmax.ts:3-5 | `argmax` throws exactly on an empty buffer, and otherwise returns the last index holding the maximum |
| JsOps.ArgmaxUnique | packages/ndarray-js/src/ops/argmax.ts:3-5 | `argmax` returns i exactly when i holds the maximum and no later entry does |
| JsOps.ArgmaxExamples | packages/ndarray-js/test/ops.test.ts:14-18 | [1, 2, 3, 4, 66, 2, 3] gives 4, and [5, 5] gives the later index 1 |
| JsOps.Mapped | packages/ndarray-js/src/ops/mul.ts:5-24 | a mapped buffer keeps the class of the operand, so a `bool` operand comes back as `uint8` |
| JsOps.ReluCells | packages/ndarray-js/src/ops/relu.ts:7 | each cell is non-negative and at least its input, and equals its input exactly when the input is non-negative |
| JsOps.NumberIsFilledArray | packages/ndarray-js/src/ops/mul.ts:14-24 | the number branch of `mul` and of `sub` is the array branch with that number in every cell |
| JsOps.DotCommutes | packages/ndarray-js/src/ops/mul.ts:5-12 | `dot` commutes on buffers of equal length |
| JsOps.MulScalars | packages/ndarray-js/src/ops/mul.ts:14-22 | scaling twice is scaling by the product, and scaling by 1 changes nothing |
| JsOps.SubLaws | packages/ndarray-js/src/ops/sub.ts:5-20 | subtracting twice is subtracting the sum, and an array minus itself is zero |
| JsOps.ReluLaws | packages/ndarray-js/src/ops/relu.ts:5-12 | `relu` is idempotent and leaves an array unchanged exactly when no cell is negative |
| JsOps.ReluSplits | packages/ndarray-js/src/ops/relu.ts:5-12 | relu(x) − relu(−x) gives back x |
| JsOps.ReluFixedReadsValue | packages/ndarray-js/src/ops/relu.ts:5-12 | the corrected `relu` holds, at each logical position, the `relu` of the input's element there |
| JsOps.ReluOfTranspose | packages/ndarray-js/src/ops/relu.ts:7-10 | on the transpose of [[1, 2, 3], [4, 5, 6]], `relu` as written reads [1..6] in raw buffer order, while the corrected one reads [1, 4, 2, 5, 3, 6] |
| JsIm2col.IterationsBound | packages/ndarray-js/src/ops/im2col.ts:26 | `i < H / stride` in real division holds exactly for the first Iterations(H, stride) values of i |
| JsIm2col.StrideOr | packages/ndarray-js/src/ops/im2col.ts:20 | `stride \|\|= 1` never leaves a zero stride and keeps any non-zero one |
| JsIm2col.KernelOf | packages/ndarray-js/src/ops/im2col.ts:15-18 | a kernel of one extent k becomes [1, k], one of two or three extents is kept, and any other length fails with the kernel error |
| JsIm2col.Lift | packages/ndarray-js/src/ops/im2col.ts:10-13 | the corrected lift (see Findings): the input fails with the rank error exactly when it has neither two nor three axes; a three-axis view is kept, an [N, C] view becomes [1, N, C] |
| JsIm2col.GridFor | packages/ndarray-js/src/ops/im2col.ts:23-41 | the loops read an addressable grid over the lifted view's buffer, height and width |
| JsIm2col.Im2col | packages/ndarray-js/src/ops/im2col.ts:9-56 | after the corrected lift, the nested loops with their skips give the specified result on every input, errors included |
| JsIm2col.ScanRows | packages/ndarray-js/src/ops/im2col.ts:26-49 | the row loop collects the windows and the count of every row origin it visits |
| JsIm2col.ScanRow | packages/ndarray-js/src/ops/im2col.ts:30-48 | the column loop of one row origin collects that row's windows and their count |
| JsIm2col.WindowCount | packages/ndarray-js/src/ops/im2col.ts:26-33 | the loop bound `i < n / s` visits every fitting origin: (n − k)/s + 1 of them |
| JsIm2col.UnfoldWritten | packages/ndarray-js/src/ops/im2col.ts:23-55 | for a two-extent kernel and positive stride the result is the emitted windows as a [count, chunkSize] view |
| JsIm2col.ImageWindows | packages/ndarray-js/src/ops/im2col.ts:9-56 | on a contiguous [H, W, C] image the result is a contiguous [ci·cc, kh·kw·C] array whose row a·cc + b is the window at origin (a·s, b·s) |
| JsIm2col.UnfoldWindows | packages/ndarray-js/src/ops/im2col.ts:23-55 | the same, for the part after the lift |
| JsIm2col.SequenceWindows | packages/ndarray-js/src/ops/im2col.ts:9-56 | with the corrected lift, on a contiguous [N, C] input with kernel [k] and stride s the result has (N − k)/s + 1 rows of k·C cells, row t being the slice from t·s·C on |
| JsIm2col.Lifted | packages/ndarray-js/src/ops/im2col.ts:10-11 | the corrected lift of a contiguous [N, C] array is the same buffer as a contiguous [1, N, C] image |
| JsIm2col.LiftAsWritten | packages/ndarray-js/src/ops/im2col.ts:10-13 | the lift as written fails on every input without three axes and keeps a three-axis one |
| JsIm2col.LiftAsWrittenRejectsRankTwo | packages/ndarray-js/src/ops/im2col.ts:10-11 | as written every [N, C] input fails in `reshape`, although the corrected lift succeeds on it; on other ranks the two agree |
| JsIm2col.StrideDefaults | packages/ndarray-js/src/ops/im2col.ts:20 | a missing stride and a zero stride both act as stride 1 |
| JsIm2col.NegativeStride | packages/ndarray-js/src/ops/im2col.ts:20-26 | a negative stride emits no window: the result is an empty [0, chunkSize] array |
| JsIm2col.SequenceExample | packages/ndarray-js/test/ops.test.ts:27-33 | arange(10) as [5, 2] with kernel [3] and stride 1 gives shape [3, 6], row t holding 2t … 2t + 5 |
| JsIm2col.SequenceRows | packages/ndarray-js/test/ops.test.ts:27-33 | the same result, named, for any contiguous arange(10) buffer |
| JsIm2col.SequenceExampleAsWritten | packages/ndarray-js/test/ops.test.ts:27-33 | as written, the same call of the test throws in the lift |
| JsIm2col.ImageExample | packages/ndarray-js/test/ops.test.ts:36-41 | arange(75) as [5, 5, 3] with kernel [3, 3] and stride 2 gives shape [4, 27] |
| ConvGeometry.OutExtentDivision | packages/common/src/conv.ts:51 | with a positive stride, floor((size + 2·padding − kernel)/stride + 1) is the integer quotient plus one |
| ConvGeometry.OutExtentCountsOrigins | packages/common/src/conv.ts:51 | with a positive stride, origin i is below the output extent exactly when the kernel placed at i·stride fits inside the padded axis |
| ConvGeometry.ConvSize | packages/common/src/conv.ts:48-53 | the push loop of `getConvSize` returns one extent per axis, as specified |
| ConvGeometry.ConvSizeCounts | packages/common/src/conv.ts:48-53 | `getConvSize` has one extent per axis, each counting the kernel positions that fit on that axis |
| ConvGeometry.Resolved | packages/common/src/conv.ts:56 | `stride ??= kernelSize`: an absent stride becomes the kernel extents, a given one is kept |
| ConvGeometry.PoolSize | packages/common/src/conv.ts:55-63 | the push loop of `getPoolSize` returns the specified extents, reading a per-axis stride or one number |
| ConvGeometry.PoolSizeLaws | packages/common/src/conv.ts:55-63 | a pooling stride given as one number gives exactly `getConvSize` |
| ConvGeometry.PoolTiles | packages/common/src/conv.ts:56-60 | without stride and padding, a positive kernel extent k gives floor(size / k) windows: the windows tile the axis |
| ConvGeometry.ConvSizeOneTwo | packages/common/src/conv.ts:48-53 | `getConvSize` on one and on two axes is the per-axis extent |
| ConvGeometry.Conv1dSizeSound | packages/common/src/conv.ts:9-20 | `getConv1dSize` throws the size-rank message unless the size is [n, cin], then the kernel-rank message unless the kernel is [k, cin, cout]; otherwise it returns [m, cout] with m counting the kernel positions that fit |
| ConvGeometry.Conv2dSizeSound | packages/common/src/conv.ts:30-46 | `getConv2dSize` throws the size-rank message unless the size is [h, w, cin], then the kernel-rank one unless the kernel is [kh, kw, cin, cout]; otherwise [p, q, cout], p and q counting the fitting positions on each axis |
| ConvGeometry.ConvSizeExamples | packages/common/test/conv.test.ts:6-10 | [10, 10] with kernel [3, 3] gives [8, 8], [4, 4] with stride 2 and [5, 5] with stride 2 and padding 1 |
| ConvGeometry.PoolSizeExamples | packages/common/test/conv.test.ts:12-16 | `getPoolSize([9, 9], [3, 3])` is [3, 3]; with stride 2 it gives [4, 4], and [5, 5] with padding 1 |
| ConvGeometry.ConvShapeExamples | packages/tensor/test/conv.test.ts:6-29 | the conv test shapes: [8, 32], [10, 32], [4, 32], [5, 32] for conv1d and [8, 3, 16] for conv2d |
| ConvGeometry.Conv1dShape | packages/common/src/conv.ts:9-20 | a [n, c] input and [k, cin, cout] kernel give [(n + 2p − k)/s + 1, cout] |
| ConvGeometry.Conv2dShape | packages/common/src/conv.ts:30-46 | a [h, w, c] input and [kh, kw, cin, cout] kernel give the two per-axis quotients and cout |
| ConvGeometry.Conv1dRankMessage | packages/common/src/conv.ts:10-11 | a rank-1 size fails with "conv1d: size must be 2D matrix, got 1D matrix" |
| AsyncNdArray.SetAtLaws | packages/async-math/src/ndarray.ts:103-113 | storing a number at an in-bounds index keeps the array regular, puts the number there and leaves every other leaf alone |
| AsyncNdArray.Zeros | packages/async-math/src/ndarray.ts:66-68 | `zeros(size)` is a regular array of the requested shape |
| AsyncNdArray.WalkLaws | packages/async-math/src/ndarray.ts:77-88 | on a regular array the walk makes one call per leaf, the t-th carrying the in-bounds index of row-major position t and the leaf stored there |
| AsyncNdArray.WalkIsRowMajor | packages/async-math/src/ndarray.ts:77-88 | `forEachElementForArray` visits the leaves in row-major order: the t-th call carries the t-th index of the shape and its leaf |
| AsyncNdArray.MapKeepsNesting | packages/async-math/src/ndarray.ts:90-101 | `mapElementForArray` keeps the nesting: the result has a shape exactly when the argument has it |
| AsyncNdArray.MapLeavesAt | packages/async-math/src/ndarray.ts:90-101 | every leaf of the map is `fn` of the old leaf and its full index path |
| AsyncNdArray.UniqLaws | packages/async-math/src/ndarray.ts:118 | `uniq` keeps exactly the entries of its argument, is never longer, and drops nothing exactly when nothing repeats |
| AsyncNdArray.CheckAxisOrderSound | packages/async-math/src/ndarray.ts:115-121 | the order check fails with the length message when the lengths differ, with "wrong order" on a repeated entry, and accepts exactly the orders of the right length without repeats; its second test can never fire |
| AsyncNdArray.RangeNotChecked | packages/async-math/src/ndarray.ts:115-121 | entries that are not axes pass the check ([0, 5] and [-1, 0] for a 2 × 2 array), while [1, 1] fails with "wrong order: 1,1" |
| AsyncNdArray.PermutationNoRepeats | packages/async-math/src/ndarray.ts:118-119 | a permutation of the axes passes the repeat test |
| AsyncNdArray.Target | packages/async-math/src/ndarray.ts:71 | the callback's target path has one entry per axis |
| AsyncNdArray.ScatterLaws | packages/async-math/src/ndarray.ts:70-73 | stores at distinct in-bounds places leave each place holding its leaf and every other place unchanged, and keep the array regular |
| AsyncNdArray.Permute | packages/async-math/src/ndarray.ts:56-75 | reading the shape, checking the order, filling zeros and storing every leaf at its reordered path gives the specified permutation |
| AsyncNdArray.PermuteMoves | packages/async-math/src/ndarray.ts:56-75 | for a permutation of the axes the result is a regular array of the reordered shape holding, at the reordered index, the leaf at the original index |
| AsyncNdArray.T | packages/async-math/src/ndarray.ts:32-35 | `T` is `permute` by the reversed axes |
| AsyncNdArray.TransposeMoves | packages/async-math/src/ndarray.ts:32-35 | the transpose holds, at the reversed index, the leaf at the original index |
| AsyncNdArray.Extensional | packages/async-math/src/ndarray.ts:56-75 | two regular arrays of one shape that agree at every index are equal |
| AsyncNdArray.Swapped | packages/async-math/src/ndarray.ts:56-75 | a rows × cols array permuted by [1, 0] is a cols × rows array holding at [i, j] what the original holds at [j, i] |
| AsyncNdArray.PermuteExample | packages/async-math/test/ndarray.test.ts:8-16 | [[1, 2, 3], [2, 3, 4], [6, 6, 6]] permuted by [1, 0] is [[1, 2, 6], [2, 3, 6], [3, 4, 6]] |
| AsyncNdArray.SwapEquals | packages/async-math/src/ndarray.ts:56-75 | any regular array that holds the swapped cells is the result of permuting by [1, 0] |
| AsyncNdArray.PermutedShape | packages/async-math/src/ndarray.ts:43-45 | for an array with non-empty axes the shape getter reads the reordered shape off a permuted result |
| AsyncNdArray.PermutedValue | packages/async-math/src/ndarray.ts:56-75 | `permute` of a regular array by a permutation of its axes succeeds with an array regular in the reordered shape |
| AsyncNdArray.PermuteShapeExample | packages/async-math/test/ndarray.test.ts:18-20 | a [12, 23, 32, 33] array permuted by [2, 0, 3, 1] has shape [32, 12, 33, 23] |
| AsyncNdArray.TransposeShapeExample | packages/async-math/test/ndarray.test.ts:21 | its transpose has shape [33, 32, 23, 12] |
| AsyncConv1d.InputSize | packages/async-math/src/conv1d.ts:35 | `input.size()` has two entries exactly when the input has rows; an empty matrix has size [0] |
| AsyncConv1d.WeightSize | packages/async-math/src/conv1d.ts:36 | `weight.size()` has three entries exactly when there are kernel matrices and they have rows |
| AsyncConv1d.VecMat | packages/async-math/src/conv1d.ts:57-58 | `multiply([embed], w).flat()` has one entry per output channel |
| AsyncConv1d.Add | packages/async-math/src/conv1d.ts:60 | `add` of two vectors is their entry-wise sum |
| AsyncConv1d.SumRows | packages/async-math/src/conv1d.ts:60-61 | the `reduce(add)` over the window has one entry per output channel |
| AsyncConv1d.Padded | packages/async-math/src/conv1d.ts:40-48 | the padded input has 2·padding more rows, all of `cin` entries |
| AsyncConv1d.PadRows | packages/async-math/src/conv1d.ts:42 | `padding` rows of `cin` copies of `padValue` |
| AsyncConv1d.OutRow | packages/async-math/src/conv1d.ts:53-62 | an output row has `cout` entries |
| AsyncConv1d.Rows | packages/async-math/src/conv1d.ts:52 | the last output row's window still fits inside the padded input |
| AsyncConv1d.WindowInside | packages/async-math/src/conv1d.ts:52-55 | every output row's window `slice(i·stride, i·stride + k)` lies inside the padded input |
| AsyncConv1d.SizeChecked | packages/async-math/src/conv1d.ts:35-37 | `getConv1dSize` on the two matrices' sizes succeeds exactly on a non-empty input and a kernel with rows, whatever their channel counts, gives the output extent first, and fails with the rank message on an empty input |
| AsyncConv1d.OutRowsAt | packages/async-math/src/conv1d.ts:52-63 | row i of the pushed rows is output row i |
| AsyncConv1d.OutRows | packages/async-math/src/conv1d.ts:52-63 | m output rows of `cout` entries each |
| AsyncConv1d.Conv1d | packages/async-math/src/conv1d.ts:13-66 | the defaults, the checks and the push loop give the specified convolution, errors included |
| AsyncConv1d.PushRows | packages/async-math/src/conv1d.ts:51-63 | the loop pushes exactly the first `convSize[0]` output rows, or throws the `multiply` dimension error in its first window when the weight's row count is not the input's column count |
| AsyncConv1d.Conv1dShape | packages/async-math/src/conv1d.ts:26-63 | `conv1d` fails on a negative padding, then on a non-positive stride (missing ones default to 0 and 1), then on an empty input or kernel, then, when there is a window, on a weight whose row count is not the input's column count; it succeeds otherwise with max(0, (n + 2p − k)/s + 1) rows of `cout` entries |
| AsyncConv1d.Conv1dAccepted | packages/async-math/src/conv1d.ts:35-63 | past the option checks, the size check decides, then the weight's row count once there is a window, and the rows are counted by `Rows` |
| AsyncConv1d.RowsByDivision | packages/async-math/src/conv1d.ts:52 | the row count is 0 when the kernel is longer than the padded input and (n + 2p − k)/s + 1 otherwise |
| AsyncConv1d.PaddedRows | packages/async-math/src/conv1d.ts:41-48 | rows padding … padding + n − 1 of the padded input are the input rows, the others rows of `padValue` |
| AsyncConv1d.PointwiseIsProduct | packages/async-math/src/conv1d.ts:52-63 | a kernel of one matrix with default options is a matrix product: output row i is input row i times that matrix |
| AsyncConv1d.SumRowsSnoc | packages/async-math/src/conv1d.ts:60 | the reduction over a longer window adds the last product to the sum of the others |
| AsyncConv1d.TestShapes | packages/tensor/test/conv.test.ts:6-21 | a 10 × 16 input and a 3 × 16 × 32 kernel give 8, 10, 4 and 5 rows of 32 entries under the four settings of the test |
| AsyncConv1d.MismatchExamples | packages/async-math/src/conv1d.ts:52-58 | a 3 × 8 × 32 kernel on a 10 × 16 input throws the `multiply` dimension error, while a 12-matrix kernel of the same kind, longer than the input, returns no rows |
| AsyncConv1d.EmptyInputThrows | packages/async-math/src/conv1d.ts:35-37 | an empty input is a one-axis matrix and the size check throws the rank message |
| TensorOps.ShapeOf | packages/tensor/src/tensor.ts:122-128 | a number's shape is [1] and a matrix's is its size |
| TensorOps.Zip | packages/tensor/src/ops/add.ts:15 | a cellwise combination of two equally long buffers holds f of the two cells at each position |
| TensorOps.Fill | packages/tensor/src/ops/add-scalar.ts:14 | a number broadcast over n cells |
| TensorOps.MapCells | packages/tensor/src/ops/relu.ts:12 | `map` applies f to every cell and keeps the length |
| TensorOps.Elementwise | packages/tensor/src/ops/add.ts:10-16 | the math library's cellwise arithmetic succeeds exactly when one side is a number or the sizes agree, and a result has the size of the matrix operand |
| TensorOps.TransposeAt | packages/tensor/src/ops/matmul.ts:36-37 | entry (j, i) of the transpose is entry (i, j) of the matrix |
| TensorOps.Transpose | packages/tensor/src/ops/matmul.ts:36-37 | a transpose is a well-formed value |
| TensorOps.MatProduct | packages/tensor/src/ops/matmul.ts:10-16 | a product is a well-formed value |
| TensorOps.Reshape | packages/tensor/src/ops/reshape.ts:13-16 | `reshape` succeeds exactly on a matrix whose cell count the target size holds, and keeps the cells in order under that size |
| TensorOps.Compute | packages/tensor/src/ops/add.ts:10-16 | every op's `compute` that succeeds yields a well-formed value |
| TensorOps.Gradient | packages/tensor/src/ops/add.ts:18-25 | every op's `gradient` that succeeds yields well-formed gradients (the `reshape` rule is the corrected one) |
| TensorOps.GradientMatchesInputs | packages/tensor/src/ops/matmul.ts:18-39 | whenever an op computes an output from matrix inputs, its gradient rule, given a gradient of the output's size, succeeds with one gradient per input, each of that input's size |
| TensorOps.MatMulGradientShapes | packages/tensor/src/ops/matmul.ts:18-39 | for Z = X·W the gradients are out_grad·Wᵀ (size of X) and Xᵀ·out_grad (size of W) |
| TensorOps.TransposeOf | packages/tensor/src/ops/matmul.ts:36-37 | the transpose of an m × n matrix succeeds with size [n, m] |
| TensorOps.MatProductCells | packages/tensor/src/ops/matmul.ts:10-16 | the product of two matrices with matching inner size succeeds with size [n, m] and the row-by-column cells |
| TensorOps.TransposeColumn | packages/tensor/src/ops/matmul.ts:36 | column t of Wᵀ is row t of W |
| TensorOps.TransposeRow | packages/tensor/src/ops/matmul.ts:37 | row t of Xᵀ is column t of X |
| TensorOps.MatMulLeftGradientAt | packages/tensor/src/ops/matmul.ts:18-36 | entry (i, t) of the gradient of X is row i of out_grad paired with row t of W |
| TensorOps.MatMulRightGradientAt | packages/tensor/src/ops/matmul.ts:18-37 | entry (t, j) of the gradient of W is column t of X paired with column j of out_grad |
| TensorOps.Shifted | packages/tensor/src/ops/add.ts:18-25 | moving a matrix cell by cell keeps its size |
| TensorOps.DotTermwise | packages/tensor/src/ops/dot.ts:18-24 | pairings whose terms agree one by one are equal |
| TensorOps.AddExact | packages/tensor/src/ops/add.ts:18-25 | the output gradient passed to each input of `add` is its exact derivative: moving that input by d changes the output, paired with the output gradient, by the returned gradient paired with d |
| TensorOps.AddScalarExact | packages/tensor/src/ops/add-scalar.ts:17-22 | the unchanged output gradient is the exact derivative of `addScalar` |
| TensorOps.DotExact | packages/tensor/src/ops/dot.ts:18-24 | grad·r for the left input and grad·l for the right one are the exact derivatives of the cellwise product |
| TensorOps.DotAsSum | packages/tensor/src/ops/dot.ts:15 | a pairing is the sum of the cellwise product |
| TensorOps.LeftFactorMoved | packages/tensor/src/ops/dot.ts:21 | moving the left factor by d changes the product, paired with g, by (g·y) paired with d |
| TensorOps.RightFactorMoved | packages/tensor/src/ops/dot.ts:22 | the same for the right factor |
| TensorOps.CellMoved | packages/tensor/src/ops/dot.ts:21-22 | one cell of the two identities above |
| TensorOps.MulScalarExact | packages/tensor/src/ops/mul-scalar.ts:19-21 | grad·scalar is the exact derivative of scaling |
| TensorOps.ReluExact | packages/tensor/src/ops/relu.ts:17-30 | the output gradient masked by the input's sign is the exact derivative of `relu` for every move that changes no cell's sign |
| TensorOps.ReshapeExact | packages/tensor/src/ops/reshape.ts:18-25 | the corrected rule, the output gradient under the input's size, is the exact derivative of `reshape` |
| TensorOps.FlattenExact | packages/tensor/src/ops/flatten.ts:18-23 | the [1, n] output gradient under the input's size is the exact derivative of `flatten` |
| TensorOps.GradientArity | packages/tensor/src/ops/add.ts:18-20 | a successful gradient rule returns one gradient per input; `add` and `addScalar` succeed exactly with 2 and 1 inputs, and `add`, `addScalar` and `flatten` fail with their "expected N input, got M" messages otherwise |
| TensorOps.AddGradientKeepsOutputSize | packages/tensor/src/ops/add.ts:18-25 | `add` does not reduce a gradient to a broadcast input's size: a number added to a [2] matrix gets a gradient of size [2] |
| TensorOps.ReluLaws | packages/tensor/src/ops/relu.ts:9-15 | `relu` of a number is a type error; of a matrix it keeps positive cells, zeroes the rest, keeps the size and is idempotent |
| TensorOps.ReluGradientCells | packages/tensor/src/ops/relu.ts:17-30 | the gradient is the output gradient where the input is positive and 0 elsewhere, including at 0 |
| TensorOps.FlattenRoundTrip | packages/tensor/src/ops/flatten.ts:9-23 | `flatten` succeeds exactly on a matrix of rank at least 1, giving [1, n] with the same cells, and its gradient rule maps that output back to the input |
| TensorOps.ReshapeRoundTrip | packages/tensor/src/ops/reshape.ts:13-25 | `reshape` succeeds exactly when the counts agree, keeping the cells, and the intended gradient rule maps the output back to the input |
| TensorOps.ReshapeGradientAsWritten | packages/tensor/src/ops/reshape.ts:18-25 | the rule as written calls `reshape` on the output gradient tensor; `Tensor` has a `shape` getter but no `reshape` method, so it always fails |
| TensorOps.ReshapeGradientAsWrittenThrows | packages/tensor/src/ops/reshape.ts:18-25 | on a [4] input reshaped to [2, 2] the rule as written fails, while the intended rule returns the gradient under size [4] |
| TensorOps.MatMulComputes | packages/tensor/src/ops/matmul.ts:10-16 | `matmul` of an n × k and a k' × m matrix succeeds exactly when k = k', with the row-by-column product of size [n, m] |
| TensorOps.TensorTestExamples | packages/tensor/test/tensor.test.ts:22-43 | the values the test expects for add(t1, t1), addScalar(t1, 1), t1.dot(t1), t1.mul(2) and t1.mul(t1.mul(2)) |
| TensorValues.ValueOf | packages/tensor/src/tensor.ts:77-96 | the value `raw` yields for a node (its cache, else its op's `compute` over its inputs' values, else "op is null") is well formed when it exists |
| TensorValues.ValuesOf | packages/tensor/src/tensor.ts:77-96 | the inputs' values, in order, one per input |
| TensorValues.MemoShaped | packages/tensor/src/tensor.ts:77-88 | a cache filled by realisation still fits the graph |
| TensorValues.MemoKeepsValue | packages/tensor/src/tensor.ts:77-88 | filling caches with realised values changes no node's value: `realize` is idempotent |
| TensorValues.MemoKeepsValues | packages/tensor/src/tensor.ts:77-88 | the same for a list of inputs |
| TensorValues.MemoTransitive | packages/tensor/src/tensor.ts:77-88 | two rounds of realisation are one round |
| TensorValues.ValuesOfPrefixFails | packages/tensor/src/ops/add.ts:10-14 | the first input that fails to realise makes the whole argument list fail the same way |
| TensorValues.ValueOfExtend | packages/tensor/src/tensor.ts:34-44 | a node created later changes no earlier node's value |
| TensorValues.ValuesOfExtend | packages/tensor/src/tensor.ts:34-44 | the same for a list of inputs |
| TensorValues.MemoExtend | packages/tensor/src/tensor.ts:34-44 | realisation done before a node was created remains realisation afterwards |
| TensorValues.MemoRetract | packages/tensor/src/tensor.ts:34-44 | realisation done after a node was created, read on the earlier nodes, is realisation of the graph without it |
| TensorMode.Config.constructor | packages/tensor/src/mode.ts:14-17 | both flags start on |
| TensorMode.Config.SetLazyMode | packages/tensor/src/mode.ts:23-25 | the lazy flag becomes `mode` and the gradient flag is untouched |
| TensorMode.Mode.constructor | packages/tensor/src/mode.ts:14-17 | the singleton is fresh with both flags on |
| TensorMode.Mode.GetConfig | packages/tensor/src/mode.ts:19-21 | `getConfig` returns the singleton itself, so a caller sees every later change |
| TensorMode.Mode.SetLazyMode | packages/tensor/src/mode.ts:23-29 | `isLazyMode` then reads `mode`, and the gradient flag is untouched |
| TensorMode.LazyModeScenario | packages/tensor/test/tensor.test.ts:45-50 | setting the lazy flag on and then off is read back as true and then false, through a configuration captured before |
| TensorGraph.Insert | packages/tensor/src/helper.ts:9-10 | `Set.add` keeps exactly the old members and the new one |
| TensorGraph.InCountConcat | packages/tensor/src/helper.ts:3-15 | the pending in-edges counted over two source lists add up |
| TensorGraph.InCountNoEdges | packages/tensor/src/helper.ts:27 | sources without edges count nothing |
| TensorGraph.InCountUpdate | packages/tensor/src/helper.ts:11-13 | replacing one source's edge list changes the count by the difference of the two lists |
| TensorGraph.InCountDone | packages/tensor/src/helper.ts:25-33 | yielding a source removes its entries from every count |
| TensorGraph.InCountZero | packages/tensor/src/helper.ts:28-32 | a zero count means no pending source has an edge into the node |
| TensorGraph.InCountPositive | packages/tensor/src/helper.ts:28-32 | a positive count has a pending source with an edge into the node |
| TensorGraph.InCountAtLeast | packages/tensor/src/helper.ts:28-32 | one pending source's entries are part of the count |
| TensorGraph.Graph.constructor | packages/tensor/src/helper.ts:3-6 | the graph starts with no nodes, edges or in-degrees |
| TensorGraph.Graph.AddEdge | packages/tensor/src/helper.ts:8-15 | both ends become nodes, `to` is appended to the list of `from` (repeats kept) and the in-degree of `to` grows by one, keeping the in-degrees equal to the counted edges |
| TensorGraph.Graph.Sort | packages/tensor/src/helper.ts:17-35 | `sort` run to the end yields the nodes in the order Kahn's algorithm gives and leaves the consumed in-degrees, nodes and edges as specified |
| TensorGraph.SeedQueue | packages/tensor/src/helper.ts:18-23 | the first loop queues the nodes of in-degree 0 in insertion order |
| TensorGraph.ReleaseTargets | packages/tensor/src/helper.ts:27-33 | the inner loop decrements each target and queues those reaching 0 |
| TensorGraph.AddEdgeKeepsValid | packages/tensor/src/helper.ts:8-15 | `addEdge` keeps nodes, edges and in-degrees in agreement |
| TensorGraph.AddEdgeCounts | packages/tensor/src/helper.ts:11-14 | after `addEdge` the count into `to` has grown by one and every other count is unchanged |
| TensorGraph.SeedsMember | packages/tensor/src/helper.ts:18-23 | the seeds are exactly the nodes of in-degree 0 |
| TensorGraph.SeedsInv | packages/tensor/src/helper.ts:18-23 | the seeded queue satisfies the sort invariant |
| TensorGraph.ReleaseLaws | packages/tensor/src/helper.ts:27-33 | each in-degree drops by the number of times the node is listed, the queue only grows, and it grows by exactly the listed nodes that reach 0, once each |
| TensorGraph.ReleaseDegrees | packages/tensor/src/helper.ts:28-30 | releasing the first target, then the rest, lowers each in-degree by the times its node is listed |
| TensorGraph.ReleaseMembers | packages/tensor/src/helper.ts:28-33 | the nodes pushed by releasing a list are exactly the listed ones whose in-degree reached zero, each once |
| TensorGraph.StepKeepsInv | packages/tensor/src/helper.ts:24-34 | one turn of the outer loop keeps the invariant, yields one more node and only appends to what was yielded or queued |
| TensorGraph.Advanced | packages/tensor/src/helper.ts:24-34 | the state after a turn, built from what the inner loop did, satisfies the invariant |
| TensorGraph.TurnCounts | packages/tensor/src/helper.ts:27-33 | after the inner loop every in-degree is the count of edges from nodes not yet yielded, and the nodes pushed are new, are nodes, and are exactly the ones whose count reached zero |
| TensorGraph.StepOrder | packages/tensor/src/helper.ts:25-26 | yielding a node none of whose sources is pending keeps every edge's source before its target |
| TensorGraph.DrainLaws | packages/tensor/src/helper.ts:24-34 | running the loop to the end keeps the invariant, empties the queue and only appends |
| TensorGraph.SortOrder | packages/tensor/src/helper.ts:17-35 | the sorted nodes are distinct graph nodes, each after every source of an edge into it, and every node left out still has a pending source |
| TensorGraph.SortConsumes | packages/tensor/src/helper.ts:17-35 | after `sort`, a node's in-degree is 0 exactly when it was yielded |
| TensorGraph.SortSeedsFirst | packages/tensor/src/helper.ts:18-23 | the nodes that start at in-degree 0 come first, in insertion order |
| TensorGraph.SortedBelow | packages/tensor/src/helper.ts:17-35 | when every edge rises in some rank, every node below any rank bound is yielded |
| TensorGraph.SortAcyclicComplete | packages/tensor/src/helper.ts:17-35 | on an acyclic graph every node is yielded exactly once |
| TensorGraph.SortSkipsCycles | packages/tensor/src/helper.ts:17-35 | no node on a cycle is ever yielded |
| TensorAutograd.BuildGraph | packages/tensor/src/tensor.ts:161-170 | the stack walk from the output node builds, in a fresh `Graph`, the graph the walk specification describes |
| TensorAutograd.Expand | packages/tensor/src/tensor.ts:166-169 | one turn adds an edge from the popped node to each input, in order |
| TensorAutograd.LinkAllLaws | packages/tensor/src/tensor.ts:166-169 | recording one node's inputs makes it and its inputs nodes, extends its edge list by the inputs in order and raises each input's in-degree by its number of occurrences |
| TensorAutograd.WalkLaws | packages/tensor/src/tensor.ts:163-170 | the walk keeps its invariant, ends with an empty stack and only adds nodes |
| TensorAutograd.GraphOfLaws | packages/tensor/src/tensor.ts:160-170 | the built graph is valid; its nodes are at most the output, its edges are the input links of its nodes and point downwards, every node but the output has an edge into it, and the output is a node exactly when it has inputs |
| TensorAutograd.GraphOfRoot | packages/tensor/src/tensor.ts:163-170 | the output is a node of the graph exactly when it has inputs |
| TensorAutograd.WalkGrows | packages/tensor/src/tensor.ts:164-170 | the walk only adds nodes |
| TensorAutograd.GraphOfLeaf | packages/tensor/src/tensor.ts:163-170 | an output without inputs gives the empty graph |
| TensorAutograd.GradientOrder | packages/tensor/src/tensor.ts:160-187 | the sweep order is empty for an output without inputs and led by the output otherwise; it lists each node once, all at most the output, every consumer before its inputs, and holds every input of a listed node |
| TensorAutograd.OrderSpan | packages/tensor/src/tensor.ts:171-172 | the order holds each node of the graph once and respects its edges |
| TensorAutograd.OrderSorted | packages/tensor/src/tensor.ts:171-172 | the order is distinct and respects the edges |
| TensorAutograd.OrderComplete | packages/tensor/src/tensor.ts:171-172 | every node of the graph is in the order, and nothing else |
| TensorAutograd.EdgesDescend | packages/tensor/src/tensor.ts:34-37 | every edge goes from a node to an older one, so the graph is acyclic |
| TensorAutograd.GraphShape | packages/tensor/src/tensor.ts:160-170 | the graph's nodes are at most the output and have their inputs as edges |
| TensorAutograd.OrderConsumersFirst | packages/tensor/src/tensor.ts:171-187 | every consumer of a node comes before it in the order |
| TensorAutograd.OrderClosed | packages/tensor/src/tensor.ts:179-186 | every input of a listed node is listed, so every gradient pushed is later collected |
| TensorAutograd.RootOnlySeed | packages/tensor/src/tensor.ts:171-172 | the output is the only node of in-degree 0 |
| TensorAutograd.RootDegrees | packages/tensor/src/tensor.ts:163-170 | the output has in-degree 0 and every other node a positive one |
| TensorAutograd.OrderedRoot | packages/tensor/src/tensor.ts:171-173 | the output leads the order when it has inputs |
| TensorBackprop.SumAll | packages/tensor/src/tensor.ts:173 | `reduce(add)` over the gradients handed to a node fails on an empty list, is the gradient itself for one, and is well formed when it succeeds |
| TensorBackprop.SumAllCells | packages/tensor/src/tensor.ts:173 | gradients of one size sum cell by cell into a matrix of that size |
| TensorBackprop.SumAllMismatch | packages/tensor/src/tensor.ts:173 | two matrix gradients of different sizes cannot be summed: `DimensionError` |
| TensorBackprop.PushLaw | packages/tensor/src/tensor.ts:181-186 | each input is handed its own gradient once per time it is listed, after what it already held, and nothing else changes |
| TensorBackprop.Visit | packages/tensor/src/tensor.ts:172-186 | one turn of the sweep keeps the pending gradients and the gradient list well formed |
| TensorBackprop.Propagate | packages/tensor/src/tensor.ts:172-187 | the sweep over the order keeps the state well formed |
| TensorBackprop.GradientPass | packages/tensor/src/tensor.ts:160-187 | `computeGradient` keeps the state well formed |
| TensorBackprop.VisitFrame | packages/tensor/src/tensor.ts:173-186 | a turn sets only its own node's gradient, to the sum of what the node was handed, and hands gradients only to the node's inputs |
| TensorBackprop.PropagateFrame | packages/tensor/src/tensor.ts:172-187 | the sweep sets the gradients of the ordered nodes and no other, never unsets one, sets all of them when no error is thrown, and leaves the pending list of a node no visited op uses alone |
| TensorBackprop.VisitCounts | packages/tensor/src/tensor.ts:179-186 | a turn hands an input one gradient per time the node's op lists it, and a node without op hands nothing |
| TensorBackprop.PropagateCounts | packages/tensor/src/tensor.ts:172-187 | a sweep hands a node one gradient per use of it by the ops of the order |
| TensorBackprop.PropagateSums | packages/tensor/src/tensor.ts:172-187 | when consumers come first, every ordered node's gradient is the sum of all it is ever handed |
| TensorBackprop.SweepSumAt | packages/tensor/src/tensor.ts:172-187 | at one node of a consumers-first sweep: the gradient is the sum of its list, whose length is what it held plus its uses |
| TensorBackprop.PassSums | packages/tensor/src/tensor.ts:160-187 | after a pass without error every node the output depends on holds the sum of one gradient per use, plus the seed for the output itself |
| TensorBackprop.LeafPass | packages/tensor/src/tensor.ts:160-172 | on a node without inputs the graph is empty, so no gradient is set, not even the output's |
| TensorBackprop.SweepSeed | packages/tensor/src/tensor.ts:161-174 | a first node handed exactly the seed keeps the seed as its gradient |
| TensorBackprop.SeedPass | packages/tensor/src/tensor.ts:160-174 | on a node with inputs the output's gradient is the seed |
| TensorBackprop.PassUntouched | packages/tensor/src/tensor.ts:160-187 | the gradient of a node outside the order is left alone |
| TensorBackprop.VisitMemo | packages/tensor/src/tensor.ts:179 | a turn does not depend on what realisation later adds to the cache |
| TensorBackprop.PassMemo | packages/tensor/src/tensor.ts:160-187 | the whole pass does not depend on what realisation later adds to the cache |
| TensorBackprop.AddTwiceOrder | packages/tensor/src/tensor.ts:163-172 | `y = add(x, x)` is sorted as `y`, then `x` |
| TensorBackprop.AddTwiceRoot | packages/tensor/src/tensor.ts:173-186 | the turn at `y = add(x, x)` keeps the seed and hands it to `x` twice |
| TensorBackprop.AddTwiceLeaf | packages/tensor/src/tensor.ts:173-177 | the turn at `x` sums its two gradients and stops |
| TensorBackprop.AddTwicePass | packages/tensor/src/tensor.ts:160-187 | back from `y = add(x, x)`, `y` keeps the seed and `x` gets the seed added to itself |
| TensorEngine.Engine.constructor | packages/tensor/src/tensor.ts:14-19 | a new engine holds no tensor and reads the given mode |
| TensorEngine.Engine.NewTensor | packages/tensor/src/tensor.ts:21-32 | `new Tensor(data, { requiresGrad })` appends a node with no op and no inputs, holding the data (if any), the flag and no gradient; nothing else changes |
| TensorEngine.Engine.Realize | packages/tensor/src/tensor.ts:77-88 | the node's value is the value specification's, computed once and cached; everything already cached is kept, and a cached node changes nothing |
| TensorEngine.Engine.RealizeAll | packages/tensor/src/tensor.ts:81 | the inputs' values are read in order, the first failure stops the reading, and only the cache grows |
| TensorEngine.Engine.SetRaw | packages/tensor/src/tensor.ts:111-113 | only the node's cached value is replaced |
| TensorEngine.Engine.Detach | packages/tensor/src/tensor.ts:71-75 | on success a new leaf holding the node's value, with gradient recording off; on failure the error and no new node |
| TensorEngine.Engine.FromOp | packages/tensor/src/tensor.ts:34-44 | a new node for the op over its inputs; lazily it stays uncomputed, eagerly it is realised (its error returned), and with gradient recording off its detached copy is returned; in every mode the earlier nodes' cache only gains values realisation gives |
| TensorEngine.Engine.Backward | packages/tensor/src/tensor.ts:46-49 | the gradients afterwards are those of the gradient pass seeded with `outGrad`, or by default with a new all-ones node of the output's size; a failing value stops it first, leaving the graph and gradients as they were; in every case the cache only gains values realisation gives |
| TensorEngine.Engine.ComputeGradient | packages/tensor/src/tensor.ts:160-188 | the gradients and error are those of the gradient pass specification; the graph and flags are unchanged |
| TensorEngine.Engine.SweepNodes | packages/tensor/src/tensor.ts:172-187 | the loop over the sorted nodes ends in the state of the sweep specification |
| TensorEngine.Engine.VisitNode | packages/tensor/src/tensor.ts:173-186 | one turn ends in the state the turn specification gives |
| TensorEngine.Engine.NewOpNode | packages/tensor/src/tensor.ts:35-37 | a new unrealised node for the op, whose value is the op applied to its inputs' values |
| TensorEngine.PushGradients | packages/tensor/src/tensor.ts:181-186 | the loop hands each input its gradient as the push specification says |
| TensorEngine.OnesLike | packages/tensor/src/tensor.ts:146-154 | a well-formed matrix of the value's size (`[1]` for a number) whose every cell is 1 |
| TensorEngine.Applied | packages/tensor/src/tensor.ts:81 | an op applied to existing nodes gives a well-formed value when it succeeds |
| TensorEngine.AppliedNew | packages/tensor/src/tensor.ts:77-88 | an appended op node realises to the op applied to its inputs, whose values are unchanged by the append |
| TensorEngine.AddTwiceBackward | packages/tensor/test/tensor.test.ts:22-26 | `y = add(x, x)` on a 2x3 matrix, then `backward` with ones: no error, `y` holds the ones and `x` the twos |
| TensorConv1d.Configure | packages/tensor/src/ops/conv/conv1d.ts:24-42 | the options are accepted exactly when padding is not negative and stride is positive (defaults 1, 0 and 0); a negative padding is reported first |
| TensorConv1d.ConfigureAsAsync | packages/tensor/src/ops/conv/conv1d.ts:24-42 | the operator refuses exactly the options `async-math`'s `conv1d` refuses, with the same error, and gives the same result on the defaulted ones |
| TensorConv1d.WindowRows | packages/tensor/src/ops/conv/conv1d.ts:82-86 | the rows of a window that fall on the unpadded input, shifted back by the padding, in increasing order |
| TensorConv1d.MappingSound | packages/tensor/src/ops/conv/conv1d.ts:78-88 | the mapping has an entry exactly for the output rows whose window touches the input, holding the input rows that window covers, in increasing order |
| TensorConv1d.EmptyEntryExample | packages/tensor/src/ops/conv/conv1d.ts:81 | a window ending exactly where the input starts still gets an entry, an empty one |
| TensorConv1d.Windows | packages/tensor/src/ops/conv/conv1d.ts:79-89 | window `i` is the `k` padded rows from `i * stride` |
| TensorConv1d.Regroup | packages/tensor/src/ops/conv/conv1d.ts:90-93 | the `reduce` regroups the windows: matrix `t` holds row `t` of each window |
| TensorConv1d.SavedSpec | packages/tensor/src/ops/conv/conv1d.ts:78-93 | `savedIm2cols` holds one `m x cin` matrix per kernel row, row `i` of matrix `t` being padded row `i * stride + t` |
| TensorConv1d.SavedFacts | packages/tensor/src/ops/conv/conv1d.ts:78-93 | regrouping the cut windows gives the saved matrices just described |
| TensorConv1d.SavedCell | packages/tensor/src/ops/conv/conv1d.ts:89-91 | row `t` of window `i` is padded row `i * stride + t` |
| TensorConv1d.SumMatsRow | packages/tensor/src/ops/conv/conv1d.ts:98-100 | row `i` of the summed products is the sum of their rows `i` |
| TensorConv1d.SumFeatures | packages/tensor/src/ops/conv/conv1d.ts:98-102 | the loop `res = add(res, feats[i])` from `feats[0]` gives the sum of all the products |
| TensorConv1d.ForwardIsConvolution | packages/tensor/src/ops/conv/conv1d.ts:78-102 | the regroup-multiply-add forward pass equals the row-by-row convolution of `async-math` |
| TensorConv1d.RowOfFeatures | packages/tensor/src/ops/conv/conv1d.ts:95-97 | row `i` of product `t` is padded row `i * stride + t` times kernel row `t` |
| TensorConv1d.WeightGradSpec | packages/tensor/src/ops/conv/conv1d.ts:141-151 | one weight-gradient slice per saved matrix |
| TensorConv1d.WeightGradientCorrelates | packages/tensor/src/ops/conv/conv1d.ts:141-151 | after `compute`, the weight gradient at kernel row `t`, input channel `c`, output channel `o` is the dot product of channel `c` of the padded rows under kernel row `t` with output-gradient column `o` |
| TensorConv1d.Conv1dOp.constructor | packages/tensor/src/ops/conv/conv1d.ts:24-42 | the operator holds the accepted options, an empty mapping and no saved matrices |
| TensorConv1d.Conv1dOp.Compute | packages/tensor/src/ops/conv/conv1d.ts:52-103 | the mapping is cleared first; a missing value or a size `getConv1dSize` refuses throws with the mapping empty and the saved matrices untouched; otherwise the mapping and saved matrices are rebuilt as specified above, and the result is `async-math`'s `conv1d` with the operator's options: it succeeds exactly when the weight's row count equals the input's column count, and otherwise throws the mathjs multiply dimension error from the first `matmul` |
| TensorConv1d.Conv1dOp.MapWindows | packages/tensor/src/ops/conv/conv1d.ts:78-89 | the loop over output rows records the mapping and cuts the windows as specified |
| TensorConv1d.Conv1dOp.WeightGradient | packages/tensor/src/ops/conv/conv1d.ts:111-151 | a missing value throws `TensorValueIsNullError`; otherwise slice `t` is `transpose(savedIm2cols[t]) x outGrad` added to zeros |
| TensorConv1d.RowsAtLeastOne | packages/tensor/src/ops/conv/conv1d.ts:62-78 | a kernel that reaches into a non-empty input gives at least one output row, as many as `getConv1dSize` says |
| Conv2dMapping.StartIs | packages/tensor/src/ops/conv/conv2d.ts:81-87 | the first image row of window row `h` is `h * stride - padding` |
| Conv2dMapping.Cells | packages/tensor/src/ops/conv/conv2d.ts:90-97 | the `j` loop keeps the image row's outer entry |
| Conv2dMapping.Touch | packages/tensor/src/ops/conv/conv2d.ts:88-89 | after `mapping.set(ii, mapping.get(ii) ?? new Map())` the row has an outer entry |
| Conv2dMapping.HitsCols | packages/tensor/src/ops/conv/conv2d.ts:80-97 | the windows of one output row covering an image cell, by increasing column, all of them on the image |
| Conv2dMapping.HitsRows | packages/tensor/src/ops/conv/conv2d.ts:79-97 | the windows covering an image cell lie before the output row bound, and cover a cell on the image |
| Conv2dMapping.HitsRowsMembers | packages/tensor/src/ops/conv/conv2d.ts:79-97 | an output position is listed for an image cell exactly when its window covers that on-image cell |
| Conv2dMapping.HitsRowsOrdered | packages/tensor/src/ops/conv/conv2d.ts:79-97 | each list is in strictly increasing row-major order, as the nested `forEach` loops visit the windows |
| Conv2dMapping.HitsColsMembers | packages/tensor/src/ops/conv/conv2d.ts:80-97 | within one output row, a column is listed exactly when its window covers the on-image cell |
| Conv2dMapping.CellsEffect | packages/tensor/src/ops/conv/conv2d.ts:90-97 | the `j` loop appends `(h, w)` to image row `a` only, at the on-image columns it reaches |
| Conv2dMapping.TouchKeeps | packages/tensor/src/ops/conv/conv2d.ts:88-89 | touching a row records no position |
| Conv2dMapping.CellsKeys | packages/tensor/src/ops/conv/conv2d.ts:90-97 | the `j` loop adds no outer entry |
| Conv2dMapping.RowsKeys | packages/tensor/src/ops/conv/conv2d.ts:85-89 | the `i` loop gives every row of its window an outer entry, on the image or not |
| Conv2dMapping.RowsEntries | packages/tensor/src/ops/conv/conv2d.ts:85-98 | the `i` loop appends `(h, w)` at every on-image cell of its first rows |
| Conv2dMapping.ColsKeys | packages/tensor/src/ops/conv/conv2d.ts:80-89 | the `w` loop gives the rows of window row `h` an outer entry when it runs at all |
| Conv2dMapping.WindowEntries | packages/tensor/src/ops/conv/conv2d.ts:81-98 | window `(h, w)` appends itself at every on-image cell it covers |
| Conv2dMapping.ColsEntries | packages/tensor/src/ops/conv/conv2d.ts:80-107 | the `w` loop appends the windows of output row `h` in column order |
| Conv2dMapping.BuildEffect | packages/tensor/src/ops/conv/conv2d.ts:79-108 | after the first `n` output rows, the outer keys are the image rows some window row reaches and each inner list is the row-major list of windows covering the cell |
| Conv2dMapping.MappingSound | packages/tensor/src/ops/conv/conv2d.ts:79-108 | after `compute` the outer keys are exactly the rows some window reaches (padding rows included); each cell lists exactly the windows covering it, in row-major order; rows off the image hold empty maps |
| Conv2dMapping.MappingExample | packages/tensor/src/ops/conv/conv2d.ts:79-108 | on a 3x3 image with a 2x2 kernel, stride 1 and no padding, the centre cell is covered by all four windows and the corner by one |
| Conv2dMapping.HitsExample | packages/tensor/src/ops/conv/conv2d.ts:79-108 | the same two lists, computed from the covering definition |
| TensorConv2d.Configure | packages/tensor/src/ops/conv/conv2d.ts:33-49 | the options are accepted exactly when padding is not negative and stride is positive (defaults 0, 1 and 0); otherwise the assertion message carrying the offending value, padding first |
| TensorConv2d.ConfigureExamples | packages/tensor/src/ops/conv/conv2d.ts:42-48 | `padding: -1` and `stride: 0` are refused with their messages; no options give stride 1, padding 0, padValue 0 |
| TensorConv2d.Conv2dSizeValue | packages/tensor/src/ops/conv/conv2d.ts:75 | `getConv2dSize` on a rank-3 image and a rank-4 kernel gives the two output extents and `cout` |
| TensorConv2d.Conv2dSizeDivision | packages/tensor/src/ops/conv/conv2d.ts:75 | the same extents as `(n + 2p - k) / s + 1` |
| TensorConv2d.Conv2dOp.constructor | packages/tensor/src/ops/conv/conv2d.ts:33-49 | the operator holds the accepted options, an empty mapping and no saved columns |
| TensorConv2d.Conv2dOp.Compute | packages/tensor/src/ops/conv/conv2d.ts:56-115 | the mapping is cleared first; a missing value throws `TensorValueIsNullError`; otherwise the result is the `im2col`-matmul-reshape specification, the mapping is the covering map and the saved columns are `im2col`'s when it succeeds |
| TensorConv2d.Conv2dOp.FillMapping | packages/tensor/src/ops/conv/conv2d.ts:79-108 | the nested loops over output positions build the covering map from the cleared one |
| TensorConv2d.Conv2dOp.MapWindow | packages/tensor/src/ops/conv/conv2d.ts:81-99 | the window of `(h, w)` records itself over its rows as the row fold says |
| TensorConv2d.Conv2dOp.MapRows | packages/tensor/src/ops/conv/conv2d.ts:85-99 | the `i` loop ends in the state of the row fold |
| TensorConv2d.Conv2dOp.MapRow | packages/tensor/src/ops/conv/conv2d.ts:90-98 | the `j` loop ends in the state of the cell fold |
| TensorConv2d.Conv2dOp.Gradient | packages/tensor/src/ops/conv/conv2d.ts:123-185 | a missing value throws `TensorValueIsNullError`; otherwise the result is the gradient specification over the saved columns |
| TensorConv2d.WindowIsPatch | packages/tensor/src/ops/conv/conv2d.ts:109 | a window inside the image holds its `kh` kernel rows of `kw * c` cells, each a run of the image buffer |
| TensorConv2d.LastOriginCounted | packages/ndarray/src/ops.rs:368-370 | with a stride no larger than the kernel, the candidate origins below `h / s` include every origin that fits |
| TensorConv2d.ForwardColumns | packages/tensor/src/ops/conv/conv2d.ts:109 | with padding 0, `im2col` of a contiguous image succeeds with one contiguous row per output position, each that position's window |
| TensorConv2d.Product4 | packages/tensor/src/ops/conv/conv2d.ts:110 | the cell count of a four-axis shape |
| TensorConv2d.Reshape2 | packages/tensor/src/ops/conv/conv2d.ts:110 | asking for `[p, q]` that covers the buffer gives a contiguous `p x q` array over it |
| TensorConv2d.Reshape3 | packages/tensor/src/ops/conv/conv2d.ts:112 | asking for `[p, q, r]` gives a contiguous `p x q x r` array over the buffer |
| TensorConv2d.Conv2dForward | packages/tensor/src/ops/conv/conv2d.ts:56-115 | with padding 0 on a contiguous image and kernel, `compute` succeeds with a contiguous `[hout, wout, cout]` array of `getConv2dSize`'s extents whose cell `(a, b, o)` is the dot product of window `(a, b)` with kernel column `o` |
| TensorConv2d.ForwardProduct | packages/tensor/src/ops/conv/conv2d.ts:109-111 | the windows, the flattened kernel and their product, each output cell being a window against a kernel column |
| TensorConv2d.ForwardSize | packages/tensor/src/ops/conv/conv2d.ts:75 | with padding 0 each output extent is at least 1 and at most the image's |
| TensorConv2d.ForwardKernel | packages/tensor/src/ops/conv/conv2d.ts:110 | the `[kh * kw * cin, cout]` reshape of a contiguous kernel is the same buffer as a contiguous matrix |
| TensorConv2d.MatmulContiguous | packages/tensor/src/ops/conv/conv2d.ts:111 | `matmul` of two contiguous matrices that agree is their product, contiguous |
| TensorConv2d.ForwardCell | packages/tensor/src/ops/conv/conv2d.ts:111 | row `a * wout + b` of the product against kernel column `o` is output cell `(a, b, o)` |
| TensorConv2d.PaddedComputeFails | packages/tensor/src/ops/conv/conv2d.ts:109-111 | with a positive padding `im2col` pads the channels instead of the rows and columns, so the product reads past the kernel and `compute` fails with `index out of bounds` |
| TensorConv2d.PaddedCols | packages/tensor/src/ops/conv/conv2d.ts:109 | with a positive padding `im2col` succeeds with at least one window row of kh·kw·(cin + 2p) cells |
| TensorConv2d.MatmulTooWide | packages/tensor/src/ops/conv/conv2d.ts:110-111 | a product whose left rows are longer than the kernel matrix reads past it and fails with `index out of bounds` |
| TensorConv2d.ChannelPaddedRows | packages/ndarray/src/ops.rs:368-396 | the number of windows `im2col` finds is positive |
| TensorConv2d.WiderRows | packages/tensor/src/ops/conv/conv2d.ts:110-111 | rows widened by channel padding need more kernel cells than the kernel holds |
| TensorConv2d.CellInImage | packages/tensor/src/ops/conv/conv2d.ts:66 | a cell of a row-major `h x w x c` image lies in its buffer |
| TensorConv2d.RowMajorOf | packages/tensor/src/ops/conv/conv2d.ts:66 | a cell's row-major position lies in the buffer and is read back as that cell |
| TensorConv2d.RowMajorSplit | packages/tensor/src/ops/conv/conv2d.ts:66 | every buffer position is some cell's row-major position |
| TensorConv2d.PaddedPrefix | packages/tensor/src/ops/conv/conv2d.ts:69-73 | the first `n` cells of the padded image |
| TensorConv2d.PaddedPrefixAt | packages/tensor/src/ops/conv/conv2d.ts:69-73 | cell `i` of a prefix is the padded image's cell `i` |
| TensorConv2d.PaddedImage | packages/tensor/src/ops/conv/conv2d.ts:69-73 | the image padded by `p` rows above and below and `p` columns on each side is contiguous with extents grown by `2p` |
| TensorConv2d.PaddedImageCell | packages/tensor/src/ops/conv/conv2d.ts:69-73 | each cell of the padded image is the pad value off the image and the image cell on it |
| TensorConv2d.PaddedByNothing | packages/tensor/src/ops/conv/conv2d.ts:69-73 | padding by 0 leaves the image as it is |
| TensorConv2d.PaddedExtents | packages/common/src/conv.ts:30-46 | padding by `p` in `getConv2dSize` is growing both image extents by `2p` |
| TensorConv2d.FixedAgreesUnpadded | packages/tensor/src/ops/conv/conv2d.ts:56-115 | with padding 0 the corrected pass is the one `compute` performs |
| TensorConv2d.Conv2dFixedForward | packages/tensor/src/ops/conv/conv2d.ts:56-115 | the corrected pass succeeds with `getConv2dSize`'s extents, each cell being a window of the padded image against a kernel column |
| TensorConv2d.PaddedImageSize | packages/common/src/conv.ts:30-46 | the padded image's unpadded extents are the image's padded ones |
| TensorConv2d.FixedIsPadded | packages/tensor/src/ops/conv/conv2d.ts:69-73 | the corrected pass is the unpadded one on the padded image |
| TensorConv2d.PaddedForward | packages/tensor/src/ops/conv/conv2d.ts:56-115 | the unpadded pass on the padded image succeeds with the convolution cells |
| TensorConv2d.GrownFits | packages/tensor/src/ops/conv/conv2d.ts:69-73 | the padded image fits the kernel without further padding |
| TensorConv2d.GrownSize | packages/common/src/conv.ts:30-46 | `getConv2dSize` with padding `p` equals it without padding on an image grown by `2p` |
| TensorConv2d.UnpaddedSize | packages/common/src/conv.ts:30-46 | `getConv2dSize` with no padding as integer divisions |
| TensorConv2d.TransposedRow | packages/tensor/src/ops/conv/conv2d.ts:174 | row `u` of a transpose is column `u` |
| TensorConv2d.Reshape4 | packages/tensor/src/ops/conv/conv2d.ts:179 | asking for `[p, q, r, t]` that covers the buffer gives a contiguous array over it |
| TensorConv2d.DeconvKernelSucceeds | packages/tensor/src/ops/conv/conv2d.ts:144 | the `[kh * kw * cin, cout]` reshape of a kernel holding that many cells succeeds |
| TensorConv2d.FlatGradMatrix | packages/tensor/src/ops/conv/conv2d.ts:176 | `outGrad.flatten().reshape([hout * wout, cout])` of a contiguous gradient is its buffer as a contiguous matrix |
| TensorConv2d.Conv2dWeightGradient | packages/tensor/src/ops/conv/conv2d.ts:123-185 | with saved columns the gradient succeeds: the input gradient is zero and the weight gradient, shaped `[kh, kw, cin, cout]`, has at `(u, o)` the dot product of saved column `u` with output-gradient column `o` |
| TensorConv2d.WeightGradCells | packages/tensor/src/ops/conv/conv2d.ts:174-179 | each cell of `transpose(cols) x flatGrad` is that dot product |
| TensorConv2d.GradientWithoutForward | packages/tensor/src/ops/conv/conv2d.ts:174-183 | with no saved columns the weight gradient is undefined and the input gradient zero |
| NnLoss.ReductionNamed | packages/nn/src/loss/nllloss.ts:21-25 | the operator accepts exactly `mean` and `sum`, and refuses any other name with the assertion's message |
| NnLoss.Classes | packages/nn/src/loss/nllloss.ts:39 | the target's labels read as class numbers below the class count, one per sample |
| NnLoss.Picked | packages/nn/src/loss/nllloss.ts:39 | one pick per sample |
| NnLoss.PickedAt | packages/nn/src/loss/nllloss.ts:39 | pick `i` is the prediction's entry `[i, label_i]` |
| NnLoss.Compute | packages/nn/src/loss/nllloss.ts:27-47 | a missing value throws `TensorValueIsNullError`; the loss succeeds exactly when the values are present, the prediction is 2-D, the target 1-D and their batch sizes agree, and is then a one-cell array |
| NnLoss.SpanBelow | packages/nn/src/loss/nllloss.ts:39 | row `i` of a `[m, n]` buffer lies inside it |
| NnLoss.Grid | packages/nn/src/loss/nllloss.ts:32 | the size of a rank-2 shape is the product of its extents |
| NnLoss.MeanIsSumOverBatch | packages/nn/src/loss/nllloss.ts:41-44 | the mean loss is the sum loss divided by the batch size |
| NnLoss.ComputeExample | packages/nn/src/loss/nllloss.ts:39-44 | two samples labelled 1 and 0 on `[[-1, -2], [-3, -4]]` give 5 summed and 2.5 averaged |
| NnLoss.OneHot | packages/nn/src/loss/nllloss.ts:65-66 | a row of zeros holding `c` in the labelled column only |
| NnLoss.Rows | packages/nn/src/loss/nllloss.ts:61-78 | the gradient's rows, one per label |
| NnLoss.Gradient | packages/nn/src/loss/nllloss.ts:53-83 | the method ends with the gradient specification: a missing value throws, otherwise a zero array of the prediction's size written at `[index, label]` with `-g / b` (mean) or `-g` (sum) |
| NnLoss.WriteLabels | packages/nn/src/loss/nllloss.ts:61-78 | the label loop writes `c` at `[index, label]` of a zero buffer, giving the one-hot rows |
| NnLoss.Finished | packages/nn/src/loss/nllloss.ts:64-78 | after the last label no zero row is left |
| NnLoss.Zeros | packages/nn/src/loss/nllloss.ts:61 | `rows` zero rows of `n` cells |
| NnLoss.Scatter | packages/nn/src/loss/nllloss.ts:64-69 | one write at `[index, label]` turns the next zero row into its one-hot row |
| NnLoss.RowWritten | packages/nn/src/loss/nllloss.ts:65-68 | writing `c` in the first zero row gives the one-hot row |
| NnLoss.RowsDot | packages/nn/src/loss/nllloss.ts:61-78 | pairing the gradient rows with a buffer adds up `c` times each pick |
| NnLoss.LastRow | packages/nn/src/loss/nllloss.ts:39 | a `[k + 1, n]` buffer is its first `k` rows followed by its last |
| NnLoss.RowsDotSplit | packages/nn/src/loss/nllloss.ts:61-78 | pairing the rows splits into the rows before the last and the last |
| NnLoss.PickedSplit | packages/nn/src/loss/nllloss.ts:39 | the picks of a buffer are those of its front rows followed by the last row's |
| NnLoss.Multiples | packages/nn/src/loss/nllloss.ts:67-75 | each entry scaled by `c` |
| NnLoss.SumMultiples | packages/nn/src/loss/nllloss.ts:42-44 | scaling every entry scales the sum |
| NnLoss.DotConcat | packages/nn/src/loss/nllloss.ts:61-78 | pairing concatenations pairs their parts |
| NnLoss.OneHotDot | packages/nn/src/loss/nllloss.ts:65-66 | a one-hot row paired with a row is `c` times its labelled entry |
| NnLoss.GradientExact | packages/nn/src/loss/nllloss.ts:27-83 | the loss is linear in the prediction and the gradient is its exact derivative: moving the prediction by `d` moves the loss, times the output gradient, by the gradient paired with `d` |
| NnLoss.CellsExact | packages/nn/src/loss/nllloss.ts:39-78 | the same on the buffers |
| NnLoss.LossMoved | packages/nn/src/loss/nllloss.ts:41-44 | moving the picks moves the reduced loss, times `g`, by the step times the picks' moved total |
| NnLoss.PickedSumShifted | packages/nn/src/loss/nllloss.ts:39 | picking from a moved buffer moves the sum of the picks by the picks of the move |
| NnLoss.ScaledMoved | packages/nn/src/loss/nllloss.ts:41-44 | the reduced loss moves by the gradient step times the moved total |
| NnLoss.MeanMoved | packages/nn/src/loss/nllloss.ts:42-67 | `g * (-(x + dx) / b + x / b) == g * (-1 / b) * dx` |
| NnLoss.Lifted | packages/nn/src/loss/nllloss.ts:14-16 | a 1-D prediction of `n` entries is lifted to `[1, n]`; any other value is unchanged |
| NnLoss.VectorPrediction | packages/nn/src/loss/nllloss.ts:12-18 | one sample given as a vector: `forward` as written reshapes it into a local but passes the original on, which fails with the rank error |
| NnLoss.ForwardOneSample | packages/nn/src/loss/nllloss.ts:12-18 | the same sample through the corrected `forward`, which passes the reshaped `[1, n]` prediction on: the loss is minus the labelled entry |
| NnModule.GetParameters | packages/nn/src/modules/module.ts:16-25 | the accumulator loop over the properties returns the depth-first list of the module's tensors in property order |
| NnModule.Parameters | packages/nn/src/modules/module.ts:9-11 | `parameters()` is that list for the module itself |
| NnModule.ParamsOwned | packages/nn/src/modules/module.ts:16-25 | a tensor is listed exactly when the module tree holds it at some depth |
| NnModule.OwnedAt | packages/nn/src/modules/module.ts:18-23 | a module holds a tensor through one of its own properties |
| NnModule.PropsOwned | packages/nn/src/modules/module.ts:18-23 | the list of the first `k` properties holds a tensor exactly when one of them does |
| NnModule.PropsAppend | packages/nn/src/modules/module.ts:18-23 | the lists of consecutive properties are concatenated in order |
| NnModule.SingleProp | packages/nn/src/modules/module.ts:19-22 | a lone property contributes its own list |
| NnModule.OtherIgnored | packages/nn/src/modules/module.ts:19-22 | a property that is neither a tensor nor a module adds nothing |
| NnModule.SubModuleSpliced | packages/nn/src/modules/module.ts:21-22 | a sub-module's parameters are spliced in at its own position |
| NnModule.ParamsCounted | packages/nn/src/modules/module.ts:16-25 | the list is as long as the tree has tensor properties: none is dropped or repeated |
| NnModule.PropsCounted | packages/nn/src/modules/module.ts:18-23 | the same for a suffix of the properties |
| NnModule.MultiPathParameters | packages/nn/test/autograd.test.ts:46-52 | `MultiPathScaleAdd` lists four parameters: `s` and `b` of `path0`, then of `path1` |
| NnModule.PairParams | packages/nn/test/autograd.test.ts:6-13 | `ScaleAdd` lists `s`, then `b` |
| NnOptim.Cleared | packages/nn/src/optim/index.ts:8-11 | the gradient list keeps its length |
| NnOptim.ClearedAt | packages/nn/src/optim/index.ts:8-11 | after `resetGrad` a parameter has no gradient and every other node keeps its own |
| NnOptim.ClearedTwice | packages/nn/src/optim/index.ts:8-11 | resetting twice is resetting once |
| NnOptim.Optimizer.constructor | packages/nn/src/optim/index.ts:3-6 | the optimizer holds the engine and the parameter list |
| NnOptim.Optimizer.ResetGrad | packages/nn/src/optim/index.ts:8-11 | each parameter's gradient becomes null; values, graph and other gradients are unchanged |
| NnOptim.Update | packages/nn/src/optim/sgd.ts:15-17 | a successful update is a well-formed value |
| NnOptim.UpdateCells | packages/nn/src/optim/sgd.ts:15-17 | with a gradient of the parameter's size every cell moves by the gradient's cell times `-lr`; sizes that differ fail |
| NnOptim.UpdateNeedsGradient | packages/nn/src/optim/sgd.ts:16 | without a gradient the update throws a `TypeError` |
| NnOptim.UpdateByNothing | packages/nn/src/optim/sgd.ts:15-17 | a learning rate of zero leaves the parameter as it is |
| NnOptim.Updates | packages/nn/src/optim/sgd.ts:14-18 | update `i` is parameter `i`'s value plus its gradient times `-lr`, all read from the state before the step |
| NnOptim.Written | packages/nn/src/optim/sgd.ts:14-18 | the cache keeps its length |
| NnOptim.FirstError | packages/nn/src/optim/sgd.ts:14 | no error exactly when every update succeeds, and otherwise the error of some failed update |
| NnOptim.WrittenAt | packages/nn/src/optim/sgd.ts:14-18 | after the step a node that is no parameter keeps its cache, and a parameter holds its update, or its old cache when the update failed |
| NnOptim.UpdatesConsistent | packages/nn/src/optim/sgd.ts:14-18 | a parameter listed twice gets the same update both times |
| NnOptim.StepAfterReset | packages/nn/src/optim/index.ts:8-11 | `step` right after `resetGrad` changes no value, and fails when there is any parameter |
| NnOptim.SGD.constructor | packages/nn/src/optim/sgd.ts:6-11 | the optimizer holds the engine, the parameters and the learning rate |
| NnOptim.SGD.Step | packages/nn/src/optim/sgd.ts:13-19 | every parameter's cache is set to its update when it succeeds; the error returned is the first failure; graph and gradients are unchanged |
| NnOptim.ReadUpdates | packages/nn/src/optim/sgd.ts:14-17 | each parameter's update `value + gradient·(-lr)` is computed from the state before the step, and every successful one is well formed |
| NnOptim.WriteUpdates | packages/nn/src/optim/sgd.ts:14-18 | every parameter whose update succeeded gets it as its cache; the engine stays valid and nothing else changes |
| NnOptim.DefaultRate | packages/nn/src/optim/sgd.ts:8 | `new SGD(params)` steps with a learning rate of 0.01 |

## Left out

- Element arithmetic is exact over `real`. The `f32`/`f64` rounding of the Rust and typed-array buffers and the integer truncation of integer typed arrays are not modelled.
- `async`/`Promise` plumbing is flattened into sequential calls. `Promise.all` over several parameters or inputs is modelled as reading everything first, in list order.
- The transcendental operations are not modelled, because nothing about them can be stated exactly over `real`:
  - `exp`, `ln`/`log`, `sigmoid`, `tanh`, `pow`, `softmax` and `sum` of `packages/ndarray/src/ops.rs`;
  - the same operations of `ndarray-js`;
  - the tensor ops `log`, `tanh` and `softmax`;
  - `softmax` and `log` of `async-math`.
- `NdArray::rand`, `rand_between`, `normal` and `randn` draw random numbers. The normal generator in `packages/ndarray/src/utils.rs` does too. None of them is modelled.
- `NdArray::map` calls a JavaScript function through the wasm boundary. It is not modelled.
- The `dbg!`/`println!` output of the Rust im2col is not modelled.
- JsNdArray.New: models the constructor with its nested branch corrected to store every leaf in row-major order (see Findings). As written the branch flattens one level, which agrees only on arrays of rank 1 and 2 (`JsNdArray.StoredCellsShallow`). On rank 3 and above it stores rows, not numbers (`JsNdArray.StoredCellsRank3`).
- JsNdArray.NewThenToArray: the round trip is proved for the corrected constructor. As written it holds only on arrays of rank 1 and 2.
- JsNdArray.At: a read past the end of the buffer is 0 in the model. In the source the typed array returns `undefined`, which `value` (`JsNdArray.Value`) then stores into its typed array: NaN in a float array, 0 in an integer one.
- JsIm2col.Lift: the corrected lift. As written every [N, C] input throws in `reshape` (`JsIm2col.LiftAsWrittenRejectsRankTwo`).
- JsIm2col.Im2col: runs on the corrected lift, so on an [N, C] input it returns the windows where the code as written throws.
- JsIm2col.SequenceWindows: states the result of the corrected lift. The code as written throws on every [N, C] input.
- JsOps.MatmulLoop: models the loop after `if (WASM)`, which the constant `WASM = true` never reaches. A read past an operand is 0 there. The source would read `undefined`, which makes the sum NaN (0 once stored in an integer array).
- ConvGeometry.PoolSizeSpec: requires at least as many kernel extents as image extents and a non-zero stride on every axis (`Strided`). Otherwise the source computes with `undefined` (NaN) or divides by zero (Infinity).
- RustIm2col: the second padding entry (`padding[1]`) is never applied by the code, and the model keeps it that way.
- The `async-math` wrappers of mathjs (add, dot, matmul, multiply, negative) are not modelled. Where a modelled function calls one, it is replaced by its mathematical meaning on rectangular nested arrays.
- ConvGeometry.ConvSizeSpec: requires at least as many kernel extents as image extents and a non-zero stride. Otherwise the source computes with `undefined` (NaN) or divides by zero (Infinity).
- AsyncConv1d: requires rectangular matrices, the invariant of a mathjs `Matrix`. Every kernel matrix has the same row count, which may differ from the input's column count; that case is modelled as the `multiply` error.
- AsyncConv1d.MultiplyMismatch: mathjs is not part of this model. The message is the one mathjs `multiply` gives for two matrices whose inner sizes differ.
- AsyncNdArray.Permute: requires every order entry to be an axis. The source's order check only looks at the length and distinctness, so an out-of-range entry reaches mathjs with `undefined`.
- AsyncNdArray.Permute, AsyncNdArray.PermuteSpec and AsyncNdArray.T: require a regular nested array (`Conforms` to its mathjs `size`). mathjs `size` reads only element 0 of each level, so the source also accepts a ragged array. It then stores each leaf at its reordered path: a short row leaves zeros, a long last-level row extends the result array, and a path that is too short or leaves the result above the last level throws a `TypeError`. Ragged inputs are not modelled.
- AsyncNdArray.SetAt: an index outside the array leaves it unchanged. In the source, JavaScript extends the array or throws a `TypeError`.
- TensorConv1d.Conv1dOp.Compute: requires a kernel no longer than the padded input. When the kernel overhangs, the source reads `undefined` rows.
- TensorConv1d.Conv1dOp.WeightGradient: requires as many kernel matrices as saved windows, each of `cin` rows, which holds after a successful `compute` with the same weight. After a `compute` that threw the multiply dimension error, the saved matrices have `cin` columns while the zero slices have the weight's rows, and mathjs `add` throws a size mismatch. Called before any `compute`, `savedIm2cols` is empty and the source's weight gradient stays zero. With more saved matrices than kernel matrices, mathjs `add` throws on `undefined`. None of these cases is modelled.
- TensorConv2d.Conv2dOp.Compute, TensorConv2d.Conv2dSpec and TensorConv2d.MappingOf: require output extents that are not negative (`Spans`). When the kernel is larger than the padded image by more than the stride, `getConv2dSize` gives a negative extent, and lodash `range` of a negative count counts down from 0. The source then records windows at negative output positions in the mapping before `im2col`, the product and the final `reshape` decide the result. That case is not modelled.
- The input-gradient loop of `Conv1d.gradient` (`packages/tensor/src/ops/conv/conv1d.ts:128-138`) is not modelled. It adds the contribution of kernel row 0 for every covered row, inside `async` callbacks that nobody awaits, so its result depends on scheduling.
- TensorConv2d.Conv2dSpec: the reshapes use the corrected `RustNdArray.ReshapeFixed`. On the requests built here it equals the code as written (`RustNdArray.ReshapeAgreesNonNegative`), unless an extent reaches 2^31 and wraps to a negative `i32`; that case is not modelled.
- TensorConv2d.Conv2dOp.Gradient: the input gradient is modelled as written. It is always zero, because `this.mapping[h]` indexes a `Map` like a plain object and so never finds an entry. The scatter the loop evidently intends is not modelled.
- TensorOps.Gradient: the `ReshapeTo` case is the corrected rule, the output gradient reshaped to the input's size. As written, `reshape.ts` calls `reshape` on a tensor, which has no such method, so a backward pass that reaches a `reshape` node throws a `TypeError` (`TensorOps.ReshapeGradientAsWritten`). `TensorEngine.Engine.Backward` and the backward-pass lemmas use the corrected rule.
- TensorOps.Data: a tensor value is modelled as a number or one dense array of cells (`Scalar` or `Dense`), with one interface. The source mixes two kinds of value: mathjs `Matrix` objects (`size()`, read in `packages/tensor/src/tensor.ts`) and the Rust-backed `NdArray` (`.shape`, `.buffer` and `.slice`, read in `flatten.ts` and `nllloss.ts`). An op that receives the other kind throws in the source, and the model does not capture that.
- TensorValues.MemoKeepsValue: assumes a cached value is never changed in place. In the source, `compute` of `reshape` (`reshape.ts:15`) and of `flatten` (`flatten.ts:15`) call `reshape` on the input's cached matrix without copying. mathjs `DenseMatrix.reshape` without its copy flag reshapes that matrix in place. The input's cached value then takes the output's shape and the two share one object. The model gives every node its own value.
- TensorOps.MatProduct: only a product with a number or of two matrices (rank 2) is modelled. A rank-1 operand fails in the model, while mathjs `multiply` also takes vectors (vector times vector, matrix times vector, vector times matrix).
- TensorEngine: the `Tensor` methods `T`/`transpose`, `toArray` and `sum` only forward to mathjs. They are not modelled beyond `shape`.
- TensorEngine.Engine.Backward: gradients are held as summed values, not as new lazily realised `add` nodes.
- NnLoss.Gradient: the label writes happen in `async` callbacks that nobody awaits. The model performs them in label order before returning.
- NnLoss.Compute: requires every label to be a class index of the prediction (`Addressable`). A label out of range reads `undefined` in the source and gives NaN.
- The `Linear`, `Conv1d` and `Conv2d` modules of `packages/nn` only draw random weights and call an operator. `L2Loss` and the cross-entropy loss are compositions of modelled operators. None of them is modelled.
- NnModule: `forIn` also visits inherited enumerable properties, and a module graph with a cycle would not terminate. The model takes a module to be a finite tree of its own properties.
- NnOptim.SGD.Step: every update is computed from the state before the step, then written. With a parameter listed twice this equals the source's concurrent `Promise.all`.
- `packages/tensor/src/module.ts` and `packages/optim` depend on a `Parameter` type that is not part of this model.

## Findings

| source | as written | input that shows it | evidently intended | confidence | as-written member | corrected member |
|---|---|---|---|---|---|---|
| packages/ndarray/src/ndarray.rs:149-161 | `reshape` seeds the known-size product with `shape[0]` unchecked, so a leading `-1` makes the product negative and the inferred axis 0 | `[-1, 2]` on six cells gives shape `[0, 2]` | the inferred axis is `len / product of the known axes` | high, not executed | RustNdArray.ReshapeLeadingUnknown | RustNdArray.ReshapeFixedSucceeds |
| packages/ndarray/src/ops.rs:350 | the rank-2 im2col loop runs `len / step` times (floor), dropping the last window when the kernel is shorter than the stride | five one-channel rows, kernel 1, stride 2: 2 windows instead of 3 | `(len - chunk) / step + 1` windows | high, not executed | RustIm2col.Im2col2DropsLastWindow | RustIm2col.Im2col2FixedWindows |
| packages/ndarray-js/src/ndarray.ts:58-62 | `reshape` without `-1` on a discontinuous view keeps the raw buffer instead of materialising the view | `reshape(6)` of the transpose of `[[1, 2, 3], [4, 5, 6]]` | the view's elements in row-major order, as `reshape(-1)` gives | high, not executed | JsNdArray.ReshapeSkipsMaterialising | JsNdArray.ReshapeFixedKeepsValue |
| packages/ndarray-js/src/ndarray.ts:31-34 | the constructor flattens a nested array only one level | the rank-3 input of the test stores rows, not numbers, and leaves zeros | all leaves in row-major order | high, not executed | JsNdArray.StoredCellsRank3 | JsNdArray.NewNested |
| packages/ndarray-js/src/ops/im2col.ts:10-11 | a rank-2 input is lifted with `reshape([1, ...shape])`, passing one array to a variadic `reshape`, which then fails | the package's own 2-D test: arange(10) as `[5, 2]`, kernel `[3]` | lift `[N, C]` to `[1, N, C]` | high, not executed | JsIm2col.SequenceExampleAsWritten | JsIm2col.SequenceExample |
| packages/ndarray-js/src/ops/relu.ts:7-10 | `relu` maps the raw buffer and keeps the input's view, ignoring its strides | the transpose of `[[1, 2, 3], [4, 5, 6]]` | the `relu` of each logical element | medium, not executed | JsOps.ReluOfTranspose | JsOps.ReluFixedReadsValue |
| packages/tensor/src/ops/conv/conv2d.ts:109 | `im2col` pads the last axis of `[h, w, cin]`, the channels, so the product no longer matches the kernel | any positive padding | pad the rows and columns | high, not executed | TensorConv2d.PaddedComputeFails | TensorConv2d.Conv2dFixedForward |
| packages/nn/src/loss/nllloss.ts:12-18 | `forward` reshapes a vector prediction into `_pred` but passes the original `pred` on | one sample given as a vector of class scores | pass the reshaped `[1, n]` prediction | high, not executed | NnLoss.VectorPrediction | NnLoss.ForwardOneSample |
| packages/tensor/src/ops/reshape.ts:18-25 | the gradient rule calls `outGrad.reshape(...)` on a tensor; `Tensor` has a `shape` getter but no `reshape` method, so the call is a `TypeError` | a `[4]` input reshaped to `[2, 2]` | the output gradient reshaped to the input's size | high, not executed | TensorOps.ReshapeGradientAsWrittenThrows | TensorOps.ReshapeRoundTrip |
