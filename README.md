# Convolution engine layout logic (AVX-512 neural kernels of Simd), in Dafny

This project models the integer and memory-layout side of the AVX-512
convolution engine in `SimdAvx512fNeural.cpp`. That code does no float
arithmetic: it computes indices, chooses sizes and moves data around. The model
covers:

- the im2col packer of the unpacked GEMM strategy (`Ncf::Ver0::PrepareB`);
- the weight interleave (`Ncf::Ver1::PrepareA`), including its AVX and SSE
  unpack/permute transposes;
- the two-phase packer of the blocked GEMM strategy (`Ncf::Ver1::PrepareB`),
  with its general path, its unit-step `memcpy` path and its column-block
  repack;
- the zero-bordered copy of the direct strategy (`Ncf::Ver2::PrepareB`);
- the strategy selector (`Ncf::Opt` with `Ver2::Preferable`);
- the scratch arena (`Ncf::Data`);
- the preparation half of `NeuralConvolutionForward`, where an operand aliases
  the caller's array when nothing needs packing;
- the row ring `Buffer<count>`, the update schedule of
  `NeuralAddConvolutionBackwardLarge`, and `LoadWeightsBackward`.

Elements are an opaque type `T`, with a `zero` value standing for `0.0f`.
Geometry is unbounded `nat`. The source's `size_t` wrap-around, which it uses
to test `0 <= x < bound` with a single `x < bound`, is written as an explicit
range check on `int`. The one unintended wrap-around, the row-copy length
`bodySize` of `Ver1::PrepareB`, is modelled with its wrapped value (see
Findings); every other `size_t` quantity is an unbounded `nat`. `F = 16` floats per register and
`SIMD_ALIGN = 64` bytes are the AVX-512 build's constants. They are defined in
headers that are not part of this model, and appear here as constants.

Modules, one per component:

- `Common`: `AlignHi`/`AlignLo`, mixed-radix division lemmas, and
  `memset`/`memcpy`/vector store on arrays.
- `Geometry`: the layer geometry, the caller contract the entry point
  asserts, and the logical patch matrix `PatchEntry` that every packer is
  proved against.
- `Ver0`, `Ver1`, `Ver2` and `Lanes`: the packers, as loops over arrays with
  a write cursor, each proved against a flat entry function.
- `Strategy`: `Opt` and `Preferable`, as functions.
- `Arena`: `Data`, as a class, and its decisions as a function on byte
  addresses.
- `Facade`: the preparation half of `NeuralConvolutionForward`.
- `RowBuffer`: the ring, as a class over an array of slot offsets.

Where the design description and the code differ, the model follows the code:

- The blocked GEMM always packs patches in blocks of 16 (`cellB = 16`), not
  "8 or 16".
- The last weight block of fewer than 4 output channels is interleaved over
  its `n` rows (`dst[i*K + k*n + c]`), not packed row by row.
- A misaligned caller buffer is not rejected. The required size grows by
  `SIMD_ALIGN`, and the buffer is still reused if it is that large.
- The size written back after a call with a null buffer holds no alignment
  slack. A buffer of exactly that size is reused only when it is
  `SIMD_ALIGN`-aligned; a misaligned one makes the arena allocate its own
  block on every call.
- The ring is `Buffer<coreX>` and holds `coreX` rows of the original `width`.

## Model

| member | source | states |
|---|---|---|
| `Common.AlignHi` | src/Simd/SimdAvx512fNeural.cpp:2489 | `AlignHi(x, align)` is a multiple of align, at least x and less than x+align: the least such multiple. |
| `Common.AlignLo` | src/Simd/SimdAvx512fNeural.cpp:1927 | `AlignLo(x, align)` is a multiple of align, at most x and greater than x-align: the greatest such multiple. |
| `Common.Fill` | src/Simd/SimdAvx512fNeural.cpp:2307 | `memset(dst + at, 0, len)`: entries `[at, at+len)` become the value, and every other entry keeps its value. |
| `Common.Copy` | src/Simd/SimdAvx512fNeural.cpp:2312 | `memcpy` between distinct buffers: `dst[to+i] = src[from+i]` for i < len, and every other entry of dst keeps its value. |
| `Common.Store` | src/Simd/SimdAvx512fNeural.cpp:2080-2081 | A vector store of the lanes `v` at `at`: `dst[at+i] = v[i]`, and every other entry keeps its value. |
| `Geometry.PatchEntryAt` | src/Simd/SimdAvx512fNeural.cpp:1697-1725 | The loop coordinates (dstRow, dstCol, channel, kernelRow, kernelCol) name pixel `dstRow*dstWidth+dstCol` and tap `(channel*kernelY+kernelRow)*kernelX+kernelCol`. Both are in range, and that patch entry is the source sample at `(dstRow*strideY-padY+kernelRow*dilationY, dstCol*strideX-padX+kernelCol*dilationX)` when it lies inside the source, and zero otherwise. |
| `Geometry.ShortcutEntry` | src/Simd/SimdAvx512fNeural.cpp:1764-1770 | For a 1×1 kernel with unit strides and no padding, patch entry (pixel i, tap k) is `src[k*N+i]`. |
| `Ver0.CursorEntry` | src/Simd/SimdAvx512fNeural.cpp:1694-1728 | The `dst++` cursor of the nested loops, at given indices, is below N·K and addresses exactly the tap those indices name. |
| `Ver0.CursorCarry` | src/Simd/SimdAvx512fNeural.cpp:1694-1728 | Each loop's exit position is the next outer iteration's start, and the final position is N·K, so the cursor writes every entry once. |
| `Ver0.PrepareB` | src/Simd/SimdAvx512fNeural.cpp:1691-1772 | Writes exactly N·K entries, `dst[p*K+k]` = patch entry (pixel p, tap k), on all three paths. The rest of dst is unchanged. |
| `Ver0.Gather` | src/Simd/SimdAvx512fNeural.cpp:1694-1761 | The stride/dilation loop and the unit-step loop both produce the pixel-major patch matrix. |
| `Ver0.GatherPixel` | src/Simd/SimdAvx512fNeural.cpp:1702-1726 | The channel and kernelRow loops of one output pixel extend the patch matrix from the pixel's first tap to its K-th, leaving the rest of dst unchanged. |
| `Ver0.GatherRun` | src/Simd/SimdAvx512fNeural.cpp:1707-1724 | One kernel row: the in-image branch or the zero branch, by the row range check, extends the patch matrix by kernelX entries. |
| `Ver0.GatherRow` | src/Simd/SimdAvx512fNeural.cpp:1708-1717 | A source row inside the image: each kernel column gets the sample or zero by the column range check. |
| `Ver0.GatherZeros` | src/Simd/SimdAvx512fNeural.cpp:1719-1723 | A source row outside the image: `kernelX` zeros, which are the patch entries there. |
| `Ver0.Transpose` | src/Simd/SimdAvx512fNeural.cpp:1762-1771 | The 1×1 branch `dst[i*K+k] = src[k*N+i]` produces the patch matrix when the kernel is 1×1 with no padding. |
| `Ver0.TransposeEntry` | src/Simd/SimdAvx512fNeural.cpp:1766-1770 | Under that shape the transpose read `src[k*N+i]` is in bounds and equals the general mapping's entry. |
| `Ver0.AsWrittenTransposeOverruns` | src/Simd/SimdAvx512fNeural.cpp:1762-1771 | As written, a padded 1×1 unit-step layer takes the transpose branch, and its last read index `K*N-1` is at or past the source volume. |
| `Ver0.Padded1x1Overruns` | src/Simd/SimdAvx512fNeural.cpp:1762-1771 | For a 10×10 image, a 1×1 kernel and padding 1, the as-written branch reads `src[143]` of a 100-float source. |
| `Lanes.Transpose4x8Interleaves` | src/Simd/SimdAvx512fNeural.cpp:1934-1951 | The eight unpacks and four `permute2f128` stores put row `t%4`, column `t/4` of the four loaded rows in lane t. |
| `Lanes.Transpose4x4Interleaves` | src/Simd/SimdAvx512fNeural.cpp:1955-1968 | The six SSE unpacks put row `t%4`, column `t/4` in lane t. |
| `Lanes.Shuffle4x8` | src/Simd/SimdAvx512fNeural.cpp:1934-1951 | The AVX register network as run: 32 lanes, each the interleaved entry. |
| `Lanes.Shuffle4x4` | src/Simd/SimdAvx512fNeural.cpp:1955-1968 | The SSE register network as run: 16 lanes, each the interleaved entry. |
| `Ver1.PackedAAt` | src/Simd/SimdAvx512fNeural.cpp:1972-1976 | For a block starting at row i with `n = min(cell, M-i)`, packed entry `i*K + k*n + c` is weight `(i+c)*K + k`, for every k < K and c < n. |
| `Ver1.PackedAInverse` | src/Simd/SimdAvx512fNeural.cpp:1925-1979 | The packed-to-source index map has an inverse, so no source weight is read twice. |
| `Ver1.PackedAPermutes` | src/Simd/SimdAvx512fNeural.cpp:1925-1979 | An output that reads every entry through that map holds the same multiset of weights as the input. |
| `Ver1.Step8` | src/Simd/SimdAvx512fNeural.cpp:1931-1953 | One AVX step (4 rows × 8 columns) stores the 32 entries the scalar loop would write at that position. |
| `Ver1.Step4` | src/Simd/SimdAvx512fNeural.cpp:1954-1970 | One SSE step (4 rows × 4 columns) stores the 16 entries the scalar loop would write at that position. |
| `Ver1.PackColumn` | src/Simd/SimdAvx512fNeural.cpp:1972-1976 | The scalar step for column k writes the block's n rows of that column in order. |
| `Ver1.PackEights` | src/Simd/SimdAvx512fNeural.cpp:1933-1953 | The `k < K8` loop of AVX steps: afterwards `col = AlignLo(K,8)`, and dst holds the interleaved weights up to `i*K + col*4`. Nothing past that changes. |
| `Ver1.PackFours` | src/Simd/SimdAvx512fNeural.cpp:1954-1970 | The `k < K4` loop of SSE steps: afterwards `col = AlignLo(K,4)`, with the interleaved weights up to `i*K + col*4`. |
| `Ver1.PackColumns` | src/Simd/SimdAvx512fNeural.cpp:1972-1976 | The scalar `k < K` loop: the block of `n = min(cell, M-i)` rows is interleaved up to `i*K + K*n`. |
| `Ver1.PrepareABlock` | src/Simd/SimdAvx512fNeural.cpp:1928-1977 | One block, via the AVX steps up to `AlignLo(K,8)`, the SSE steps up to `AlignLo(K,4)` and scalars after (vector steps only when cell = n = 4), fills positions `[i*K, min(i+cell,M)*K)` with the interleaved layout. |
| `Ver1.PrepareA` | src/Simd/SimdAvx512fNeural.cpp:1925-1979 | Writes M·K entries, each `dst[q] = src[PackedAIndex(q)]`, and the output is a permutation of the input. Nothing past M·K changes. |
| `Ver1.UnfoldCols` | src/Simd/SimdAvx512fNeural.cpp:1999-2008 | The general path's column loop, with `srcCol` advancing by strideX, writes `tmp[k*N + dstRow*dstWidth + dstCol]` = patch entry. |
| `Ver1.ZeroRow` | src/Simd/SimdAvx512fNeural.cpp:2010-2014 | A source row outside the image gives `dstWidth` zeros, which are the patch entries. |
| `Ver1.CopyBody` | src/Simd/SimdAvx512fNeural.cpp:2025-2049 | Under the corrected guard `dstWidth >= 2*padX`, the `memcpy` span `[kernelCol, kernelCol+bodySize)` lies inside the source row, and the copy equals the patch entries of columns `[padX, dstWidth-padX)`. |
| `Ver1.FastRow` | src/Simd/SimdAvx512fNeural.cpp:2036-2057 | Left border loop, body copy, right border loop: together the same `dstWidth` entries as the general path. |
| `Ver1.UnfoldTap` | src/Simd/SimdAvx512fNeural.cpp:1994-2015 | The dstHeight rows of one tap, on the general or the unit-step path, fill `tmp[k*N .. (k+1)*N)` with the patch entries of tap k. |
| `Ver1.UnfoldKernelRow` | src/Simd/SimdAvx512fNeural.cpp:1993-2065 | The kernelCol loop of one kernel row fills tmp with the patch entries of its kernelX taps, on either path. |
| `Ver1.UnfoldChannel` | src/Simd/SimdAvx512fNeural.cpp:1991-2066 | The kernelRow loop of one channel fills tmp with the patch entries of its kernelY·kernelX taps. |
| `Ver1.Unfold` | src/Simd/SimdAvx512fNeural.cpp:1985-2067 | Phase 1 on either path gives `tmp[k*N+p]` = patch entry (pixel p, tap k) for all K·N entries. The fast path therefore equals the general path. |
| `Ver1.BlockedAt` | src/Simd/SimdAvx512fNeural.cpp:2070-2116 | Repacked entry `(b*K+k)*cell + c` is below `AlignHi(N,cell)*K`, and is `src[k*N + b*cell + c]` when `b*cell+c < N`, and zero otherwise. |
| `Ver1.RepackWide` | src/Simd/SimdAvx512fNeural.cpp:2076-2085 | The `cell == 16` two-load step for a full block writes the same entries as the generic scalar loop. |
| `Ver1.RepackCells` | src/Simd/SimdAvx512fNeural.cpp:2087-2096 | The scalar step copies `min(cell, N-j)` pixels of one tap and pads to `cell` with zeros. |
| `Ver1.RepackTap` | src/Simd/SimdAvx512fNeural.cpp:2074-2096 | One tap of one block: if the output is the blocked layout up to `d0`, it is the blocked layout up to `d0+cell` afterwards, whichever of the two steps runs. |
| `Ver1.RepackBlock` | src/Simd/SimdAvx512fNeural.cpp:2076-2097 | The k loop of one column block extends the blocked layout from `b*K*cell` to `(b*K+K)*cell`. |
| `Ver1.Repack` | src/Simd/SimdAvx512fNeural.cpp:2070-2116 | Phase 2 writes exactly `AlignHi(N,cell)*K` entries of the column-blocked layout. Nothing past that changes. |
| `Ver1.BlockedTmp` | src/Simd/SimdAvx512fNeural.cpp:2068-2116 | Repacking the phase-1 matrix yields the packed B operand: the patch entry of pixel `b*cell+c`, tap k, or zero past N. |
| `Ver1.BlockedSource` | src/Simd/SimdAvx512fNeural.cpp:1985-2068 | For a 1×1 kernel with unit strides and no padding, repacking the source itself yields the same operand. |
| `Ver1.PrepareB` | src/Simd/SimdAvx512fNeural.cpp:1981-2116 | Writes `AlignHi(N,cell)*K` entries of the packed B operand. It uses tmp only when the shortcut does not apply, and leaves tmp untouched otherwise. |
| `Ver1.AsWrittenShortcutMisreads` | src/Simd/SimdAvx512fNeural.cpp:1985-2068 | As written, a 1×1 kernel with strideX = 2 skips phase 1. Its packed entry 1 is then `src[1]`, where the convolution samples `src[2]`. |
| `Ver1.Strided1x1Misreads` | src/Simd/SimdAvx512fNeural.cpp:1985-2068 | The same on a 100×100 image with stride 2 (50×50 output). |
| `Ver1.AsWrittenBodySizeWraps` | src/Simd/SimdAvx512fNeural.cpp:2025-2049 | When `kernelX > srcWidth+1`, the `size_t` value `dstWidth - 2*padX` wraps to `2^64 - (2*padX - dstWidth)`, far past the source row. |
| `Ver1.Narrow3x1Wraps` | src/Simd/SimdAvx512fNeural.cpp:2025-2049 | For a 1-column, 7000-row image, a 3×1 kernel and padX = 1, the geometry is valid, takes the unit-step path, and gets `bodySize = 2^64-1`. |
| `Ver2.PrepareB` | src/Simd/SimdAvx512fNeural.cpp:2301-2321 | Per channel plane: the top and bottom padY rows are zero, and so are columns `[0,padX)` and `[padX+srcWidth, 2padX+srcWidth)` of each interior row. The rest of an interior row is `d[r*dstWidth+padX+x] = src[(r-padY)*srcWidth+x]`, and columns at or beyond `2padX+srcWidth` keep their old value. |
| `Ver2.PadChannel` | src/Simd/SimdAvx512fNeural.cpp:2305-2319 | One channel fills exactly its plane `[c*plane, (c+1)*plane)` with the bordered image. |
| `Ver2.PadBorder` | src/Simd/SimdAvx512fNeural.cpp:2307-2317 | The `memset` of padY·dstWidth entries gives the border rows, all zero. |
| `Ver2.PadRow` | src/Simd/SimdAvx512fNeural.cpp:2311-2315 | One interior row: padX zeros, the source row, padX zeros, and the aligned tail kept. |
| `Ver2.PadRows` | src/Simd/SimdAvx512fNeural.cpp:2309-2316 | The row loop fills rows padY .. padY+srcHeight of one plane with bordered source rows, and changes nothing outside them. |
| `Ver2.TapInBordered` | src/Simd/SimdAvx512fNeural.cpp:2301-2321 | With unit steps, the bordered image at `(dstRow+kernelRow, dstCol+kernelCol)` holds the sample that tap covers, so the direct kernels need no range check. |
| `Ver2.UnpaddedIsSource` | src/Simd/SimdAvx512fNeural.cpp:2502-2506 | Without padding, the bordered image is the source itself, which is why the packer is skipped then. |
| `Strategy.Preferable` | src/Simd/SimdAvx512fNeural.cpp:2427-2435 | `Preferable` holds iff the kernel is square with side 2..5, every stride and dilation is 1 (the product test), and `N*kernelX*kernelY >= 576`. |
| `Strategy.MakeOpt` | src/Simd/SimdAvx512fNeural.cpp:2460-2478 | alg is Ver2 iff `Preferable`. Otherwise it is Ver0 iff `dstWidth*dstHeight/kernelX <= 2000`, and Ver1 if not. It is never None, and M, N, K are dstDepth, dstHeight·dstWidth and kernelX·kernelY·srcDepth. The sizes of each strategy are stated by `OptCoversPackers`. |
| `Strategy.OptCoversPackers` | src/Simd/SimdAvx512fNeural.cpp:2480-2511 | Ver0: sizeA = sizeT = 0, sizeB = N·K. Ver1: cellA = 4, cellB = 16, strideB = AlignHi(N,16), sizeA = M·K, sizeB = AlignHi(N,16)·K, and sizeT ≥ K·N whenever phase 1 runs. Ver2: unit steps, and sizeB = AlignHi(srcWidth+2padX,F)·(srcHeight+2padY)·srcDepth when padded (0 otherwise), which is exactly the packer's span. |
| `Strategy.OptSizeTMatchesSource` | src/Simd/SimdAvx512fNeural.cpp:2485-2493 | The model's sizeT agrees with the source's `kernelX*kernelY > 1 ? sizeB : 0`, except for strided or padded 1×1 kernels. |
| `Strategy.Strided1x1ChoosesVer1` | src/Simd/SimdAvx512fNeural.cpp:2473-2493 | The strided 1×1 layer of the findings is packed by Ver1, and the model gives it a temporary of 2512 floats. |
| `Strategy.Narrow3x1ChoosesVer1` | src/Simd/SimdAvx512fNeural.cpp:2473-2478 | The 3×1 layer of the findings is packed by Ver1. |
| `Strategy.Padded1x1ChoosesVer0` | src/Simd/SimdAvx512fNeural.cpp:2473-2484 | The padded 1×1 layer of the findings is packed by Ver0, with sizeB = 144. |
| `Arena.Arrange` | src/Simd/SimdAvx512fNeural.cpp:2520-2549 | The arena allocates exactly when the rounded total is nonzero and the caller's buffer is not reused. It then allocates `Need` bytes: the rounded regions plus SIMD_ALIGN for a misaligned buffer. |
| `Arena.Data.constructor` | src/Simd/SimdAvx512fNeural.cpp:2520-2549 | The fields a, b, t and the owned block are `Arrange`'s plan. `*externalSize` becomes the allocated size when the arena allocates, and is unchanged otherwise. |
| `Arena.EmptyArena` | src/Simd/SimdAvx512fNeural.cpp:2521-2530 | With nothing to hold, a and b are null, t is never assigned, and nothing is allocated. |
| `Arena.RegionsPresent` | src/Simd/SimdAvx512fNeural.cpp:2543-2548 | Each region gets an address exactly when its size is nonzero. |
| `Arena.RegionsConsecutive` | src/Simd/SimdAvx512fNeural.cpp:2533-2548 | a, b and t start at data, data+sizeA and data+sizeA+sizeB (rounded, in bytes). They are disjoint, in order, SIMD_ALIGN-aligned, and end at data + Bytes. |
| `Arena.ReusedFits` | src/Simd/SimdAvx512fNeural.cpp:2531-2542 | A reused buffer holds all three aligned regions within its `*externalSize` bytes. |
| `Arena.AllocatedFits` | src/Simd/SimdAvx512fNeural.cpp:2533-2548 | When the arena allocates, a, b and t start at the block, the block plus rounded sizeA, and the block plus rounded sizeA+sizeB. The regions end within the allocated bytes. |
| `Arena.RetryReuses` | src/Simd/SimdAvx512fNeural.cpp:2533-2542 | After an allocation writes its size back, a second call with the same buffer and that size reuses the buffer. |
| `Arena.SizeQueryReuses` | src/Simd/SimdAvx512fNeural.cpp:2528-2542 | A first call with a null buffer allocates and writes back exactly the regions' bytes, with no `SIMD_ALIGN` slack. A second call with a buffer of that size reuses it if and only if the buffer is `SIMD_ALIGN`-aligned. |
| `Facade.Prepare` | src/Simd/SimdAvx512fNeural.cpp:2562-2601 | dst is cleared unless `add`. `Opt` is `MakeOpt`, and the arena is `Arrange`'s plan, except that a aliases weight when sizeA = 0 and b aliases src when sizeB = 0. The operands are the packed Ver0, Ver1 or Ver2 layouts, and src and weight are unchanged. |
| `Facade.UnpaddedOperand` | src/Simd/SimdAvx512fNeural.cpp:2590-2601 | When Ver2 packs nothing, the source that b aliases is already the bordered image. |
| `RowBuffer.Buffer.constructor` | src/Simd/SimdAvx512fNeural.cpp:626-636 | A zeroed block of count slots of stride `AlignHi(width+2(count-1),F)`, with `rows[i] = i*stride`. Every row is all zeros. |
| `RowBuffer.SlotStarts` | src/Simd/SimdAvx512fNeural.cpp:633-635 | The `rows[i] = rows[i-1] + stride` loop gives `rows[i] = i*stride` for each of the count slots. |
| `RowBuffer.Buffer.Update` | src/Simd/SimdAvx512fNeural.cpp:638-648 | The new rows[i] is the old rows[i+1], and the new rows[count-1] is the old rows[0]. Every row the ring held moves down one place unchanged; the last row is the copied src row, or zeros for NULL. The ring stays valid: margins zero, rows a permutation of the slots. |
| `RowBuffer.Buffer.Refill` | src/Simd/SimdAvx512fNeural.cpp:638-643 | Only `[count-1, count-1+width)` of the slot at rows[0] changes: it is copied from src, or zeroed for NULL. Every other float of the block keeps its value. |
| `RowBuffer.Buffer.Recycled` | src/Simd/SimdAvx512fNeural.cpp:638-648 | After the refill and the rotation, the other slots' windows are untouched, so rows 0..count-2 are the old rows 1..count-1 and the margins stay zero. |
| `RowBuffer.Buffer.Rotate` | src/Simd/SimdAvx512fNeural.cpp:644-647 | The pointer rotation `rows[..] = old rows[1..] + [old rows[0]]`. |
| `RowBuffer.Schedule` | src/Simd/SimdAvx512fNeural.cpp:1222-1231 | The driver's calls: `height` copying updates of rows 0..height-1 in order, then coreY-1 NULL updates. |
| `RowBuffer.FeedRow` | src/Simd/SimdAvx512fNeural.cpp:1229-1231 | One `buffer.Update(row <= height - coreY ? src : NULL)`. It returns the argument Update received: the offset `row*srcStride` of the copied row, or None. The ring's last row is then that source row or zeros, and the ring holds the last count rows fed. |
| `RowBuffer.BackwardSchedule` | src/Simd/SimdAvx512fNeural.cpp:1220-1231 | After the driver's loop, the ring of coreX rows holds the last coreX rows of the band (source rows, zeros past the end), oldest first, and the log of the arguments each `Update` received is `Schedule`. |
| `RowBuffer.LoadWeightsBackward` | src/Simd/SimdAvx512fNeural.cpp:616-620 | `dst[i] = src[size-1-i]`: the first size registers are the reversed weights. |
| `RowBuffer.Reversed` | src/Simd/SimdAvx512fNeural.cpp:616-620 | Entry i of the reversal is entry `|s|-1-i`. |
| `RowBuffer.ReversedTwice` | src/Simd/SimdAvx512fNeural.cpp:616-620 | Reversing twice gives the weights back. |
| `RowBuffer.ReversedRotates` | src/Simd/SimdAvx512fNeural.cpp:616-620 | On a row-major coreX×coreY kernel, the reversal is the 180° rotation: `(y,x)` moves to `(coreY-1-y, coreX-1-x)`. |

## Left out

- `size_t` overflow of the size products is not modelled: `N*K` and
  `AlignHi(N,16)*K` in `Opt`, `dstWidth*dstHeight*kernelX*kernelY` in
  `Preferable` and `(sizeA+sizeB+sizeT)*4 + SIMD_ALIGN` in `Data` are unbounded
  `nat`. They cannot wrap for buffers that fit in memory.
- The float kernels: the elementwise activations, adds and weight updates
  (lines 35-608), the `Convolution<k,k>` sums and the `NeuralAddConvolution*`
  and `AddConvolution*` arithmetic (662-1442, 2323-2425), the GEMM kernels
  `Ver0::Execute` and `Ver1::Execute*` (1775-2296), and max-pooling
  (1444-1685). They are float arithmetic with lane shifts and reductions, not
  layout logic.
- `Aligned()` dispatch: it only selects a speed path.
- `Simd::Allocate`/`Free`: the allocator's result is a parameter (`block`),
  and the destructors' `Free` is not modelled.
- Memory is not one address space. The arena's regions are byte addresses in
  `Arena`, and the packers write separate arrays standing for those regions.
  Disjointness is proved on addresses and assumed between the arrays, so
  overlapping caller buffers are not modelled.
- The backward driver's `width += coreX - 1` and its column loop feed only the
  float kernels, and are left out with them.
- `Ver0.PrepareB`, `Ver1.PrepareB` and `Strategy.MakeOpt` model the corrected
  guards of the Findings below (the 1×1 shortcuts require no padding and unit
  strides; the unit-step row copy requires `dstWidth >= 2*padX`). The
  as-written behaviour is stated by the `AsWritten…` lemmas.

## Findings

| source | as written | input that shows it | evidently intended | confidence | as-written member | corrected member |
|---|---|---|---|---|---|---|
| src/Simd/SimdAvx512fNeural.cpp:2025-2049 | `bodySize = dstWidth - padX*2` in `size_t`, used as a `memcpy` length | srcWidth 1, srcHeight 7000, 3×1 kernel, padX 1, unit steps: dstWidth 1, bodySize wraps to 2^64-1 | use the unit-step row copy only when `dstWidth >= 2*padX`, and the general path otherwise | high (not executed) | `Ver1.Narrow3x1Wraps` | `Ver1.Unfold` |
| src/Simd/SimdAvx512fNeural.cpp:1762-1771 | the 1×1 transpose branch is taken for any unit-step 1×1 kernel, padded or not | 10×10×1 image, 1×1 kernel, pad 1: N = 144, and the branch reads `src[143]` of 100 floats | take the transpose only when padX = padY = 0 | high (not executed) | `Ver0.Padded1x1Overruns` | `Ver0.PrepareB` |
| src/Simd/SimdAvx512fNeural.cpp:1985-2068 | phase 1 is skipped for every 1×1 kernel, and the source is repacked as if it were the K×N patch matrix | 100×100×1 image, 1×1 kernel, stride 2: packed entry 1 is `src[1]`, where the convolution reads `src[2]` | skip phase 1 only for unit strides without padding, and give sizeT = sizeB otherwise | high (not executed) | `Ver1.Strided1x1Misreads` | `Ver1.PrepareB` |
