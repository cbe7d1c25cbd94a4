# Texture scramble: a verified model of the pixel permutation

The application scrambles an image by permuting its pixels and restores it
with the complementary offset. The permutation lives in a GLSL fragment
shader held as a string in `src/app.ts`. The export path adds one more
buffer copy, the vertical row flip in `downloadImage`. This project models
both in Dafny and proves what makes the scramble reversible.

How the permutation works:

- The W × H image is cut into 8 × 8 blocks.
- The blocks are visited in a diagonal "snake" order: anti-diagonal by
  anti-diagonal, alternating the direction with the parity of the diagonal.
  This is `triangleSum`, `coordToIndex` and `indexToCoord`.
- Inside each block, pixels are read in one of four orientations, chosen by
  the block's order index modulo 4. This is `blockCoordToIndex` and
  `blockIndexToCoord`.
- Each fragment optionally mirrors its y coordinate, moves `uO` steps along
  the resulting pixel order, wraps around the image and reads the texel it
  lands on. This is `main`.

Modules, leaves first:

| file | module | models |
|---|---|---|
| shader_int.dfy | ShaderInt | `mod`, `min2`, `max2`, the truncating integer division of GLSL, and an exact integer square root in place of `sqrt` |
| image.dfy | Image | texels, image dimensions, row-major positions |
| diagonal.dfy | Diagonal | `triangleSum`, `coordToIndex`, `indexToCoord` on the block grid |
| block_order.dfy | BlockOrder | `blockCoordToIndex`, `blockIndexToCoord` and the four orientations |
| fragment.dfy | Fragment | the per-fragment `main`, and the draw over every pixel as the method `Scramble` |
| row_flip.dfy | RowFlip | the row-flip loop of `downloadImage` as the method `FlipRows` |

The shader's pure functions become Dafny functions, with lemmas about them.

The two loops are methods over arrays, each proved against a specification
function:

- the GPU running `main` once per pixel is `Fragment.Scramble`, specified by
  `Scrambled`;
- the row-flip loop is `RowFlip.FlipRows`, specified by `ReverseRows`.

Facts about the code that the model follows:

- **Direction of the offset.** The shader adds `uO` to the order index
  (`src/app.ts:169`), so a destination pixel shows the source pixel
  `offset` steps *later* in the pixel order.
- **Range of the offset.** The offset is wrapped at most once downward and
  once upward (`src/app.ts:171-172`), not reduced modulo W·H.
  `blockIndexToCoord` then adds W·H once to a negative index
  (`src/app.ts:148`) before taking the truncating remainder
  (`src/app.ts:149`). Every offset from −2·W·H upward therefore yields an
  index in [0, W·H). A lower offset can leave a negative index after line
  149. That index either leaves its block (lines 158-161) or makes
  `indexToCoord` take the square root of a negative number. The model
  requires `offset >= -2*W*H` and excludes such offsets.
- **Dimensions.** The shader never checks that W and H are multiples of 8.
  The block order is only meaningful when they are, so the model states
  this as a precondition (`Image.ValidDims`).
- **Restoring with the flip on.** Without the flip, drawing with W·H − o
  undoes a draw with o (`Fragment.ScrambleRestores`). With the flip on,
  drawing the canvas again directly does not restore it: each draw mirrors
  the rows once more (`Fragment.FlippedRedrawMoves` shows a pixel that
  moves). What does restore is the export path: reverse the rows of the
  drawn canvas, as `downloadImage` does (`src/app.ts:439-449`), and draw
  that with W·H − o. The result is the texture with its rows reversed,
  which is what a draw with offset 0 and the flip on shows
  (`Fragment.ScrambleRestoresFlipped`, `Fragment.ScrambleFlipOnly`).

## Model

| member | source | states |
|---|---|---|
| ShaderInt.Mod | src/app.ts:70 | the shader's `mod` equals `%` for a non-negative dividend; for a negative one it is minus the remainder of the magnitude, in (−u, 0] |
| ShaderInt.QuotRemainder | src/app.ts:70 | `i - (i/u)*u` with truncating division, written with Euclidean `%`, by the sign of `i` |
| ShaderInt.Min2 | src/app.ts:71 | the result is at most both arguments and is one of them |
| ShaderInt.Max2 | src/app.ts:72 | the result is at least both arguments and is one of them |
| ShaderInt.FloorSqrt | src/app.ts:103 | the exact floor square root: r² ≤ n < (r+1)² |
| ShaderInt.TriangularRoot | src/app.ts:103 | the shader's triangular root t of k satisfies t(t+1) ≤ 2k < (t+1)(t+2), so cell k of a triangle lies on diagonal t |
| ShaderInt.TriangularRootBracket | src/app.ts:123 | the same bracket for the literal formula `(-1 + sqrt(8k+1)) / 2` |
| ShaderInt.DivModUnique | src/app.ts:149-154 | q·u + r with 0 ≤ r < u divides back to q and r; this is how the shader splits an order index into block and local index |
| Diagonal.TriangleSumCountsCells | src/app.ts:74-80 | `triangleSum(f)` equals the number of grid cells with bx + by < f, counted independently, for every 0 ≤ f ≤ bw+bh−1 |
| Diagonal.DiagonalLengthCounts | src/app.ts:74-80 | the independent count of cells on diagonal d equals its closed-form length: growing, plateau at the short side, shrinking |
| Diagonal.TriangleSumStep | src/app.ts:74-80 | going from f to f+1 adds exactly the length of diagonal f, in all three regimes |
| Diagonal.TriangleSumEnds | src/app.ts:74-80 | `triangleSum` is 0 at 0 and bw·bh at bw+bh−1 |
| Diagonal.TriangleSumMonotone | src/app.ts:74-80 | `triangleSum` grows strictly: TS(a) + (b−a) ≤ TS(b) |
| Diagonal.DiagonalBracketUnique | src/app.ts:74-80 | at most one diagonal d has TS(d) ≤ i < TS(d+1) |
| Diagonal.CoordToIndexOnDiagonal | src/app.ts:82-98 | a block's index lies in [TS(v), TS(v+1)) for its diagonal v = bx+by |
| Diagonal.CoordToIndexRange | src/app.ts:82-98 | every block of the grid gets an index in [0, bw·bh) |
| Diagonal.CoordToIndexInjectiveOnDiagonal | src/app.ts:82-98 | two blocks on one diagonal with the same index are equal |
| Diagonal.SnakeStart | src/app.ts:82-98 | the snake starts at block (0, 0) |
| Diagonal.IndexToCoord | src/app.ts:100-131 | every index in [0, bw·bh) decodes to a block inside the grid |
| Diagonal.GrowingIndexToCoord | src/app.ts:102-108 | the growing branch returns a block inside the grid |
| Diagonal.PlateauIndexToCoord | src/app.ts:109-121 | the plateau branch returns a block inside the grid |
| Diagonal.ShrinkingIndexToCoord | src/app.ts:122-130 | the shrinking branch returns a block inside the grid |
| Diagonal.ShrinkingBack | src/app.ts:122 | line 122's count is bw·bh − i − 1, the number of cells after i, and is less than the size of the shrinking triangle |
| Diagonal.GrowingRegime | src/app.ts:102-104 | the triangular root n of i is a growing diagonal (n < short), and it brackets i: TS(n) ≤ i < TS(n+1) = TS(n) + n + 1 |
| Diagonal.PlateauRegime | src/app.ts:109-112 | division by the short side gives a plateau diagonal n, and the remainder is i − TS(n), with TS(n+1) = TS(n) + short |
| Diagonal.ShrinkingRegime | src/app.ts:122-124 | the root s counted back from the end gives diagonal n = long+short−s−2, with 0 ≤ s ≤ short−2, TS(n) ≤ i ≤ TS(n)+s and TS(n+1) = TS(n)+s+1 |
| Diagonal.GrowingCorrect | src/app.ts:102-108 | the growing branch lands on the bracketing diagonal, and `coordToIndex` maps its block back to i |
| Diagonal.PlateauCorrect | src/app.ts:109-121 | the same for the plateau branch, for bw > bh and for bw ≤ bh |
| Diagonal.ShrinkingCorrect | src/app.ts:122-130 | the same for the shrinking branch |
| Diagonal.IndexToCoordCorrect | src/app.ts:100-131 | `indexToCoord(i)` lies on the unique diagonal bracketing i, and `coordToIndex` maps it back to i |
| Diagonal.CoordToIndexOfIndexToCoord | src/app.ts:82-131 | `coordToIndex(indexToCoord(i)) == i` for every i in [0, bw·bh) |
| Diagonal.IndexToCoordOfCoordToIndex | src/app.ts:82-131 | `indexToCoord(coordToIndex(c)) == c` for every block c of the grid: the snake order is a bijection |
| BlockOrder.LocalIndexRoundTrip | src/app.ts:136-161 | under every orientation 0..3, the remapped local index of (lx, ly) is in [0, 64), and the decode at lines 158-161 gives (lx, ly) back |
| BlockOrder.LocalOffsetRoundTrip | src/app.ts:151-161 | under every orientation, decoding a local index in [0, 64) gives an offset inside the block that encodes back to the same index |
| BlockOrder.BlockCoordToIndex | src/app.ts:133-144 | every pixel of the image gets an order index in [0, W·H) |
| BlockOrder.BlockIndexToCoord | src/app.ts:146-163 | every index from −W·H on decodes to a pixel inside the image |
| BlockOrder.PixelOfOrder | src/app.ts:150-162 | every index in [0, W·H) decodes to a pixel inside the image |
| BlockOrder.PixelRoundTrip | src/app.ts:133-163 | `blockIndexToCoord(blockCoordToIndex(p)) == p` for every pixel p |
| BlockOrder.OrderRoundTrip | src/app.ts:133-163 | `blockCoordToIndex(blockIndexToCoord(i)) == i` for every i in [0, W·H) |
| BlockOrder.PixelOfOrderOfPixel | src/app.ts:133-163 | decoding the index of a pixel with lines 150-162 gives the pixel back |
| BlockOrder.OrderOfPixelOfOrder | src/app.ts:133-163 | encoding the pixel that lines 150-162 decode from k gives k back |
| BlockOrder.PixelOfBlockIndex | src/app.ts:150-162 | index order·64 + local decodes to block `indexToCoord(order)` at the offset that `local` decodes to under orientation order mod 4 |
| BlockOrder.OrderOfBlockPixel | src/app.ts:133-144 | the pixel at offset o of block b has index order(b)·64 plus o's local index under orientation order(b) mod 4 |
| BlockOrder.IndexWrapsModulo | src/app.ts:146-149 | every index from −W·H on names the same pixel as its residue modulo W·H |
| BlockOrder.OrderOfIndex | src/app.ts:146-149 | for every index from −W·H on, decoding and encoding again gives its residue modulo W·H |
| Fragment.SourceCoord | src/app.ts:165-174 | for every offset from −2·W·H on, the texel a fragment reads lies inside the image |
| Fragment.Wrap | src/app.ts:169-172 | the wrapped index has the residue of the unwrapped one, stays at or above −W·H, and is unchanged when already in [0, W·H) |
| Fragment.SourceCoordShiftsOrder | src/app.ts:165-174 | the texel read has order index (order of the flipped fragment + offset) mod W·H |
| Fragment.SourceCoordIsShift | src/app.ts:165-174 | the texel read is `blockIndexToCoord((order of the flipped fragment + offset) mod W·H)` |
| Fragment.OrderIndexInjective | src/app.ts:133-144 | pixels with the same order index are the same pixel |
| Fragment.SourceCoordIdentity | src/app.ts:165-174 | with offset 0 and no flip, every fragment reads its own texel |
| Fragment.SourceCoordFlipOnly | src/app.ts:165-174 | with offset 0 and the flip on, fragment (x, y) reads (x, H−1−y) |
| Fragment.SourceCoordInjective | src/app.ts:165-174 | two different fragments never read the same texel |
| Fragment.SourceCoordSurjective | src/app.ts:165-174 | every texel is read by some fragment; with SourceCoordInjective, the fragment-to-texel map is a bijection of the pixel grid for every offset from −2·W·H on |
| Fragment.SourceCoordRestores | src/app.ts:165-174 | without the flip, the map for offset o undoes the map for W·H − o |
| Fragment.SourceCoordRestoresFlipped | src/app.ts:165-174 | with the flip on, mirroring the result of the map for W·H − o and then applying the map for o gives back every pixel, for 0 ≤ o ≤ W·H |
| Fragment.FlippedRedrawMoves | src/app.ts:165-174 | with the flip on, on 8 × 8, the map for 56 followed directly by the map for 8 sends (0, 0) to (0, 2), so a direct redraw does not restore |
| Fragment.SourceIndex | src/app.ts:165-175 | the row-major position of the texel read lies in [0, W·H) |
| Fragment.ScrambledAt | src/app.ts:165-176 | the drawn canvas holds, at pixel p, the source texel at `SourceCoord(p)` |
| Fragment.Scramble | src/app.ts:165-176 | the loop over every pixel fills a fresh canvas equal to `Scrambled` and leaves the source alone |
| Fragment.ScrambleIdentity | src/app.ts:165-176 | drawing with offset 0 and no flip reproduces the texture |
| Fragment.ScrambleFlipOnly | src/app.ts:165-176 | drawing with offset 0 and the flip on gives the texture with its rows reversed, the same reversal `FlipRows` applies |
| Fragment.ScrambleRestores | src/app.ts:165-176 | drawing with offset o and then with W·H − o, without the flip, gives back the original texture |
| Fragment.ScrambleRestoresFlipped | src/app.ts:165-176 | with the flip on, drawing with o, reversing the rows of the canvas as `downloadImage` does, and drawing that with W·H − o gives the texture with its rows reversed |
| Fragment.SingleBlockOrder | src/app.ts:133-144 | on an 8 × 8 image the pixel order is plain row-major order |
| Fragment.SingleBlockPixel | src/app.ts:146-162 | on an 8 × 8 image the pixel with order index k is (k mod 8, k div 8) |
| Fragment.SingleBlockHalfTurn | src/app.ts:165-174 | on an 8 × 8 image, offset 32 makes fragment (x, y) read (x, (y+4) mod 8) |
| Fragment.ScrambleHalfTurn | src/app.ts:165-176 | on an 8 × 8 image, drawing with offset 32 rotates the row-major texels by 32 positions, swapping the top and bottom halves |
| RowFlip.MirrorIndex | src/app.ts:441-442 | position k of the buffer moves to the same column of the mirrored row, inside the buffer |
| RowFlip.MirrorIndexInvolution | src/app.ts:441-442 | mirroring twice gives every position back |
| RowFlip.ChannelIndex | src/app.ts:441-447 | for every pixel and channel c < 4, the destination byte lies in the buffer and mirrors the source byte |
| RowFlip.ReverseRowsAt | src/app.ts:439-449 | element `col` of row y ends up as element `col` of row rows−1−y |
| RowFlip.ReverseRowsTwice | src/app.ts:439-449 | reversing the rows twice gives the original buffer |
| RowFlip.FlipRows | src/app.ts:424-449 | for every width and height, including zero, the loop fills a fresh W·H·4-byte buffer equal to `pixels` with its rows reversed, and leaves `pixels` unchanged |

## Left out

- WebGL plumbing: context creation, shader compilation, uniforms,
  geometry, the draw call and `readPixels`. These are foreign API calls. The
  texture and the framebuffer are passed to the model as arrays.
- `texture2D` sampling at the texel centre with LINEAR filtering is modelled
  as a direct read of that texel.
- The float square roots at lines 103 and 123 are modelled by the exact
  `FloorSqrt`. The `1e-6` nudge at line 103 only guards against float
  rounding, so it is not modelled; line 123 has no such nudge. Whether the
  float `sqrt` rounds exactly on a real GPU is not part of this model.
- `Math.floor(this.state.offset * max)` at line 233 (a float fraction of
  W·H) is not modelled. The offset is an integer parameter.
- GLSL 32-bit `int` overflow is not modelled; Dafny integers are unbounded.
- `Fragment.SourceCoord` and its lemmas require `offset >= -2*W*H`. A lower
  offset can leave a negative index after line 149, which either leaves the
  block or makes `indexToCoord` take the square root of a negative number;
  the model excludes such offsets. The application passes
  `Math.floor(state.offset * W * H)` (line 233). The range of
  `state.offset` comes from a slider whose bounds are not part of this
  model.
- `BlockOrder.BlockIndexToCoord` requires `i >= -W*H`. This also excludes
  some lower indices that the shader decodes normally, such as −2·W·H. The
  bound covers every index `main` passes for an offset from −2·W·H on.
- W and H must be positive multiples of 8 (`Image.ValidDims`). The shader
  never checks this.
- The model does not state that the snake is continuous, that is, that the
  last block of one diagonal touches the first block of the next. Only
  bijectivity is proved.
- No lemma says that the scrambled image is a multiset permutation of the
  source. The model instead proves that the fragment-to-texel map is a
  bijection of the pixel grid (`SourceCoordInjective`,
  `SourceCoordSurjective`) and that the draw is undone by the complementary
  offset.
- Between the draw and `FlipRows`, the canvas is read back as bytes. That
  conversion from texels to RGBA bytes is not modelled. `FlipRows` works on
  the byte buffer, `Scramble` on texels.
- Image loading and decoding, the UI (sliders, buttons, state text), PNG
  encoding with UPNG, and the download link are browser I/O and an external
  library, so they are not part of this model.
