# helmirt image buffer, PPM output, bounding box, material and slab tests

This project models two pieces of the `helmirt` ray tracer in Dafny.

- **`RTImage`** (`helmirt/RTImage.cpp`). A `height x width` buffer of linear
  colours. Cell `(i, j)` (column `i`, row `j`) is stored flat at index
  `j * width + i`. `setColor` is a write checked on that flat index only.
  `toPPMFile` produces plain-text PPM ("P3"): the header
  `P3\n<width> <height>\n255\n`, then one line `"<r> <g> <b>\n"` per cell. Rows
  run from the last (bottom) row up to row 0, each left to right, and every
  channel is quantised as `static_cast<int>(255.999 * c)`.
- **`BoundingBox`, `CMaterial`, `SurfaceType` and the two ray/box slab tests**
  (`helmirt/RTTriangle.h`). These are the empty-box sentinel, `area()`,
  `centroid()`, the material defaults, the rounding-error bound `gamma`, the
  robust test `AABBintersect2` and the sign-based `AABBintersect`.

Modules:

- `Geometry`: vectors as triples of exact reals, and `BoundingBox`.
- `Material`: `SurfaceType`, `TextureType` and `CMaterial`.
- `Slab`: `MachineEpsilon`, `gamma`, and both slab tests as loop methods proved
  against closed forms.
- `Decimal`: the decimal text of an `int`, and a reader for it.
- `Ppm`: the PPM text as a specification function, the raster order, and a
  reader for the format.
- `Image`: the `RTImage` class over an array.
- `Options`: an `Option` type.

`toPPMFile` returns the text rather than writing a file. Its two loops are
written as `WriteRows` and `WriteRow`. These take the writer of one cell as a
parameter, and `ToPpm` passes `PixelLine`, which models `vec3toStream`.
`ToPpm` is proved equal to `PpmText`. `PpmRoundTrip` then shows that reading
that text back gives the declared dimensions, the quantised cells in output
order, and, for every cell, its own quantised colour.

`setColor` checks only the flat index `j * width + i` against
`width * height`, not `i < width` and `j < height` separately.
`Image.ColumnOverflowWraps` proves that a column in `width..2*width-1` on rows
`0..height-2` is accepted and writes column `i - width` of row `j + 1`.
`Image.OffByOneColumnAccepted` proves the case `i == width`.

## Model

| member | source | states |
|---|---|---|
| Geometry.EmptyBox | helmirt/RTTriangle.h:28 | the default box has `min = FLT_MAX` and `max = -FLT_MAX` on every axis, so `min > max` on every axis and it is not ordered |
| Geometry.Area | helmirt/RTTriangle.h:31-34 | the surface area is non-negative for every box with `min <= max` componentwise |
| Geometry.UnitCubeArea | helmirt/RTTriangle.h:31-34 | the unit cube has area 6 |
| Geometry.EmptyBoxArea | helmirt/RTTriangle.h:28-34 | the sentinel's area is `24 * FLT_MAX^2`, larger than `FLT_MAX`, so it is no real area |
| Geometry.Centroid | helmirt/RTTriangle.h:36-38 | each component of the centroid is the midpoint of the box on that axis, and it lies within `[min, max]` when the box is ordered |
| Material.SurfaceTypeValue | helmirt/RTTriangle.h:42-46 | enumerator values are 1..3, and `opaque` is 1 |
| Material.SurfaceTypeOf | helmirt/RTTriangle.h:42-46 | an integer names an enumerator exactly when it is 1, 2 or 3 |
| Material.SurfaceTypeValueRoundTrip | helmirt/RTTriangle.h:42-46 | the value of an enumerator names that enumerator again |
| Material.DefaultMaterial | helmirt/RTTriangle.h:48-77 | a fresh material has ambient and emission 0, diffuse 0.75 and specular 0.5 on every channel, glossiness 32, an opaque surface, empty texture names and a null map for every texture kind |
| Slab.Gamma | helmirt/RTTriangle.h:126-128 | `gamma(0) = 0`, and for `0 < n*eps < 1` `gamma(n)` is positive and larger than `n*eps` |
| Slab.WidenFactor | helmirt/RTTriangle.h:137 | the widening factor `1 + 2*gamma(3)` is greater than 1 |
| Slab.TNear | helmirt/RTTriangle.h:133-135 | after the value swap, `tNear` is the earlier of the two plane crossings on the axis |
| Slab.TLate | helmirt/RTTriangle.h:133-135 | after the value swap, the far crossing is the later of the two plane crossings |
| Slab.TFar | helmirt/RTTriangle.h:137 | widening never moves a non-negative far crossing earlier, and keeps a negative one negative |
| Slab.RobustRunningBounds | helmirt/RTTriangle.h:131-141 | the running `t0` never exceeds, and `t1` never falls below, the closed-form bounds, and they equal those bounds after three axes |
| Slab.AABBIntersect2 | helmirt/RTTriangle.h:130-143 | the loop with its early exit returns true iff `max(0, max_i tNear_i) <= min(5000, min_i widened tFar_i)` |
| Slab.RobustMissAfter | helmirt/RTTriangle.h:140 | an early `return false` after any number of axes agrees with the closed form |
| Slab.RobustHitAfterAll | helmirt/RTTriangle.h:142 | finishing all three axes without crossing bounds means the closed form holds |
| Slab.SwapAxis | helmirt/RTTriangle.h:133-135 | exchanging `min[i]` and `max[i]` changes only axis `i` |
| Slab.RobustHitSwapInvariant | helmirt/RTTriangle.h:133-135 | exchanging `min[i]` and `max[i]` on any axis does not change the robust test's result |
| Slab.SimpleRunningBounds | helmirt/RTTriangle.h:147-167 | the running `start`/`end` bound the closed-form latest entry and earliest exit, and equal them after three axes |
| Slab.AABBIntersect | helmirt/RTTriangle.h:145-169 | the loop with both early exits returns true iff the latest entry is no later than the earliest exit and that exit is not negative |
| Slab.EntryBeforeExit | helmirt/RTTriangle.h:148-152 | for an ordered box, the sign-based swap makes the entry the earlier crossing and the exit the later one, so entry <= exit on every axis |
| Slab.SimpleHitClosedForm | helmirt/RTTriangle.h:145-169 | for every ordered box and every ray, `AABBintersect` holds iff `max_i` entry `<= min_i` exit and `min_i` exit `>= 0`, with entry <= exit on each axis |
| Slab.SimpleHitImpliesRobustHit | helmirt/RTTriangle.h:130-169 | an ordered box hit by the simple test, entered before the far plane 5000, is also hit by the robust test |
| Slab.BehindOriginMissed | helmirt/RTTriangle.h:130-169 | a box whose slab on some axis lies wholly behind the origin is missed by both tests |
| Decimal.NatToDecimal | helmirt/RTImage.cpp:18 | the text of a natural number is a non-empty run of digits with no leading zero |
| Decimal.IntToDecimal | helmirt/RTImage.cpp:18 | the text of an `int` is non-empty, starts with `-` exactly for a negative value, and is all digits otherwise |
| Decimal.DigitsValueOfDecimal | helmirt/RTImage.cpp:18 | the digits written for `n` have the value `n` |
| Decimal.ParseNatOfDecimal | helmirt/RTImage.cpp:18 | the text of a natural number reads back as that number when no digit follows |
| Decimal.ParseIntOfDecimal | helmirt/RTImage.cpp:18 | the text of any `int` reads back as that `int` when no digit follows |
| Ppm.Truncate | helmirt/RTImage.cpp:38-40 | `static_cast<int>` truncates toward zero: the result is within 1 of the value, on the side of 0 |
| Ppm.Quantize | helmirt/RTImage.cpp:38-40 | a channel in `[0, 1]` gives a value in `0..255`, 0 gives 0 and 1 gives 255 |
| Ppm.QuantizeMonotone | helmirt/RTImage.cpp:38-40 | quantisation never reverses the order of two channel values |
| Ppm.QuantizeOutOfRange | helmirt/RTImage.cpp:38-40 | nothing is clamped: every channel from `256 / 255.999` up gives at least 256, every channel up to `-1 / 255.999` gives at most -1 (so -0.5 gives -127 and 2.0 gives 511) |
| Ppm.PixelLine | helmirt/RTImage.cpp:36-41 | the line of one pixel has at least a character per channel and ends in a newline; `Ppm.ParsePixelOfLine` reads it back as the three quantised channels |
| Ppm.Header | helmirt/RTImage.cpp:18 | the header starts with the magic number `P3` and a newline and ends with the maximum value line `255`; `Ppm.PpmRoundTrip` reads the dimensions back from it |
| Ppm.RasterIndex | helmirt/RTImage.cpp:19-21 | the cell written on output line `k` is inside the buffer |
| Ppm.RasterIndexRowColumn | helmirt/RTImage.cpp:19-21 | line `k` shows row `height - 1 - k / width` and column `k % width` |
| Ppm.RasterIndexInvolution | helmirt/RTImage.cpp:19-23 | the line of the cell shown on line `k` is `k` again |
| Ppm.RasterIndexInjective | helmirt/RTImage.cpp:19-23 | no cell is written on two different lines |
| Ppm.RasterIndexOnto | helmirt/RTImage.cpp:19-23 | every cell is written on some line |
| Ppm.RasterLineOfCell | helmirt/RTImage.cpp:19-21 | cell `(col, row)` is written on line `(height - 1 - row) * width + col` |
| Ppm.RasterOrder | helmirt/RTImage.cpp:19-23 | there are exactly `width * height` pixel lines |
| Ppm.RowsBottomUp | helmirt/RTImage.cpp:19-23 | the rows taken last row first have as many cells as the buffer |
| Ppm.RowsBottomUpIsPermutation | helmirt/RTImage.cpp:19-23 | the rows taken last row first hold the same cells as the buffer, as a multiset |
| Ppm.RowsBottomUpIsRasterOrder | helmirt/RTImage.cpp:19-23 | the rows taken last row first, each left to right, are the cells in output-line order |
| Ppm.RasterOrderIsPermutation | helmirt/RTImage.cpp:19-23 | the output lines show a permutation of the buffer's cells |
| Ppm.CellsAreLines | helmirt/RTImage.cpp:20-22 | the inner loop's text is the text of the slice of the row it walks |
| Ppm.RowsFromAreRowsBottomUp | helmirt/RTImage.cpp:19-23 | the two loops together write the rows from the last to the first, each left to right, with any cell writer |
| Ppm.RowsFromIsPpmText | helmirt/RTImage.cpp:18-23 | the header followed by the two loops' text is the P3 text |
| Ppm.Expect | helmirt/RTImage.cpp:18 | a literal is accepted exactly when the text starts with it, and the rest is returned |
| Ppm.ParsePixelOfLine | helmirt/RTImage.cpp:36-41 | a pixel line reads back as the three quantised channels, leaving what follows |
| Ppm.ParsePixelsOfLines | helmirt/RTImage.cpp:19-23 | the pixel lines of `n` cells read back as their `n` quantised colours, in order |
| Ppm.ParsePpmOfCells | helmirt/RTImage.cpp:18-23 | a header followed by the pixel lines of `width * height` cells reads back as the dimensions and the quantised cells |
| Ppm.PpmRoundTrip | helmirt/RTImage.cpp:15-24 | the P3 text of a buffer always reads back, with the declared dimensions, the quantised cells in output order, and each cell's quantised colour on its own line |
| Image.FlatIndex | helmirt/RTImage.cpp:12 | for a column inside the width, the index `j * width + i` identifies the cell: its quotient by the width is the row and its remainder the column |
| Image.InBuffer | helmirt/RTImage.cpp:12 | a write is accepted only into a non-empty buffer, and for a column inside the width only when the row is inside the height (`Image.InsideDimensionsAccepted` gives the converse) |
| Image.ColumnOverflowWraps | helmirt/RTImage.cpp:12 | a column in `width..2*width-1` on any row but the last is accepted, and writes column `i - width` of the next row |
| Image.OffByOneColumnAccepted | helmirt/RTImage.cpp:12 | a column equal to the width is accepted on every row but the last |
| Image.InsideDimensionsAccepted | helmirt/RTImage.cpp:12 | every coordinate pair inside the declared dimensions is accepted |
| Image.RowPastLastRejected | helmirt/RTImage.cpp:12 | the row just past the last one is rejected for every column in range |
| Image.RTImage.constructor | helmirt/RTImage.cpp:5-8 | the image keeps both dimensions and gets a fresh buffer of exactly `width * height` black cells |
| Image.RTImage.GetHeight | helmirt/RTImage.cpp:26-29 | returns the stored height |
| Image.RTImage.GetWidth | helmirt/RTImage.cpp:31-34 | returns the stored width |
| Image.RTImage.SetColor | helmirt/RTImage.cpp:10-13 | the write succeeds exactly when the flat index is in the buffer; then that one cell becomes the colour and every other cell is unchanged; otherwise it fails with the buffer untouched |
| Image.RTImage.ToPpm | helmirt/RTImage.cpp:15-24 | returns exactly the P3 text of the buffer: the header, then the pixel lines in bottom-up raster order |
| Image.RTImage.WriteRows | helmirt/RTImage.cpp:18-23 | writes the header, then rows `height - 1` down to 0, each cell with the given writer |
| Image.RTImage.WriteRow | helmirt/RTImage.cpp:20-22 | appends the texts of the cells of row `j`, left to right, and that row lies inside the buffer |

## Left out

- File output. `toPPMFile` opens an `std::ofstream` and writes to it. The model returns the text instead and has no open or write failures.
- Floating point. Vectors, `FLT_MAX`, `MachineEpsilon`, `gamma` and all slab arithmetic are exact reals, with no rounding of products, no infinities, no NaN and no overflow near `FLT_MAX`. `255.999` is the exact decimal rather than the nearest double.
- Ppm.Quantize: a product outside the `int` range is undefined behaviour for `static_cast<int>`. The model truncates every real.
- Image.RTImage.SetColor: the `int` product `j * m_width + i` is an unbounded integer in the model, in `setColor` and in `toPPMFile`'s reads alike, so 32-bit overflow of the index is absent.
- Image.RTImage.constructor: the dimensions are natural numbers. The source takes `int`, and a negative dimension would reach `resize` through an `int` product. The 32-bit `int` product `m_width * m_height` is unbounded in the model, so its overflow is absent.
- `vec3toStream` is the function `Ppm.PixelLine`, not a method writing to a stream. `toPPMFile`'s loops take it as a parameter.
- The member functions of `RTTriangle` (`intersect`, `calculateNormal`, `calculateTangents`, `getTBN`, `applyTransform`, `boundingbox`, `area`, `centroid`, `min`, `max`, `hasTextureType`). They are only declared in the header, and their bodies are not part of this model.
- Texture loading and texture-name resolution. `std::shared_ptr<rtTexture2D>` is an opaque, possibly null handle, kept only to state the null defaults.
- Concurrent `setColor` calls from tracing workers. The model is sequential.
- `Helmi/Application.h` (windowing, GUI state, frame timing) is not part of this model. Neither are `Ray.h`, `rtTexture2D.h` and `RTImage.h`.
- Slab.AABBIntersect: `start` and `end` are set to 0 before the loop instead of being left uninitialised. Axis 0 assigns both before they are read, so results agree.
