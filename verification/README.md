# point: raster filters of a JPEG command-line tool, in Dafny

`point.c` decodes a JPEG file into a raster of 8-bit samples held as
`height` rows of `width * num_components` samples each, applies one filter
chosen on the command line, and encodes the raster again. This project models
the filters and the dispatch that chooses among them:

- `negate`: every sample `s` becomes `255 - s`;
- `brightness` and `contrast`: every sample is replaced by a level computed from
  it and clamped to `[0, 255]` by `clamp`;
- `swap`: exchanges the component blocks of two pixels;
- `flip`: axis `"y"` mirrors every row, axis `"x"` reverses the row order, any
  other axis does nothing;
- `rotate`: direction `"right"` turns the raster a quarter turn clockwise,
  `"left"` counter-clockwise, into a freshly allocated raster with width and
  height exchanged; any other direction prints a diagnostic and keeps the raster;
- `process_file`: refuses non-RGB images, dispatches on the filter name and
  reports an unknown one.

Module `Rasters` (`rasters.dfy`) holds the raster: a `Raster` value with its
dimensions, component count and rows, the predicate `Valid` (the shape the
decoder allocates, every sample a byte), pixel access, and two generic
constructions, `Remap` (each pixel copied from a chosen source pixel) and
`MapSamples` (each sample replaced by a function of itself), with the
extensionality lemmas `PixelExt` and `SampleExt`. Pixel `x` starts at sample
`Offset(x, nc)`, which is `x * nc` written as repeated addition.

Module `Point` (`point.dfy`) states each filter as a pure function from the
raster the C program holds in its globals to the raster it holds afterwards.
Module `PointLaws` (`point_laws.dfy`) proves how the filters relate to each
other: involutions, the rotations undoing one another, the rotation pixel maps
being bijections. Module `PointLoops` (`point_loops.dfy`) writes out the C loop
nests as they run, updating the raster in place pixel by pixel, and proves that
each computes exactly the corresponding function of `Point`.

The diagnostics that `point.c` prints become a `Status` returned next to the
raster: `UnsupportedColorSpace`, `UnknownFilter(name)` and `UnknownDirection`.
In every one of those cases the raster handed on to the encoder is the one that
came in.

`flip` and `rotate` compare plain strings (`"y"`, `"x"`, `"right"`,
`"left"`). On a non-RGB image or an unknown direction `point.c` prints a message
and goes on to write the unchanged raster (point.c:146-149, 162-165). The model
takes the strings and returns that status together with the unchanged raster.

## Model

| member | source | states |
|---|---|---|
| Rasters.OffsetIsProduct | point.c:33 | the start of pixel `x` in a row, `Offset(x, nc)`, is `x * num_components` |
| Rasters.Pixel | point.c:33 | the block of pixel `x` in row `y` has `num_components` samples, all bytes |
| Rasters.RowExt | point.c:33 | two rows of `width * num_components` samples whose pixel blocks agree are equal |
| Rasters.SetPixel | point.c:80-82 | writing a block at one pixel gives that pixel the block and leaves every other pixel and the shape unchanged |
| Rasters.MapSamples | point.c:30-38 | replacing every sample by a byte-valued `f` of itself keeps the raster's shape and sets each sample to `f` of the old one |
| Point.Clamp | point.c:41-49 | with `min <= max` the result lies in `[min, max]`, equals `value` when `value` is already in range, and is the point of the range nearest to `value`; with `max < min` it is one of the two bounds |
| Point.Negate | point.c:29-39 | the result has the same shape and every sample is `255` minus the old sample |
| PointLaws.NegateInvolutive | point.c:29-39 | negating twice gives back the original raster |
| Point.Adjust | point.c:51-75 | brightness and contrast keep the shape and set every sample to the level computed from it, clamped to `[0, 255]`; every result sample is a byte whatever the level |
| PointLaws.AdjustIdentity | point.c:51-75 | a level that keeps every byte (percent 0, multiplier 1) leaves the raster unchanged |
| Point.SwapPixels | point.c:77-84 | the two pixels exchange their blocks and every other pixel keeps its block |
| PointLaws.SwapTwice | point.c:77-84 | swapping the same two pixels twice restores the raster |
| PointLaws.SwapSymmetric | point.c:77-84 | swapping `a` with `b` is the same as swapping `b` with `a` |
| Point.MirrorLeftRight | point.c:87-97 | pixel `x` of every row moves to column `width - 1 - x` |
| Point.MirrorTopBottom | point.c:98-108 | row `y` moves to row `height - 1 - y` |
| Point.Flip | point.c:86-109 | axis `"y"` takes each pixel from the mirrored column, axis `"x"` from the mirrored row, any other axis returns the raster unchanged; the shape never changes |
| PointLaws.MirrorLeftRightInvolutive | point.c:87-97 | mirroring every row twice restores the raster |
| PointLaws.MirrorTopBottomInvolutive | point.c:98-108 | reversing the row order twice restores the raster |
| PointLaws.FlipInvolutive | point.c:86-109 | flipping twice about the same axis restores the raster, for every axis string |
| PointLaws.MirrorLeftRightKeepsMiddle | point.c:90 | with an odd width the middle column, which the loop never visits, keeps its pixels |
| PointLaws.MirrorTopBottomKeepsMiddle | point.c:99 | with an odd height the middle row, which the loop never visits, keeps its pixels |
| Point.RotateRight | point.c:119-132 | the result is `height` wide and `width` high and source pixel `(x, y)` lands at column `new_width - 1 - y` of row `x` |
| Point.RotateLeft | point.c:133-145 | the result is `height` wide and `width` high and source pixel `(x, y)` lands at column `y` of row `new_height - 1 - x` |
| Point.Rotate | point.c:111-159 | the rotation succeeds exactly for `"right"` and `"left"`, gives the right turn for `"right"` and the left turn for `"left"`, and exchanges width and height; any other direction reports `UnknownDirection` and keeps the raster |
| PointLaws.RotateRightThenLeft | point.c:119-145 | a right turn followed by a left turn restores the raster |
| PointLaws.RotateLeftThenRight | point.c:119-145 | a left turn followed by a right turn restores the raster |
| PointLaws.HalfTurn | point.c:119-145 | the half turn keeps the shape and sends pixel `(x, y)` to `(width - 1 - x, height - 1 - y)` |
| PointLaws.HalfTurnInvolutive | point.c:119-145 | two half turns restore the raster |
| PointLaws.RightHalfTurn | point.c:119-132 | two right turns are the half turn |
| PointLaws.LeftHalfTurn | point.c:133-145 | two left turns are the half turn |
| PointLaws.RotateRightFourTimes | point.c:119-132 | four right turns restore the raster |
| PointLaws.RotateLeftFourTimes | point.c:133-145 | four left turns restore the raster |
| PointLaws.RightTargetBijective | point.c:124-126 | the destination map of the right turn is a bijection from the source pixels onto the destination pixels, with the source map as its inverse |
| PointLaws.LeftTargetBijective | point.c:138-139 | the destination map of the left turn is a bijection from the source pixels onto the destination pixels, with the source map as its inverse |
| Point.ProcessFile | point.c:161-184 | a non-RGB image is reported and kept; an RGB image gets exactly the named filter; an unknown filter name is reported with that name and the raster kept; only a successful rotation changes the shape |
| PointLoops.MapInPlace | point.c:30-38 | the row, pixel and component loops replace every sample by `f` of itself, giving exactly `MapSamples` |
| PointLoops.MapRow | point.c:32-37 | over one row, every sample `x * num_components + k` is replaced by `f` of itself and no other |
| PointLoops.NegateInPlace | point.c:29-39 | the in-place loops of `negate` compute exactly `Negate` |
| PointLoops.AdjustInPlace | point.c:51-75 | the in-place loops of `brightness` and `contrast` compute exactly `Adjust` |
| PointLoops.SwapComponents | point.c:77-84 | the component loop through `temp` leaves each block holding exactly what the other held |
| PointLoops.StoreBack | point.c:77-84 | writing each pixel's old block into the other pixel is `SwapPixels`, also when both pixels are the same |
| PointLoops.Swap | point.c:77-84 | the component loop through a temporary computes exactly `SwapPixels`, also when both pixels are the same |
| PointLoops.FlipInPlace | point.c:86-109 | the in-place swap loops of `flip` compute exactly `Flip` for every axis |
| PointLoops.MirrorEachRow | point.c:87-97 | swapping column `x` with `width - 1 - x` for `x < width / 2` in every row yields `MirrorLeftRight` |
| PointLoops.MirrorRow | point.c:89-95 | swapping block `x` with block `width - 1 - x` for `x < width / 2` leaves every block `x` of the row holding the old block `width - 1 - x`, the unvisited middle block included |
| PointLoops.ReverseRowOrder | point.c:98-108 | the rows left by the `"x"` loops form exactly `MirrorTopBottom` |
| PointLoops.ReverseRows | point.c:99-107 | exchanging row `y` with row `height - 1 - y` for `y < height / 2` leaves row `height - 1 - y` at every position `y`, the unvisited middle row included |
| PointLoops.ReversedRows | point.c:98-108 | row `y` of `MirrorTopBottom` is row `height - 1 - y` of the image |
| PointLoops.ExchangeRows | point.c:100-106 | swapping block `x` of two equally long rows for every `x < width` exchanges the two rows completely |
| PointLoops.StepOrder | point.c:122-126 | the destination of each source pixel lies inside the new raster, the source map takes it back, and visiting the pixel adds exactly that destination to those already visited |
| PointLoops.CopyStep | point.c:122-129 | each copy writes a destination pixel no earlier copy has written, and afterwards exactly the destinations of the visited source pixels hold their source pixels |
| PointLoops.CopyTarget | point.c:124-129 | copying a source pixel makes its destination block hold exactly that pixel |
| PointLoops.CopyKeeps | point.c:127-129 | storing one destination block leaves every other destination holding the source pixel it held |
| PointLoops.RowCopied | point.c:120-131 | finishing a source row leaves the copy loops ready for the next row |
| PointLoops.FilledBuffer | point.c:151-158 | once every destination pixel holds its source pixel, the new rows are the rotated raster |
| PointLoops.RotateInto | point.c:111-159 | the copy loops of `rotate`, run over freshly allocated rows of unknown contents, compute exactly `Rotate`; with an unknown direction the old raster is kept |

## Left out

- Point.Adjust: does not model the floating-point expressions `s + (percent / 100) * s` and `times * (s - 127) + 127` or their conversion to `int` (undefined in C when the value does not fit); the caller supplies them as the function `level`, and only the clamping is modelled.
- PointLaws.AdjustIdentity: states the identity for a level that keeps every byte; that percent 0 and multiplier 1 give such a level is a property of the floating-point arithmetic, which is not modelled.
- Reading and writing JPEG files (`read_jpeg_file`, `write_jpeg_file`, the libjpeg calls and the output quality 75) are left out: they are I/O through a foreign library. The decoder's result enters the model as a `Valid` raster and a `ColorSpace`.
- `main` and its argument parsing are left out: they are I/O. `axis` and `direction`, whose defaults are `"y"` and `"right"`, become string arguments of `ProcessFile`. `percent` and `times` are not modelled: the brightness and contrast levels are the function arguments `brighten` and `contrast` of `ProcessFile` (see Point.Adjust).
- `abort_` and the `printf` diagnostics are left out as output; each diagnostic is a `Status` value instead.
- Memory management is left out: `malloc` and `free` of rows, and the leak of the freshly allocated rows when `rotate` meets an unknown direction. `RotateInto` receives the uninitialised rows as its `scratch` argument.
- Machine integer widths are left out: `int` loop counters, the unsigned `JDIMENSION` sizes and the product `x * num_components` are unbounded integers here, so overflow on huge images is not modelled. Samples are bytes because `Valid` says so.
- The number of components is any `nc`; the model does not assume the 3 components an RGB image has, since no filter depends on it.
- Point.Flip: the fact that the middle column or row is never visited is stated by the separate lemmas `MirrorLeftRightKeepsMiddle` and `MirrorTopBottomKeepsMiddle`, not by `Flip`'s own contract.
- Colour spaces other than RGB are told apart only as far as `process_file` needs: any of them leads to `UnsupportedColorSpace`.
