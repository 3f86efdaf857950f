# MAME render utilities, RawInput devices and the Dreamcast G1 interface in Dafny

This project models three pieces of MAME and proves properties of the model.

- **Render utilities** (`src/emu/rendutil.cpp`):
  - the high-quality bitmap resampler: the dispatcher and its three kernels (block replication, weighted averaging, bilinear filtering) over 32-bit ARGB pixels;
  - Cohen–Sutherland line clipping;
  - axis-aligned quad clipping with texture-coordinate adjustment;
  - the conversion of a thick line into a quad;
  - the guard logic of `render_load_png`;
  - the PNG alpha overlay `copy_png_alpha_to_bitmap`, including Adam7 de-interlacing;
  - the JPEG source manager's `do_fill` and `do_skip`;
  - the probe order of `render_detect_image`.
- **Windows RawInput provider** (`src/osd/modules/input/input_rawinput.cpp`):
  - the device-name helpers `trim_prefix` and `compute_device_regpath`;
  - detach, attach and reconnect of devices;
  - `process_event`, `poll` and `reset` for the keyboard, the mouse and the lightgun;
  - the hat-switch decoding of joysticks;
  - the button-count decision of `is_valid_joystick`.
- **Dreamcast console** (`src/mame/sega/dccons_m.cpp`):
  - the GD-ROM interrupt line;
  - the G1 control register reads and writes;
  - the three counters of a GD-ROM DMA transfer, advanced one sector per timer step.

One module per file:

| module | file | what it models |
|---|---|---|
| `Pixels` | `pixels.dfy` | fixed-width integer types, 32-bit wrap-around, `rgb_t` channels and packing, the bitmap class, raster-walk lemmas |
| `ResampleCommon` | `resample_common.dfy` | the tint factors and the per-pixel scale-and-blend step |
| `IntegerKernel` | `integer_kernel.dfy` | block replication |
| `AverageKernel` | `average_kernel.dfy` | weighted averaging |
| `BilinearKernel` | `bilinear_kernel.dfy` | bilinear filtering |
| `Resample` | `resample.dfy` | the dispatcher |
| `Geometry` | `geometry.dfy` | bounds, interpolation and texture windows |
| `LineClip` | `line_clip.dfy` | line clipping |
| `QuadClip` | `quad_clip.dfy` | quad clipping |
| `LineQuad` | `line_quad.dfy` | line to quad |
| `Adam7` | `adam7.dfy` | Adam7 pass geometry |
| `PngAlpha` | `png_alpha.dfy` | the PNG alpha overlay |
| `PngLoad` | `png_load.dfy` | `render_load_png` and `render_detect_image` |
| `JpegSource` | `jpeg_source.dfy` | the JPEG source manager |
| `RawInputNames` | `rawinput_names.dfy` | the RawInput name helpers |
| `RawInputDevices` | `rawinput_devices.dfy` | the RawInput devices |
| `DcCons` | `dccons.dfy` | the Dreamcast G1 interface |
| `Wrappers` | `wrappers.dfy` | `Option` |

The code mutates pixel buffers, device objects and register files in place, and the model does the same.

- The kernels and the PNG overlay are methods over `array<u32>`. Their loops follow the source's loops, except that the integer kernel clamps its sampling position (see "## Findings"). Each is proved against a ghost target function on `seq`.
- Devices, the JPEG source and the console state are classes with `modifies` frames.
- Clipping, line-to-quad, Adam7 geometry and the name helpers are functions, or methods where the source loops.

Float arithmetic (clipping, line to quad) is modelled with exact `real`s.

## Model

Paths are relative to the repository root.

| member | source | states |
|---|---|---|
| `ResampleCommon.BlendOpaque` | src/emu/rendutil.cpp:199-236 | with the opaque colour the premultiplied factors are 256, the destination is never read, and the stored pixel equals the sampled one |
| `ResampleCommon.BlendZeroAlphaClearsWhite` | src/emu/rendutil.cpp:219-236 | the translucent branch adds `dpix * (256 - a)` without dividing by 256 and then narrows to eight bits, so with a zero-alpha colour an opaque white destination becomes 0 |
| `IntegerKernel.ClampedStep` | src/emu/rendutil.cpp:206-217 | the replicated source row and column always lie inside the source; they equal the fixed-point position `(i * d) >> 12` whenever that position is inside |
| `IntegerKernel.UnitStep` | src/emu/rendutil.cpp:208-217 | with the step 0x1000 of equal sizes, destination position i samples source position i, inside the axis |
| `IntegerKernel.IntegerIdentity` | src/emu/rendutil.cpp:194-239 | at equal sizes with the opaque colour, every destination pixel is the source pixel at the same (x, y) |
| `IntegerKernel.CeilingStepOvershoots` | src/emu/rendutil.cpp:178-183 | the ceiling step of a 683-to-2049 magnification is 1366, and row 2048 then samples source row 683, one past the end |
| `IntegerKernel.ResampleInteger` | src/emu/rendutil.cpp:194-239 | every pixel of the destination region becomes the tinted source pixel at the clamped step position (`ClampedStep`), blended over its old value; every index outside the region is unchanged |
| `AverageKernel.Chunk` | src/emu/rendutil.cpp:278-291 | a chunk is positive and at most the remaining extent, never more than one source pixel, and ends on a pixel boundary unless it ends the extent |
| `AverageKernel.CoverStep` | src/emu/rendutil.cpp:164-175 | a positive floor step `(size << 12) / dsize` keeps the extent of every destination pixel inside the source |
| `AverageKernel.RowSumUniform` | src/emu/rendutil.cpp:285-304 | the weights of one row add up to the row's area: a uniform row sums to v times `ychunk * dx` |
| `AverageKernel.AreaSumUniform` | src/emu/rendutil.cpp:273-305 | the weights of all rows add up to `dx * dy`: a uniform area sums to v times the area |
| `AverageKernel.AverageUniform` | src/emu/rendutil.cpp:250-311 | dividing by `sumscale = dx * dy` gives back the value of a uniform source channel |
| `AverageKernel.AverageSolidOpaque` | src/emu/rendutil.cpp:248-327 | averaging a source of one pixel value with the opaque colour reproduces that pixel exactly |
| `AverageKernel.RowSumBound` | src/emu/rendutil.cpp:285-304 | a row's weighted sum is at most 0xff times its area |
| `AverageKernel.AreaSumBound` | src/emu/rendutil.cpp:273-305 | the whole weighted sum is at most 0xff times `dx * dy` |
| `AverageKernel.AverageChannelBound` | src/emu/rendutil.cpp:307-311 | an averaged channel is at most 0xff, so narrowing to `rgb_t` loses nothing |
| `AverageKernel.AccumulateRow` | src/emu/rendutil.cpp:275-304 | the inner loop computes the four weighted channel sums of one source row |
| `AverageKernel.AccumulateArea` | src/emu/rendutil.cpp:269-305 | the outer loop computes the four weighted channel sums of the whole area a destination pixel covers |
| `AverageKernel.ResampleAverage` | src/emu/rendutil.cpp:248-327 | every pixel of the destination region becomes the tinted weighted average over its old value; every index outside the region is unchanged |
| `BilinearKernel.LimitBound` | src/emu/rendutil.cpp:337 | a position below `size << 12` names a pixel inside the axis |
| `BilinearKernel.Fetch` | src/emu/rendutil.cpp:365-373 | a neighbour reads as 0 unless both coordinates pass the signed test and the limit test; otherwise it is the source pixel under them, inside the buffer |
| `BilinearKernel.WeightsSum` | src/emu/rendutil.cpp:382-408 | the four bilinear weights add up to 0x100_0000 |
| `BilinearKernel.MixBound` | src/emu/rendutil.cpp:382-411 | the weighted channel sum is at most `0xff * 0x100_0000`, so the 32-bit accumulators never wrap |
| `BilinearKernel.MixUniform` | src/emu/rendutil.cpp:382-411 | four neighbours that agree in a channel mix to that value at every fractional position |
| `BilinearKernel.MixOnGrid` | src/emu/rendutil.cpp:382-411 | on the source grid the mix is the top-left neighbour alone |
| `BilinearKernel.BilinearChannelBound` | src/emu/rendutil.cpp:355-414 | every channel the kernel produces is at most 0xff before tinting |
| `BilinearKernel.BilinearSolidInterior` | src/emu/rendutil.cpp:335-430 | where all four neighbours lie inside a source of one pixel value, the opaque colour reproduces that value |
| `BilinearKernel.FirstPixelReadsOutside` | src/emu/rendutil.cpp:355-373 | at a 2x magnification the first sample position wraps to 0xffff_fc00, fails the signed test and reads the left neighbours as 0 |
| `BilinearKernel.FetchPixel` | src/emu/rendutil.cpp:366-367 | one guarded fetch equals `Fetch` |
| `BilinearKernel.FetchNeighbours` | src/emu/rendutil.cpp:361-373 | the four neighbours are those at (cur, cur), (next, cur), (cur, next) and (next, next) |
| `BilinearKernel.MixNeighbours` | src/emu/rendutil.cpp:357-408 | the four channel sums of one destination pixel are the weighted sums of its neighbours |
| `BilinearKernel.ResampleBilinear` | src/emu/rendutil.cpp:335-430 | every pixel of the destination region becomes the tinted bilinear sample over its old value; every index outside the region is unchanged |
| `Resample.CeilStep` | src/emu/rendutil.cpp:178-179 | the magnifying step is the least d with `d * dsize >= size << 12` |
| `Resample.CeilAtMostFloorPlusOne` | src/emu/rendutil.cpp:170-179 | the ceiling step exceeds the floor step by at most one |
| `Resample.HalvingAverages` | src/emu/rendutil.cpp:170-175 | shrinking to at most half the size on either axis always selects averaging |
| `Resample.MagnifyingDoesNotAverage` | src/emu/rendutil.cpp:170-175 | a destination at least as large as the source on both axes is averaged only when forced |
| `Resample.StepAtMostUnit` | src/emu/rendutil.cpp:170-171 | a destination at least as large as the source gives a floor step of at most 0x1000 |
| `Resample.SameSizeCopies` | src/emu/rendutil.cpp:157-186 | equal sizes select block replication with unit steps |
| `Resample.CeilingStepOvershoots` | src/emu/rendutil.cpp:157-186 | magnifying 683 rows to 2049 selects block replication with step 1366, whose last row samples outside the source |
| `Resample.ResampleHq` | src/emu/rendutil.cpp:157-186 | an empty destination is untouched; otherwise the destination becomes what the kernel chosen from the floor steps, the force flag and the divisibility of the sizes computes (block replication with the clamped sampling of `ResampleInteger`); averaging gets steps that cover the source |
| `Geometry.WindowWhole` | src/emu/rendutil.cpp:545-592 | the window (0, 1, 0, 1) of a texture quad is the quad itself |
| `Geometry.LerpCompose` | src/emu/rendutil.cpp:545-592 | interpolating between two interpolated points stays on the original interpolation |
| `Geometry.BilerpDown` | src/emu/rendutil.cpp:545-564 | bilinear texture interpolation is affine along the vertical |
| `Geometry.LerpSwap` | src/emu/rendutil.cpp:545-592 | interpolating across then down equals interpolating down then across |
| `Geometry.BilerpAcross` | src/emu/rendutil.cpp:569-592 | bilinear texture interpolation is affine along the horizontal |
| `Geometry.Between` | src/emu/rendutil.cpp:476-504 | `a + (b - a) * t` with t in [0, 1] lies between a and b |
| `Geometry.Fraction` | src/emu/rendutil.cpp:541-592 | the clip fraction lies in [0, 1] |
| `LineClip.Outcode` | src/emu/rendutil.cpp:442-464 | an outcode bit is set exactly when the point lies beyond the corresponding clip edge |
| `LineClip.SharedBit` | src/emu/rendutil.cpp:470-472 | the test `(code0 & code1) != 0` holds exactly when both endpoints lie beyond one common edge |
| `LineClip.Choice` | src/emu/rendutil.cpp:474-500 | the loop moves the first endpoint when its code is nonzero, else the second, onto the first edge its code names |
| `LineClip.Move` | src/emu/rendutil.cpp:478-510 | moving the chosen endpoint onto a clip edge leaves the other endpoint where it was |
| `LineClip.ClipStep` | src/emu/rendutil.cpp:474-510 | one round moves the first endpoint when it is outside the clip, else the second, and keeps the other |
| `LineClip.InterpBetween` | src/emu/rendutil.cpp:478-500 | the interpolated coordinate of a crossing lies between the endpoints' coordinates |
| `LineClip.CrossRowOnLine` | src/emu/rendutil.cpp:478-490 | a crossing with a horizontal clip edge lies on every line through both endpoints |
| `LineClip.CrossColumnOnLine` | src/emu/rendutil.cpp:492-500 | a crossing with a vertical clip edge lies on every line through both endpoints |
| `LineClip.MoveProgress` | src/emu/rendutil.cpp:440-510 | on a line not yet rejected, a move strictly lowers the number of edges the endpoints still lie beyond, so the loop terminates |
| `LineClip.ClipStepFacts` | src/emu/rendutil.cpp:474-510 | one round stays in the box of the current endpoints and on the line through them, and makes progress |
| `LineClip.ClipLine` | src/emu/rendutil.cpp:437-517 | the result is accepted exactly when both endpoints are inside the clip, and rejected exactly when both lie beyond one edge; the endpoints stay on the original segment; a line that needs no clipping comes back unchanged |
| `QuadClip.ClipQuad` | src/emu/rendutil.cpp:524-596 | the quad is rejected exactly when it is disjoint from the clip, and is then unchanged; otherwise it becomes its intersection with the clip, and the texture coordinates become the window of the original texture quad at the clipped edges' fractions |
| `QuadClip.ClipTopWindow` | src/emu/rendutil.cpp:541-553 | moving the top corners down by f cuts the texture window's top edge by f |
| `QuadClip.ClipBottomWindow` | src/emu/rendutil.cpp:555-567 | moving the bottom corners up by f cuts the texture window's bottom edge by f |
| `QuadClip.ClipLeftWindow` | src/emu/rendutil.cpp:569-581 | moving the left corners right by f cuts the texture window's left edge by f |
| `QuadClip.ClipRightWindow` | src/emu/rendutil.cpp:583-595 | moving the right corners left by f cuts the texture window's right edge by f |
| `QuadClip.FracBack` | src/emu/rendutil.cpp:555-595 | the second cut on an axis, measured against the extent left by the first, lands at the clip edge's position in the original extent |
| `QuadClip.ParamEnds` | src/emu/rendutil.cpp:524-596 | an uncut edge keeps its texture parameter 0 or 1 |
| `LineQuad.LineToQuad` | src/emu/rendutil.cpp:604-702 | the two short edges are translates of each other, and their midpoints are symmetric about the line's midpoint |
| `LineQuad.PointDiamond` | src/emu/rendutil.cpp:661-671 | a point becomes a diamond whose corners lie `0.70710678 * width` left of, above, below and right of it |
| `LineQuad.AcrossShape` | src/emu/rendutil.cpp:698-701 | each short edge is twice the rotated half-width vector, and the edges' midpoints are as far apart as the ends of the extended line |
| `LineQuad.EdgesPerpendicular` | src/emu/rendutil.cpp:674-701 | for a line, each short edge is perpendicular to the line |
| `LineQuad.EdgesWidth` | src/emu/rendutil.cpp:674-701 | for a line, each short edge is exactly `width` long |
| `LineQuad.CentreLineAlong` | src/emu/rendutil.cpp:674-701 | for a line, the quad's centre line runs along the line |
| `LineQuad.CentreLineLength` | src/emu/rendutil.cpp:676-701 | for a line, the quad's centre line is `length + max(length_extension, 0)` long |
| `LineQuad.LineEndsLength` | src/emu/rendutil.cpp:679-690 | the extended line is `length + length_extension` long |
| `LineQuad.LineEndsStretch` | src/emu/rendutil.cpp:679-690 | extending stretches the line by `(length + length_extension) / length` in its own direction |
| `Adam7.PassOf` | src/emu/rendutil.cpp:884-901 | the pass covering an image pixel, read from the 8 x 8 Adam7 pattern, is one of the seven passes |
| `Adam7.Pass` | src/emu/rendutil.cpp:890-901 | the pass writing an image pixel is below `pass_count`: one of seven when interlaced, else pass 0 |
| `Adam7.PassTables` | src/emu/rendutil.cpp:885-888 | the offsets `(1 << shift) - bias - 1` are the Adam7 starting columns and rows, and lie within one step |
| `Adam7.ColumnInRange` | src/emu/rendutil.cpp:895-900 | a pass column is inside the pass width `(width + x_bias) >> x_shift` exactly when its image column is inside the image |
| `Adam7.RowInRange` | src/emu/rendutil.cpp:896-901 | a pass row is inside the pass height exactly when its image row is inside the image |
| `Adam7.TransCovered` | src/emu/rendutil.cpp:900-901 | `x_trans` and `y_trans` land on an image pixel that the same pass covers |
| `Adam7.TransPattern` | src/emu/rendutil.cpp:900-901 | the translated pixels of a pass fall on the pattern cells marked with that pass |
| `Adam7.PixelCovered` | src/emu/rendutil.cpp:900-901 | every image pixel is the translation of its own column and row in its own pass |
| `Adam7.ExactlyOnce` | src/emu/rendutil.cpp:890-976 | the passes write every image pixel exactly once and nothing outside the image |
| `PngAlpha.Stride` | src/emu/rendutil.cpp:903-975 | the walk advances 1, 1, 2, 3 or 4 bytes per pixel for colour types 3, 0, 4, 2 and 6 |
| `PngAlpha.RowBytesExact` | src/emu/rendutil.cpp:897 | with eight-bit samples a row holds exactly `width * stride` bytes |
| `PngAlpha.SampleInPass` | src/emu/rendutil.cpp:897-899 | each pixel's sample lies inside its pass's share `height * (rowbytes + 1)` of the image |
| `PngAlpha.OffsetMono` | src/emu/rendutil.cpp:898 | `pass_offset` never decreases |
| `PngAlpha.SampleReadable` | src/emu/rendutil.cpp:892-975 | every sample the walk reads lies inside the image buffer, and every palette entry inside the palette |
| `PngAlpha.OverlaidChannels` | src/emu/rendutil.cpp:911-914 | the overlay rewrites the alpha channel and keeps red, green and blue |
| `PngAlpha.ReachedAll` | src/emu/rendutil.cpp:890-976 | after the last pass every index of the image area has been written |
| `PngAlpha.ProgressEnd` | src/emu/rendutil.cpp:890-976 | after the last pass every pixel of the image area carries its new alpha, and nothing else has changed |
| `PngAlpha.AndOpaque` | src/emu/rendutil.cpp:913 | `accumalpha &= alpha` stays 0xff exactly while every alpha so far is 0xff |
| `PngAlpha.OverlayRow` | src/emu/rendutil.cpp:906-916 | one row of a pass writes each pixel's alpha from its sample, and the running AND records exactly whether an alpha below 0xff was seen |
| `PngAlpha.OverlayPass` | src/emu/rendutil.cpp:892-976 | one pass processes its rows in order, starting at `pass_offset[pass]` |
| `PngAlpha.CopyPngAlpha` | src/emu/rendutil.cpp:876-980 | every pixel of the image area takes the alpha of the sample covering it and keeps its colour; every other index is unchanged; the result is true exactly when some written alpha is below 0xff |
| `PngAlpha.PassStep` | src/emu/rendutil.cpp:898 | `pass_offset[pass + 1]` is `pass_offset[pass] + height * (rowbytes + 1)` |
| `PngAlpha.SampleStep` | src/emu/rendutil.cpp:908 | the next pixel's sample follows the current one by the stride |
| `PngLoad.LoadPng` | src/emu/rendutil.cpp:821-868 | without overlay, the bitmap is reset; after a successful copy it holds the decoded image at the PNG's size, and the result is the copy's alpha flag; after any failure it stays empty and the result is false; with overlay, the bitmap changes only for a decoded image of its size with at most eight bits, and then exactly as `CopyPngAlpha` says; every other path returns false |
| `PngLoad.CopyPixels` | src/emu/rendutil.cpp:844-851 | the bitmap's storage receives the copied image pixel for pixel |
| `PngLoad.DetectImage` | src/emu/rendutil.cpp:987-1028 | the first probe that accepts the file decides, in the order PNG, JPEG, Microsoft DIB; Unknown exactly when none accepts |
| `JpegSource.Skipped` | src/emu/rendutil.cpp:40-78 | skipping n bytes leaves the rest of the stream; past its end, the remainder of an inserted end-of-image marker pair |
| `JpegSource.SkipCompose` | src/emu/rendutil.cpp:64-78 | skipping a bytes and then b bytes is skipping a + b bytes |
| `JpegSource.SkipPastEnd` | src/emu/rendutil.cpp:47-57 | past the end of the file, skipping whole inserted marker pairs and then num more bytes is skipping num bytes |
| `JpegSource.SkipStep` | src/emu/rendutil.cpp:70-74 | one refill of the skip loop drops the buffered bytes and brings either the next file bytes or one more marker pair, keeping the skip state |
| `JpegSource.SkipEnd` | src/emu/rendutil.cpp:75-76 | the final adjustment of `next_input_byte` and `bytes_in_buffer` completes the skip |
| `JpegSource.Source.constructor` | src/emu/rendutil.cpp:34-38 | a fresh source has an empty buffer at the start of the file |
| `JpegSource.Source.Read` | src/emu/rendutil.cpp:45 | a read delivers the next file bytes, at most `INPUT_BUF_SIZE` of them |
| `JpegSource.Source.Fill` | src/emu/rendutil.cpp:40-62 | an empty file at the start is fatal; at the end of a non-empty file the buffer holds the end-of-image marker; otherwise the buffer holds the next file bytes; on success `start_of_file` is cleared and the buffer is not empty |
| `JpegSource.Source.Skip` | src/emu/rendutil.cpp:64-78 | a non-positive count changes nothing; otherwise the remaining stream becomes `Skipped(old stream, n)`; the skip fails exactly when a refill hits an empty file at its start |
| `RawInputNames.TrimPrefix` | src/osd/modules/input/input_rawinput.cpp:139-147 | the result is the longest suffix of the name free of ';': the whole name without a ';', else what follows the last ';' |
| `RawInputNames.TrimPrefixAfterLast` | src/osd/modules/input/input_rawinput.cpp:139-147 | for any prefix, the result of trimming `before;after` with no ';' in `after` is `after` |
| `RawInputNames.TrimPrefixIdempotent` | src/osd/modules/input/input_rawinput.cpp:139-147 | trimming twice is trimming once |
| `RawInputNames.ComputeDeviceRegpath` | src/osd/modules/input/input_rawinput.cpp:149-171 | the path is the base path plus the name after its 4-character prefix with '#' turned into '\', cut at its last '\'; it has no '#' past the base; it extends the base path exactly when the converted name has a '\' of its own |
| `RawInputNames.ConcatConverted` | src/osd/modules/input/input_rawinput.cpp:151-162 | the buffer holds the base path followed by the converted name |
| `RawInputNames.LastSeparator` | src/osd/modules/input/input_rawinput.cpp:164-168 | `wcsrchr` finds the last '\' of the buffer |
| `RawInputDevices.Device.Detach` | src/osd/modules/input/input_rawinput.cpp:283-290 | a detached device has no handle and is a reconnect candidate for its own id |
| `RawInputDevices.Device.Attach` | src/osd/modules/input/input_rawinput.cpp:283-297 | an attached device holds the new handle and is no longer a reconnect candidate for any id |
| `RawInputDevices.Scancode` | src/osd/modules/input/input_rawinput.cpp:324-325 | the scancode is below 256, carries the make code's low seven bits, and is at least 0x80 exactly for an E0-prefixed key |
| `RawInputDevices.ScancodeInjective` | src/osd/modules/input/input_rawinput.cpp:324-325 | two reports give the same scancode exactly when their low make-code bits and E0 flags agree |
| `RawInputDevices.Keyboard.Reset` | src/osd/modules/input/input_rawinput.cpp:317-320 | every key is released |
| `RawInputDevices.Keyboard.ProcessEvent` | src/osd/modules/input/input_rawinput.cpp:322-333 | the fake shift 0xaa changes nothing; otherwise only the key's byte changes, to released on a break and pressed on a make; keys stay 0 or 0x80 |
| `RawInputDevices.UpdateButtons` | src/osd/modules/input/input_rawinput.cpp:653-662 | each of the five buttons is released when its UP flag is set, else pressed when its DOWN flag is set, else unchanged |
| `RawInputDevices.Signed16` | src/osd/modules/input/input_rawinput.cpp:649-650 | `int16_t` of a 16-bit word is the value in [-32768, 32767] congruent to it modulo 2^16 |
| `RawInputDevices.Mouse.Poll` | src/osd/modules/input/input_rawinput.cpp:597-606 | with `relative_reset` the accumulated movement is published and the accumulators restart at 0; without it nothing changes |
| `RawInputDevices.Mouse.Reset` | src/osd/modules/input/input_rawinput.cpp:608-612 | buttons are released, and the axes and accumulators are zero |
| `RawInputDevices.Mouse.ProcessEvent` | src/osd/modules/input/input_rawinput.cpp:639-664 | only a relative report counts: it adds the movement times 512 to the accumulators, adds the signed wheel delta when the wheel flag is set, and updates the buttons; any other report changes nothing |
| `RawInputDevices.Lightgun.Poll` | src/osd/modules/input/input_rawinput.cpp:686-691 | with `relative_reset` the accumulated wheel is published and restarts at 0 |
| `RawInputDevices.Lightgun.Reset` | src/osd/modules/input/input_rawinput.cpp:693-697 | buttons are released, and the axes and the wheel accumulator are zero |
| `RawInputDevices.Lightgun.ProcessEvent` | src/osd/modules/input/input_rawinput.cpp:732-758 | only a report with the absolute flag counts: it sets X and Y to the normalised positions, accumulates the wheel, and updates the buttons; any other report changes nothing |
| `RawInputDevices.MouseOrLightgun` | src/osd/modules/input/input_rawinput.cpp:639-758 | no report counts both as mouse movement and as a lightgun position |
| `RawInputDevices.HatSwitch` | src/osd/modules/input/input_rawinput.cpp:535-540 | four outputs, each 0 or 0x80; up and down are never pressed together, nor left and right; a straight position presses one direction, a diagonal two, and any other value none |
| `RawInputDevices.HatDiagonals` | src/osd/modules/input/input_rawinput.cpp:535-540 | a diagonal presses exactly the union of its two neighbouring straight positions |
| `RawInputDevices.ButtonCount` | src/osd/modules/input/input_rawinput.cpp:1133-1155 | the count is the largest capped `usage_max` of the counted ranges, at most 32, and 0 exactly when no range counts |
| `RawInputDevices.IsValidJoystick` | src/osd/modules/input/input_rawinput.cpp:1101-1161 | a device is accepted exactly when its usage is joystick or gamepad and some button range counts |
| `DcCons.AlignedStep` | src/mame/sega/dccons_m.cpp:104 | one sector less of an aligned, unfinished length is still aligned |
| `DcCons.Steps` | src/mame/sega/dccons_m.cpp:58-110 | an aligned length reaches zero after exactly `len / 2048` timer steps |
| `DcCons.DcCons.AtaInterrupt` | src/mame/sega/dccons_m.cpp:48-56 | the GD-ROM bit of `SB_ISTEXT` mirrors the line; every other bit and register is unchanged |
| `DcCons.DcCons.G1Read` | src/mame/sega/dccons_m.cpp:140-167 | `SB_GDSTARD` reads the DMA address, `SB_GDLEND` the bytes done, `SB_SECUR_EADR` 0xff, `SB_SECUR_STATE` 3; every other offset reads the stored register |
| `DcCons.DcCons.G1Write` | src/mame/sega/dccons_m.cpp:169-230 | the register takes the data; `SB_GDLEN` sets the length; a start on `SB_GDST` with DMA enabled and the drive-to-memory direction loads the address from `SB_GDSTAR` and zeroes the bytes done; a plain register reads back what was written |
| `DcCons.DcCons.XferEnd` | src/mame/sega/dccons_m.cpp:58-110 | a zero length clears `SB_GDST` and raises the DMA-end interrupt; otherwise address and bytes done advance by 2048 modulo 2^32 and the length drops by 2048; bytes done plus length is conserved, and alignment is kept |
| `DcCons.DcCons.PackSector` | src/mame/sega/dccons_m.cpp:82-87 | each 16-bit DMA word is stored low byte first |

## Left out

- Floating point. The render colour, the clip coordinates and `render_line_to_quad` use exact reals or integer factors, not IEEE `float`. `sqrtf` is a parameter: the length must be a positive number whose square is the squared length. `ceil(float(...))` is the exact integer ceiling. The factors `color * 256.0f` are integers in [0, 256].
- `Resample.ResampleHq` requires `AverageSafe`: a positive averaging step on both axes. The source divides by `dx * dy` when forced averaging meets a destination over 4096 times the source size. It also requires sizes below 2^20, so that `size << 12` fits in 32 bits.
- `Resample.ResampleHq` requires a non-empty source whenever the destination is non-empty. With an empty source the code divides by zero: `dwidth % swidth` in the dispatch, or `sumscale == 0` in the averaging kernel.
- `Resample.ResampleHq` inherits the clamped sampling of `IntegerKernel.ResampleInteger`. On an overshooting ceiling step, such as 683 to 2049 rows, the source reads outside the source bitmap; the model repeats the last row or column instead. See "## Findings".
- `IntegerKernel.ResampleInteger` samples at `ClampedStep`, not at the unbounded `(i * d) >> 12` of the source. The two agree whenever that position is inside the source. When the ceiling step overshoots, the source reads past the source bitmap; the model reads its last row or column. `IntegerKernel.CeilingStepOvershoots` shows the source's behaviour on such an input.
- Mouse and lightgun accumulators and published axes are unbounded integers; the source's `LONG` wrap-around is not modelled. `atapi_xferlen` is an integer given the `u32` written to `SB_GDLEN`; its conversion to a signed int is not modelled.
- Foreign code is outside the model, with outcomes and inputs as parameters where needed:
  - the PNG decoder (`read_file`, `expand_buffer_8bit`, `copy_to_bitmap`);
  - `render_load_msdib` and `render_load_jpeg` with libjpeg;
  - the probes of `render_detect_image` (booleans).
- `rgb_t::brightness` is a function parameter; its header is not part of this model.
- JPEG: the file is a byte sequence. What libjpeg does after `ERREXIT` is not modelled; `Skip` reports the failure as `ok == false`.
- `do_term` and `source()`'s allocation are left out. Only the initial empty-buffer state is modelled.
- Dreamcast:
  - timer scheduling (`atapi_timer->adjust`) is left out;
  - the ATA DMA reads are the `words` parameter;
  - `sh4_dma_ddt`, `write_dmack`, `dc_update_interrupt_status` and logging are left out;
  - `mem_mask` is ignored, as in the source;
  - the `SB_SECUR_EADR` unlock branch only logs.
- Dreamcast register offsets and interrupt bits come from the console header `dc.h`, which is not part of this model.
- RawInput:
  - device enumeration, registry access and the HID API calls are not modelled, nor are `configure`/`add_item` and `set_axis_value`;
  - the event queue in the base `poll` is not modelled;
  - of the joystick's `process_event`, only hat decoding is modelled; buttons and axes are not;
  - `normalize_absolute_axis` is a parameter;
  - the device list search that calls `reconnect_candidate` is not modelled.
- `RawInputDevices.IsValidJoystick` takes the HID query results as inputs. Failures of `GetRawInputDeviceInfoW`, `HidP_GetCaps` and `HidP_GetButtonCaps` are left out.
- `RawInputNames.ComputeDeviceRegpath` requires a name without NUL characters; names come from a NUL-terminated buffer. The `nullptr` branch after `wcsrchr` cannot happen, because the base path ends with '\', and it is not modelled.
- `QuadClip.ClipQuad` requires ordered bounds (`x0 <= x1`, `y0 <= y1`) for the quad and the clip, as render code supplies them.
- `PngAlpha.CopyPngAlpha` requires `WellFormed` of the decoded image. Only the eight-bit bound is checked by `render_load_png`, which refuses deeper samples. The other parts are assumptions about the PNG decoder, and nothing in the code checks them:
  - a known colour type;
  - image data for every pass (`pass_offset[pass_count] <= |image|`);
  - a palette entry for every palette index.
  A palette index past the PLTE entries would be an unchecked out-of-bounds read at `png.palette[*src * 3 + 2]`. The model does not capture that read.
- `PngLoad.LoadPng` assumes, through `Expanded`, the same decoder guarantees for any decoded image of at most eight bits. These are a known colour type, enough image bytes and a covered palette.
- `PngLoad.LoadPng` takes what `copy_to_bitmap` produces as a parameter. That is the decoded ARGB pixels at the PNG's size, or a failure. The conversion from PNG samples to pixels is not modelled. A failed copy is taken to leave the freshly reset bitmap empty.
- Colour types 4 and 6 take their alpha from the gray sample and from the brightness of red, green and blue; the PNG's own alpha sample is not used. The model follows the code here.
- PNG rows: the pass offsets reserve one filter byte per row, but the walk over a pass advances by the stride only. The model does the same.
- PNG overlay: when the overlay cannot be applied (wrong size or deep samples), the bitmap is left as it was and the result is false. The model follows the code here; the code does not reset the bitmap in overlay mode.
- Several source functions are split into more than one method so that each proof stays small:
  - the kernels' row and area loops;
  - the overlay's row and pass loops;
  - the registry-path buffer copy and search.

## Findings

| source | as written | input that shows it | evidently intended | confidence | as-written member | corrected member |
|---|---|---|---|---|---|---|
| src/emu/rendutil.cpp:178-217 | block replication steps by `ceil((size << 12) / dsize)` and reads source row `(y * dy) >> 12` with no bound | a 683 x 683 source into a 2049 x 2049 destination: step 1366, and destination row 2048 reads source row 683, one past the last | every replicated row and column lies inside the source | not executed | `IntegerKernel.CeilingStepOvershoots` | `IntegerKernel.ClampedStep` |
