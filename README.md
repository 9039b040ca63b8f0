# SensorStreamViewer frame renderer, modelled in Dafny

This project models the frame renderer of the HoloLensForCV SensorStreamViewer
sample. The renderer takes frames from the HoloLens research-mode sensors
(colour, depth, infrared and the visible-light cameras) and turns each one into
a premultiplied BGRA8 bitmap that a XAML image element can show. The model
covers these parts of the renderer:

- **Colour ramp** (`colors.dfy`). The nine-anchor ramp and the integer blend
  that builds the pseudo-colour tables. The source writes the blended fields
  into the BGRA struct in the order A, R, G, B, so the anchors' fields come
  out permuted. The model keeps that quirk and proves what follows from it:
  every table colour is opaque, so none of them is the invalid-sample
  sentinel.
- **Scanline transforms** (`scanlines.dfy`). Three transforms turn one row of
  raw samples into BGRA pixels, each as an array method with a loop:
  - 16-bit depth, which is invalid when the sample is 0 or above 4000;
  - 16-bit infrared and 8-bit infrared, which are invalid when the sample is 0.

  Each invalid sample becomes the sentinel B=0xFF, G=0, R=0, A=0x7F. The
  16-bit samples are read little-endian.
- **Bitmap drivers** (`bitmaps.dfy`, with byte-buffer writes in `buffers.dfy`):
  - `TransformBitmap` applies a scanline transform to every row, reading row y
    at y × input stride and writing it at y × output stride.
  - `DeepCopyBitmap` copies every input row byte for byte.
  - `TransformVlcBitmap` handles the fixed 640×480 single-channel camera mode.
    It averages each 2×2 block and turns the image a quarter turn into a
    240-pixel-wide, 320-row grey output.

  Each driver is specified as the exact sequence of writes it performs, in
  loop order. Lemmas then state the result pixel by pixel and prove that
  bytes outside the written rows keep their values.
- **Frame-reader negotiation** (`negotiation.dfy`). The subtype requested for
  each source kind. Subtypes are compared while ignoring case.
- **Conversion dispatch** (`dispatch.dfy`). Which conversion, if any, makes a
  frame displayable, chosen by source kind, pixel format, width and sensor
  name. `Dispatch.Render` then runs the chosen conversion on
  caller-supplied buffers.
- **Admission control** (`admission.dfy`). The renderer keeps two capped
  counters, one for frames scheduled for the UI thread and one for bitmap
  updates in progress. The model is a class whose steps are:
  - a frame arrives;
  - the dispatcher runs one queued handler;
  - a bitmap update completes.

  The invariant `Valid` says that each counter equals the number of tasks it
  stands for and stays within its cap.

Where the code and its own comments disagree, the model follows the code:

- The infrared case of `GetSubtypeForFrameReader` is commented "L8 and L16",
  but it accepts L8 and D16. L16 is rejected (`Negotiation.InfraredRejectsL16`).
- `DeepCopyBitmap` copies the whole input stride of every row, padding
  included, not only width × 4 bytes.

## Model

| member | source | states |
|---|---|---|
| Colors.Channel | Samples/SensorStreamViewer/FrameRenderer.cpp:53-58 | byte k = 0, 1, 2, 3 of a pixel in memory is its B, G, R, A field |
| Colors.PixelBytes | Samples/SensorStreamViewer/FrameRenderer.cpp:53-58 | a packed BGRA pixel is four bytes in memory: B, G, R, A at offsets 0 to 3 |
| Colors.RampIndex | Samples/SensorStreamViewer/FrameRenderer.cpp:79-82 | the segment index is the integer part clamped to 0 .. 7, so anchors index and index + 1 always exist |
| Colors.Blend | Samples/SensorStreamViewer/FrameRenderer.cpp:87-94 | the integer blend (prev × (255 − alpha) + next × alpha) / 255 lies between the two anchor values and is prev at weight 0 |
| Colors.ColorRampInterpolation | Samples/SensorStreamViewer/FrameRenderer.cpp:74-95 | the result's B, G, R, A fields are the blends of the A, R, G, B fields of anchors RampIndex(i) and RampIndex(i) + 1, so each lies between those anchors' fields in that permuted order; at weight 0 it is the lower anchor with its fields permuted |
| Colors.InterpolationAtOne | Samples/SensorStreamViewer/FrameRenderer.cpp:79-94 | integer part 8 (a value of 1.0) clamps to segment 7 and yields the permuted anchor 7, not anchor 8 |
| Colors.InterpolationIsOpaque | Samples/SensorStreamViewer/FrameRenderer.cpp:62-95 | every interpolated colour has A = 0xFF, because A is filled from the anchors' B, which are all 0xFF |
| Colors.InterpolationIsNotSentinel | Samples/SensorStreamViewer/FrameRenderer.cpp:62-95 | no interpolated colour equals the sentinel {0xFF, 0, 0, 0x7F} |
| Buffers.WriteAt | Samples/SensorStreamViewer/FrameRenderer.cpp:141 | storing a run of bytes at an offset keeps the buffer's length |
| Buffers.WriteAtAppend | Samples/SensorStreamViewer/FrameRenderer.cpp:135-149 | two stores of adjacent runs equal one store of the joined run |
| Buffers.StorePixel | Samples/SensorStreamViewer/FrameRenderer.cpp:141 | assigning a ColorBGRA through a pixel pointer writes exactly its four bytes at the offset |
| Buffers.StoreByte | Samples/SensorStreamViewer/FrameRenderer.cpp:493 | a byte assignment changes exactly that byte |
| Buffers.RowStartsApart | Samples/SensorStreamViewer/FrameRenderer.cpp:540-541 | (arithmetic helper for the driver proofs) row starts y × stride grow with y: rows a < b start at least one stride apart |
| Scanlines.Sample16 | Samples/SensorStreamViewer/FrameRenderer.cpp:133 | a 16-bit sample is read little-endian from two bytes and lies in 0 .. 65535 |
| Scanlines.SampleAt | Samples/SensorStreamViewer/FrameRenderer.cpp:133-178 | pixel x reads bytes 2x, 2x + 1 of the row for 16-bit transforms and byte x for the 8-bit one |
| Scanlines.InvalidSample | Samples/SensorStreamViewer/FrameRenderer.cpp:139-178 | a depth sample is invalid exactly outside the reliable range 1 .. 4000, an infrared sample exactly when it is 0 |
| Scanlines.PixelFor | Samples/SensorStreamViewer/FrameRenderer.cpp:139-147 | an invalid sample (0, or above 4000 for depth) gives the sentinel |
| Scanlines.Row | Samples/SensorStreamViewer/FrameRenderer.cpp:135-149 | a row of width pixels is 4 × width output bytes |
| Scanlines.RowPixel | Samples/SensorStreamViewer/FrameRenderer.cpp:135-186 | output bytes 4x .. 4x + 3 of a row are the colour chosen for input sample x |
| Scanlines.RowByte | Samples/SensorStreamViewer/FrameRenderer.cpp:134-141 | byte k of pixel x of a row is channel k (B, G, R, A order) of the colour chosen for sample x |
| Scanlines.PixelDependsOnlyOnSample | Samples/SensorStreamViewer/FrameRenderer.cpp:135-186 | pixel x depends on sample x alone |
| Scanlines.SentinelExactlyForInvalid | Samples/SensorStreamViewer/FrameRenderer.cpp:139-184 | with opaque tables, the sentinel is written if and only if the sample is invalid for the transform |
| Scanlines.RampPaletteIsOpaque | Samples/SensorStreamViewer/FrameRenderer.cpp:97-125 | lookup tables whose entries are all colour-ramp colours give only opaque colours |
| Scanlines.SentinelExactlyForInvalidRamp | Samples/SensorStreamViewer/FrameRenderer.cpp:117-184 | with tables built from the colour ramp, the sentinel is written if and only if the sample is invalid for the transform |
| Scanlines.StoreRowPixel | Samples/SensorStreamViewer/FrameRenderer.cpp:141-147 | storing `outputRow[x]` after the first x pixels extends the stored row by pixel x |
| Scanlines.PseudoColorForDepth | Samples/SensorStreamViewer/FrameRenderer.cpp:128-150 | the output row after the loop is exactly the depth row's pixels, sentinel for 0 or above 4000, stored at the output offset; nothing else changes |
| Scanlines.PseudoColorFor16BitInfrared | Samples/SensorStreamViewer/FrameRenderer.cpp:153-169 | the output after the loop is exactly the 16-bit infrared row, sentinel for 0; nothing else changes |
| Scanlines.PseudoColorFor8BitInfrared | Samples/SensorStreamViewer/FrameRenderer.cpp:172-187 | the output after the loop is exactly the 8-bit infrared row, sentinel for 0; nothing else changes |
| Scanlines.ApplyScanline | Samples/SensorStreamViewer/FrameRenderer.cpp:543 | calling the bound transform writes that transform's row |
| Bitmaps.RowFits | Samples/SensorStreamViewer/FrameRenderer.cpp:538-541 | if all rows of a bitmap fit their buffer, so does each row and each prefix of the rows |
| Bitmaps.WriteRows | Samples/SensorStreamViewer/FrameRenderer.cpp:538-544 | writing rows 0, 1, … in order at y × stride keeps the buffer's length |
| Bitmaps.WriteRowsAt | Samples/SensorStreamViewer/FrameRenderer.cpp:538-544 | with the stride at least the row size, byte j of row y ends at y × stride + j |
| Bitmaps.WriteRowsUntouched | Samples/SensorStreamViewer/FrameRenderer.cpp:538-544 | bytes in no written row keep their old value |
| Bitmaps.WriteRowsSnoc | Samples/SensorStreamViewer/FrameRenderer.cpp:538-544 | writing one more row extends the written rows by that row |
| Bitmaps.TransformRows | Samples/SensorStreamViewer/FrameRenderer.cpp:538-544 | a transformed bitmap has one output row per input row, each 4 × width bytes |
| Bitmaps.TransformRowsAt | Samples/SensorStreamViewer/FrameRenderer.cpp:540-543 | output row y is the transform of the input row at y × input stride |
| Bitmaps.TransformBitmap | Samples/SensorStreamViewer/FrameRenderer.cpp:506-553 | the output is exactly the transform of every row written in order at y × output stride |
| Bitmaps.TransformedPixel | Samples/SensorStreamViewer/FrameRenderer.cpp:538-544 | output byte y × outStride + 4x + k is channel k of the colour for sample x of input row y |
| Bitmaps.TransformedUntouched | Samples/SensorStreamViewer/FrameRenderer.cpp:538-544 | row padding and bytes after the last row keep their values |
| Bitmaps.CopyRows | Samples/SensorStreamViewer/FrameRenderer.cpp:486-495 | a deep copy writes one row per input row, each input-stride bytes long |
| Bitmaps.CopyRowsAt | Samples/SensorStreamViewer/FrameRenderer.cpp:488-494 | copied row y is input bytes y × inStride .. y × inStride + inStride − 1, padding included |
| Bitmaps.CopyRowBytes | Samples/SensorStreamViewer/FrameRenderer.cpp:491-494 | the inner loop stores exactly the row's input-stride bytes at the output row |
| Bitmaps.CopyStep | Samples/SensorStreamViewer/FrameRenderer.cpp:491-494 | storing the next byte extends the copied prefix by one |
| Bitmaps.DeepCopyBitmap | Samples/SensorStreamViewer/FrameRenderer.cpp:454-504 | the output is exactly the input rows, input-stride bytes each, written in order at y × output stride |
| Bitmaps.CopiedByte | Samples/SensorStreamViewer/FrameRenderer.cpp:486-495 | out[y × outStride + x] = in[y × inStride + x] for every x below the input stride |
| Bitmaps.CopiedUntouched | Samples/SensorStreamViewer/FrameRenderer.cpp:486-495 | output bytes outside the copied rows keep their values |
| Bitmaps.BoxAverage | Samples/SensorStreamViewer/FrameRenderer.cpp:427-432 | the value is the floor of the mean of the 2×2 block, (sum >> 2), and fits a byte |
| Bitmaps.BlockTargetFormula | Samples/SensorStreamViewer/FrameRenderer.cpp:434-436 | the model's store address for block (j, i) is the source's (x × outputStride >> 1) + 4 × ((480 / 2 − 1) − (y >> 1)) with x = 2i, y = 2j |
| Bitmaps.BlockPixel | Samples/SensorStreamViewer/FrameRenderer.cpp:427-441 | the pixel stored for block (j, i) has B = G = R = the 2×2 average at input row 2j, column 2i, and A = 255 |
| Bitmaps.BlockTargetInRow | Samples/SensorStreamViewer/FrameRenderer.cpp:434-436 | block (y = 2j, x = 2i) is stored inside output row i at pixel column 239 − j |
| Bitmaps.BlockTargetsDisjoint | Samples/SensorStreamViewer/FrameRenderer.cpp:420-443 | distinct blocks go to non-overlapping output pixels |
| Bitmaps.VlcWrittenOnce | Samples/SensorStreamViewer/FrameRenderer.cpp:420-443 | each output pixel (r, c) is the target of exactly one block, the one at input row 2 × (239 − c), column 2r |
| Bitmaps.VlcWrites | Samples/SensorStreamViewer/FrameRenderer.cpp:420-443 | the stores in the two loops' order keep the output's length |
| Bitmaps.VlcBlockStored | Samples/SensorStreamViewer/FrameRenderer.cpp:420-443 | a stored block's pixel survives all later stores |
| Bitmaps.VlcWritesUntouched | Samples/SensorStreamViewer/FrameRenderer.cpp:420-443 | bytes outside the 320 rows of 240 pixels keep their values |
| Bitmaps.VlcPixel | Samples/SensorStreamViewer/FrameRenderer.cpp:420-443 | output pixel (r, c) is grey with B = G = R = the block average at input row 2 × (239 − c), column 2r, and A = 255 |
| Bitmaps.HalfOfEvenProduct | Samples/SensorStreamViewer/FrameRenderer.cpp:434 | (arithmetic helper for the driver proofs) (x × outputStride) >> 1 is (x / 2) × outputStride for even x |
| Bitmaps.VlcRowPair | Samples/SensorStreamViewer/FrameRenderer.cpp:425-442 | one pass of the inner loop stores the 320 blocks of input rows y, y + 1 |
| Bitmaps.TransformVlcBitmap | Samples/SensorStreamViewer/FrameRenderer.cpp:393-452 | the output is exactly the 240 × 320 block stores in loop order; the input stride is not used |
| Negotiation.UpperAscii | Samples/SensorStreamViewer/FrameRenderer.cpp:271 | lower-case ASCII letters fold to upper case, all other characters are kept |
| Negotiation.EqualsIgnoreCase | Samples/SensorStreamViewer/FrameRenderer.cpp:271 | the ordinal case-ignoring comparison holds if and only if the strings have the same length and agree character by character after folding |
| Negotiation.GetSubtypeForFrameReader | Samples/SensorStreamViewer/FrameRenderer.cpp:257-282 | colour sources always request BGRA8; other accepted subtypes are returned unchanged; other kinds get none |
| Negotiation.D16Spellings | Samples/SensorStreamViewer/FrameRenderer.cpp:271 | equal to D16 up to case means exactly "D16" or "d16" |
| Negotiation.L8Spellings | Samples/SensorStreamViewer/FrameRenderer.cpp:275 | equal to L8 up to case means exactly "L8" or "l8" |
| Negotiation.DepthAcceptsOnlyD16 | Samples/SensorStreamViewer/FrameRenderer.cpp:270-271 | a depth source is accepted if and only if it offers D16 or d16, and that subtype is requested unchanged |
| Negotiation.InfraredAcceptsL8OrD16 | Samples/SensorStreamViewer/FrameRenderer.cpp:274-276 | an infrared source is accepted if and only if it offers L8, l8, D16 or d16, and that subtype is requested unchanged |
| Negotiation.InfraredRejectsL16 | Samples/SensorStreamViewer/FrameRenderer.cpp:273-276 | an infrared source offering L16 is not accepted, despite the comment |
| Dispatch.CalibrationFor | Samples/SensorStreamViewer/FrameRenderer.cpp:345-354 | the long-throw calibration is chosen if and only if the sensor name is exactly "Long Throw ToF Depth" |
| Dispatch.ConvertToDisplayableImage | Samples/SensorStreamViewer/FrameRenderer.cpp:284-391 | no frame, or an exception while converting, gives no bitmap |
| Dispatch.VlcRotateExactly | Samples/SensorStreamViewer/FrameRenderer.cpp:298-309 | the VLC transform is chosen if and only if the frame is a colour frame in Bgra8 whose width × 4 is 640 |
| Dispatch.DeepCopyExactly | Samples/SensorStreamViewer/FrameRenderer.cpp:298-327 | the deep copy is chosen if and only if the frame is a colour frame in Bgra8 of any other width |
| Dispatch.DepthTransformExactly | Samples/SensorStreamViewer/FrameRenderer.cpp:329-362 | a depth transform is chosen if and only if the frame is a depth frame in Gray16, with the long-throw calibration if and only if the sensor is "Long Throw ToF Depth" |
| Dispatch.InfraredTransformExactly | Samples/SensorStreamViewer/FrameRenderer.cpp:364-381 | infrared Gray8 frames get the 8-bit transform and infrared Gray16 frames the 16-bit one, and no other frames get them |
| Dispatch.NotDisplayableExactly | Samples/SensorStreamViewer/FrameRenderer.cpp:284-391 | no bitmap results if and only if the frame is missing, the conversion threw, or its kind and format are not one of colour/Bgra8, depth/Gray16, infrared/Gray8 or Gray16 |
| Dispatch.ScanlineReadsFormatWidth | Samples/SensorStreamViewer/FrameRenderer.cpp:333-378 | the scanline transform chosen reads one byte per pixel for Gray8 frames and two for Gray16 frames |
| Dispatch.Render | Samples/SensorStreamViewer/FrameRenderer.cpp:308-378 | running the chosen conversion produces exactly that conversion's output |
| Admission.FrameRenderer.Valid | Samples/SensorStreamViewer/FrameRenderer.cpp:210-251 | each counter stays between 0 and its cap; the predicate also ties each counter to the handlers or bitmap updates it counts |
| Admission.FrameRenderer.constructor | Samples/SensorStreamViewer/FrameRenderer.cpp:189-193 | a new renderer has both counters at zero, nothing queued and nothing shown |
| Admission.FrameRenderer.SetSensorName | Samples/SensorStreamViewer/FrameRenderer.cpp:195-198 | only the sensor name changes |
| Admission.FrameRenderer.ProcessFrame | Samples/SensorStreamViewer/FrameRenderer.cpp:200-228 | a missing reference is ignored; the frame is dropped as busy if and only if the counter was at its cap, and as not displayable if and only if it was below the cap and no conversion applies, in both cases with the counter unchanged; otherwise its bitmap is queued and counted; the invariant is kept |
| Admission.FrameRenderer.RunDispatchedHandler | Samples/SensorStreamViewer/FrameRenderer.cpp:228-247 | the handler leaves the queue and the scheduled counter drops by one; the bitmap update starts and is counted if and only if the running counter was below its cap; the invariant is kept |
| Admission.FrameRenderer.CompleteSetBitmap | Samples/SensorStreamViewer/FrameRenderer.cpp:247-253 | the completed bitmap is shown and the running counter drops by one; the invariant is kept |

## Left out

- Floating point. The scaled ramp position `value × 8` is taken as its integer
  part and its weight (the fraction × 255, rounded down) in 0 .. 254. The
  casts of a negative fraction to an unsigned weight are not modelled.
- The depth normalisation, the infrared exponent curve and the 1024-entry
  lookup tables with their `GetValue`. They are floating-point work, so the
  colour for a valid sample comes from a `Palette` of functions left
  uninterpreted. `Scanlines.SentinelExactlyForInvalid` assumes the palette is
  opaque (`OpaquePalette`). `Scanlines.RampPaletteIsOpaque` derives that from
  the palette's colours all being colour-ramp colours (`RampPalette`), which
  is what the tables hold; that the tables hold only such colours is not
  proved here, since they are filled through floating point.
- Scanlines.PixelFor: does not record which float range (0.5–4.0 m or
  0.2–1.0 m) the depth colour is computed for, only the calibration it is
  computed with.
- The COM and WinRT plumbing: locking bitmap buffers, buffer references,
  allocating the output bitmap, and reading the strides from the plane
  description. Buffers and strides are parameters, and each driver requires
  that the rows it reads and writes fit those buffers. The source checks
  none of this.
- Bitmaps.DeepCopyBitmap: requires the output to hold (height − 1) ×
  outStride + inStride bytes. The source copies input-stride bytes into each
  output row without checking that the output stride is as large.
- Overflow of the 32-bit `int` products `y * inputStride` and
  `x * outputStride`. They cannot overflow for the bitmap sizes involved, and
  the model uses unbounded integers.
- The value of `MediaEncodingSubtypes::Bgra8`, which is taken to be "BGRA8".
- Non-ASCII case folding in the ordinal comparison. No non-ASCII character
  folds to the letters D or L, so the accepted subtypes are the same.
- Negotiation.EqualsIgnoreCase: compares whole strings. The source passes the
  subtype as a NUL-terminated buffer with length -1, so it compares only up to
  the first NUL; a subtype such as "D16" followed by a NUL and more text is
  accepted by the source and rejected by the model.
- Concurrency. The interlocked counters, the UI dispatcher and the
  asynchronous `SetBitmapAsync` continuation are modelled as steps that each
  run to completion, in any order the dispatcher chooses. The brief excursion
  of a counter past its cap between an increment and its undo is not visible
  between steps.
- A failed `SetBitmapAsync`. Its continuation is value-based, so when the
  task faults the continuation does not run and the running counter is never
  decremented; the model has only the completing update
  (`CompleteSetBitmap`), so every started update eventually releases its slot.
- The scheduling priority, and the exception object and its message. An
  exception is the `threw` flag of the conversion.
- The debug output.
- The disabled `#if 0` branch of the colour case.
- The image element itself: `displayed` stands for the bitmap it shows.
- The caps `c_maxNumberOfTasksScheduled` and `c_maxNumberOfTasksRunning` and
  the counters' initial values, which live in FrameRenderer.h. That header is
  not part of this model; the caps are constructor parameters and the
  counters start at zero.
