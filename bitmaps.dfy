/** The bitmap drivers: row by row over strided byte buffers, a scanline
    transform, a raw row copy, or the fixed 2x2 box average with a quarter
    turn for the 640x480 single-channel sensor mode. */
module Bitmaps {
  import opened Colors
  import opened Buffers
  import opened Scanlines

  /** `count` rows of `rowBytes` bytes, `stride` bytes apart, fit in `len` bytes. */
  predicate RowsFit(len: int, stride: int, count: int, rowBytes: int)
  {
    stride >= 0 && rowBytes >= 0 && count >= 0 &&
    (count == 0 || (count - 1) * stride + rowBytes <= len)
  }

  /** If all rows fit, so does each of them and every shorter prefix of them. */
  lemma RowFits(len: int, stride: int, count: int, rowBytes: int, y: int)
    requires RowsFit(len, stride, count, rowBytes)
    requires 0 <= y < count
    ensures 0 <= y * stride && y * stride + rowBytes <= len
    ensures RowsFit(len, stride, y, rowBytes) && RowsFit(len, stride, y + 1, rowBytes)
  {
    RowStartsApart(y, count - 1, stride);
    if y > 0 {
      RowStartsApart(y - 1, count - 1, stride);
    }
  }

  /** Every row has `rowBytes` bytes. */
  predicate Uniform(rows: seq<seq<Byte>>, rowBytes: int)
  {
    forall y :: 0 <= y < |rows| ==> |rows[y]| == rowBytes
  }

  /** Byte i lies in the `rowBytes` bytes of row y. */
  predicate InRow(i: int, y: int, stride: int, rowBytes: int)
  {
    y * stride <= i < y * stride + rowBytes
  }

  /** The buffer after rows 0, 1, ... are written, in that order, row y at
      offset y * stride. */
  function WriteRows(buf: seq<Byte>, stride: int, rows: seq<seq<Byte>>, rowBytes: int): (r: seq<Byte>)
    requires Uniform(rows, rowBytes) && RowsFit(|buf|, stride, |rows|, rowBytes)
    ensures |r| == |buf|
    decreases |rows|
  {
    if |rows| == 0 then buf
    else
      var n := |rows| - 1;
      RowFits(|buf|, stride, |rows|, rowBytes, n);
      WriteAt(WriteRows(buf, stride, rows[..n], rowBytes), n * stride, rows[n])
  }

  /** When rows do not overlap (stride at least the row size), byte j of
      row y ends up in the buffer at y * stride + j. */
  lemma {:induction false} WriteRowsAt(buf: seq<Byte>, stride: int, rows: seq<seq<Byte>>, rowBytes: int, y: int, j: int)
    requires Uniform(rows, rowBytes) && RowsFit(|buf|, stride, |rows|, rowBytes)
    requires stride >= rowBytes
    requires 0 <= y < |rows| && 0 <= j < rowBytes
    ensures 0 <= y * stride && y * stride + j < |buf|
    ensures WriteRows(buf, stride, rows, rowBytes)[y * stride + j] == rows[y][j]
    decreases |rows|
  {
    var n := |rows| - 1;
    RowFits(|buf|, stride, |rows|, rowBytes, y);
    RowFits(|buf|, stride, |rows|, rowBytes, n);
    var prefix := rows[..n];
    assert Uniform(prefix, rowBytes);
    var prev := WriteRows(buf, stride, prefix, rowBytes);
    var off := n * stride;
    var i := y * stride + j;
    assert WriteRows(buf, stride, rows, rowBytes) == WriteAt(prev, off, rows[n]);
    WriteAtIndex(prev, off, rows[n], i);
    if y < n {
      RowStartsApart(y, n, stride);
      assert i < off;
      WriteRowsAt(buf, stride, prefix, rowBytes, y, j);
      assert prefix[y] == rows[y];
    } else {
      assert i - off == j;
    }
  }

  /** A byte that lies in no written row keeps its old value. */
  lemma {:induction false} WriteRowsUntouched(buf: seq<Byte>, stride: int, rows: seq<seq<Byte>>, rowBytes: int, i: int)
    requires Uniform(rows, rowBytes) && RowsFit(|buf|, stride, |rows|, rowBytes)
    requires 0 <= i < |buf|
    requires forall y :: 0 <= y < |rows| ==> !InRow(i, y, stride, rowBytes)
    ensures WriteRows(buf, stride, rows, rowBytes)[i] == buf[i]
    decreases |rows|
  {
    if |rows| > 0 {
      var n := |rows| - 1;
      RowFits(|buf|, stride, |rows|, rowBytes, n);
      assert !InRow(i, n, stride, rowBytes);
      WriteAtIndex(WriteRows(buf, stride, rows[..n], rowBytes), n * stride, rows[n], i);
      WriteRowsUntouched(buf, stride, rows[..n], rowBytes, i);
    }
  }

  /** Writing one more row extends the fold by that row. */
  lemma WriteRowsSnoc(buf: seq<Byte>, stride: int, rows: seq<seq<Byte>>, row: seq<Byte>, rowBytes: int)
    requires Uniform(rows, rowBytes) && |row| == rowBytes
    requires RowsFit(|buf|, stride, |rows| + 1, rowBytes)
    ensures Uniform(rows + [row], rowBytes) && RowsFit(|buf|, stride, |rows|, rowBytes)
    ensures |rows| * stride + rowBytes <= |buf|
    ensures WriteRows(buf, stride, rows + [row], rowBytes)
         == WriteAt(WriteRows(buf, stride, rows, rowBytes), |rows| * stride, row)
  {
    RowFits(|buf|, stride, |rows| + 1, rowBytes, |rows|);
    assert (rows + [row])[..|rows|] == rows;
  }

  // ---------------------------------------------------------------------
  // TransformBitmap

  /** The output rows of a scanline transform over `height` input rows. */
  function TransformRows(t: Transform, pal: Palette, inp: seq<Byte>, inStride: int, width: nat, height: nat): (rows: seq<seq<Byte>>)
    requires RowsFit(|inp|, inStride, height, RowInputBytes(t, width))
    ensures |rows| == height && Uniform(rows, 4 * width)
    decreases height
  {
    if height == 0 then []
    else
      RowFits(|inp|, inStride, height, RowInputBytes(t, width), height - 1);
      TransformRows(t, pal, inp, inStride, width, height - 1)
        + [Row(t, pal, inp, (height - 1) * inStride, width)]
  }

  /** Output row y is the transform of the input row at y * inStride. */
  lemma {:induction false} TransformRowsAt(t: Transform, pal: Palette, inp: seq<Byte>, inStride: int, width: nat, height: nat, y: int)
    requires RowsFit(|inp|, inStride, height, RowInputBytes(t, width))
    requires 0 <= y < height
    ensures 0 <= y * inStride && y * inStride + RowInputBytes(t, width) <= |inp|
    ensures TransformRows(t, pal, inp, inStride, width, height)[y]
         == Row(t, pal, inp, y * inStride, width)
    decreases height
  {
    RowFits(|inp|, inStride, height, RowInputBytes(t, width), y);
    if y < height - 1 {
      RowFits(|inp|, inStride, height, RowInputBytes(t, width), height - 1);
      TransformRowsAt(t, pal, inp, inStride, width, height - 1, y);
    }
  }

  /** Applies a scanline transform to rows 0 .. height-1 in order, reading row
      y at y * inStride and writing it at y * outStride. */
  method TransformBitmap(t: Transform, pal: Palette, input: array<Byte>, inStride: nat,
                         width: nat, height: nat, output: array<Byte>, outStride: nat)
    requires input != output
    requires RowsFit(input.Length, inStride, height, RowInputBytes(t, width))
    requires RowsFit(output.Length, outStride, height, 4 * width)
    modifies output
    ensures output[..] == WriteRows(old(output[..]), outStride,
                                    TransformRows(t, pal, input[..], inStride, width, height), 4 * width)
  {
    for y := 0 to height
      invariant RowsFit(input.Length, inStride, y, RowInputBytes(t, width))
      invariant RowsFit(output.Length, outStride, y, 4 * width)
      invariant output[..] == WriteRows(old(output[..]), outStride,
                                        TransformRows(t, pal, input[..], inStride, width, y), 4 * width)
    {
      RowFits(input.Length, inStride, height, RowInputBytes(t, width), y);
      RowFits(output.Length, outStride, height, 4 * width, y);
      ghost var before := TransformRows(t, pal, input[..], inStride, width, y);
      ApplyScanline(t, width, input, y * inStride, output, y * outStride, pal);
      WriteRowsSnoc(old(output[..]), outStride, before, Row(t, pal, input[..], y * inStride, width), 4 * width);
    }
  }

  /** The bitmap driver's result pixel by pixel: with non-overlapping output
      rows, pixel x of row y (bytes y * outStride + 4x .. +3) is the colour for
      sample x of the input row at y * inStride. */
  lemma TransformedPixel(t: Transform, pal: Palette, inp: seq<Byte>, inStride: nat, width: nat, height: nat,
                         out0: seq<Byte>, outStride: nat, y: int, x: int, k: int)
    requires RowsFit(|inp|, inStride, height, RowInputBytes(t, width))
    requires RowsFit(|out0|, outStride, height, 4 * width)
    requires outStride >= 4 * width
    requires 0 <= y < height && 0 <= x < width && 0 <= k < 4
    ensures 0 <= y * inStride && 0 <= y * outStride
    ensures y * inStride + RowInputBytes(t, width) <= |inp|
    ensures y * outStride + 4 * x + k < |out0|
    ensures WriteRows(out0, outStride, TransformRows(t, pal, inp, inStride, width, height), 4 * width)[y * outStride + 4 * x + k]
         == Channel(PixelFor(t, pal, SampleAt(t, inp, y * inStride, x)), k)
  {
    var rows := TransformRows(t, pal, inp, inStride, width, height);
    TransformRowsAt(t, pal, inp, inStride, width, height, y);
    WriteRowsAt(out0, outStride, rows, 4 * width, y, 4 * x + k);
    RowByte(t, pal, inp, y * inStride, width, x, k);
  }

  /** Output bytes outside the written rows (row padding and everything past
      the last row) keep their values. */
  lemma TransformedUntouched(t: Transform, pal: Palette, inp: seq<Byte>, inStride: nat, width: nat, height: nat,
                             out0: seq<Byte>, outStride: nat, i: int)
    requires RowsFit(|inp|, inStride, height, RowInputBytes(t, width))
    requires RowsFit(|out0|, outStride, height, 4 * width)
    requires 0 <= i < |out0|
    requires forall y :: 0 <= y < height ==> !InRow(i, y, outStride, 4 * width)
    ensures WriteRows(out0, outStride, TransformRows(t, pal, inp, inStride, width, height), 4 * width)[i] == out0[i]
  {
    WriteRowsUntouched(out0, outStride, TransformRows(t, pal, inp, inStride, width, height), 4 * width, i);
  }

  // ---------------------------------------------------------------------
  // DeepCopyBitmap

  /** The rows a deep copy writes: each the inStride bytes of the input row,
      padding included. */
  function CopyRows(inp: seq<Byte>, inStride: nat, height: nat): (rows: seq<seq<Byte>>)
    requires RowsFit(|inp|, inStride, height, inStride)
    ensures |rows| == height && Uniform(rows, inStride)
    decreases height
  {
    if height == 0 then []
    else
      RowFits(|inp|, inStride, height, inStride, height - 1);
      CopyRows(inp, inStride, height - 1)
        + [inp[(height - 1) * inStride .. (height - 1) * inStride + inStride]]
  }

  /** Copied row y is the input's bytes y * inStride .. y * inStride + inStride - 1. */
  lemma {:induction false} CopyRowsAt(inp: seq<Byte>, inStride: nat, height: nat, y: int)
    requires RowsFit(|inp|, inStride, height, inStride)
    requires 0 <= y < height
    ensures 0 <= y * inStride && y * inStride + inStride <= |inp|
    ensures CopyRows(inp, inStride, height)[y] == inp[y * inStride .. y * inStride + inStride]
    decreases height
  {
    RowFits(|inp|, inStride, height, inStride, y);
    if y < height - 1 {
      RowFits(|inp|, inStride, height, inStride, height - 1);
      CopyRowsAt(inp, inStride, height - 1, y);
    }
  }

  /** The inner loop of a deep copy: `count` bytes, one at a time, from
      `inRow` in the input to `outRow` in the output. */
  method CopyRowBytes(input: array<Byte>, inRow: nat, output: array<Byte>, outRow: nat, count: nat)
    requires input != output
    requires inRow + count <= input.Length && outRow + count <= output.Length
    modifies output
    ensures output[..] == WriteAt(old(output[..]), outRow, input[inRow .. inRow + count])
  {
    ghost var src := input[..];
    ghost var out0 := output[..];
    for x := 0 to count
      invariant output[..] == WriteAt(out0, outRow, src[inRow .. inRow + x])
    {
      var v := input[inRow + x];
      StoreByte(output, outRow + x, v);
      CopyStep(out0, outRow, src, inRow, x);
    }
  }

  /** Storing the next source byte after a copied prefix extends the prefix. */
  lemma CopyStep(buf: seq<Byte>, off: int, src: seq<Byte>, start: int, x: int)
    requires 0 <= start && 0 <= x && start + x < |src|
    requires 0 <= off && off + x + 1 <= |buf|
    ensures WriteAt(WriteAt(buf, off, src[start .. start + x]), off + x, [src[start + x]])
         == WriteAt(buf, off, src[start .. start + x + 1])
  {
    WriteAtAppend(buf, off, src[start .. start + x], [src[start + x]]);
    assert src[start .. start + x] + [src[start + x]] == src[start .. start + x + 1];
  }

  /** Copies inStride bytes of every row, from y * inStride in the input to
      y * outStride in the output, rows 0 .. height-1 in order. */
  method DeepCopyBitmap(input: array<Byte>, inStride: nat, height: nat, output: array<Byte>, outStride: nat)
    requires input != output
    requires RowsFit(input.Length, inStride, height, inStride)
    requires RowsFit(output.Length, outStride, height, inStride)
    modifies output
    ensures output[..] == WriteRows(old(output[..]), outStride, CopyRows(input[..], inStride, height), inStride)
  {
    for y := 0 to height
      invariant RowsFit(input.Length, inStride, y, inStride)
      invariant RowsFit(output.Length, outStride, y, inStride)
      invariant output[..] == WriteRows(old(output[..]), outStride, CopyRows(input[..], inStride, y), inStride)
    {
      RowFits(input.Length, inStride, height, inStride, y);
      RowFits(output.Length, outStride, height, inStride, y);
      ghost var before := CopyRows(input[..], inStride, y);
      var inRow := y * inStride;
      var outRow := y * outStride;
      CopyRowBytes(input, inRow, output, outRow, inStride);
      ghost var row := input[inRow .. inRow + inStride];
      assert row == input[..][inRow .. inRow + inStride];
      assert CopyRows(input[..], inStride, y + 1) == before + [row];
      WriteRowsSnoc(old(output[..]), outStride, before, row, inStride);
    }
  }

  /** With output rows at least inStride apart, every byte of every input row,
      padding included, is copied: out[y * outStride + x] == in[y * inStride + x]. */
  lemma CopiedByte(inp: seq<Byte>, inStride: nat, height: nat, out0: seq<Byte>, outStride: nat, y: int, x: int)
    requires RowsFit(|inp|, inStride, height, inStride)
    requires RowsFit(|out0|, outStride, height, inStride)
    requires outStride >= inStride
    requires 0 <= y < height && 0 <= x < inStride
    ensures 0 <= y * inStride && 0 <= y * outStride
    ensures y * inStride + x < |inp| && y * outStride + x < |out0|
    ensures WriteRows(out0, outStride, CopyRows(inp, inStride, height), inStride)[y * outStride + x]
         == inp[y * inStride + x]
  {
    RowFits(|inp|, inStride, height, inStride, y);
    RowFits(|out0|, outStride, height, inStride, y);
    var rows := CopyRows(inp, inStride, height);
    var start := y * inStride;
    CopyRowsAt(inp, inStride, height, y);
    WriteRowsAt(out0, outStride, rows, inStride, y, x);
    assert rows[y][x] == inp[start + x];
  }

  /** Output bytes outside the copied rows keep their values. */
  lemma CopiedUntouched(inp: seq<Byte>, inStride: nat, height: nat, out0: seq<Byte>, outStride: nat, i: int)
    requires RowsFit(|inp|, inStride, height, inStride)
    requires RowsFit(|out0|, outStride, height, inStride)
    requires 0 <= i < |out0|
    requires forall y :: 0 <= y < height ==> !InRow(i, y, outStride, inStride)
    ensures WriteRows(out0, outStride, CopyRows(inp, inStride, height), inStride)[i] == out0[i]
  {
    WriteRowsUntouched(out0, outStride, CopyRows(inp, inStride, height), inStride, i);
  }

  // ---------------------------------------------------------------------
  // TransformVlcBitmap

  /** The sensor mode's fixed geometry: a 640x480 single-channel input and a
      240-pixel-wide, 320-row BGRA output. */
  const VlcInWidth: int := 640
  const VlcInHeight: int := 480
  const VlcOutWidth: int := 240
  const VlcOutHeight: int := 320

  /** The floor of the mean of the 2x2 block whose top-left sample is at row y,
      column x of the 640-byte-wide input (the sum shifted right by 2). */
  function BoxAverage(inp: seq<Byte>, y: int, x: int): (v: int)
    requires 0 <= y < VlcInHeight - 1 && 0 <= x < VlcInWidth - 1
    requires |inp| >= VlcInWidth * VlcInHeight
    ensures 0 <= v < 256
    ensures var sum := inp[y * 640 + x] as int + inp[y * 640 + x + 1] as int
                     + inp[y * 640 + x + 640] as int + inp[y * 640 + x + 641] as int;
      4 * v <= sum < 4 * v + 4
  {
    (inp[y * 640 + x] as int + inp[y * 640 + x + 1] as int
     + inp[y * 640 + x + 640] as int + inp[y * 640 + x + 641] as int) / 4
  }

  /** A grey opaque pixel. */
  function Gray(v: Byte): ColorBGRA
  {
    ColorBGRA(v, v, v, 255)
  }

  /** Block (j, i) is the 2x2 input block at row y = 2j, column x = 2i; its
      pixel goes to output row x/2 = i, pixel column 239 - y/2 = 239 - j. */
  function BlockTarget(outStride: int, j: int, i: int): int
  {
    i * outStride + 4 * (VlcOutWidth - 1 - j)
  }

  /** BlockTarget is the source's store address for the block at x = 2i,
      y = 2j: (x * outputStride >> 1) plus four bytes times (480 / 2 - 1) - (y >> 1). */
  lemma BlockTargetFormula(outStride: int, j: int, i: int)
    ensures BlockTarget(outStride, j, i) == (2 * i * outStride) / 2 + 4 * ((480 / 2 - 1) - (2 * j) / 2)
  {
    HalfOfEvenProduct(2 * i, i, outStride);
  }

  /** The grey pixel stored for block (j, i). */
  function BlockPixel(inp: seq<Byte>, j: int, i: int): (c: ColorBGRA)
    requires 0 <= j < VlcOutWidth && 0 <= i < VlcOutHeight && |inp| >= VlcInWidth * VlcInHeight
    ensures c.b == c.g == c.r == BoxAverage(inp, 2 * j, 2 * i) && c.a == 255
  {
    Gray(BoxAverage(inp, 2 * j, 2 * i))
  }

  /** The output is large enough for 320 rows of 240 pixels. */
  predicate VlcOutputFits(len: int, outStride: int)
  {
    outStride >= 4 * VlcOutWidth && (VlcOutHeight - 1) * outStride + 4 * VlcOutWidth <= len
  }

  /** Block (j, i)'s four bytes lie inside the pixels of output row i. */
  lemma BlockTargetInRow(len: int, outStride: int, j: int, i: int)
    requires VlcOutputFits(len, outStride)
    requires 0 <= j < VlcOutWidth && 0 <= i < VlcOutHeight
    ensures InRow(BlockTarget(outStride, j, i), i, outStride, 4 * VlcOutWidth)
    ensures 0 <= BlockTarget(outStride, j, i) && BlockTarget(outStride, j, i) + 4 <= len
  {
    RowStartsApart(i, VlcOutHeight - 1, outStride);
  }

  /** The output after the blocks before (j, i) in loop order are stored: all
      of input row pairs 0 .. j-1, then blocks 0 .. i-1 of pair j. */
  function VlcWrites(inp: seq<Byte>, outStride: int, out0: seq<Byte>, j: int, i: int): (r: seq<Byte>)
    requires |inp| >= VlcInWidth * VlcInHeight && VlcOutputFits(|out0|, outStride)
    requires 0 <= j <= VlcOutWidth && 0 <= i <= VlcOutHeight && (j == VlcOutWidth ==> i == 0)
    ensures |r| == |out0|
    decreases j, i
  {
    if i > 0 then
      BlockTargetInRow(|out0|, outStride, j, i - 1);
      WriteAt(VlcWrites(inp, outStride, out0, j, i - 1), BlockTarget(outStride, j, i - 1),
              PixelBytes(BlockPixel(inp, j, i - 1)))
    else if j > 0 then VlcWrites(inp, outStride, out0, j - 1, VlcOutHeight)
    else out0
  }

  /** Distinct blocks go to non-overlapping output pixels when the output
      stride holds a 240-pixel row. */
  lemma BlockTargetsDisjoint(outStride: int, j1: int, i1: int, j2: int, i2: int)
    requires outStride >= 4 * VlcOutWidth
    requires 0 <= j1 < VlcOutWidth && 0 <= i1 < VlcOutHeight
    requires 0 <= j2 < VlcOutWidth && 0 <= i2 < VlcOutHeight
    requires (j1, i1) != (j2, i2)
    ensures BlockTarget(outStride, j1, i1) + 4 <= BlockTarget(outStride, j2, i2)
         || BlockTarget(outStride, j2, i2) + 4 <= BlockTarget(outStride, j1, i1)
  {
    if i1 < i2 {
      RowStartsApart(i1, i2, outStride);
    } else if i2 < i1 {
      RowStartsApart(i2, i1, outStride);
    }
  }

  /** Each output pixel (row r, column c) is the target of exactly one block:
      the one at input row 2 * (239 - c), column 2 * r. */
  lemma VlcWrittenOnce(outStride: int, j: int, i: int, r: int, c: int)
    requires outStride >= 4 * VlcOutWidth
    requires 0 <= j < VlcOutWidth && 0 <= i < VlcOutHeight
    requires 0 <= r < VlcOutHeight && 0 <= c < VlcOutWidth
    ensures BlockTarget(outStride, j, i) == r * outStride + 4 * c <==> (j == VlcOutWidth - 1 - c && i == r)
  {
    if (j, i) != (VlcOutWidth - 1 - c, r) {
      BlockTargetsDisjoint(outStride, j, i, VlcOutWidth - 1 - c, r);
    }
  }

  /** Block (j, i) comes before (j', i') in the loops' order. */
  predicate Before(j: int, i: int, j': int, i': int)
  {
    j < j' || (j == j' && i < i')
  }

  /** Once block (j, i) is stored, its pixel keeps that value through every
      later store. */
  lemma {:induction false} VlcBlockStored(inp: seq<Byte>, outStride: int, out0: seq<Byte>,
                                          j': int, i': int, j: int, i: int, k: int)
    requires |inp| >= VlcInWidth * VlcInHeight && VlcOutputFits(|out0|, outStride)
    requires 0 <= j' <= VlcOutWidth && 0 <= i' <= VlcOutHeight && (j' == VlcOutWidth ==> i' == 0)
    requires 0 <= j < VlcOutWidth && 0 <= i < VlcOutHeight && Before(j, i, j', i')
    requires 0 <= k < 4
    ensures 0 <= BlockTarget(outStride, j, i) && BlockTarget(outStride, j, i) + 4 <= |out0|
    ensures VlcWrites(inp, outStride, out0, j', i')[BlockTarget(outStride, j, i) + k]
         == Channel(BlockPixel(inp, j, i), k)
    decreases j', i'
  {
    BlockTargetInRow(|out0|, outStride, j, i);
    if i' > 0 {
      BlockTargetInRow(|out0|, outStride, j', i' - 1);
      WriteAtIndex(VlcWrites(inp, outStride, out0, j', i' - 1), BlockTarget(outStride, j', i' - 1),
                   PixelBytes(BlockPixel(inp, j', i' - 1)), BlockTarget(outStride, j, i) + k);
      if (j, i) != (j', i' - 1) {
        BlockTargetsDisjoint(outStride, j, i, j', i' - 1);
        VlcBlockStored(inp, outStride, out0, j', i' - 1, j, i, k);
      }
    } else {
      VlcBlockStored(inp, outStride, out0, j' - 1, VlcOutHeight, j, i, k);
    }
  }

  /** A byte in none of the 320 output rows' 960 pixel bytes keeps its value. */
  lemma {:induction false} VlcWritesUntouched(inp: seq<Byte>, outStride: int, out0: seq<Byte>, j: int, i: int, b: int)
    requires |inp| >= VlcInWidth * VlcInHeight && VlcOutputFits(|out0|, outStride)
    requires 0 <= j <= VlcOutWidth && 0 <= i <= VlcOutHeight && (j == VlcOutWidth ==> i == 0)
    requires 0 <= b < |out0|
    requires forall r :: 0 <= r < VlcOutHeight ==> !InRow(b, r, outStride, 4 * VlcOutWidth)
    ensures VlcWrites(inp, outStride, out0, j, i)[b] == out0[b]
    decreases j, i
  {
    if i > 0 {
      BlockTargetInRow(|out0|, outStride, j, i - 1);
      assert !InRow(b, i - 1, outStride, 4 * VlcOutWidth);
      WriteAtIndex(VlcWrites(inp, outStride, out0, j, i - 1), BlockTarget(outStride, j, i - 1),
                   PixelBytes(BlockPixel(inp, j, i - 1)), b);
      VlcWritesUntouched(inp, outStride, out0, j, i - 1, b);
    } else if j > 0 {
      VlcWritesUntouched(inp, outStride, out0, j - 1, VlcOutHeight, b);
    }
  }

  /** The finished output pixel by pixel: pixel (row r, column c) is grey with
      B = G = R = the average of the input block at row 2 * (239 - c), column
      2 * r, and A = 255. */
  lemma VlcPixel(inp: seq<Byte>, outStride: int, out0: seq<Byte>, r: int, c: int, k: int)
    requires |inp| >= VlcInWidth * VlcInHeight && VlcOutputFits(|out0|, outStride)
    requires 0 <= r < VlcOutHeight && 0 <= c < VlcOutWidth && 0 <= k < 4
    ensures 0 <= r * outStride + 4 * c && r * outStride + 4 * c + 4 <= |out0|
    ensures VlcWrites(inp, outStride, out0, VlcOutWidth, 0)[r * outStride + 4 * c + k]
         == Channel(Gray(BoxAverage(inp, 2 * (VlcOutWidth - 1 - c), 2 * r)), k)
  {
    var j := VlcOutWidth - 1 - c;
    assert BlockTarget(outStride, j, r) == r * outStride + 4 * c;
    BlockTargetInRow(|out0|, outStride, j, r);
    VlcBlockStored(inp, outStride, out0, VlcOutWidth, 0, j, r, k);
  }

  /** x * stride halved is (x / 2) * stride for even x: the output row offset
      of the source's `x * outputStride >> 1`. */
  lemma HalfOfEvenProduct(x: int, i: int, stride: int)
    requires x == 2 * i
    ensures (x * stride) / 2 == i * stride
  {
    assert x * stride == 2 * (i * stride);
  }

  /** The inner loop of the transform for the input rows y and y + 1: one
      pass over x = 0, 2, .., 638. */
  method VlcRowPair(input: array<Byte>, output: array<Byte>, outStride: nat, y: int,
                    ghost j: int, ghost out0: seq<Byte>)
    requires input != output
    requires input.Length >= VlcInWidth * VlcInHeight
    requires |out0| == output.Length && VlcOutputFits(output.Length, outStride)
    requires 0 <= j < VlcOutWidth && y == 2 * j
    requires output[..] == VlcWrites(input[..], outStride, out0, j, 0)
    modifies output
    ensures output[..] == VlcWrites(input[..], outStride, out0, j, VlcOutHeight)
  {
    var x := 0;
    ghost var i := 0;
    while x < 640
      invariant 0 <= i <= VlcOutHeight && x == 2 * i
      invariant output[..] == VlcWrites(input[..], outStride, out0, j, i)
    {
      var sum := input[y * 640 + x] as int + input[y * 640 + x + 1] as int
               + input[y * 640 + x + 640] as int + input[y * 640 + x + 641] as int;
      var v := sum / 4;
      assert v == BoxAverage(input[..], 2 * j, 2 * i);
      HalfOfEvenProduct(x, i, outStride);
      var off := (x * outStride) / 2 + 4 * (480 / 2 - 1 - y / 2);
      assert off == BlockTarget(outStride, j, i);
      BlockTargetInRow(output.Length, outStride, j, i);
      StorePixel(output, off, Gray(v));
      x, i := x + 2, i + 1;
    }
  }

  /** The 640x480 box-average-and-rotate transform. The input stride is read
      by the source but never used: rows are taken 640 bytes apart. */
  method TransformVlcBitmap(input: array<Byte>, inStride: int, output: array<Byte>, outStride: nat)
    requires input != output
    requires input.Length >= VlcInWidth * VlcInHeight
    requires VlcOutputFits(output.Length, outStride)
    modifies output
    ensures output[..] == VlcWrites(input[..], outStride, old(output[..]), VlcOutWidth, 0)
  {
    var y := 0;
    ghost var j := 0;
    while y < 480
      invariant 0 <= j <= VlcOutWidth && y == 2 * j
      invariant output[..] == VlcWrites(input[..], outStride, old(output[..]), j, 0)
    {
      VlcRowPair(input, output, outStride, y, j, old(output[..]));
      y, j := y + 2, j + 1;
    }
  }
}
