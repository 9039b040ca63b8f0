/** The three scanline transforms: each maps one row of raw sensor samples to
    one row of BGRA pixels, writing the invalid-sample sentinel or a colour
    looked up for the sample. */
module Scanlines {
  import opened Colors
  import opened Buffers

  /** The two depth calibrations. LongThrow is the reliable range 0.5 m to
      4.0 m, ShortRange the range 0.2 m to 1.0 m; both read raw samples in
      millimetres (depth scale 1/1000). */
  datatype DepthCalibration = LongThrow | ShortRange

  /** A scanline transform with its bound parameters. */
  datatype Transform =
    | DepthTransform(calibration: DepthCalibration)
    | Infrared16
    | Infrared8

  /** The colours the lookup tables give for a valid raw sample: `pseudo` is
      the depth pseudo-colour for a calibration, `infrared16` and
      `infrared8` the infrared colour of a 16-bit and an 8-bit sample. The
      normalisation of the sample to [0, 1] and the table lookup are
      floating-point work this model does not interpret. */
  datatype Palette = Palette(
    pseudo: (DepthCalibration, int) -> ColorBGRA,
    infrared16: int -> ColorBGRA,
    infrared8: int -> ColorBGRA)

  /** Depth samples above this many raw units are too far to be reliable. */
  const MaxDepthSample: int := 4000

  /** Every colour the palette can give is opaque, as every entry of a table
      built from the colour ramp is (RampPaletteIsOpaque). */
  ghost predicate OpaquePalette(pal: Palette)
  {
    && (forall cal, s :: pal.pseudo(cal, s).a == 0xFF)
    && (forall s :: pal.infrared16(s).a == 0xFF)
    && (forall s :: pal.infrared8(s).a == 0xFF)
  }

  /** The colour is one the colour ramp gives. */
  ghost predicate FromRamp(c: ColorBGRA)
  {
    exists integer, alpha :: 0 <= alpha < 255 && c == ColorRampInterpolation(integer, alpha)
  }

  /** Every colour of the palette is a colour-ramp colour, as every entry of
      the lookup tables built by ColorRampInterpolation is. */
  ghost predicate RampPalette(pal: Palette)
  {
    && (forall cal, s :: FromRamp(pal.pseudo(cal, s)))
    && (forall s :: FromRamp(pal.infrared16(s)))
    && (forall s :: FromRamp(pal.infrared8(s)))
  }

  /** A palette of ramp colours is opaque. */
  lemma RampPaletteIsOpaque(pal: Palette)
    requires RampPalette(pal)
    ensures OpaquePalette(pal)
  {
    forall c | FromRamp(c) ensures c.a == 0xFF {
      var integer, alpha :| 0 <= alpha < 255 && c == ColorRampInterpolation(integer, alpha);
      InterpolationIsOpaque(integer, alpha);
    }
  }

  /** Bytes of input a transform reads for a row of `width` pixels. */
  function RowInputBytes(t: Transform, width: int): int
  {
    if t.Infrared8? then width else 2 * width
  }

  /** The 16-bit sample stored little-endian at `off`. */
  function Sample16(inp: seq<Byte>, off: int): (s: int)
    requires 0 <= off && off + 2 <= |inp|
    ensures 0 <= s < 0x1_0000
  {
    inp[off] as int + 256 * inp[off + 1] as int
  }

  /** The raw sample of pixel x in the row starting at `rowOff`. */
  function SampleAt(t: Transform, inp: seq<Byte>, rowOff: int, x: int): (s: int)
    requires 0 <= rowOff && 0 <= x && rowOff + RowInputBytes(t, x + 1) <= |inp|
    ensures t.Infrared8? ==> 0 <= s < 0x100
    ensures 0 <= s < 0x1_0000
  {
    if t.Infrared8? then inp[rowOff + x] else Sample16(inp, rowOff + 2 * x)
  }

  /** The sample is one the transform marks invalid: outside the reliable
      range 1 .. 4000 for depth, zero for infrared. */
  predicate InvalidSample(t: Transform, s: int)
    ensures t.DepthTransform? && 0 <= s ==> (InvalidSample(t, s) <==> !(1 <= s <= MaxDepthSample))
    ensures !t.DepthTransform? ==> (InvalidSample(t, s) <==> s == 0)
  {
    s == 0 || (t.DepthTransform? && s > MaxDepthSample)
  }

  /** The colour a transform writes for one raw sample. */
  function PixelFor(t: Transform, pal: Palette, s: int): (c: ColorBGRA)
    ensures InvalidSample(t, s) ==> c == Sentinel
  {
    match t
    case DepthTransform(cal) =>
      if s == 0 || s > MaxDepthSample then Sentinel else pal.pseudo(cal, s)
    case Infrared16 => if s == 0 then Sentinel else pal.infrared16(s)
    case Infrared8 => if s == 0 then Sentinel else pal.infrared8(s)
  }

  /** The bytes a transform writes for the first `width` pixels of the row
      starting at `rowOff`, in the order the loop writes them. */
  function Row(t: Transform, pal: Palette, inp: seq<Byte>, rowOff: int, width: int): (r: seq<Byte>)
    requires 0 <= rowOff && 0 <= width && rowOff + RowInputBytes(t, width) <= |inp|
    ensures |r| == 4 * width
    decreases width
  {
    if width == 0 then []
    else Row(t, pal, inp, rowOff, width - 1) + PixelBytes(PixelFor(t, pal, SampleAt(t, inp, rowOff, width - 1)))
  }

  /** Pixel x of a row (bytes 4x .. 4x+3) is the colour for sample x, and
      for sample x alone. */
  lemma {:induction false} RowPixel(t: Transform, pal: Palette, inp: seq<Byte>, rowOff: int, width: int, x: int)
    requires 0 <= rowOff && 0 <= width && rowOff + RowInputBytes(t, width) <= |inp|
    requires 0 <= x < width
    ensures Row(t, pal, inp, rowOff, width)[4 * x .. 4 * x + 4]
         == PixelBytes(PixelFor(t, pal, SampleAt(t, inp, rowOff, x)))
  {
    if x < width - 1 {
      RowPixel(t, pal, inp, rowOff, width - 1, x);
      var prefix := Row(t, pal, inp, rowOff, width - 1);
      var last := PixelBytes(PixelFor(t, pal, SampleAt(t, inp, rowOff, width - 1)));
      assert (prefix + last)[4 * x .. 4 * x + 4] == prefix[4 * x .. 4 * x + 4];
    }
  }

  /** Byte k of pixel x of a row is channel k of the colour for sample x. */
  lemma RowByte(t: Transform, pal: Palette, inp: seq<Byte>, rowOff: int, width: int, x: int, k: int)
    requires 0 <= rowOff && 0 <= width && rowOff + RowInputBytes(t, width) <= |inp|
    requires 0 <= x < width && 0 <= k < 4
    ensures Row(t, pal, inp, rowOff, width)[4 * x + k]
         == Channel(PixelFor(t, pal, SampleAt(t, inp, rowOff, x)), k)
  {
    var row := Row(t, pal, inp, rowOff, width);
    RowPixel(t, pal, inp, rowOff, width, x);
    assert row[4 * x + k] == row[4 * x .. 4 * x + 4][k];
  }

  /** Two rows whose x-th samples agree agree in pixel x, whatever else
      their inputs hold. */
  lemma PixelDependsOnlyOnSample(t: Transform, pal: Palette, inp1: seq<Byte>, off1: int,
                                 inp2: seq<Byte>, off2: int, width: int, x: int)
    requires 0 <= off1 && 0 <= width && off1 + RowInputBytes(t, width) <= |inp1|
    requires 0 <= off2 && off2 + RowInputBytes(t, width) <= |inp2|
    requires 0 <= x < width
    requires SampleAt(t, inp1, off1, x) == SampleAt(t, inp2, off2, x)
    ensures Row(t, pal, inp1, off1, width)[4 * x .. 4 * x + 4]
         == Row(t, pal, inp2, off2, width)[4 * x .. 4 * x + 4]
  {
    RowPixel(t, pal, inp1, off1, width, x);
    RowPixel(t, pal, inp2, off2, width, x);
  }

  /** With an opaque palette, a transform writes the sentinel exactly for the
      samples it marks invalid: 0 or above 4000 for depth, 0 for infrared. */
  lemma SentinelExactlyForInvalid(t: Transform, pal: Palette, s: int)
    requires OpaquePalette(pal)
    ensures PixelFor(t, pal, s) == Sentinel <==> InvalidSample(t, s)
  {
    if !InvalidSample(t, s) {
      assert PixelFor(t, pal, s).a == 0xFF;
    }
  }

  /** Stores the pixel for sample x right after the first x pixels of a
      row, as `outputRow[x] = ...` does: the stored row grows by one pixel. */
  method StoreRowPixel(t: Transform, pal: Palette, ghost inp: seq<Byte>, inOff: nat, x: nat,
                       output: array<Byte>, ghost out0: seq<Byte>, outOff: nat, c: ColorBGRA)
    requires inOff + RowInputBytes(t, x + 1) <= |inp|
    requires |out0| == output.Length && outOff + 4 * (x + 1) <= output.Length
    requires output[..] == WriteAt(out0, outOff, Row(t, pal, inp, inOff, x))
    requires c == PixelFor(t, pal, SampleAt(t, inp, inOff, x))
    modifies output
    ensures output[..] == WriteAt(out0, outOff, Row(t, pal, inp, inOff, x + 1))
  {
    StorePixel(output, outOff + 4 * x, c);
    WriteAtAppend(out0, outOff, Row(t, pal, inp, inOff, x), PixelBytes(c));
  }

  /** With tables built from the colour ramp, a transform writes the
      sentinel exactly for the samples it marks invalid. */
  lemma SentinelExactlyForInvalidRamp(t: Transform, pal: Palette, s: int)
    requires RampPalette(pal)
    ensures PixelFor(t, pal, s) == Sentinel <==> InvalidSample(t, s)
  {
    RampPaletteIsOpaque(pal);
    SentinelExactlyForInvalid(t, pal, s);
  }

  /** Maps a row of 16-bit depth samples to pseudo-colour pixels. */
  method PseudoColorForDepth(pixelWidth: nat, input: array<Byte>, inOff: nat,
                             output: array<Byte>, outOff: nat,
                             cal: DepthCalibration, pal: Palette)
    requires input != output
    requires inOff + 2 * pixelWidth <= input.Length
    requires outOff + 4 * pixelWidth <= output.Length
    modifies output
    ensures output[..] == WriteAt(old(output[..]), outOff,
                                  Row(DepthTransform(cal), pal, input[..], inOff, pixelWidth))
  {
    var t := DepthTransform(cal);
    ghost var inp := input[..];
    ghost var out0 := output[..];
    for x := 0 to pixelWidth
      invariant output[..] == WriteAt(out0, outOff, Row(t, pal, inp, inOff, x))
    {
      var sample := input[inOff + 2 * x] as int + 256 * input[inOff + 2 * x + 1] as int;
      var c: ColorBGRA;
      if sample == 0 || sample > MaxDepthSample {
        c := Sentinel;
      } else {
        c := pal.pseudo(cal, sample);
      }
      assert sample == SampleAt(t, inp, inOff, x);
      StoreRowPixel(t, pal, inp, inOff, x, output, out0, outOff, c);
    }
    assert input[..] == inp;
  }

  /** Maps a row of 16-bit infrared samples to pseudo-colour pixels. */
  method PseudoColorFor16BitInfrared(pixelWidth: nat, input: array<Byte>, inOff: nat,
                                     output: array<Byte>, outOff: nat, pal: Palette)
    requires input != output
    requires inOff + 2 * pixelWidth <= input.Length
    requires outOff + 4 * pixelWidth <= output.Length
    modifies output
    ensures output[..] == WriteAt(old(output[..]), outOff,
                                  Row(Infrared16, pal, input[..], inOff, pixelWidth))
  {
    ghost var inp := input[..];
    ghost var out0 := output[..];
    for x := 0 to pixelWidth
      invariant output[..] == WriteAt(out0, outOff, Row(Infrared16, pal, inp, inOff, x))
    {
      var sample := input[inOff + 2 * x] as int + 256 * input[inOff + 2 * x + 1] as int;
      var c: ColorBGRA;
      if sample == 0 {
        c := Sentinel;
      } else {
        c := pal.infrared16(sample);
      }
      assert sample == SampleAt(Infrared16, inp, inOff, x);
      StoreRowPixel(Infrared16, pal, inp, inOff, x, output, out0, outOff, c);
    }
    assert input[..] == inp;
  }

  /** Maps a row of 8-bit infrared samples to pseudo-colour pixels. */
  method PseudoColorFor8BitInfrared(pixelWidth: nat, input: array<Byte>, inOff: nat,
                                    output: array<Byte>, outOff: nat, pal: Palette)
    requires input != output
    requires inOff + pixelWidth <= input.Length
    requires outOff + 4 * pixelWidth <= output.Length
    modifies output
    ensures output[..] == WriteAt(old(output[..]), outOff,
                                  Row(Infrared8, pal, input[..], inOff, pixelWidth))
  {
    ghost var inp := input[..];
    ghost var out0 := output[..];
    for x := 0 to pixelWidth
      invariant output[..] == WriteAt(out0, outOff, Row(Infrared8, pal, inp, inOff, x))
    {
      var sample := input[inOff + x];
      var c: ColorBGRA;
      if sample == 0 {
        c := Sentinel;
      } else {
        c := pal.infrared8(sample);
      }
      assert sample == SampleAt(Infrared8, inp, inOff, x);
      StoreRowPixel(Infrared8, pal, inp, inOff, x, output, out0, outOff, c);
    }
    assert input[..] == inp;
  }

  /** Calls the scanline function a transform stands for, with its bound
      parameters, as the bound function object passed to TransformBitmap does. */
  method ApplyScanline(t: Transform, pixelWidth: nat, input: array<Byte>, inOff: nat,
                       output: array<Byte>, outOff: nat, pal: Palette)
    requires input != output
    requires inOff + RowInputBytes(t, pixelWidth) <= input.Length
    requires outOff + 4 * pixelWidth <= output.Length
    modifies output
    ensures output[..] == WriteAt(old(output[..]), outOff, Row(t, pal, input[..], inOff, pixelWidth))
  {
    match t
    case DepthTransform(cal) =>
      PseudoColorForDepth(pixelWidth, input, inOff, output, outOff, cal, pal);
    case Infrared16 =>
      PseudoColorFor16BitInfrared(pixelWidth, input, inOff, output, outOff, pal);
    case Infrared8 =>
      PseudoColorFor8BitInfrared(pixelWidth, input, inOff, output, outOff, pal);
  }
}
