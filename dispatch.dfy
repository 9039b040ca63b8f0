/** The choice of conversion that makes a video frame displayable, by source
    kind and pixel format, and the conversion itself run on caller-supplied
    buffers. */
module Dispatch {
  import opened Colors
  import opened Buffers
  import opened Scanlines
  import opened Bitmaps
  import opened Negotiation

  /** The pixel formats a software bitmap can have. */
  datatype PixelFormat = Unknown | Rgba16 | Rgba8 | Gray16 | Gray8 | Bgra8 | Nv12 | P010 | Yuy2

  /** What the conversion looks at in a video frame: the kind of its source,
      and the pixel format and width of its bitmap. */
  datatype VideoFrame = VideoFrame(kind: SourceKind, format: PixelFormat, pixelWidth: int)

  /** The conversions that make a frame displayable. */
  datatype Conversion =
    | VlcRotate
    | DeepCopy
    | Scanline(transform: Transform)

  /** The sensor whose depth frames use the long-throw calibration. */
  const LongThrowSensorName: string := "Long Throw ToF Depth"

  /** Width in pixels of a colour bitmap that carries a packed 640-pixel
      grey visible-light-camera frame, four grey pixels to a BGRA pixel. */
  const VlcPackedWidth: int := 640 / 4

  /** The depth calibration for frames of the named sensor. */
  function CalibrationFor(sensorName: string): (cal: DepthCalibration)
    ensures cal == LongThrow <==> sensorName == LongThrowSensorName
  {
    if sensorName == LongThrowSensorName then LongThrow else ShortRange
  }

  /** The conversion that makes `frame` displayable, or None when there is
      none: no frame, an exception raised while converting (`threw`), a
      colour frame not in Bgra8, a depth frame not in Gray16, an infrared
      frame in neither Gray8 nor Gray16, or a source of any other kind. */
  function ConvertToDisplayableImage(frame: Option<VideoFrame>, sensorName: string, threw: bool): (r: Option<Conversion>)
    ensures frame.None? || threw ==> r == None
  {
    if frame.None? || threw then None
    else
      var f := frame.value;
      match f.kind
      case Color =>
        if f.format != Bgra8 then None
        else if f.pixelWidth == VlcPackedWidth then Some(VlcRotate)
        else Some(DeepCopy)
      case Depth =>
        if f.format == Gray16 then Some(Scanline(DepthTransform(CalibrationFor(sensorName)))) else None
      case Infrared =>
        if f.format == Gray8 then Some(Scanline(Infrared8))
        else if f.format == Gray16 then Some(Scanline(Infrared16))
        else None
      case _ => None
  }

  /** A frame, converted without an exception. */
  predicate Usable(frame: Option<VideoFrame>, threw: bool)
  {
    frame.Some? && !threw
  }

  /** The VLC rotation is chosen exactly for Bgra8 colour frames 160 pixels
      wide, that is 640 bytes a row. */
  lemma VlcRotateExactly(frame: Option<VideoFrame>, sensorName: string, threw: bool)
    ensures ConvertToDisplayableImage(frame, sensorName, threw) == Some(VlcRotate)
        <==> Usable(frame, threw) && frame.value.kind == Color && frame.value.format == Bgra8
             && frame.value.pixelWidth * 4 == VlcInWidth
  {
  }

  /** The deep copy is chosen exactly for the other Bgra8 colour frames. */
  lemma DeepCopyExactly(frame: Option<VideoFrame>, sensorName: string, threw: bool)
    ensures ConvertToDisplayableImage(frame, sensorName, threw) == Some(DeepCopy)
        <==> Usable(frame, threw) && frame.value.kind == Color && frame.value.format == Bgra8
             && frame.value.pixelWidth != VlcPackedWidth
  {
  }

  /** A depth transform is chosen exactly for Gray16 depth frames, with the
      long-throw calibration exactly when the sensor is named
      "Long Throw ToF Depth" and the short-range one otherwise. */
  lemma DepthTransformExactly(frame: Option<VideoFrame>, sensorName: string, threw: bool, cal: DepthCalibration)
    ensures ConvertToDisplayableImage(frame, sensorName, threw) == Some(Scanline(DepthTransform(cal)))
        <==> Usable(frame, threw) && frame.value.kind == Depth && frame.value.format == Gray16
             && (cal == LongThrow <==> sensorName == LongThrowSensorName)
  {
    if Usable(frame, threw) && frame.value.kind == Depth && frame.value.format == Gray16
       && (cal == LongThrow <==> sensorName == LongThrowSensorName) {
      assert CalibrationFor(sensorName) == cal;
    }
  }

  /** The infrared transforms are chosen exactly for infrared frames, the
      8-bit one for Gray8 and the 16-bit one for Gray16. */
  lemma InfraredTransformExactly(frame: Option<VideoFrame>, sensorName: string, threw: bool)
    ensures ConvertToDisplayableImage(frame, sensorName, threw) == Some(Scanline(Infrared8))
        <==> Usable(frame, threw) && frame.value.kind == Infrared && frame.value.format == Gray8
    ensures ConvertToDisplayableImage(frame, sensorName, threw) == Some(Scanline(Infrared16))
        <==> Usable(frame, threw) && frame.value.kind == Infrared && frame.value.format == Gray16
  {
  }

  /** No conversion is chosen exactly when there is no frame, the conversion
      threw, or the frame's kind and format are not among the supported
      pairs. */
  lemma NotDisplayableExactly(frame: Option<VideoFrame>, sensorName: string, threw: bool)
    ensures ConvertToDisplayableImage(frame, sensorName, threw) == None
        <==> !Usable(frame, threw)
             || !((frame.value.kind == Color && frame.value.format == Bgra8)
                  || (frame.value.kind == Depth && frame.value.format == Gray16)
                  || (frame.value.kind == Infrared && frame.value.format in {Gray8, Gray16}))
  {
  }

  /** A scanline transform reads exactly the bytes the frame's format holds
      per row: one per pixel for Gray8, two for Gray16. */
  lemma ScanlineReadsFormatWidth(frame: Option<VideoFrame>, sensorName: string, threw: bool, t: Transform, width: int)
    requires ConvertToDisplayableImage(frame, sensorName, threw) == Some(Scanline(t))
    ensures frame.value.format == Gray8 ==> RowInputBytes(t, width) == width
    ensures frame.value.format == Gray16 ==> RowInputBytes(t, width) == 2 * width
    ensures frame.value.format in {Gray8, Gray16}
  {
  }

  /** Buffer sizes a conversion needs: the rows of the input a transform or
      a copy reads and the rows of the output it writes fit their buffers,
      and for the VLC rotation a whole 640 by 480 grey frame and a 240 by
      320 BGRA output. */
  predicate RenderFits(c: Conversion, inLen: int, inStride: nat, width: nat, height: nat, outLen: int, outStride: nat)
  {
    match c
    case VlcRotate => inLen >= VlcInWidth * VlcInHeight && VlcOutputFits(outLen, outStride)
    case DeepCopy => RowsFit(inLen, inStride, height, inStride) && RowsFit(outLen, outStride, height, inStride)
    case Scanline(t) =>
      RowsFit(inLen, inStride, height, RowInputBytes(t, width)) && RowsFit(outLen, outStride, height, 4 * width)
  }

  /** The output after conversion `c` of the input `inp`. */
  ghost function Rendered(c: Conversion, pal: Palette, inp: seq<Byte>, inStride: nat, width: nat, height: nat,
                          out0: seq<Byte>, outStride: nat): seq<Byte>
    requires RenderFits(c, |inp|, inStride, width, height, |out0|, outStride)
  {
    match c
    case VlcRotate => VlcWrites(inp, outStride, out0, VlcOutWidth, 0)
    case DeepCopy => WriteRows(out0, outStride, CopyRows(inp, inStride, height), inStride)
    case Scanline(t) => WriteRows(out0, outStride, TransformRows(t, pal, inp, inStride, width, height), 4 * width)
  }

  /** Runs the chosen conversion: the VLC rotation, the deep copy, or
      TransformBitmap with the chosen scanline transform. */
  method Render(c: Conversion, pal: Palette, input: array<Byte>, inStride: nat, width: nat, height: nat,
                output: array<Byte>, outStride: nat)
    requires input != output
    requires RenderFits(c, input.Length, inStride, width, height, output.Length, outStride)
    modifies output
    ensures output[..] == Rendered(c, pal, old(input[..]), inStride, width, height, old(output[..]), outStride)
  {
    match c
    case VlcRotate => TransformVlcBitmap(input, inStride, output, outStride);
    case DeepCopy => DeepCopyBitmap(input, inStride, height, output, outStride);
    case Scanline(t) => TransformBitmap(t, pal, input, inStride, width, height, output, outStride);
  }
}
