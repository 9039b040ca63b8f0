/** The 8-bit BGRA pixel and the nine-anchor colour ramp used to build the
    pseudo-colour lookup tables. */
module Colors {

  /** An unsigned 8-bit value. */
  type Byte = x: int | 0 <= x < 256

  /** A packed BGRA pixel: the struct's fields are B, G, R, A in that order,
      which is also their order in memory. */
  datatype ColorBGRA = ColorBGRA(b: Byte, g: Byte, r: Byte, a: Byte)

  /** The byte at offset k (0..3) of a pixel in memory. */
  function Channel(c: ColorBGRA, k: int): (v: Byte)
    requires 0 <= k < 4
    ensures k == 0 ==> v == c.b
    ensures k == 1 ==> v == c.g
    ensures k == 2 ==> v == c.r
    ensures k == 3 ==> v == c.a
  {
    if k == 0 then c.b else if k == 1 then c.g else if k == 2 then c.r else c.a
  }

  /** The four bytes of a pixel, in memory order. */
  function PixelBytes(c: ColorBGRA): (s: seq<Byte>)
    ensures |s| == 4
    ensures forall k :: 0 <= k < 4 ==> s[k] == Channel(c, k)
  {
    [c.b, c.g, c.r, c.a]
  }

  /** The colour written for an invalid sample: B = 0xFF, G = 0, R = 0, A = 0x7F. */
  const Sentinel: ColorBGRA := ColorBGRA(0xFF, 0x00, 0x00, 0x7F)

  /** The anchors of the colour ramp, each written B, G, R, A. */
  const ColorRamp: seq<ColorBGRA> := [
    ColorBGRA(0xFF, 0x7F, 0x00, 0x00),
    ColorBGRA(0xFF, 0xFF, 0x00, 0x00),
    ColorBGRA(0xFF, 0xFF, 0x7F, 0x00),
    ColorBGRA(0xFF, 0xFF, 0xFF, 0x00),
    ColorBGRA(0xFF, 0x7F, 0xFF, 0x7F),
    ColorBGRA(0xFF, 0x00, 0xFF, 0xFF),
    ColorBGRA(0xFF, 0x00, 0x7F, 0xFF),
    ColorBGRA(0xFF, 0x00, 0x00, 0xFF),
    ColorBGRA(0xFF, 0x00, 0x00, 0x7F)
  ]

  /** The number of ramp segments: one less than the number of anchors. */
  const RampSteps: int := |ColorRamp| - 1

  /** The segment a scaled position falls into, from its integer part:
      negative parts go to the first segment and parts past the last
      segment go to the last one, so both anchors are always in the table. */
  function RampIndex(integer: int): (index: int)
    ensures 0 <= index < RampSteps
    ensures index + 1 < |ColorRamp|
    ensures 0 <= integer < RampSteps ==> index == integer
    ensures integer < 0 ==> index == 0
    ensures integer >= RampSteps ==> index == RampSteps - 1
  {
    var lower := if integer < 0 then 0 else integer;
    if lower < RampSteps - 1 then lower else RampSteps - 1
  }

  /** Integer linear blend of two channel values with weight alpha out of 255
      for the next value, rounded down. */
  function Blend(prev: Byte, next: Byte, alpha: int): (v: Byte)
    requires 0 <= alpha < 255
    ensures prev <= next ==> prev <= v <= next
    ensures next <= prev ==> next <= v <= prev
    ensures alpha == 0 ==> v == prev
  {
    var beta := 255 - alpha;
    BlendBounds(prev, next, alpha, beta);
    (prev * beta + next * alpha) / 255
  }

  /** The weighted sum behind Blend lies between 255 times each anchor. */
  lemma BlendBounds(prev: Byte, next: Byte, alpha: int, beta: int)
    requires 0 <= alpha < 255 && beta == 255 - alpha
    ensures prev <= next ==> 255 * prev <= prev * beta + next * alpha <= 255 * next
    ensures next <= prev ==> 255 * next <= prev * beta + next * alpha <= 255 * prev
    ensures alpha == 0 ==> prev * beta + next * alpha == 255 * prev
  {
    assert prev * beta + next * alpha == 255 * prev + (next - prev) * alpha;
    if prev <= next {
      ScaleBounds(next - prev, alpha);
    } else {
      ScaleBounds(prev - next, alpha);
      assert prev * beta + next * alpha == 255 * prev - (prev - next) * alpha;
    }
  }

  /** A non-negative difference scaled by a weight below 255 stays below the
      difference scaled by 255. */
  lemma ScaleBounds(d: int, alpha: int)
    requires d >= 0 && 0 <= alpha < 255
    ensures 0 <= d * alpha <= d * 255
  {
    assert d * 255 - d * alpha == d * (255 - alpha);
  }

  /** The ramp colour for a value whose position on the ramp has integer part
      `integer` and fractional weight `alpha` (the fraction times 255, rounded
      down). The blends are written into the result in the order A, R, G, B
      while the struct's fields are B, G, R, A, so the result's B comes from
      the anchors' A, its G from their R, its R from their G and its A from
      their B. */
  function ColorRampInterpolation(integer: int, alpha: int): (c: ColorBGRA)
    requires 0 <= alpha < 255
    ensures var index := RampIndex(integer);
      var prev := ColorRamp[index];
      var next := ColorRamp[index + 1];
      && Between(c.b, prev.a, next.a)
      && Between(c.g, prev.r, next.r)
      && Between(c.r, prev.g, next.g)
      && Between(c.a, prev.b, next.b)
      && (alpha == 0 ==> c == ColorBGRA(prev.a, prev.r, prev.g, prev.b))
  {
    var index := RampIndex(integer);
    var prev := ColorRamp[index];
    var next := ColorRamp[index + 1];
    ColorBGRA(
      Blend(prev.a, next.a, alpha),
      Blend(prev.r, next.r, alpha),
      Blend(prev.g, next.g, alpha),
      Blend(prev.b, next.b, alpha))
  }

  /** v lies between x and y, in either order. */
  predicate Between(v: int, x: int, y: int)
  {
    (x <= v <= y) || (y <= v <= x)
  }

  /** A value of 1.0 has integer part 8 and weight 0: it yields the permuted
      entry 7 (B = 0xFF, G = 0, R = 0, A = 0xFF), never entry 8. */
  lemma InterpolationAtOne(integer: int)
    requires integer == RampSteps
    ensures RampIndex(integer) == 7
    ensures ColorRampInterpolation(integer, 0) == ColorBGRA(0xFF, 0x00, 0x00, 0xFF)
    ensures var last := ColorRamp[RampSteps];
      ColorRampInterpolation(integer, 0) != ColorBGRA(last.a, last.r, last.g, last.b)
  {
    assert RampIndex(integer) == 7;
    assert ColorRamp[7] == ColorBGRA(0xFF, 0x00, 0x00, 0xFF);
    assert ColorRamp[8].b == 0xFF;
  }

  /** Every anchor's B field is 0xFF. */
  lemma RampBlueIsFull(i: int)
    requires 0 <= i < |ColorRamp|
    ensures ColorRamp[i].b == 0xFF
  {
  }

  /** Because the A field is filled from the anchors' B fields, which are all
      0xFF, every interpolated colour is opaque. */
  lemma InterpolationIsOpaque(integer: int, alpha: int)
    requires 0 <= alpha < 255
    ensures ColorRampInterpolation(integer, alpha).a == 0xFF
  {
    var index := RampIndex(integer);
    RampBlueIsFull(index);
    RampBlueIsFull(index + 1);
  }

  /** No interpolated colour equals the invalid-sample sentinel, whose A is 0x7F. */
  lemma InterpolationIsNotSentinel(integer: int, alpha: int)
    requires 0 <= alpha < 255
    ensures ColorRampInterpolation(integer, alpha) != Sentinel
  {
    InterpolationIsOpaque(integer, alpha);
  }
}
