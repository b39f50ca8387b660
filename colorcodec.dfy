/** Linear <-> sRGB transfer functions, the highlight-compressing normaliser and
    the byte quantiser shared by the lightmap and lightgrid writers. */
module ColorCodec {
  import opened Numerics

  /** An RGB triple; which colour space it is in is stated by the function that makes it. */
  datatype Rgb = Rgb(r: real, g: real, b: real) {
    /** Channel `k` (0 = red, 1 = green, 2 = blue), as Python's `color[k]`. */
    function At(k: nat): real
      requires k < 3
    {
      if k == 0 then r else if k == 1 then g else b
    }
  }

  /** Below this linear value toSRGB is linear. */
  const SrgbKnee: real := 0.0031308
  /** Below this encoded value toLinear is linear. */
  const LinearKnee: real := 0.0404482362771082
  /** The exponent toSRGB passes to pow. */
  const SrgbExponent: real := 1.0 / 2.4

  /** toSRGB: linear value to sRGB-encoded value. */
  function ToSrgb(v: real, m: Maths): real {
    if v <= SrgbKnee then v * 12.92 else 1.055 * m.pow(v, SrgbExponent) - 0.055
  }

  /** toLinear: sRGB-encoded value to linear value. */
  function ToLinear(v: real, m: Maths): real {
    if v <= LinearKnee then v / 12.92 else m.pow((v + 0.055) / 1.055, 2.4)
  }

  function LinearToSrgb(c: Rgb, m: Maths): Rgb {
    Rgb(ToSrgb(c.r, m), ToSrgb(c.g, m), ToSrgb(c.b, m))
  }

  function SrgbToLinear(c: Rgb, m: Maths): Rgb {
    Rgb(ToLinear(c.r, m), ToLinear(c.g, m), ToLinear(c.b, m))
  }

  /** What real pow does on the range toSRGB hands it: for x in (SrgbKnee, 1],
      x^(1/2.4) lies in [0.055/1.055, 1] (its least value there is about 0.0905). */
  ghost predicate PowBounds(m: Maths) {
    forall x: real {:trigger m.pow(x, SrgbExponent)} ::
      SrgbKnee < x <= 1.0 ==> 0.055 / 1.055 <= m.pow(x, SrgbExponent) <= 1.0
  }

  /** Python's max() of a three-element list. */
  function Max3(c: Rgb): (mx: real)
    ensures c.r <= mx && c.g <= mx && c.b <= mx
    ensures mx == c.r || mx == c.g || mx == c.b
  {
    if c.r >= c.g && c.r >= c.b then c.r else if c.g >= c.b then c.g else c.b
  }

  function Scale(c: Rgb, s: real): Rgb {
    Rgb(c.r * s, c.g * s, c.b * s)
  }

  /** The part of colorNormalize before the transfer function: scale every channel,
      then, if the brightest channel exceeds 1, divide all three by it. */
  function ScaleAndClip(color: Rgb, scale: real): Rgb {
    var o := Scale(color, scale);
    var mx := Max3(o);
    if mx > 1.0 then Rgb(o.r / mx, o.g / mx, o.b / mx) else o
  }

  /** colorNormalize: linear colour in, sRGB-encoded colour out. */
  function ColorNormalize(color: Rgb, scale: real, m: Maths): Rgb {
    LinearToSrgb(ScaleAndClip(color, scale), m)
  }

  /** int(v * 255): the quantiser used for every colour byte (it truncates, it does not round). */
  function Quantize(v: real): int {
    Trunc(v * 255.0)
  }

  /** The three bytes of a colour, in channel order. */
  function QuantizeRgb(c: Rgb): (q: seq<int>)
    ensures |q| == 3
    ensures forall k :: 0 <= k < 3 ==> q[k] == Quantize(c.At(k))
  {
    [Quantize(c.r), Quantize(c.g), Quantize(c.b)]
  }

  predicate NonNegative(c: Rgb) {
    0.0 <= c.r && 0.0 <= c.g && 0.0 <= c.b
  }

  predicate InUnitCube(c: Rgb) {
    0.0 <= c.r <= 1.0 && 0.0 <= c.g <= 1.0 && 0.0 <= c.b <= 1.0
  }

  /** A non-negative colour leaves the scale-and-clip step inside [0,1]^3. */
  lemma ScaleAndClipBounded(color: Rgb, scale: real)
    requires NonNegative(color) && 0.0 <= scale
    ensures InUnitCube(ScaleAndClip(color, scale))
  {
    var o := Scale(color, scale);
    ProductNonNegative(color.r, scale);
    ProductNonNegative(color.g, scale);
    ProductNonNegative(color.b, scale);
    var mx := Max3(o);
    if mx > 1.0 {
      RatioUnit(o.r, mx);
      RatioUnit(o.g, mx);
      RatioUnit(o.b, mx);
    }
  }

  lemma ProductNonNegative(x: real, y: real)
    requires 0.0 <= x && 0.0 <= y
    ensures 0.0 <= x * y
  {
  }

  lemma RatioUnit(x: real, d: real)
    requires 0.0 <= x <= d && 0.0 < d
    ensures 0.0 <= x / d <= 1.0
  {
  }

  /** Scale-and-clip keeps the hue: the output is the scaled colour times one factor k,
      k == 1 when no channel exceeds 1, and otherwise the brightest channel becomes exactly 1. */
  lemma ScaleAndClipKeepsHue(color: Rgb, scale: real)
    ensures var o := Scale(color, scale);
            var c := ScaleAndClip(color, scale);
            exists k: real :: 0.0 < k <= 1.0 && c == Scale(o, k)
    ensures Max3(Scale(color, scale)) <= 1.0 ==> ScaleAndClip(color, scale) == Scale(color, scale)
    ensures Max3(Scale(color, scale)) > 1.0 ==> Max3(ScaleAndClip(color, scale)) == 1.0
  {
    var o := Scale(color, scale);
    var mx := Max3(o);
    if mx > 1.0 {
      var k := 1.0 / mx;
      DivideByMax(o.r, mx);
      DivideByMax(o.g, mx);
      DivideByMax(o.b, mx);
      assert ScaleAndClip(color, scale) == Scale(o, k);
    } else {
      assert ScaleAndClip(color, scale) == Scale(o, 1.0);
    }
  }

  /** Dividing a channel by a maximum above 1 is multiplying it by a factor in (0,1),
      and leaves it at most 1, equal to 1 exactly for the maximum itself. */
  lemma DivideByMax(x: real, mx: real)
    requires x <= mx && 1.0 < mx
    ensures x / mx == x * (1.0 / mx) && 0.0 < 1.0 / mx < 1.0
    ensures x / mx <= 1.0 && (x == mx ==> x / mx == 1.0)
  {
  }

  /** Clipping an already clipped colour changes nothing. */
  lemma ScaleAndClipIdempotent(color: Rgb, scale: real)
    ensures ScaleAndClip(ScaleAndClip(color, scale), 1.0) == ScaleAndClip(color, scale)
  {
    var c := ScaleAndClip(color, scale);
    ScaleAndClipKeepsHue(color, scale);
    assert Scale(c, 1.0) == c;
  }

  /** toSRGB maps [0,1] into [0,1] when pow behaves as real pow does. */
  lemma ToSrgbUnit(v: real, m: Maths)
    requires PowBounds(m) && 0.0 <= v <= 1.0
    ensures 0.0 <= ToSrgb(v, m) <= 1.0
  {
    if v > SrgbKnee {
      var p := m.pow(v, SrgbExponent);
      assert 0.055 / 1.055 <= p <= 1.0;
    }
  }

  /** For a non-negative colour every channel colorNormalize returns lies in [0,1],
      so the out-of-range diagnostic of the lightmap writer never fires. */
  lemma ColorNormalizeUnit(color: Rgb, scale: real, m: Maths)
    requires PowBounds(m) && NonNegative(color) && 0.0 <= scale
    ensures InUnitCube(ColorNormalize(color, scale, m))
  {
    var c := ScaleAndClip(color, scale);
    ScaleAndClipBounded(color, scale);
    ToSrgbUnit(c.r, m);
    ToSrgbUnit(c.g, m);
    ToSrgbUnit(c.b, m);
  }

  /** A channel in [0,1] quantises to a byte. */
  lemma QuantizeByte(v: real)
    requires 0.0 <= v <= 1.0
    ensures 0 <= Quantize(v) <= 255
  {
  }

  /** Quantising a normalised non-negative colour gives three bytes. */
  lemma NormalizedBytes(color: Rgb, m: Maths)
    requires PowBounds(m) && NonNegative(color)
    ensures forall k :: 0 <= k < 3 ==> 0 <= QuantizeRgb(ColorNormalize(color, 1.0, m))[k] <= 255
  {
    var c := ColorNormalize(color, 1.0, m);
    ColorNormalizeUnit(color, 1.0, m);
    QuantizeByte(c.r);
    QuantizeByte(c.g);
    QuantizeByte(c.b);
  }

  /** On the linear segments the two transfer functions undo each other exactly.
      The knees do not line up: 0.0031308 * 12.92 exceeds LinearKnee, so linear values
      in (LinearKnee / 12.92, SrgbKnee] come back through the pow branch of toLinear. */
  lemma LinearSegmentRoundTrip(v: real, m: Maths)
    ensures v <= LinearKnee / 12.92 ==> ToLinear(ToSrgb(v, m), m) == v
    ensures v <= LinearKnee ==> ToSrgb(ToLinear(v, m), m) == v
    ensures ToSrgb(SrgbKnee, m) > LinearKnee
  {
  }
}
