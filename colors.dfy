/** The per-pixel rules of the texture transforms.

    A pixel is an RGBA colour of four unclamped values. Each transform in
    TextureUtils rewrites every pixel of a level by one of the functions
    below, so these functions are the specification the in-place methods
    are proved against. Floats are modelled as reals: the transforms only
    compare, add, multiply and (for two blend modes) divide. */
module Colors {

  /** A pixel, as the engine's four-float colour struct. No component is
      clamped anywhere. */
  datatype Color = Color(r: real, g: real, b: real, a: real)

  /** The engine's three-argument colour constructor: alpha is set to 1. */
  function Rgb(r: real, g: real, b: real): (c: Color)
    ensures c.a == 1.0 && c.r == r && c.g == g && c.b == b
  {
    Color(r, g, b, 1.0)
  }

  // ---------------------------------------------------------------------
  // Colour adjustments (applied to every pixel of every mip level)
  // ---------------------------------------------------------------------

  /** Grayscale: the colour becomes its luma (an engine-defined weighting
      passed in as `luma`), and because the three-argument constructor is
      used, alpha is reset to 1. */
  function Grayscale(c: Color, luma: Color -> real): (r: Color)
    ensures r.r == r.g == r.b == luma(c)
    ensures r.a == 1.0
  {
    var v := luma(c);
    Rgb(v, v, v)
  }

  /** Invert: the colour channels, the alpha channel, or all four become
      1 - value. `invertAlphaOnly` only matters when `invertAlpha` is set. */
  function Invert(c: Color, invertAlpha: bool, invertAlphaOnly: bool): (r: Color)
    ensures !invertAlpha ==> r == Color(1.0 - c.r, 1.0 - c.g, 1.0 - c.b, c.a)
    ensures invertAlpha && invertAlphaOnly ==> r == c.(a := 1.0 - c.a)
    ensures invertAlpha && !invertAlphaOnly ==> r == Color(1.0 - c.r, 1.0 - c.g, 1.0 - c.b, 1.0 - c.a)
  {
    if !invertAlpha then
      Color(1.0 - c.r, 1.0 - c.g, 1.0 - c.b, c.a)
    else if !invertAlphaOnly then
      Color(1.0 - c.r, 1.0 - c.g, 1.0 - c.b, 1.0 - c.a)
    else
      c.(a := 1.0 - c.a)
  }

  /** Alpha texture: the colour channels take the value of alpha. */
  function AlphaToRgb(c: Color): (r: Color)
    ensures r.r == r.g == r.b == r.a == c.a
  {
    c.(r := c.a, g := c.a, b := c.a)
  }

  /** Brightness: a fully transparent pixel is kept; any other pixel has
      `delta` added to r, g and b, without clamping. */
  function Brightness(c: Color, delta: real): (r: Color)
    ensures r.a == c.a
    ensures c.a == 0.0 ==> r == c
    ensures c.a != 0.0 ==> r.r == c.r + delta && r.g == c.g + delta && r.b == c.b + delta
    ensures delta == 0.0 ==> r == c
  {
    if c.a != 0.0 then Color(c.r + delta, c.g + delta, c.b + delta, c.a) else c
  }

  /** True when one of r, g, b is strictly greater than the other two. */
  predicate HasDominantChannel(c: Color) {
    (c.r > c.g && c.r > c.b) || (c.g > c.r && c.g > c.b) || (c.b > c.r && c.b > c.g)
  }

  /** A channel that is not above one half is raised by delta, a channel
      above one half is lowered by it. */
  function AwayFromMiddle(v: real, delta: real): real {
    if v <= 0.5 then v + delta else v - delta
  }

  /** Contrast: a strictly dominant colour channel is raised by delta and
      nothing else changes; without one, every colour channel moves by
      delta (up if at most one half, down otherwise). Alpha is kept and no
      result is clamped. */
  function Contrast(c: Color, delta: real): (r: Color)
    ensures r.a == c.a
    ensures delta == 0.0 ==> r == c
    ensures c.r > c.g && c.r > c.b ==> r == c.(r := c.r + delta)
    ensures c.g > c.r && c.g > c.b ==> r == c.(g := c.g + delta)
    ensures c.b > c.r && c.b > c.g ==> r == c.(b := c.b + delta)
    ensures !HasDominantChannel(c) ==>
      (c.r <= 0.5 ==> r.r == c.r + delta) && (c.r > 0.5 ==> r.r == c.r - delta) &&
      (c.g <= 0.5 ==> r.g == c.g + delta) && (c.g > 0.5 ==> r.g == c.g - delta) &&
      (c.b <= 0.5 ==> r.b == c.b + delta) && (c.b > 0.5 ==> r.b == c.b - delta)
  {
    if c.r > c.g && c.r > c.b then c.(r := c.r + delta)
    else if c.g > c.r && c.g > c.b then c.(g := c.g + delta)
    else if c.b > c.r && c.b > c.g then c.(b := c.b + delta)
    else Color(AwayFromMiddle(c.r, delta), AwayFromMiddle(c.g, delta), AwayFromMiddle(c.b, delta), c.a)
  }

  /** One channel of MinMax: first raised to `min`, then lowered to `max`.
      When min > max this makes every value `max`. */
  function Bound(v: real, min: real, max: real): (r: real)
    ensures min <= max ==> min <= r <= max
    ensures min <= v <= max ==> r == v
    ensures min > max ==> r == max
  {
    var raised := if v < min then min else v;
    if raised > max then max else raised
  }

  /** Which channels an operation may touch. */
  datatype Channels = Channels(red: bool, green: bool, blue: bool, alpha: bool)

  /** MinMax: every enabled channel is bounded to [min, max]; the others are
      kept. */
  function MinMax(c: Color, min: real, max: real, on: Channels): (r: Color)
    ensures min <= max ==>
      (on.red ==> min <= r.r <= max) && (on.green ==> min <= r.g <= max) &&
      (on.blue ==> min <= r.b <= max) && (on.alpha ==> min <= r.a <= max)
    ensures !on.red ==> r.r == c.r
    ensures !on.green ==> r.g == c.g
    ensures !on.blue ==> r.b == c.b
    ensures !on.alpha ==> r.a == c.a
  {
    Color(if on.red then Bound(c.r, min, max) else c.r,
          if on.green then Bound(c.g, min, max) else c.g,
          if on.blue then Bound(c.b, min, max) else c.b,
          if on.alpha then Bound(c.a, min, max) else c.a)
  }

  /** One channel of ColorReplace: replaced by `target` exactly when it is
      enabled and strictly inside (select + rangeMin, select + rangeMax). */
  function ReplaceChannel(v: real, select: real, target: real, rangeMin: real, rangeMax: real, on: bool): (r: real)
    ensures on && select + rangeMin < v < select + rangeMax ==> r == target
    ensures !(on && select + rangeMin < v < select + rangeMax) ==> r == v
    ensures rangeMax <= rangeMin ==> r == v
  {
    if on && v > select + rangeMin && v < select + rangeMax then target else v
  }

  /** ColorReplace: each enabled channel inside its window around the
      selected colour takes the new colour's value. */
  function Replace(c: Color, select: Color, target: Color, rangeMin: real, rangeMax: real, on: Channels): (r: Color)
    ensures rangeMax <= rangeMin ==> r == c
    ensures r.r == c.r || r.r == target.r
    ensures r.g == c.g || r.g == target.g
    ensures r.b == c.b || r.b == target.b
    ensures r.a == c.a || r.a == target.a
  {
    Color(ReplaceChannel(c.r, select.r, target.r, rangeMin, rangeMax, on.red),
          ReplaceChannel(c.g, select.g, target.g, rangeMin, rangeMax, on.green),
          ReplaceChannel(c.b, select.b, target.b, rangeMin, rangeMax, on.blue),
          ReplaceChannel(c.a, select.a, target.a, rangeMin, rangeMax, on.alpha))
  }

  // ---------------------------------------------------------------------
  // Blend modes (level 0 only; `c` is the texture pixel, `b` the blend
  // texture's pixel at the same index)
  // ---------------------------------------------------------------------

  /** Multiply: colour channels become c * b * value; alpha is kept. */
  function Multiply(c: Color, b: Color, value: real): (r: Color)
    ensures r.a == c.a
  {
    Color(MultiplyChannel(c.r, b.r, value), MultiplyChannel(c.g, b.g, value), MultiplyChannel(c.b, b.b, value), c.a)
  }

  /** Multiply of one channel. */
  function MultiplyChannel(v: real, blend: real, value: real): real
  {
    v * blend * value
  }

  /** Screen of one channel, divided (not multiplied) by the blend value. */
  function ScreenChannel(v: real, blend: real, value: real): real
    requires value != 0.0
  {
    (1.0 - ((1.0 - blend) * (1.0 - v))) / value
  }

  /** Screen: colour channels become (1 - (1 - b)(1 - c)) / value; alpha is
      kept. */
  function Screen(c: Color, b: Color, value: real): (r: Color)
    requires value != 0.0
    ensures r.a == c.a
  {
    Color(ScreenChannel(c.r, b.r, value), ScreenChannel(c.g, b.g, value), ScreenChannel(c.b, b.b, value), c.a)
  }

  /** Overlay of one channel: multiply-like below one half, screen-like at
      or above it, both divided by the blend value. */
  function OverlayChannel(v: real, blend: real, value: real): real
    requires value != 0.0
  {
    if v < 0.5 then 2.0 * ((blend * v) / value)
    else 1.0 - (2.0 * (1.0 - blend) * (1.0 - v) / value)
  }

  /** Overlay: each colour channel by OverlayChannel; alpha is kept. */
  function Overlay(c: Color, b: Color, value: real): (r: Color)
    requires value != 0.0
    ensures r.a == c.a
  {
    Color(OverlayChannel(c.r, b.r, value), OverlayChannel(c.g, b.g, value), OverlayChannel(c.b, b.b, value), c.a)
  }

  /** Opacity: colour channels are linearly interpolated from c to b by
      value; alpha is kept. */
  function Opacity(c: Color, b: Color, value: real): (r: Color)
    ensures r.a == c.a
  {
    Color(OpacityChannel(c.r, b.r, value), OpacityChannel(c.g, b.g, value), OpacityChannel(c.b, b.b, value), c.a)
  }

  /** Opacity of one channel: linear interpolation from v to blend. */
  function OpacityChannel(v: real, blend: real, value: real): real
  {
    (1.0 - value) * v + value * blend
  }

  /** Mask: the result keeps the mask pixel's colour and takes its alpha
      from the texture pixel `c` (its alpha, or its luma). */
  function Mask(mask: Color, c: Color, grayscaleAlpha: bool, luma: Color -> real): (r: Color)
    ensures r.r == mask.r && r.g == mask.g && r.b == mask.b
    ensures r.a == if grayscaleAlpha then luma(c) else c.a
  {
    mask.(a := if grayscaleAlpha then luma(c) else c.a)
  }

  // ---------------------------------------------------------------------
  // Normal map post-step
  // ---------------------------------------------------------------------

  /** Unity normal-map convention: red and green are swapped and alpha is
      forced to 1. */
  function UnityNormal(c: Color): (r: Color)
    ensures r.a == 1.0 && r.b == c.b
  {
    Color(c.g, c.r, c.b, 1.0)
  }

  // ---------------------------------------------------------------------
  // Properties relating several applications
  // ---------------------------------------------------------------------

  /** Inverting twice with the same flags gives back the pixel. */
  lemma InvertInvolution(c: Color, invertAlpha: bool, invertAlphaOnly: bool)
    ensures Invert(Invert(c, invertAlpha, invertAlphaOnly), invertAlpha, invertAlphaOnly) == c
  {}

  /** The alpha texture of an alpha texture is itself. */
  lemma AlphaToRgbIdempotent(c: Color)
    ensures AlphaToRgb(AlphaToRgb(c)) == AlphaToRgb(c)
  {}

  /** Brightness by delta and then by -delta gives back the pixel: alpha is
      kept, so the same pixels are skipped both times, and nothing clamps. */
  lemma BrightnessInverse(c: Color, delta: real)
    ensures Brightness(Brightness(c, delta), -delta) == c
  {}

  /** MinMax twice is MinMax once, whatever min, max and the channels. */
  lemma MinMaxIdempotent(c: Color, min: real, max: real, on: Channels)
    ensures MinMax(MinMax(c, min, max, on), min, max, on) == MinMax(c, min, max, on)
  {}

  /** Replacing a second time changes nothing: a replaced channel already
      holds the new colour's value, which a second replacement would write
      again, and a kept channel was outside its window and still is. */
  lemma ReplaceIdempotent(c: Color, select: Color, target: Color, rangeMin: real, rangeMax: real, on: Channels)
    ensures Replace(Replace(c, select, target, rangeMin, rangeMax, on), select, target, rangeMin, rangeMax, on)
         == Replace(c, select, target, rangeMin, rangeMax, on)
  {}

  /** Neutral blend inputs: white multiplied at full strength, black
      screened at full strength and mid-grey overlaid at full strength all
      leave the pixel as it is. */
  lemma BlendNeutralElements(c: Color)
    ensures Multiply(c, Color(1.0, 1.0, 1.0, 1.0), 1.0) == c
    ensures Screen(c, Color(0.0, 0.0, 0.0, 1.0), 1.0) == c
    ensures Overlay(c, Color(0.5, 0.5, 0.5, 1.0), 1.0) == c
  {}

  /** A zero blend value makes Multiply black, keeping alpha. */
  lemma MultiplyByZero(c: Color, b: Color)
    ensures Multiply(c, b, 0.0) == Color(0.0, 0.0, 0.0, c.a)
  {}

  /** Opacity 0 keeps the texture pixel; opacity 1 takes the blend pixel's
      colour and keeps the texture's alpha. */
  lemma OpacityEnds(c: Color, b: Color)
    ensures Opacity(c, b, 0.0) == c
    ensures Opacity(c, b, 1.0) == b.(a := c.a)
  {}

  /** Converting to the Unity convention twice restores r, g and b. */
  lemma UnityNormalTwice(c: Color)
    ensures UnityNormal(UnityNormal(c)) == c.(a := 1.0)
  {}
}
