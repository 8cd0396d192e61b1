/** The pixel transforms of the texture utilities, as in-place methods on a
    Texture2D.

    The colour adjustments pull a copy of every mip level, rewrite it pixel
    by pixel and write it back; each is proved to leave pixel i of level m
    equal to a per-pixel function (module Colors) of its old value. The
    blend modes and Mask work on level 0 only and read a second texture at
    the same index, which fails (nothing written) when that texture has
    fewer pixels. Combine pastes one texture into another pixel by pixel;
    the normal-map code contributes its edge-wrapping neighbour indices and
    the final red/green swap. The upload (Apply) that ends every
    transform, with its rebuild of mip levels 1 and up, is not modelled. */
module TextureUtils {
  import opened Colors
  import opened Texture

  // ---------------------------------------------------------------------
  // Colour adjustments: every pixel of every mip level
  // ---------------------------------------------------------------------

  /** Every pixel becomes its luma in r, g and b, with alpha 1. The clamps
      in the source discard their results and change nothing. */
  method Grayscale2D(texture: Texture2D, luma: Color -> real)
    requires texture.Valid()
    modifies texture.Levels()
    ensures forall m, i | 0 <= m < |texture.mips| && 0 <= i < texture.mips[m].Length ::
      texture.mips[m][i] == Grayscale(old(texture.mips[m][i]), luma)
  {
    for m := 0 to |texture.mips|
      invariant forall k, i | 0 <= k < m && 0 <= i < texture.mips[k].Length ::
        texture.mips[k][i] == Grayscale(old(texture.mips[k][i]), luma)
      invariant forall k, i | m <= k < |texture.mips| && 0 <= i < texture.mips[k].Length ::
        texture.mips[k][i] == old(texture.mips[k][i])
    {
      var c := texture.GetPixels(m);
      GrayscalePixels(c, luma);
      texture.SetPixels(c, m);
    }
  }

  /** The pixel loop of Grayscale2D over one level's copy. */
  method GrayscalePixels(c: array<Color>, luma: Color -> real)
    modifies c
    ensures forall j | 0 <= j < c.Length :: c[j] == Grayscale(old(c[j]), luma)
  {
    for i := 0 to c.Length
      invariant forall j | 0 <= j < i :: c[j] == Grayscale(old(c[j]), luma)
      invariant forall j | i <= j < c.Length :: c[j] == old(c[j])
    {
      var grayValue := luma(c[i]);
      c[i] := Rgb(grayValue, grayValue, grayValue);
    }
  }

  /** Every pixel of every level is inverted as the two flags select. */
  method Invert2D(texture: Texture2D, invertAlpha: bool, invertAlphaOnly: bool)
    requires texture.Valid()
    modifies texture.Levels()
    ensures forall m, i | 0 <= m < |texture.mips| && 0 <= i < texture.mips[m].Length ::
      texture.mips[m][i] == Invert(old(texture.mips[m][i]), invertAlpha, invertAlphaOnly)
  {
    for m := 0 to |texture.mips|
      invariant forall k, i | 0 <= k < m && 0 <= i < texture.mips[k].Length ::
        texture.mips[k][i] == Invert(old(texture.mips[k][i]), invertAlpha, invertAlphaOnly)
      invariant forall k, i | m <= k < |texture.mips| && 0 <= i < texture.mips[k].Length ::
        texture.mips[k][i] == old(texture.mips[k][i])
    {
      var c := texture.GetPixels(m);
      InvertPixels(c, invertAlpha, invertAlphaOnly);
      texture.SetPixels(c, m);
    }
  }

  /** The pixel loop of Invert2D over one level's copy. */
  method InvertPixels(c: array<Color>, invertAlpha: bool, invertAlphaOnly: bool)
    modifies c
    ensures forall j | 0 <= j < c.Length :: c[j] == Invert(old(c[j]), invertAlpha, invertAlphaOnly)
  {
    for i := 0 to c.Length
      invariant forall j | 0 <= j < i :: c[j] == Invert(old(c[j]), invertAlpha, invertAlphaOnly)
      invariant forall j | i <= j < c.Length :: c[j] == old(c[j])
    {
      var p := c[i];
      if !invertAlpha {
        p := p.(r := 1.0 - p.r);
        p := p.(g := 1.0 - p.g);
        p := p.(b := 1.0 - p.b);
      } else {
        if !invertAlphaOnly {
          p := p.(r := 1.0 - p.r);
          p := p.(g := 1.0 - p.g);
          p := p.(b := 1.0 - p.b);
          p := p.(a := 1.0 - p.a);
        } else {
          p := p.(a := 1.0 - p.a);
        }
      }
      c[i] := p;
    }
  }

  /** Every pixel of every level shows its alpha in r, g and b. */
  method Alpha2D(texture: Texture2D)
    requires texture.Valid()
    modifies texture.Levels()
    ensures forall m, i | 0 <= m < |texture.mips| && 0 <= i < texture.mips[m].Length ::
      texture.mips[m][i] == AlphaToRgb(old(texture.mips[m][i]))
  {
    for m := 0 to |texture.mips|
      invariant forall k, i | 0 <= k < m && 0 <= i < texture.mips[k].Length ::
        texture.mips[k][i] == AlphaToRgb(old(texture.mips[k][i]))
      invariant forall k, i | m <= k < |texture.mips| && 0 <= i < texture.mips[k].Length ::
        texture.mips[k][i] == old(texture.mips[k][i])
    {
      var c := texture.GetPixels(m);
      AlphaPixels(c);
      texture.SetPixels(c, m);
    }
  }

  /** The pixel loop of Alpha2D over one level's copy. */
  method AlphaPixels(c: array<Color>)
    modifies c
    ensures forall j | 0 <= j < c.Length :: c[j] == AlphaToRgb(old(c[j]))
  {
    for i := 0 to c.Length
      invariant forall j | 0 <= j < i :: c[j] == AlphaToRgb(old(c[j]))
      invariant forall j | i <= j < c.Length :: c[j] == old(c[j])
    {
      var p := c[i];
      p := p.(r := p.a);
      p := p.(g := p.a);
      p := p.(b := p.a);
      c[i] := p;
    }
  }

  /** Every non-transparent pixel of every level has brightnessValue added
      to r, g and b; nothing is clamped. */
  method Brightness2D(texture: Texture2D, brightnessValue: real)
    requires texture.Valid()
    modifies texture.Levels()
    ensures forall m, i | 0 <= m < |texture.mips| && 0 <= i < texture.mips[m].Length ::
      texture.mips[m][i] == Brightness(old(texture.mips[m][i]), brightnessValue)
  {
    for m := 0 to |texture.mips|
      invariant forall k, i | 0 <= k < m && 0 <= i < texture.mips[k].Length ::
        texture.mips[k][i] == Brightness(old(texture.mips[k][i]), brightnessValue)
      invariant forall k, i | m <= k < |texture.mips| && 0 <= i < texture.mips[k].Length ::
        texture.mips[k][i] == old(texture.mips[k][i])
    {
      var c := texture.GetPixels(m);
      BrightnessPixels(c, brightnessValue);
      texture.SetPixels(c, m);
    }
  }

  /** The pixel loop of Brightness2D over one level's copy. */
  method BrightnessPixels(c: array<Color>, brightnessValue: real)
    modifies c
    ensures forall j | 0 <= j < c.Length :: c[j] == Brightness(old(c[j]), brightnessValue)
  {
    for i := 0 to c.Length
      invariant forall j | 0 <= j < i :: c[j] == Brightness(old(c[j]), brightnessValue)
      invariant forall j | i <= j < c.Length :: c[j] == old(c[j])
    {
      var p := c[i];
      if p.a != 0.0 {
        p := p.(r := p.r + brightnessValue);
        p := p.(g := p.g + brightnessValue);
        p := p.(b := p.b + brightnessValue);
      }
      c[i] := p;
    }
  }

  /** Every enabled channel of every pixel of every level that lies strictly
      inside its window around selectColor takes newColor's value. */
  method ColorReplace2D(texture: Texture2D, selectColor: Color, newColor: Color,
                        colorRangeMin: real, colorRangeMax: real,
                        alpha: bool, red: bool, green: bool, blue: bool)
    requires texture.Valid()
    modifies texture.Levels()
    ensures forall m, i | 0 <= m < |texture.mips| && 0 <= i < texture.mips[m].Length ::
      texture.mips[m][i] == Replace(old(texture.mips[m][i]), selectColor, newColor,
                                    colorRangeMin, colorRangeMax, Channels(red, green, blue, alpha))
  {
    var on := Channels(red, green, blue, alpha);
    for m := 0 to |texture.mips|
      invariant forall k, i | 0 <= k < m && 0 <= i < texture.mips[k].Length ::
        texture.mips[k][i] == Replace(old(texture.mips[k][i]), selectColor, newColor, colorRangeMin, colorRangeMax, on)
      invariant forall k, i | m <= k < |texture.mips| && 0 <= i < texture.mips[k].Length ::
        texture.mips[k][i] == old(texture.mips[k][i])
    {
      var c := texture.GetPixels(m);
      ReplacePixels(c, selectColor, newColor, colorRangeMin, colorRangeMax, on);
      texture.SetPixels(c, m);
    }
  }

  /** The pixel loop of ColorReplace2D over one level's copy. */
  method ReplacePixels(c: array<Color>, selectColor: Color, newColor: Color,
                       colorRangeMin: real, colorRangeMax: real, on: Channels)
    modifies c
    ensures forall j | 0 <= j < c.Length ::
      c[j] == Replace(old(c[j]), selectColor, newColor, colorRangeMin, colorRangeMax, on)
  {
    for i := 0 to c.Length
      invariant forall j | 0 <= j < i ::
        c[j] == Replace(old(c[j]), selectColor, newColor, colorRangeMin, colorRangeMax, on)
      invariant forall j | i <= j < c.Length :: c[j] == old(c[j])
    {
      var p := c[i];
      if on.red && p.r > selectColor.r + colorRangeMin && p.r < selectColor.r + colorRangeMax {
        p := p.(r := newColor.r);
      }
      if on.green && p.g > selectColor.g + colorRangeMin && p.g < selectColor.g + colorRangeMax {
        p := p.(g := newColor.g);
      }
      if on.blue && p.b > selectColor.b + colorRangeMin && p.b < selectColor.b + colorRangeMax {
        p := p.(b := newColor.b);
      }
      if on.alpha && p.a > selectColor.a + colorRangeMin && p.a < selectColor.a + colorRangeMax {
        p := p.(a := newColor.a);
      }
      c[i] := p;
    }
  }

  /** Every pixel of every level gets the contrast step of Colors.Contrast;
      the clamps in the source discard their results. */
  method Contrast2D(texture: Texture2D, contrastValue: real)
    requires texture.Valid()
    modifies texture.Levels()
    ensures forall m, i | 0 <= m < |texture.mips| && 0 <= i < texture.mips[m].Length ::
      texture.mips[m][i] == Contrast(old(texture.mips[m][i]), contrastValue)
  {
    for m := 0 to |texture.mips|
      invariant forall k, i | 0 <= k < m && 0 <= i < texture.mips[k].Length ::
        texture.mips[k][i] == Contrast(old(texture.mips[k][i]), contrastValue)
      invariant forall k, i | m <= k < |texture.mips| && 0 <= i < texture.mips[k].Length ::
        texture.mips[k][i] == old(texture.mips[k][i])
    {
      var c := texture.GetPixels(m);
      ContrastPixels(c, contrastValue);
      texture.SetPixels(c, m);
    }
  }

  /** The pixel loop of Contrast2D over one level's copy. */
  method ContrastPixels(c: array<Color>, contrastValue: real)
    modifies c
    ensures forall j | 0 <= j < c.Length :: c[j] == Contrast(old(c[j]), contrastValue)
  {
    for i := 0 to c.Length
      invariant forall j | 0 <= j < i :: c[j] == Contrast(old(c[j]), contrastValue)
      invariant forall j | i <= j < c.Length :: c[j] == old(c[j])
    {
      var p := c[i];
      if p.r > p.g && p.r > p.b {
        p := p.(r := p.r + contrastValue);
      } else if p.g > p.r && p.g > p.b {
        p := p.(g := p.g + contrastValue);
      } else if p.b > p.r && p.b > p.g {
        p := p.(b := p.b + contrastValue);
      } else {
        if p.r <= 0.5 {
          p := p.(r := p.r + contrastValue);
        } else {
          p := p.(r := p.r - contrastValue);
        }
        if p.g <= 0.5 {
          p := p.(g := p.g + contrastValue);
        } else {
          p := p.(g := p.g - contrastValue);
        }
        if p.b <= 0.5 {
          p := p.(b := p.b + contrastValue);
        } else {
          p := p.(b := p.b - contrastValue);
        }
      }
      c[i] := p;
    }
  }

  /** Every enabled channel of every pixel of every level is raised to min
      and then lowered to max, all minimums first. */
  method MinMax2D(texture: Texture2D, min: real, max: real, alpha: bool, red: bool, green: bool, blue: bool)
    requires texture.Valid()
    modifies texture.Levels()
    ensures forall m, i | 0 <= m < |texture.mips| && 0 <= i < texture.mips[m].Length ::
      texture.mips[m][i] == MinMax(old(texture.mips[m][i]), min, max, Channels(red, green, blue, alpha))
  {
    var on := Channels(red, green, blue, alpha);
    for m := 0 to |texture.mips|
      invariant forall k, i | 0 <= k < m && 0 <= i < texture.mips[k].Length ::
        texture.mips[k][i] == MinMax(old(texture.mips[k][i]), min, max, on)
      invariant forall k, i | m <= k < |texture.mips| && 0 <= i < texture.mips[k].Length ::
        texture.mips[k][i] == old(texture.mips[k][i])
    {
      var c := texture.GetPixels(m);
      MinMaxPixels(c, min, max, on);
      texture.SetPixels(c, m);
    }
  }

  /** The pixel loop of MinMax2D over one level's copy. */
  method MinMaxPixels(c: array<Color>, min: real, max: real, on: Channels)
    modifies c
    ensures forall j | 0 <= j < c.Length :: c[j] == MinMax(old(c[j]), min, max, on)
  {
    for i := 0 to c.Length
      invariant forall j | 0 <= j < i :: c[j] == MinMax(old(c[j]), min, max, on)
      invariant forall j | i <= j < c.Length :: c[j] == old(c[j])
    {
      var r, g, b, a := c[i].r, c[i].g, c[i].b, c[i].a;
      if r < min && on.red { r := min; }
      if g < min && on.green { g := min; }
      if b < min && on.blue { b := min; }
      if a < min && on.alpha { a := min; }

      if r > max && on.red { r := max; }
      assert r == (if on.red then Bound(c[i].r, min, max) else c[i].r);
      if g > max && on.green { g := max; }
      assert g == (if on.green then Bound(c[i].g, min, max) else c[i].g);
      if b > max && on.blue { b := max; }
      assert b == (if on.blue then Bound(c[i].b, min, max) else c[i].b);
      if a > max && on.alpha { a := max; }
      c[i] := Color(r, g, b, a);
    }
  }

  // ---------------------------------------------------------------------
  // Blend modes and Mask: level 0 only
  // ---------------------------------------------------------------------

  /** Level 0 is multiplied by the blend texture's level 0 and the blend
      value. `ok` is false when the blend texture has fewer pixels (the
      source then throws before writing anything). */
  method BlendMultiply2D(texture: Texture2D, blendTexture: Texture2D, blendValue: real) returns (ok: bool)
    requires texture.Valid() && blendTexture.Valid()
    modifies texture.mips[0]
    ensures ok <==> texture.mips[0].Length <= blendTexture.mips[0].Length
    ensures ok ==> forall i | 0 <= i < texture.mips[0].Length ::
      texture.mips[0][i] == Multiply(old(texture.mips[0][i]), old(blendTexture.mips[0][i]), blendValue)
    ensures !ok ==> texture.mips[0][..] == old(texture.mips[0][..])
  {
    var c := blendTexture.GetPixels(0);
    var c2 := texture.GetPixels(0);
    ok := MultiplyPixels(c2, c, blendValue);
    if ok {
      texture.SetPixels(c2, 0);
    }
  }

  /** The pixel loop of BlendMultiply2D: c2 is the texture's copy, c the blend
      texture's; `ok` is false when the loop runs past the end of c. */
  method MultiplyPixels(c2: array<Color>, c: array<Color>, blendValue: real) returns (ok: bool)
    requires c2 != c
    modifies c2
    ensures ok <==> c2.Length <= c.Length
    ensures ok ==> forall j | 0 <= j < c2.Length :: c2[j] == Multiply(old(c2[j]), c[j], blendValue)
  {
    for i := 0 to c2.Length
      invariant i <= c.Length
      invariant forall j | 0 <= j < i :: c2[j] == Multiply(old(c2[j]), c[j], blendValue)
      invariant forall j | i <= j < c2.Length :: c2[j] == old(c2[j])
    {
      if i >= c.Length {
        return false;
      }
      var r := MultiplyChannel(c2[i].r, c[i].r, blendValue);
      var g := MultiplyChannel(c2[i].g, c[i].g, blendValue);
      var b := MultiplyChannel(c2[i].b, c[i].b, blendValue);
      c2[i] := c2[i].(r := r, g := g, b := b);
    }
    ok := true;
  }

  /** Level 0 is screened with the blend texture's level 0 and divided by
      the blend value. */
  method BlendScreen2D(texture: Texture2D, blendTexture: Texture2D, blendValue: real) returns (ok: bool)
    requires texture.Valid() && blendTexture.Valid()
    requires blendValue != 0.0
    modifies texture.mips[0]
    ensures ok <==> texture.mips[0].Length <= blendTexture.mips[0].Length
    ensures ok ==> forall i | 0 <= i < texture.mips[0].Length ::
      texture.mips[0][i] == Screen(old(texture.mips[0][i]), old(blendTexture.mips[0][i]), blendValue)
    ensures !ok ==> texture.mips[0][..] == old(texture.mips[0][..])
  {
    var c := blendTexture.GetPixels(0);
    var c2 := texture.GetPixels(0);
    ok := ScreenPixels(c2, c, blendValue);
    if ok {
      texture.SetPixels(c2, 0);
    }
  }

  /** The pixel loop of BlendScreen2D: c2 is the texture's copy, c the blend
      texture's; `ok` is false when the loop runs past the end of c. */
  method ScreenPixels(c2: array<Color>, c: array<Color>, blendValue: real) returns (ok: bool)
    requires c2 != c && blendValue != 0.0
    modifies c2
    ensures ok <==> c2.Length <= c.Length
    ensures ok ==> forall j | 0 <= j < c2.Length :: c2[j] == Screen(old(c2[j]), c[j], blendValue)
  {
    for i := 0 to c2.Length
      invariant i <= c.Length
      invariant forall j | 0 <= j < i :: c2[j] == Screen(old(c2[j]), c[j], blendValue)
      invariant forall j | i <= j < c2.Length :: c2[j] == old(c2[j])
    {
      if i >= c.Length {
        return false;
      }
      var r := ScreenChannel(c2[i].r, c[i].r, blendValue);
      var g := ScreenChannel(c2[i].g, c[i].g, blendValue);
      var b := ScreenChannel(c2[i].b, c[i].b, blendValue);
      c2[i] := c2[i].(r := r, g := g, b := b);
    }
    ok := true;
  }

  /** Level 0 is overlaid with the blend texture's level 0, each channel
      branching on whether it is below one half. */
  method BlendOverlay2D(texture: Texture2D, blendTexture: Texture2D, blendValue: real) returns (ok: bool)
    requires texture.Valid() && blendTexture.Valid()
    requires blendValue != 0.0
    modifies texture.mips[0]
    ensures ok <==> texture.mips[0].Length <= blendTexture.mips[0].Length
    ensures ok ==> forall i | 0 <= i < texture.mips[0].Length ::
      texture.mips[0][i] == Overlay(old(texture.mips[0][i]), old(blendTexture.mips[0][i]), blendValue)
    ensures !ok ==> texture.mips[0][..] == old(texture.mips[0][..])
  {
    var c := blendTexture.GetPixels(0);
    var c2 := texture.GetPixels(0);
    ok := OverlayPixels(c2, c, blendValue);
    if ok {
      texture.SetPixels(c2, 0);
    }
  }

  /** The pixel loop of BlendOverlay2D: c2 is the texture's copy, c the blend
      texture's; `ok` is false when the loop runs past the end of c. */
  method OverlayPixels(c2: array<Color>, c: array<Color>, blendValue: real) returns (ok: bool)
    requires c2 != c && blendValue != 0.0
    modifies c2
    ensures ok <==> c2.Length <= c.Length
    ensures ok ==> forall j | 0 <= j < c2.Length :: c2[j] == Overlay(old(c2[j]), c[j], blendValue)
  {
    for i := 0 to c2.Length
      invariant i <= c.Length
      invariant forall j | 0 <= j < i :: c2[j] == Overlay(old(c2[j]), c[j], blendValue)
      invariant forall j | i <= j < c2.Length :: c2[j] == old(c2[j])
    {
      if i >= c.Length {
        return false;
      }
      var r := OverlayStep(c2[i].r, c[i].r, blendValue);
      var g := OverlayStep(c2[i].g, c[i].g, blendValue);
      var b := OverlayStep(c2[i].b, c[i].b, blendValue);
      c2[i] := c2[i].(r := r, g := g, b := b);
    }
    ok := true;
  }

  /** One channel of the BlendOverlay2D loop body. */
  method OverlayStep(v: real, blend: real, blendValue: real) returns (w: real)
    requires blendValue != 0.0
    ensures w == OverlayChannel(v, blend, blendValue)
  {
    w := v;
    if w < 0.5 {
      w := 2.0 * ((blend * w) / blendValue);
    } else {
      w := 1.0 - (2.0 * (1.0 - blend) * (1.0 - w) / blendValue);
    }
  }

  /** Level 0 is interpolated towards the blend texture's level 0 by the
      blend value. */
  method BlendOpacety2D(texture: Texture2D, blendTexture: Texture2D, blendValue: real) returns (ok: bool)
    requires texture.Valid() && blendTexture.Valid()
    modifies texture.mips[0]
    ensures ok <==> texture.mips[0].Length <= blendTexture.mips[0].Length
    ensures ok ==> forall i | 0 <= i < texture.mips[0].Length ::
      texture.mips[0][i] == Opacity(old(texture.mips[0][i]), old(blendTexture.mips[0][i]), blendValue)
    ensures !ok ==> texture.mips[0][..] == old(texture.mips[0][..])
  {
    var c := blendTexture.GetPixels(0);
    var c2 := texture.GetPixels(0);
    ok := OpacityPixels(c2, c, blendValue);
    if ok {
      texture.SetPixels(c2, 0);
    }
  }

  /** The pixel loop of BlendOpacety2D: c2 is the texture's copy, c the blend
      texture's; `ok` is false when the loop runs past the end of c. */
  method OpacityPixels(c2: array<Color>, c: array<Color>, blendValue: real) returns (ok: bool)
    requires c2 != c
    modifies c2
    ensures ok <==> c2.Length <= c.Length
    ensures ok ==> forall j | 0 <= j < c2.Length :: c2[j] == Opacity(old(c2[j]), c[j], blendValue)
  {
    for i := 0 to c2.Length
      invariant i <= c.Length
      invariant forall j | 0 <= j < i :: c2[j] == Opacity(old(c2[j]), c[j], blendValue)
      invariant forall j | i <= j < c2.Length :: c2[j] == old(c2[j])
    {
      if i >= c.Length {
        return false;
      }
      var r := OpacityChannel(c2[i].r, c[i].r, blendValue);
      var g := OpacityChannel(c2[i].g, c[i].g, blendValue);
      var b := OpacityChannel(c2[i].b, c[i].b, blendValue);
      c2[i] := c2[i].(r := r, g := g, b := b);
    }
    ok := true;
  }

  /** Level 0 becomes the mask texture's level 0 with alpha taken from the
      texture (its alpha, or its luma when grayscaleAlpha is set), and the
      texture is marked as having transparency. `ok` is false, and nothing
      changes, when the mask has fewer pixels. */
  method Mask2D(texture: Texture2D, maskTexture: Texture2D, grayscaleAlpha: bool, luma: Color -> real) returns (ok: bool)
    requires texture.Valid() && maskTexture.Valid()
    modifies texture`alphaIsTransparency, texture.mips[0]
    ensures ok <==> texture.mips[0].Length <= maskTexture.mips[0].Length
    ensures ok ==> texture.alphaIsTransparency
    ensures ok ==> forall i | 0 <= i < texture.mips[0].Length ::
      texture.mips[0][i] == Mask(old(maskTexture.mips[0][i]), old(texture.mips[0][i]), grayscaleAlpha, luma)
    ensures !ok ==> texture.mips[0][..] == old(texture.mips[0][..]) && texture.alphaIsTransparency == old(texture.alphaIsTransparency)
  {
    var c := maskTexture.GetPixels(0);
    var c2 := texture.GetPixels(0);
    for i := 0 to c2.Length
      modifies c
      invariant i <= c.Length
      invariant forall j | 0 <= j < i :: c[j] == Mask(maskTexture.mips[0][j], c2[j], grayscaleAlpha, luma)
      invariant forall j | i <= j < c.Length :: c[j] == maskTexture.mips[0][j]
    {
      if i >= c.Length {
        return false;
      }
      var p := c[i];
      if grayscaleAlpha {
        p := p.(a := luma(c2[i]));
      } else {
        p := p.(a := c2[i].a);
      }
      c[i] := p;
    }
    texture.SetPixels(c, 0);
    texture.alphaIsTransparency := true;
    ok := true;
  }

  // ---------------------------------------------------------------------
  // Combine: paste a texture into another, pixel by pixel
  // ---------------------------------------------------------------------

  /** One SetPixel of a paste: source pixel (sx, sy) written at (dx, dy). */
  datatype Paste = Paste(dx: int, dy: int, sx: int, sy: int)

  /** The pastes of source column x for rows lo .. hi - 1 moved by (tx, ty),
      in ascending row order when `up`, otherwise from row hi - 1 down. */
  function ColumnPastes(x: int, lo: int, hi: int, up: bool, tx: int, ty: int): seq<Paste>
    decreases hi - lo
  {
    if hi <= lo then []
    else if up then ColumnPastes(x, lo, hi - 1, up, tx, ty) + [Paste(x + tx, hi - 1 + ty, x, hi - 1)]
    else ColumnPastes(x, lo + 1, hi, up, tx, ty) + [Paste(x + tx, lo + ty, x, lo)]
  }

  /** The pastes of source columns 0 .. columns - 1, column by column. */
  function Pastes(columns: nat, lo: int, hi: int, up: bool, tx: int, ty: int): seq<Paste>
  {
    if columns == 0 then []
    else Pastes(columns - 1, lo, hi, up, tx, ty) + ColumnPastes(columns - 1, lo, hi, up, tx, ty)
  }

  /** The destination after the pastes in order, each reading `source`. */
  function Pasted(dest: Level, source: Level, ps: seq<Paste>): (r: Level)
    requires dest.Valid() && source.Valid()
    ensures r.Valid() && r.width == dest.width && r.height == dest.height && r.mode == dest.mode
  {
    if ps == [] then dest
    else
      var p := ps[|ps| - 1];
      Pasted(dest, source, ps[..|ps| - 1]).Put(p.dx, p.dy, source.At(p.sx, p.sy))
  }

  /** The order in which Combine2D pastes: with flipY, every column from
      row combineHeight down to row 1, moved up by height - offsetY -
      combineHeight; otherwise rows 0 up to combineHeight - 1 moved by
      (offsetX, offsetY). */
  function CombineOrder(columns: nat, combineHeight: nat, height: nat, offsetX: int, offsetY: int, flipY: bool): seq<Paste>
  {
    if flipY then Pastes(columns, 1, combineHeight + 1, false, offsetX, height - offsetY - combineHeight)
    else Pastes(columns, 0, combineHeight, true, offsetX, offsetY)
  }

  /** The order the flipped paste evidently intends: rows combineHeight - 1
      down to 0, so that the pasted image's top row lands offsetY rows below
      the destination's top. */
  function CombineOrderFromTop(columns: nat, combineHeight: nat, height: nat, offsetX: int, offsetY: int, flipY: bool): seq<Paste>
  {
    if flipY then Pastes(columns, 0, combineHeight, false, offsetX, height - offsetY - combineHeight)
    else Pastes(columns, 0, combineHeight, true, offsetX, offsetY)
  }

  lemma PastedSnoc(dest: Level, source: Level, done: seq<Paste>, p: Paste)
    requires dest.Valid() && source.Valid()
    ensures Pasted(dest, source, done + [p]) == Pasted(dest, source, done).Put(p.dx, p.dy, source.At(p.sx, p.sy))
  {
    assert (done + [p])[..|done|] == done;
  }

  /** One step of a paste: combineTexture's pixel (x, y) written at
      (x + tx, y + ty), extending the pastes done so far by one. */
  method PastePixel(texture: Texture2D, combineTexture: Texture2D, x: int, y: int, tx: int, ty: int,
                    ghost start: Level, ghost source: Level, ghost done: seq<Paste>)
    requires texture.HasPixels() && combineTexture.HasPixels()
    requires combineTexture.mips[0] != texture.mips[0]
    requires start.Valid() && combineTexture.Level0() == source
    requires texture.Level0() == Pasted(start, source, done)
    modifies texture.mips[0]
    ensures combineTexture.Level0() == source
    ensures texture.Level0() == Pasted(start, source, done + [Paste(x + tx, y + ty, x, y)])
  {
    var p := combineTexture.GetPixel(x, y);
    PastedSnoc(start, source, done, Paste(x + tx, y + ty, x, y));
    texture.SetPixel(x + tx, y + ty, p);
  }

  /** Pastes rows lo .. hi - 1 of column x of combineTexture into texture,
      moved by (tx, ty), in ascending or descending row order. */
  method PasteColumn(texture: Texture2D, combineTexture: Texture2D, x: int, lo: int, hi: int, up: bool, tx: int, ty: int)
    requires texture.HasPixels() && combineTexture.HasPixels()
    requires combineTexture.mips[0] != texture.mips[0]
    modifies texture.mips[0]
    ensures texture.Level0() == Pasted(old(texture.Level0()), combineTexture.Level0(), ColumnPastes(x, lo, hi, up, tx, ty))
  {
    if up {
      PasteRowsUp(texture, combineTexture, x, lo, hi, tx, ty);
    } else {
      PasteRowsDown(texture, combineTexture, x, lo, hi, tx, ty);
    }
  }

  method PasteRowsUp(texture: Texture2D, combineTexture: Texture2D, x: int, lo: int, hi: int, tx: int, ty: int)
    requires texture.HasPixels() && combineTexture.HasPixels()
    requires combineTexture.mips[0] != texture.mips[0]
    modifies texture.mips[0]
    ensures texture.Level0() == Pasted(old(texture.Level0()), combineTexture.Level0(), ColumnPastes(x, lo, hi, true, tx, ty))
  {
    ghost var start := texture.Level0();
    ghost var source := combineTexture.Level0();
    ghost var done: seq<Paste> := [];
    var y := lo;
    while y < hi
      invariant lo <= y && (y <= hi || y == lo)
      invariant done == ColumnPastes(x, lo, y, true, tx, ty)
      invariant combineTexture.Level0() == source
      invariant texture.Level0() == Pasted(start, source, done)
    {
      PastePixel(texture, combineTexture, x, y, tx, ty, start, source, done);
      done := done + [Paste(x + tx, y + ty, x, y)];
      y := y + 1;
    }
  }

  method PasteRowsDown(texture: Texture2D, combineTexture: Texture2D, x: int, lo: int, hi: int, tx: int, ty: int)
    requires texture.HasPixels() && combineTexture.HasPixels()
    requires combineTexture.mips[0] != texture.mips[0]
    modifies texture.mips[0]
    ensures texture.Level0() == Pasted(old(texture.Level0()), combineTexture.Level0(), ColumnPastes(x, lo, hi, false, tx, ty))
  {
    ghost var start := texture.Level0();
    ghost var source := combineTexture.Level0();
    ghost var done: seq<Paste> := [];
    var y := hi - 1;
    while y >= lo
      invariant y < hi && (lo - 1 <= y || y == hi - 1)
      invariant done == ColumnPastes(x, y + 1, hi, false, tx, ty)
      invariant combineTexture.Level0() == source
      invariant texture.Level0() == Pasted(start, source, done)
      decreases y - lo
    {
      PastePixel(texture, combineTexture, x, y, tx, ty, start, source, done);
      done := done + [Paste(x + tx, y + ty, x, y)];
      y := y - 1;
    }
  }


  lemma PastedAppend(dest: Level, source: Level, done: seq<Paste>, more: seq<Paste>)
    requires dest.Valid() && source.Valid()
    ensures Pasted(dest, source, done + more) == Pasted(Pasted(dest, source, done), source, more)
    decreases |more|
  {
    if more == [] {
      assert done + more == done;
    } else {
      var last := more[|more| - 1];
      var init := more[..|more| - 1];
      assert done + more == (done + init) + [last];
      assert more == init + [last];
      PastedSnoc(dest, source, done + init, last);
      PastedAppend(dest, source, done, init);
      PastedSnoc(Pasted(dest, source, done), source, init, last);
    }
  }

  /** Pastes combineTexture into texture at (offsetX, offsetY): with flipY
      each column is copied from row combineTexture.height down to row 1 and
      row y lands on row y + (texture.height - offsetY -
      combineTexture.height); otherwise row y lands on row y + offsetY. All
      coordinates go through the wrap modes of GetPixel and SetPixel. */
  method Combine2D(texture: Texture2D, combineTexture: Texture2D, offsetX: int, offsetY: int, flipY: bool)
    requires texture.HasPixels() && combineTexture.HasPixels()
    requires combineTexture.mips[0] != texture.mips[0]
    modifies texture.mips[0]
    ensures texture.Level0() == Pasted(old(texture.Level0()), combineTexture.Level0(),
                                       CombineOrder(combineTexture.width, combineTexture.height, texture.height, offsetX, offsetY, flipY))
  {
    var columns, rows := combineTexture.width, combineTexture.height;
    if flipY {
      var ty := texture.height - offsetY - rows;
      assert CombineOrder(columns, rows, texture.height, offsetX, offsetY, flipY) == Pastes(columns, 1, rows + 1, false, offsetX, ty);
      PasteColumns(texture, combineTexture, 1, rows + 1, false, offsetX, ty);
    } else {
      assert CombineOrder(columns, rows, texture.height, offsetX, offsetY, flipY) == Pastes(columns, 0, rows, true, offsetX, offsetY);
      PasteColumns(texture, combineTexture, 0, rows, true, offsetX, offsetY);
    }
  }

  /** The column loop of Combine2D: column x of combineTexture, for x from 0
      up, pasted with PasteColumn. */
  method PasteColumns(texture: Texture2D, combineTexture: Texture2D, lo: int, hi: int, up: bool, tx: int, ty: int)
    requires texture.HasPixels() && combineTexture.HasPixels()
    requires combineTexture.mips[0] != texture.mips[0]
    modifies texture.mips[0]
    ensures texture.Level0() == Pasted(old(texture.Level0()), combineTexture.Level0(), Pastes(combineTexture.width, lo, hi, up, tx, ty))
  {
    ghost var start := texture.Level0();
    ghost var source := combineTexture.Level0();
    ghost var done: seq<Paste> := [];
    for x := 0 to combineTexture.width
      invariant done == Pastes(x, lo, hi, up, tx, ty)
      invariant combineTexture.Level0() == source
      invariant texture.Level0() == Pasted(start, source, done)
    {
      ghost var column := ColumnPastes(x, lo, hi, up, tx, ty);
      PastedAppend(start, source, done, column);
      PasteColumn(texture, combineTexture, x, lo, hi, up, tx, ty);
      done := done + column;
    }
  }


  /** Corrected Combine2D: identical except that the flipped paste copies
      rows combineTexture.height - 1 down to 0. */
  method Combine2DFromTop(texture: Texture2D, combineTexture: Texture2D, offsetX: int, offsetY: int, flipY: bool)
    requires texture.HasPixels() && combineTexture.HasPixels()
    requires combineTexture.mips[0] != texture.mips[0]
    modifies texture.mips[0]
    ensures texture.Level0() == Pasted(old(texture.Level0()), combineTexture.Level0(),
                                       CombineOrderFromTop(combineTexture.width, combineTexture.height, texture.height, offsetX, offsetY, flipY))
  {
    var columns, rows := combineTexture.width, combineTexture.height;
    if flipY {
      var ty := texture.height - offsetY - rows;
      assert CombineOrderFromTop(columns, rows, texture.height, offsetX, offsetY, flipY) == Pastes(columns, 0, rows, false, offsetX, ty);
      PasteColumns(texture, combineTexture, 0, rows, false, offsetX, ty);
    } else {
      assert CombineOrderFromTop(columns, rows, texture.height, offsetX, offsetY, flipY) == Pastes(columns, 0, rows, true, offsetX, offsetY);
      PasteColumns(texture, combineTexture, 0, rows, true, offsetX, offsetY);
    }
  }


  /** The pastes of one column are exactly the rows lo .. hi - 1 of that
      column, each moved by (tx, ty). */
  lemma {:induction false} ColumnPastesMembers(x: int, lo: int, hi: int, up: bool, tx: int, ty: int, p: Paste)
    ensures p in ColumnPastes(x, lo, hi, up, tx, ty) <==>
            p.sx == x && lo <= p.sy < hi && p.dx == p.sx + tx && p.dy == p.sy + ty
    decreases hi - lo
  {
    if lo < hi {
      if up {
        ColumnPastesMembers(x, lo, hi - 1, up, tx, ty, p);
      } else {
        ColumnPastesMembers(x, lo + 1, hi, up, tx, ty, p);
      }
    }
  }

  /** The pastes of the first `columns` columns are exactly their rows
      lo .. hi - 1, each moved by (tx, ty). */
  lemma {:induction false} PastesMembers(columns: nat, lo: int, hi: int, up: bool, tx: int, ty: int, p: Paste)
    ensures p in Pastes(columns, lo, hi, up, tx, ty) <==>
            0 <= p.sx < columns && lo <= p.sy < hi && p.dx == p.sx + tx && p.dy == p.sy + ty
  {
    if columns > 0 {
      PastesMembers(columns - 1, lo, hi, up, tx, ty, p);
      ColumnPastesMembers(columns - 1, lo, hi, up, tx, ty, p);
    }
  }

  /** When every paste moves a pixel by the same (tx, ty) and lands inside
      the destination, each destination pixel ends up as the source pixel
      it was pasted from, or unchanged when nothing was pasted there;
      neither the order nor repeated pastes matter. */
  lemma {:induction false} PastedTranslation(dest: Level, source: Level, ps: seq<Paste>, tx: int, ty: int, x: int, y: int)
    requires dest.Valid() && source.Valid()
    requires forall p | p in ps :: p.dx == p.sx + tx && p.dy == p.sy + ty && 0 <= p.dx < dest.width && 0 <= p.dy < dest.height
    requires 0 <= x < dest.width && 0 <= y < dest.height
    ensures Pasted(dest, source, ps).At(x, y) ==
            if Paste(x, y, x - tx, y - ty) in ps then source.At(x - tx, y - ty) else dest.At(x, y)
    decreases |ps|
  {
    if ps != [] {
      var init, p := ps[..|ps| - 1], ps[|ps| - 1];
      assert ps == init + [p];
      assert forall q | q in init :: q in ps;
      var q := Paste(x, y, x - tx, y - ty);
      assert q in ps <==> q in init || q == p;
      PastedTranslation(dest, source, init, tx, ty, x, y);
      PastedLast(dest, source, ps, x, y);
      if x == p.dx && y == p.dy {
        assert p in ps;
        assert p == q;
      } else {
        assert p != q;
      }
    }
  }

  /** The last paste decides the pixel it writes; every other in-range
      pixel reads as before it. */
  lemma PastedLast(dest: Level, source: Level, ps: seq<Paste>, x: int, y: int)
    requires dest.Valid() && source.Valid() && ps != []
    requires 0 <= ps[|ps| - 1].dx < dest.width && 0 <= ps[|ps| - 1].dy < dest.height
    requires 0 <= x < dest.width && 0 <= y < dest.height
    ensures var p := ps[|ps| - 1];
            Pasted(dest, source, ps).At(x, y) ==
            if x == p.dx && y == p.dy then source.At(p.sx, p.sy) else Pasted(dest, source, ps[..|ps| - 1]).At(x, y)
  {
    var p := ps[|ps| - 1];
    PutAt(Pasted(dest, source, ps[..|ps| - 1]), p.dx, p.dy, source.At(p.sx, p.sy), x, y);
  }

  /** Pasting whole columns of rows lo .. hi - 1 that land inside the
      destination: the rectangle they cover shows the source moved by
      (tx, ty), and every other pixel is unchanged. */
  lemma PastesPlacement(dest: Level, source: Level, lo: int, hi: int, up: bool, tx: int, ty: int, x: int, y: int)
    requires dest.Valid() && source.Valid()
    requires 0 <= tx && tx + source.width <= dest.width && 0 <= lo + ty && hi + ty <= dest.height
    requires 0 <= x < dest.width && 0 <= y < dest.height
    ensures Pasted(dest, source, Pastes(source.width, lo, hi, up, tx, ty)).At(x, y) ==
            if tx <= x < tx + source.width && lo + ty <= y < hi + ty then source.At(x - tx, y - ty) else dest.At(x, y)
  {
    var ps := Pastes(source.width, lo, hi, up, tx, ty);
    forall p | p in ps
      ensures p.dx == p.sx + tx && p.dy == p.sy + ty && 0 <= p.dx < dest.width && 0 <= p.dy < dest.height
    {
      PastesMembers(source.width, lo, hi, up, tx, ty, p);
    }
    PastesMembers(source.width, lo, hi, up, tx, ty, Paste(x, y, x - tx, y - ty));
    PastedTranslation(dest, source, ps, tx, ty, x, y);
  }

  /** Combine2D without flipY, pasting inside the destination: pixel (x, y)
      of the pasted rectangle is source pixel (x - offsetX, y - offsetY),
      and nothing outside the rectangle changes. */
  lemma CombinePlacement(dest: Level, source: Level, offsetX: int, offsetY: int, x: int, y: int)
    requires dest.Valid() && source.Valid()
    requires 0 <= offsetX && offsetX + source.width <= dest.width
    requires 0 <= offsetY && offsetY + source.height <= dest.height
    requires 0 <= x < dest.width && 0 <= y < dest.height
    ensures Pasted(dest, source, CombineOrder(source.width, source.height, dest.height, offsetX, offsetY, false)).At(x, y) ==
            if offsetX <= x < offsetX + source.width && offsetY <= y < offsetY + source.height
            then source.At(x - offsetX, y - offsetY) else dest.At(x, y)
  {
    PastesPlacement(dest, source, 0, source.height, true, offsetX, offsetY, x, y);
  }

  /** The flipped paste as written reads source rows combineHeight down to
      1, never row 0, each landing height - offsetY - combineHeight rows
      higher; so no paste targets destination row height - offsetY -
      combineHeight, where the pasted image's bottom row belongs, before the
      wrap mode resolves the coordinates. One paste
      reads row combineHeight (one past the last row) and writes row
      height - offsetY, which for offsetY = 0 is one past the destination's
      last row. */
  lemma CombineFlipAsWritten(columns: nat, combineHeight: nat, height: nat, offsetX: int, offsetY: int, p: Paste)
    ensures var ty := height - offsetY - combineHeight;
            p in CombineOrder(columns, combineHeight, height, offsetX, offsetY, true) <==>
            0 <= p.sx < columns && 1 <= p.sy <= combineHeight && p.dx == p.sx + offsetX && p.dy == p.sy + ty
    ensures p in CombineOrder(columns, combineHeight, height, offsetX, offsetY, true) ==> p.dy != height - offsetY - combineHeight
    ensures columns > 0 && combineHeight > 0 ==>
            Paste(offsetX, height - offsetY, 0, combineHeight) in CombineOrder(columns, combineHeight, height, offsetX, offsetY, true)
  {
    var ty := height - offsetY - combineHeight;
    var ps := Pastes(columns, 1, combineHeight + 1, false, offsetX, ty);
    assert CombineOrder(columns, combineHeight, height, offsetX, offsetY, true) == ps;
    PastesMembers(columns, 1, combineHeight + 1, false, offsetX, ty, p);
    PastesMembers(columns, 1, combineHeight + 1, false, offsetX, ty, Paste(offsetX, height - offsetY, 0, combineHeight));
  }

  /** The smallest input that shows the flipped paste losing a row: a 1 x 1
      source flipped into a 1 x 2 destination, both wrapping by repetition.
      As written, the single paste reads row 1 (wrapped to row 0) and writes
      row 2 (wrapped to row 0), so row 1, where the pixel belongs, keeps its
      old value; the corrected order writes it there. */
  lemma CombineFlipLosesRow(d0: Color, d1: Color, s: Color)
    ensures var dest := Level([d0, d1], 1, 2, Repeat);
            var source := Level([s], 1, 1, Repeat);
            Pasted(dest, source, CombineOrder(1, 1, 2, 0, 0, true)).At(0, 1) == d1 &&
            Pasted(dest, source, CombineOrderFromTop(1, 1, 2, 0, 0, true)).At(0, 1) == s
  {
    var dest := Level([d0, d1], 1, 2, Repeat);
    var source := Level([s], 1, 1, Repeat);
    assert Pasted(dest, source, CombineOrder(1, 1, 2, 0, 0, true)).At(0, 1) == d1 by {
      var written := Paste(0, 2, 0, 1);
      assert ColumnPastes(0, 2, 2, false, 0, 1) == [];
      assert CombineOrder(1, 1, 2, 0, 0, true) == [written];
      assert [] + [written] == [written];
      PastedSnoc(dest, source, [], written);
      assert source.IndexOf(0, 1) == 0;
      assert dest.IndexOf(0, 2) == 0 && dest.IndexOf(0, 1) == 1;
      var asWritten := dest.Put(0, 2, source.At(0, 1));
      assert asWritten.pixels[1] == d1;
      assert asWritten.At(0, 1) == d1;
    }
    assert Pasted(dest, source, CombineOrderFromTop(1, 1, 2, 0, 0, true)).At(0, 1) == s by {
      var intended := Paste(0, 1, 0, 0);
      assert ColumnPastes(0, 1, 1, false, 0, 1) == [];
      assert CombineOrderFromTop(1, 1, 2, 0, 0, true) == [intended];
      assert [] + [intended] == [intended];
      PastedSnoc(dest, source, [], intended);
      assert source.IndexOf(0, 0) == 0;
      var corrected := dest.Put(0, 1, source.At(0, 0));
      assert corrected.At(0, 1) == s;
    }
  }

  /** The corrected flipped paste, placed inside the destination: source
      pixel (x, y) lands at (x + offsetX, y + height - offsetY -
      combineHeight), so the source's top row is offsetY rows below the
      destination's top row, and nothing else changes. */
  lemma CombineFromTopPlacement(dest: Level, source: Level, offsetX: int, offsetY: int, x: int, y: int)
    requires dest.Valid() && source.Valid()
    requires 0 <= offsetX && offsetX + source.width <= dest.width
    requires 0 <= offsetY && offsetY + source.height <= dest.height
    requires 0 <= x < dest.width && 0 <= y < dest.height
    ensures var top := dest.height - offsetY - source.height;
            Pasted(dest, source, CombineOrderFromTop(source.width, source.height, dest.height, offsetX, offsetY, true)).At(x, y) ==
            if offsetX <= x < offsetX + source.width && top <= y < top + source.height
            then source.At(x - offsetX, y - top) else dest.At(x, y)
  {
    var top := dest.height - offsetY - source.height;
    assert CombineOrderFromTop(source.width, source.height, dest.height, offsetX, offsetY, true)
        == Pastes(source.width, 0, source.height, false, offsetX, top);
    PastesPlacement(dest, source, 0, source.height, false, offsetX, top, x, y);
  }

  // ---------------------------------------------------------------------
  // Normal maps: neighbour indices and the Unity channel layout
  // ---------------------------------------------------------------------

  /** The neighbours Normal2D samples around (x, y): one column left and
      right, one row down and up, each wrapping to the opposite edge. */
  method NeighbourIndices(x: int, y: int, width: int, height: int) returns (xPrev: int, xNext: int, yPrev: int, yNext: int)
    requires 0 <= x < width && 0 <= y < height
    ensures 0 <= xPrev < width && 0 <= xNext < width && 0 <= yPrev < height && 0 <= yNext < height
    ensures xPrev == Resolve(Repeat, x - 1, width) && xNext == Resolve(Repeat, x + 1, width)
    ensures yPrev == Resolve(Repeat, y - 1, height) && yNext == Resolve(Repeat, y + 1, height)
    ensures PixelIndex(width, xPrev, y) < width * height && PixelIndex(width, xNext, y) < width * height
    ensures PixelIndex(width, x, yPrev) < width * height && PixelIndex(width, x, yNext) < width * height
  {
    xPrev := x - 1;
    if xPrev < 0 {
      xPrev := width - 1;
    }
    xNext := x + 1;
    if xNext >= width {
      xNext := 0;
    }
    yPrev := y - 1;
    if yPrev < 0 {
      yPrev := height - 1;
    }
    yNext := y + 1;
    if yNext >= height {
      yNext := 0;
    }
    IndexInLevel(width, height, xPrev, y);
    IndexInLevel(width, height, xNext, y);
    IndexInLevel(width, height, x, yPrev);
    IndexInLevel(width, height, x, yNext);
  }

  /** Level 0 is rewritten in Unity's normal-map layout: red and green
      swapped, blue kept, alpha 1. */
  method ToUnityNormal(texture: Texture2D)
    requires texture.Valid()
    modifies texture.mips[0]
    ensures forall i | 0 <= i < texture.mips[0].Length :: texture.mips[0][i] == UnityNormal(old(texture.mips[0][i]))
  {
    var pixels := texture.GetPixels(0);
    var newPixels := new Color[pixels.Length];
    UnityNormalPixels(pixels, newPixels, texture.width, texture.height);
    texture.SetPixels(newPixels, 0);
  }

  /** The row-by-row loop of ToUnityNormal, from `pixels` into `newPixels`. */
  method UnityNormalPixels(pixels: array<Color>, newPixels: array<Color>, width: nat, height: nat)
    requires pixels.Length == width * height && newPixels.Length == pixels.Length && pixels != newPixels
    modifies newPixels
    ensures forall j | 0 <= j < newPixels.Length :: newPixels[j] == UnityNormal(pixels[j])
  {
    ghost var rowStart := 0;
    for y := 0 to height
      invariant rowStart == y * width
      invariant forall j | 0 <= j < rowStart :: newPixels[j] == UnityNormal(pixels[j])
    {
      MulMonotone(y + 1, height, width);
      for x := 0 to width
        invariant forall j | 0 <= j < rowStart + x :: newPixels[j] == UnityNormal(pixels[j])
      {
        var i := PixelIndex(width, x, y);
        assert i == rowStart + x;
        var p := pixels[i];
        var np := Color(0.0, 0.0, 0.0, 1.0);
        np := np.(r := p.g);
        np := np.(g := p.r);
        np := np.(b := p.b);
        newPixels[i] := np;
      }
      rowStart := rowStart + width;
    }
  }

  // ---------------------------------------------------------------------
  // Generators
  // ---------------------------------------------------------------------

  /** A new width x height texture whose every pixel is `color`. */
  method SolidColor2D(color: Color, width: nat, height: nat) returns (t: Texture2D)
    ensures fresh(t) && t.Valid() && |t.mips| == 1 && fresh(t.mips[0])
    ensures t.width == width && t.height == height && t.mips[0].Length == width * height
    ensures forall i | 0 <= i < t.mips[0].Length :: t.mips[0][i] == color
  {
    t := new Texture2D(width, height);
    var p := new Color[t.width * t.height];
    for i := 0 to p.Length
      modifies p
      invariant forall j | 0 <= j < i :: p[j] == color
    {
      p[i] := color;
    }
    t.SetPixels(p, 0);
  }
}
