# MA_Utils texture transforms and enum flags, in Dafny

This project models two pieces of the MA_Utils toolbox for Unity.

**The texture transforms of `TextureUtils`.**
- A `Texture2D` is a class with a width, a height, a wrap mode, a transparency flag and one pixel array per mip level. A pixel is a four-channel `Color` of reals.
- The colour adjustments (Grayscale2D, Invert2D, Alpha2D, Brightness2D, ColorReplace2D, Contrast2D, MinMax2D) copy each mip level, rewrite it pixel by pixel and write it back. Each is a method proved to leave pixel i of level m equal to a per-pixel function of its old value; the functions are in module `Colors`.
- The blend modes (BlendMultiply2D, BlendScreen2D, BlendOverlay2D, BlendOpacety2D) and Mask2D work on level 0 only. They read a second texture at the same index. When that texture has fewer pixels, the source's loop throws before anything is written; the model returns `ok == false` and leaves the texture unchanged.
- Combine2D pastes one texture into another with single-pixel reads and writes. The methods are proved equal to a fold (`Pasted`) of an explicit list of pastes. Lemmas then say where each source pixel lands.
- From Normal2D: its edge-wrapping neighbour indices. Also modelled: ToUnityNormal's red/green swap and SolidColor2D.

**The flag operations of `EnumUtils`.** `Has`, `Is`, `Add` and `Remove` work on the enum's 32-bit `int` value, modelled as a `bv32`. An operand whose unboxing to `int` fails is `NotInt`. For such operands `Has` and `Is` answer false, while `Add` and `Remove` produce `ArgumentException`. Lemmas state each operation flag by flag and prove the algebra between them.

Files:
- `colors.dfy` (module `Colors`): the per-pixel rules.
- `texture.dfy` (module `Texture`): the engine texture, its wrap modes and its pixel accessors.
- `texture_utils.dfy` (module `TextureUtils`): the transforms.
- `enum_flags.dfy` (module `EnumFlags`): the flag operations.

## Model

Paths are relative to the repository root. `TextureUtils.cs` is `Assets/MA_Toolbox/Utils/TextureUtils/TextureUtils.cs`. `EnumUtils.cs` is `Assets/MA_Toolbox/Utils/EnumUtils/EnumUtils.cs`.

| member | source | states |
|---|---|---|
| Colors.Rgb | Assets/MA_Toolbox/Utils/TextureUtils/TextureUtils.cs:298 | the three-argument colour constructor sets alpha to 1 and keeps r, g, b |
| Colors.Grayscale | Assets/MA_Toolbox/Utils/TextureUtils/TextureUtils.cs:297-302 | r, g and b all become the pixel's luma and alpha becomes 1; the clamps change nothing |
| Colors.Invert | Assets/MA_Toolbox/Utils/TextureUtils/TextureUtils.cs:330-349 | without invertAlpha only r, g, b become 1 - v, whatever invertAlphaOnly is; with both flags only alpha is inverted; with invertAlpha alone all four are |
| Colors.AlphaToRgb | Assets/MA_Toolbox/Utils/TextureUtils/TextureUtils.cs:377-379 | r, g and b take the value of alpha, which is kept |
| Colors.Brightness | Assets/MA_Toolbox/Utils/TextureUtils/TextureUtils.cs:538-546 | a pixel with alpha 0 is unchanged; any other gets delta added to r, g, b, unclamped; alpha is kept; delta 0 is the identity |
| Colors.Contrast | Assets/MA_Toolbox/Utils/TextureUtils/TextureUtils.cs:708-737 | a strictly greatest colour channel alone is raised by delta; with none, each channel at most one half is raised and each above it lowered; alpha is kept; delta 0 is the identity |
| Colors.Bound | Assets/MA_Toolbox/Utils/TextureUtils/TextureUtils.cs:802-833 | one channel raised to min and then lowered to max: inside [min, max] when min <= max, unchanged when already inside, max when min > max |
| Colors.MinMax | Assets/MA_Toolbox/Utils/TextureUtils/TextureUtils.cs:802-833 | when min <= max every enabled channel lies in [min, max]; every disabled channel is unchanged |
| Colors.ReplaceChannel | Assets/MA_Toolbox/Utils/TextureUtils/TextureUtils.cs:575-590 | a channel becomes the new colour's value exactly when it is enabled and strictly inside (select + min, select + max), and is kept otherwise; with max <= min (the default 0, 0) nothing changes |
| Colors.Replace | Assets/MA_Toolbox/Utils/TextureUtils/TextureUtils.cs:575-590 | each channel is either kept or the new colour's; with max <= min the pixel is unchanged |
| Colors.Multiply | Assets/MA_Toolbox/Utils/TextureUtils/TextureUtils.cs:406-408 | the multiply blend never changes alpha |
| Colors.Screen | Assets/MA_Toolbox/Utils/TextureUtils/TextureUtils.cs:436-438 | the screen blend never changes alpha |
| Colors.Overlay | Assets/MA_Toolbox/Utils/TextureUtils/TextureUtils.cs:466-479 | the overlay blend never changes alpha |
| Colors.Opacity | Assets/MA_Toolbox/Utils/TextureUtils/TextureUtils.cs:507-509 | the opacity blend never changes alpha |
| Colors.Mask | Assets/MA_Toolbox/Utils/TextureUtils/TextureUtils.cs:765-772 | the result keeps the mask pixel's r, g, b and takes its alpha from the texture pixel: its luma with grayscaleAlpha, its alpha otherwise |
| Colors.UnityNormal | Assets/MA_Toolbox/Utils/TextureUtils/TextureUtils.cs:918-923 | blue is kept and alpha becomes 1 |
| Colors.InvertInvolution | Assets/MA_Toolbox/Utils/TextureUtils/TextureUtils.cs:330-349 | inverting twice with the same flags gives back the pixel |
| Colors.AlphaToRgbIdempotent | Assets/MA_Toolbox/Utils/TextureUtils/TextureUtils.cs:377-379 | the alpha texture of an alpha texture is itself |
| Colors.BrightnessInverse | Assets/MA_Toolbox/Utils/TextureUtils/TextureUtils.cs:538-546 | brightness by delta and then by -delta gives back the pixel |
| Colors.MinMaxIdempotent | Assets/MA_Toolbox/Utils/TextureUtils/TextureUtils.cs:802-833 | MinMax twice equals MinMax once, for any min, max and channels |
| Colors.ReplaceIdempotent | Assets/MA_Toolbox/Utils/TextureUtils/TextureUtils.cs:575-590 | replacing twice equals replacing once, for every pixel, window, new colour and channel set |
| Colors.BlendNeutralElements | Assets/MA_Toolbox/Utils/TextureUtils/TextureUtils.cs:406-479 | at blend value 1, multiplying by white, screening with black and overlaying mid-grey leave the pixel unchanged |
| Colors.MultiplyByZero | Assets/MA_Toolbox/Utils/TextureUtils/TextureUtils.cs:406-408 | blend value 0 makes the multiply blend black with alpha kept |
| Colors.OpacityEnds | Assets/MA_Toolbox/Utils/TextureUtils/TextureUtils.cs:507-509 | opacity 0 keeps the pixel; opacity 1 takes the blend pixel's r, g, b and keeps alpha |
| Colors.UnityNormalTwice | Assets/MA_Toolbox/Utils/TextureUtils/TextureUtils.cs:918-923 | converting twice restores r, g, b, with alpha 1 |
| Texture.Resolve | Assets/MA_Toolbox/Utils/TextureUtils/TextureUtils.cs:215-218 | the coordinate the engine uses for an out-of-range one: Repeat moves it back by one size, Clamp pins it to the nearest edge, an in-range one is kept |
| Texture.Level.IndexOf | Assets/MA_Toolbox/Utils/TextureUtils/TextureUtils.cs:879-882 | every coordinate addresses an index of the level; an in-range (x, y) addresses y * width + x |
| Texture.Level.Put | Assets/MA_Toolbox/Utils/TextureUtils/TextureUtils.cs:217 | writing a pixel makes it read back, and changes no other index |
| Texture.PutAt | Assets/MA_Toolbox/Utils/TextureUtils/TextureUtils.cs:224 | after writing one in-range pixel, every other in-range pixel reads as before |
| Texture.Texture2D.constructor | Assets/MA_Toolbox/Utils/TextureUtils/TextureUtils.cs:1078 | a new texture has the given size, a level 0 of width * height pixels and repeat wrapping; the model keeps only that level |
| Texture.Texture2D.GetPixels | Assets/MA_Toolbox/Utils/TextureUtils/TextureUtils.cs:294 | returns a fresh copy of a level's pixels |
| Texture.Texture2D.SetPixels | Assets/MA_Toolbox/Utils/TextureUtils/TextureUtils.cs:304 | the level takes the array's leading pixels |
| Texture.Texture2D.GetPixel | Assets/MA_Toolbox/Utils/TextureUtils/TextureUtils.cs:217 | an in-range (x, y) reads level-0 index y * width + x; one column or row past the edge reads the first column or row under Repeat and the last one under Clamp |
| Texture.Texture2D.SetPixel | Assets/MA_Toolbox/Utils/TextureUtils/TextureUtils.cs:217 | level 0 changes exactly as Level.Put at the wrapped coordinate |
| TextureUtils.Grayscale2D | Assets/MA_Toolbox/Utils/TextureUtils/TextureUtils.cs:290-308 | every pixel of every level becomes Grayscale of its old value |
| TextureUtils.GrayscalePixels | Assets/MA_Toolbox/Utils/TextureUtils/TextureUtils.cs:295-303 | the pixel loop rewrites every element of the copy by Grayscale |
| TextureUtils.Invert2D | Assets/MA_Toolbox/Utils/TextureUtils/TextureUtils.cs:323-355 | every pixel of every level becomes Invert of its old value under the two flags |
| TextureUtils.InvertPixels | Assets/MA_Toolbox/Utils/TextureUtils/TextureUtils.cs:328-350 | the pixel loop rewrites every element of the copy by Invert |
| TextureUtils.Alpha2D | Assets/MA_Toolbox/Utils/TextureUtils/TextureUtils.cs:370-385 | every pixel of every level becomes AlphaToRgb of its old value |
| TextureUtils.AlphaPixels | Assets/MA_Toolbox/Utils/TextureUtils/TextureUtils.cs:375-380 | the pixel loop rewrites every element of the copy by AlphaToRgb |
| TextureUtils.Brightness2D | Assets/MA_Toolbox/Utils/TextureUtils/TextureUtils.cs:531-553 | every pixel of every level becomes Brightness of its old value |
| TextureUtils.BrightnessPixels | Assets/MA_Toolbox/Utils/TextureUtils/TextureUtils.cs:536-547 | the pixel loop rewrites every element of the copy by Brightness |
| TextureUtils.ColorReplace2D | Assets/MA_Toolbox/Utils/TextureUtils/TextureUtils.cs:568-597 | every pixel of every level becomes Replace of its old value with the enabled channels |
| TextureUtils.ReplacePixels | Assets/MA_Toolbox/Utils/TextureUtils/TextureUtils.cs:573-591 | the pixel loop rewrites every element of the copy by Replace |
| TextureUtils.Contrast2D | Assets/MA_Toolbox/Utils/TextureUtils/TextureUtils.cs:701-744 | every pixel of every level becomes Contrast of its old value |
| TextureUtils.ContrastPixels | Assets/MA_Toolbox/Utils/TextureUtils/TextureUtils.cs:706-738 | the pixel loop rewrites every element of the copy by Contrast |
| TextureUtils.MinMax2D | Assets/MA_Toolbox/Utils/TextureUtils/TextureUtils.cs:795-841 | every pixel of every level becomes MinMax of its old value with the enabled channels |
| TextureUtils.MinMaxPixels | Assets/MA_Toolbox/Utils/TextureUtils/TextureUtils.cs:800-835 | the pixel loop, all minimums first and then all maximums, rewrites every element of the copy by MinMax |
| TextureUtils.BlendMultiply2D | Assets/MA_Toolbox/Utils/TextureUtils/TextureUtils.cs:400-414 | succeeds exactly when the blend texture has at least as many level-0 pixels; then each pixel is Multiply of itself and the blend pixel at the same index, otherwise nothing changes |
| TextureUtils.MultiplyPixels | Assets/MA_Toolbox/Utils/TextureUtils/TextureUtils.cs:404-409 | the loop completes exactly when the blend copy is long enough, and then holds Multiply at every index |
| TextureUtils.BlendScreen2D | Assets/MA_Toolbox/Utils/TextureUtils/TextureUtils.cs:430-444 | as BlendMultiply2D, with Screen |
| TextureUtils.ScreenPixels | Assets/MA_Toolbox/Utils/TextureUtils/TextureUtils.cs:434-439 | the loop completes exactly when the blend copy is long enough, and then holds Screen at every index |
| TextureUtils.BlendOverlay2D | Assets/MA_Toolbox/Utils/TextureUtils/TextureUtils.cs:460-485 | as BlendMultiply2D, with Overlay |
| TextureUtils.OverlayPixels | Assets/MA_Toolbox/Utils/TextureUtils/TextureUtils.cs:464-480 | the loop completes exactly when the blend copy is long enough, and then holds Overlay at every index |
| TextureUtils.OverlayStep | Assets/MA_Toolbox/Utils/TextureUtils/TextureUtils.cs:466-469 | one channel's branch below and at-or-above one half computes OverlayChannel |
| TextureUtils.BlendOpacety2D | Assets/MA_Toolbox/Utils/TextureUtils/TextureUtils.cs:501-515 | as BlendMultiply2D, with Opacity |
| TextureUtils.OpacityPixels | Assets/MA_Toolbox/Utils/TextureUtils/TextureUtils.cs:505-510 | the loop completes exactly when the blend copy is long enough, and then holds Opacity at every index |
| TextureUtils.Mask2D | Assets/MA_Toolbox/Utils/TextureUtils/TextureUtils.cs:759-779 | succeeds exactly when the mask has at least as many level-0 pixels; then level 0 becomes Mask of the mask pixel and the texture pixel at each index and the texture is marked transparent; otherwise nothing changes |
| TextureUtils.PastePixel | Assets/MA_Toolbox/Utils/TextureUtils/TextureUtils.cs:224 | one read-and-write step extends the pastes done by one |
| TextureUtils.PasteColumn | Assets/MA_Toolbox/Utils/TextureUtils/TextureUtils.cs:212-226 | one column's row loop performs that column's pastes, rising or falling |
| TextureUtils.PasteRowsUp | Assets/MA_Toolbox/Utils/TextureUtils/TextureUtils.cs:222-225 | the rising row loop performs the column's pastes in ascending row order |
| TextureUtils.PasteRowsDown | Assets/MA_Toolbox/Utils/TextureUtils/TextureUtils.cs:215-218 | the falling row loop performs the column's pastes in descending row order |
| TextureUtils.PasteColumns | Assets/MA_Toolbox/Utils/TextureUtils/TextureUtils.cs:210-228 | the column loop performs every column's pastes, column by column |
| TextureUtils.Combine2D | Assets/MA_Toolbox/Utils/TextureUtils/TextureUtils.cs:208-232 | the destination's level 0 ends as the fold of the pastes in the order the source performs them |
| TextureUtils.ColumnPastesMembers | Assets/MA_Toolbox/Utils/TextureUtils/TextureUtils.cs:215-225 | a column's pastes are exactly its rows lo .. hi - 1, each moved by the offset |
| TextureUtils.PastesMembers | Assets/MA_Toolbox/Utils/TextureUtils/TextureUtils.cs:210-228 | the pastes of all columns are exactly the rectangle's pixels, each moved by the offset |
| TextureUtils.PastedTranslation | Assets/MA_Toolbox/Utils/TextureUtils/TextureUtils.cs:210-228 | after in-range pastes that all move by one offset, a pixel shows its source pixel if some paste writes it, and its old value otherwise |
| TextureUtils.PastesPlacement | Assets/MA_Toolbox/Utils/TextureUtils/TextureUtils.cs:210-228 | pasting whole columns inside the destination shows the moved source in the covered rectangle, and leaves every other pixel unchanged |
| TextureUtils.CombinePlacement | Assets/MA_Toolbox/Utils/TextureUtils/TextureUtils.cs:222-225 | without flipY, destination (x + offsetX, y + offsetY) receives source (x, y), and no other destination pixel changes |
| TextureUtils.CombineFlipAsWritten | Assets/MA_Toolbox/Utils/TextureUtils/TextureUtils.cs:215-218 | with flipY the pastes are exactly source rows h down to 1 (never row 0), each landing on row y + (H - offsetY - h); no paste targets row H - offsetY - h before wrapping; one paste reads row h and writes row H - offsetY |
| TextureUtils.CombineFlipLosesRow | Assets/MA_Toolbox/Utils/TextureUtils/TextureUtils.cs:215-217 | a 1 x 1 source flipped into a 1 x 2 Repeat destination at offset (0, 0): as written, destination row 1 keeps its old value; the corrected order writes the source pixel there |
| TextureUtils.Combine2DFromTop | Assets/MA_Toolbox/Utils/TextureUtils/TextureUtils.cs:213-218 | the corrected paste: with flipY, rows h - 1 down to 0 |
| TextureUtils.CombineFromTopPlacement | Assets/MA_Toolbox/Utils/TextureUtils/TextureUtils.cs:213-218 | the corrected flipped paste puts source (x, y) at (x + offsetX, y + H - offsetY - h), so the image's top row is offsetY rows below the destination's top, and changes nothing else |
| TextureUtils.NeighbourIndices | Assets/MA_Toolbox/Utils/TextureUtils/TextureUtils.cs:871-878 | the four neighbours are in range; each is x +- 1 or y +- 1, except at an edge, where it wraps to the opposite side; their pixel indices are in range |
| TextureUtils.ToUnityNormal | Assets/MA_Toolbox/Utils/TextureUtils/TextureUtils.cs:909-931 | every pixel of level 0 becomes UnityNormal of its old value |
| TextureUtils.UnityNormalPixels | Assets/MA_Toolbox/Utils/TextureUtils/TextureUtils.cs:914-925 | the row-by-row loop fills every index of the new array with UnityNormal of the old pixel |
| TextureUtils.SolidColor2D | Assets/MA_Toolbox/Utils/TextureUtils/TextureUtils.cs:1076-1092 | a new texture of the given size whose every pixel is the colour |
| EnumFlags.Has | Assets/MA_Toolbox/Utils/EnumUtils/EnumUtils.cs:13-23 | true only when both operands unbox |
| EnumFlags.Is | Assets/MA_Toolbox/Utils/EnumUtils/EnumUtils.cs:25-35 | true only when both operands unbox |
| EnumFlags.Add | Assets/MA_Toolbox/Utils/EnumUtils/EnumUtils.cs:37-47 | raises exactly when an operand does not unbox |
| EnumFlags.Remove | Assets/MA_Toolbox/Utils/EnumUtils/EnumUtils.cs:49-59 | raises exactly when an operand does not unbox |
| EnumFlags.CoversMeansIncludes | Assets/MA_Toolbox/Utils/EnumUtils/EnumUtils.cs:17 | the word test t & v == v holds exactly when every flag of v is a flag of t |
| EnumFlags.HasMeansIncludes | Assets/MA_Toolbox/Utils/EnumUtils/EnumUtils.cs:13-23 | Has holds exactly when both operands unbox and every flag of value is a flag of type |
| EnumFlags.IsMeansSameFlags | Assets/MA_Toolbox/Utils/EnumUtils/EnumUtils.cs:25-35 | Is holds exactly when both operands unbox and they have the same 32 flags |
| EnumFlags.AddFlags | Assets/MA_Toolbox/Utils/EnumUtils/EnumUtils.cs:41 | Add's result has exactly the flags of type and those of value |
| EnumFlags.RemoveFlags | Assets/MA_Toolbox/Utils/EnumUtils/EnumUtils.cs:53 | Remove's result has exactly the flags of type that value lacks |
| EnumFlags.HasZero | Assets/MA_Toolbox/Utils/EnumUtils/EnumUtils.cs:17 | every int-backed value has the empty flag set |
| EnumFlags.AddHas | Assets/MA_Toolbox/Utils/EnumUtils/EnumUtils.cs:37-47 | Add's result has both operands |
| EnumFlags.AddIdempotent | Assets/MA_Toolbox/Utils/EnumUtils/EnumUtils.cs:41 | adding the same value twice is adding it once |
| EnumFlags.RemoveDrops | Assets/MA_Toolbox/Utils/EnumUtils/EnumUtils.cs:49-59 | type has Remove's result, and the result shares no bit with value |
| EnumFlags.RemoveNotHas | Assets/MA_Toolbox/Utils/EnumUtils/EnumUtils.cs:49-59 | after removing a non-zero value the result no longer has it |
| EnumFlags.RemoveAfterAdd | Assets/MA_Toolbox/Utils/EnumUtils/EnumUtils.cs:41-53 | removing after adding the same value is removing |
| EnumFlags.AddAfterRemove | Assets/MA_Toolbox/Utils/EnumUtils/EnumUtils.cs:41-53 | adding after removing the same value is adding |
| EnumFlags.IsEquivalence | Assets/MA_Toolbox/Utils/EnumUtils/EnumUtils.cs:25-35 | Is is reflexive on int-backed operands, symmetric and transitive |
| EnumFlags.IsImpliesHas | Assets/MA_Toolbox/Utils/EnumUtils/EnumUtils.cs:13-35 | operands that are equal have each other's flags |
| EnumFlags.CastFailure | Assets/MA_Toolbox/Utils/EnumUtils/EnumUtils.cs:15-58 | when an operand does not unbox, Has and Is answer false and Add and Remove raise ArgumentException |

## Left out

- GPU upload and file I/O: `ConvertToReadableTexture`, `Save2D`, `Save` and `CopyProperties` are not modelled.
- `Apply()` is not modelled. After every blend, Mask2D, Combine2D and ToUnityNormal it uploads the texture and, by default, rebuilds mip levels 1 and up from level 0. The model's postconditions for those operations describe level 0 only and leave the other levels as they were.
- Texture.Texture2D.constructor: the engine's two-argument constructor creates a full mip chain; the model creates level 0 only.
- Texture.Texture2D.GetPixel and Texture.Texture2D.SetPixel resolve both coordinates with one wrap mode. The engine has separate wrap modes for u and v, which the model does not have.
- The `Texture` adapter overloads (`Grayscale`, `Combine`, `BlendScreen`, …) only convert and delegate. The `BlendScreen` overload calls `BlendMultiply`, not `BlendScreen2D`, at TextureUtils.cs:451. That is a wrapper fact, not pixel logic.
- `Scale2D`, `BilinearScale`, `PointScale` and `Tile2D` are not modelled. Their source indices come from float rounding, which a model over reals would misstate.
- `Blur2D` and `BoxBlur2D` are not modelled. They average floats in place and read through the engine's out-of-range pixel lookup.
- From Normal2D, only the neighbour indices are modelled. The grayscale weights, the cross product and the square-root normalisation are engine floating-point maths. The `!up` path (Grayscale2D then Invert2D) is covered by those two methods.
- `ColorReplaceHSL2D` depends on the engine's HSV conversion and is not modelled.
- `PerlinNoise2D` wraps the engine's noise function and is not modelled.
- `ParseEnum` uses reflection. The enum-flag attribute and its Inspector drawer are GUI code. None of them is modelled.
- Floats are modelled as reals, and the model is exact over them. C# float results are rounded, and the round-trip lemmas below hold for floats only up to that rounding.
- Colors.InvertInvolution holds over reals only: in float32, 1 - (1 - 0.1f) is 0.10000002f.
- Colors.BrightnessInverse holds over reals only: in float32, (0.1f + 1) - 1 is 0.10000002f.
- Colors.BlendNeutralElements: its Screen clause computes 1 - (1 - c) and holds over reals only, as for InvertInvolution.
- The engine's luma (`Color.grayscale`) is a parameter `luma` of the methods that use it.
- The `Mathf.Clamp` calls in Grayscale2D, Brightness2D and Contrast2D discard their results. The model does not clamp.
- BlendScreen2D, Colors.Screen and TextureUtils.ScreenPixels require a non-zero blend value, because the source divides by it and a division by zero has no real value. In C# floats it gives an infinity or NaN.
- BlendOverlay2D, Colors.Overlay and TextureUtils.OverlayPixels require a non-zero blend value, for the same reason.
- Combine2D requires that the two textures hold distinct level-0 arrays, which aliasing a texture with itself would break. It also requires that both textures have at least one pixel.
- Combine2D: only the Repeat and Clamp wrap modes are modelled; the engine's mirror modes are not.
- Texture.Texture2D.SetPixels accepts an array longer than the level and takes its leading pixels.
- SolidColor2D ignores the receiver it is called on, as the source does. The texture it returns has only level 0 in the model, while the engine's has a mip chain; see Texture.Texture2D.constructor above.
- Widths and heights are `nat`; the engine rejects negative sizes.
- In Combine2D the `flipY` test is taken once, outside the column loop. The source repeats it for every column, with the same outcome each time.
- Integer overflow in the index arithmetic is not modelled; indices are unbounded integers.
- EnumFlags.Add / EnumFlags.Remove: the source casts the combined int back to T with `(T)(object)(...)` inside the try (EnumUtils.cs:41 and :53). When T does not accept a boxed int, for example T = System.Enum, that cast throws and the caller gets ArgumentException. The model assumes T is the enum type itself, so it raises only when an operand fails to unbox.

## Findings

| source | as written | input that shows it | evidently intended | confidence | as-written member | corrected member |
|---|---|---|---|---|---|---|
| Assets/MA_Toolbox/Utils/TextureUtils/TextureUtils.cs:215-217 | with flipY the row loop runs y from combineTexture.height down to 1 | flipY = true, offsetY = 0, a source h rows tall with 1 <= h < H, Repeat wrapping (the engine default). One paste reads source row h, which wraps to row 0, and writes destination row H, which wraps to row 0. No paste targets destination row H - h, where the source's bottom row belongs, so that row keeps its old value; for h = 1, H = 2 this is CombineFlipLosesRow. (With h = H and offsetY = 0 both wraps land on row 0 and the output is correct.) | rows h - 1 down to 0, so the source fills rows H - offsetY - h .. H - offsetY - 1 | not executed | TextureUtils.CombineFlipLosesRow | TextureUtils.CombineFromTopPlacement |
