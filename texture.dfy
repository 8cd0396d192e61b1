/** The engine's texture object as the transforms see it: a width, a height,
    a wrap mode, a transparency flag and one pixel array per mip level.
    Level 0 is row-major, pixel (x, y) at index y * width + x. Pixel data is
    read as a copy (GetPixels) and written back whole (SetPixels), or read
    and written one coordinate at a time (GetPixel, SetPixel), where a
    coordinate outside the texture is resolved by the wrap mode. */
module Texture {
  import opened Colors

  /** How an out-of-range coordinate is resolved. */
  datatype WrapMode = Repeat | Clamp

  /** The coordinate actually used for `coord` on an axis of `size` pixels. */
  function Resolve(mode: WrapMode, coord: int, size: nat): (r: nat)
    requires size > 0
    ensures r < size
    ensures 0 <= coord < size ==> r == coord
    ensures mode == Repeat && -(size as int) <= coord < 0 ==> r == coord + size
    ensures mode == Repeat && size <= coord < 2 * size ==> r == coord - size
    ensures mode == Clamp && coord < 0 ==> r == 0
    ensures mode == Clamp && coord >= size ==> r == size - 1
  {
    match mode
    case Repeat => RepeatWraps(coord, size); coord % size
    case Clamp => if coord < 0 then 0 else if coord >= size then size - 1 else coord
  }

  /** Wrapping by repetition is the Euclidean remainder, which leaves an
      in-range coordinate alone and moves one a single size outside back by
      that size. */
  lemma RepeatWraps(coord: int, size: nat)
    requires size > 0
    ensures 0 <= coord % size < size
    ensures 0 <= coord < size ==> coord % size == coord
    ensures -(size as int) <= coord < 0 ==> coord % size == coord + size
    ensures size <= coord < 2 * size ==> coord % size == coord - size
  {
    if 0 <= coord < size {
      DivModUnique(coord, size, 0, coord);
    } else if -(size as int) <= coord < 0 {
      DivModUnique(coord, size, -1, coord + size);
    } else if size <= coord < 2 * size {
      DivModUnique(coord, size, 1, coord - size);
    }
  }

  /** Row-major index of pixel (x, y) in a level `width` pixels wide. */
  function PixelIndex(width: nat, x: nat, y: nat): nat
  {
    y * width + x
  }

  /** The column and the row of a pixel are recovered from its index. */
  lemma IndexDivMod(width: nat, x: nat, y: nat)
    requires x < width
    ensures PixelIndex(width, x, y) % width == x && PixelIndex(width, x, y) / width == y
  {
    DivModUnique(y * width + x, width, y, x);
  }

  /** Quotient and remainder are determined by any decomposition
      i == q * w + r with 0 <= r < w. */
  lemma DivModUnique(i: int, w: nat, q: int, r: int)
    requires w > 0 && 0 <= r < w && i == q * w + r
    ensures i / w == q && i % w == r
  {
    var q', r' := i / w, i % w;
    assert q * w + r == q' * w + r';
    assert (q - q') * w == r' - r;
    if q > q' {
      MulAtLeast(q - q', w);
    } else if q < q' {
      MulAtLeast(q' - q, w);
    }
  }

  lemma MulAtLeast(d: int, w: nat)
    requires d >= 1
    ensures d * w >= w
  {}

  /** A pixel of a width x height level lies inside the level. */
  lemma IndexInLevel(width: nat, height: nat, x: nat, y: nat)
    requires x < width && y < height
    ensures PixelIndex(width, x, y) < width * height
  {
    MulMonotone(y + 1, height, width);
    assert y * width + x < (y + 1) * width;
  }

  lemma MulMonotone(a: nat, b: nat, w: nat)
    requires a <= b
    ensures a * w <= b * w
  {
    assert b * w - a * w == (b - a) * w;
  }

  /** One level's pixels with the dimensions and wrap mode that address
      them. */
  datatype Level = Level(pixels: seq<Color>, width: nat, height: nat, mode: WrapMode)
  {
    predicate Valid()
    {
      width > 0 && height > 0 && |pixels| == width * height
    }

    /** The index that coordinate (x, y) addresses after wrapping. */
    function IndexOf(x: int, y: int): (i: nat)
      requires Valid()
      ensures i < |pixels|
      ensures 0 <= x < width && 0 <= y < height ==> i == PixelIndex(width, x, y)
    {
      var rx := Resolve(mode, x, width);
      var ry := Resolve(mode, y, height);
      IndexInLevel(width, height, rx, ry);
      PixelIndex(width, rx, ry)
    }

    /** The pixel read at (x, y). */
    function At(x: int, y: int): Color
      requires Valid()
    {
      pixels[IndexOf(x, y)]
    }

    /** The level after writing p at (x, y): exactly one pixel changes. */
    function Put(x: int, y: int, p: Color): (l: Level)
      requires Valid()
      ensures l.Valid() && l.width == width && l.height == height && l.mode == mode
      ensures l.At(x, y) == p
      ensures forall i | 0 <= i < |pixels| && i != IndexOf(x, y) :: l.pixels[i] == pixels[i]
    {
      this.(pixels := pixels[IndexOf(x, y) := p])
    }
  }

  /** Writing one in-range pixel changes what is read there and nowhere
      else in range. */
  lemma PutAt(l: Level, dx: int, dy: int, v: Color, x: int, y: int)
    requires l.Valid() && 0 <= dx < l.width && 0 <= dy < l.height && 0 <= x < l.width && 0 <= y < l.height
    ensures l.Put(dx, dy, v).At(x, y) == if x == dx && y == dy then v else l.At(x, y)
  {
    if x != dx || y != dy {
      IndexDivMod(l.width, x, y);
      IndexDivMod(l.width, dx, dy);
    }
  }

  class Texture2D {
    var width: nat
    var height: nat
    var wrapMode: WrapMode
    var alphaIsTransparency: bool
    /** The pixel arrays of the mip levels; `|mips|` is the mip count. */
    var mips: seq<array<Color>>

    ghost predicate Valid()
      reads this
    {
      |mips| >= 1 && mips[0].Length == width * height &&
      forall m, n | 0 <= m < n < |mips| :: mips[m] != mips[n]
    }

    /** Level 0 is present and addresses at least one pixel, which is what
        the single-pixel accessors need. */
    ghost predicate HasPixels()
      reads this
    {
      |mips| >= 1 && width > 0 && height > 0 && mips[0].Length == width * height
    }

    /** The arrays a per-level transform may write. */
    ghost function Levels(): set<array<Color>>
      reads this
    {
      set m | 0 <= m < |mips| :: mips[m]
    }

    /** A new texture with a single level of width * height pixels, wrapping
        by repetition. */
    constructor (width: nat, height: nat)
      ensures Valid() && |mips| == 1 && fresh(mips[0])
      ensures this.width == width && this.height == height
      ensures wrapMode == Repeat && !alphaIsTransparency
    {
      this.width := width;
      this.height := height;
      wrapMode := Repeat;
      alphaIsTransparency := false;
      var level := new Color[width * height];
      mips := [level];
    }

    /** A copy of the pixels of level m. */
    method GetPixels(m: nat) returns (c: array<Color>)
      requires Valid() && m < |mips|
      ensures fresh(c) && c[..] == mips[m][..]
    {
      var level := mips[m];
      c := new Color[level.Length];
      forall i | 0 <= i < c.Length {
        c[i] := level[i];
      }
    }

    /** Level m takes the leading pixels of `c`; the engine refuses a
        shorter array. */
    method SetPixels(c: array<Color>, m: nat)
      requires Valid() && m < |mips| && mips[m].Length <= c.Length
      modifies mips[m]
      ensures mips[m][..] == old(c[..mips[m].Length])
    {
      var level := mips[m];
      forall i | 0 <= i < level.Length {
        level[i] := c[i];
      }
    }

    /** Level 0 as a value. */
    function Level0(): Level
      requires |mips| >= 1
      reads this, mips[0]
    {
      Level(mips[0][..], width, height, wrapMode)
    }

    /** The level-0 pixel at (x, y), the coordinates resolved by the wrap
        mode. */
    function GetPixel(x: int, y: int): (c: Color)
      requires HasPixels()
      reads this, mips[0]
      ensures 0 <= x < width && 0 <= y < height ==> PixelIndex(width, x, y) < mips[0].Length && c == mips[0][PixelIndex(width, x, y)]
      ensures wrapMode == Repeat && x == width && 0 <= y < height ==> PixelIndex(width, 0, y) < mips[0].Length && c == mips[0][PixelIndex(width, 0, y)]
      ensures wrapMode == Clamp && x == width && 0 <= y < height ==> PixelIndex(width, width - 1, y) < mips[0].Length && c == mips[0][PixelIndex(width, width - 1, y)]
      ensures wrapMode == Repeat && 0 <= x < width && y == height ==> PixelIndex(width, x, 0) < mips[0].Length && c == mips[0][PixelIndex(width, x, 0)]
      ensures wrapMode == Clamp && 0 <= x < width && y == height ==> PixelIndex(width, x, height - 1) < mips[0].Length && c == mips[0][PixelIndex(width, x, height - 1)]
    {
      var rx := Resolve(wrapMode, x, width);
      var ry := Resolve(wrapMode, y, height);
      IndexInLevel(width, height, rx, ry);
      Level0().At(x, y)
    }

    /** Writes the level-0 pixel at (x, y), the coordinates resolved by the
        wrap mode. */
    method SetPixel(x: int, y: int, p: Color)
      requires HasPixels()
      modifies mips[0]
      ensures Level0() == old(Level0()).Put(x, y, p)
    {
      var i := Level0().IndexOf(x, y);
      mips[0][i] := p;
    }
  }
}
