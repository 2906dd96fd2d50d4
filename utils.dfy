/**
  The helpers of the pipeline: block-grid planning, region means, the
  brightness-to-character quantiser, and the pure part of glyph drawing
  (font selection, stroke colour and scale).
 */
module Utils {
  import opened Wrappers
  import opened Pixels

  /** A block size `[usize; 2]`: width, height. */
  type BlockSize = (nat, nat)

  /** How a run of the pipeline can fail: the font library's parse error, or a panic. */
  datatype Error =
    | FontError            // `FontRef::try_from_slice` rejected the font bytes
    | DivisionByZero       // a zero block dimension in `get_blocks_num`
    | CharIndexOutOfRange  // `chars().nth(index).unwrap()` on `None`

  // ---------------------------------------------------------------- block grid

  /** The offset of block number i along an axis whose blocks are `size` wide. */
  function Origin(i: nat, size: nat): nat
  {
    i * size
  }

  /** `get_blocks_num`: the whole blocks that fit across and down, by integer division. */
  function GetBlocksNum(img: Image, bs: BlockSize): (n: (nat, nat))
    requires bs.0 > 0 && bs.1 > 0
  {
    (img.width / bs.0, img.height / bs.1)
  }

  /**
    The whole blocks fit in the image, and what is left over at the right and
    bottom edges is narrower than one block; when the image size is a multiple
    of the block size, nothing is left over.
   */
  lemma BlocksNumBounds(img: Image, bs: BlockSize)
    requires bs.0 > 0 && bs.1 > 0
    ensures var n := GetBlocksNum(img, bs);
            n.0 * bs.0 <= img.width && img.width - n.0 * bs.0 < bs.0 &&
            n.1 * bs.1 <= img.height && img.height - n.1 * bs.1 < bs.1 &&
            (img.width % bs.0 == 0 ==> n.0 * bs.0 == img.width) &&
            (img.height % bs.1 == 0 ==> n.1 * bs.1 == img.height)
  {
  }

  // ---------------------------------------------------------------- sampler

  /** Which value of a pixel a sum adds up: one channel, or all three (the closure of `sub_image_mean`). */
  datatype Sample = Red | Green | Blue | AllChannels

  function Value(p: Rgb, s: Sample): nat
  {
    match s
    case Red => p.r
    case Green => p.g
    case Blue => p.b
    case AllChannels => p.r + p.g + p.b
  }

  /** The largest `Value` a pixel can have. */
  function MaxValue(s: Sample): nat
  {
    if s == AllChannels then 765 else 255
  }

  /**
    The value at (x, y) as seen through `crop_imm`: the crop is clamped to the
    image, so a position outside it contributes nothing to a sum.
   */
  function ValueAt(img: Image, x: nat, y: nat, s: Sample): nat
  {
    if x < img.width && y < img.height then Value(img.rows[y][x], s) else 0
  }

  /** Sum of `ValueAt` over the row segment [x, x+w) of row y. */
  function RowSum(img: Image, x: nat, y: nat, w: nat, s: Sample): nat
  {
    if w == 0 then 0 else RowSum(img, x, y, w - 1, s) + ValueAt(img, x + w - 1, y, s)
  }

  /** Sum of `ValueAt` over the rectangle [x, x+w) x [y, y+h). */
  function RegionSum(img: Image, x: nat, y: nat, w: nat, h: nat, s: Sample): nat
  {
    if h == 0 then 0 else RegionSum(img, x, y, w, h - 1, s) + RowSum(img, x, y + h - 1, w, s)
  }

  lemma {:induction false} RowSumBound(img: Image, x: nat, y: nat, w: nat, s: Sample)
    ensures RowSum(img, x, y, w, s) <= MaxValue(s) * w
  {
    if w > 0 {
      RowSumBound(img, x, y, w - 1, s);
    }
  }

  /** No region sum exceeds the largest value times the pixel count. */
  lemma {:induction false} RegionSumBound(img: Image, x: nat, y: nat, w: nat, h: nat, s: Sample)
    ensures RegionSum(img, x, y, w, h, s) <= MaxValue(s) * (w * h)
  {
    if h > 0 {
      RegionSumBound(img, x, y, w, h - 1, s);
      RowSumBound(img, x, y + h - 1, w, s);
      assert w * h == w * (h - 1) + w;
      Distribute(MaxValue(s), w * (h - 1), w);
    }
  }

  lemma Distribute(m: nat, a: nat, b: nat)
    ensures m * (a + b) == m * a + m * b
  {
  }

  lemma {:induction false} RowSumPooled(img: Image, x: nat, y: nat, w: nat)
    ensures RowSum(img, x, y, w, AllChannels)
         == RowSum(img, x, y, w, Red) + RowSum(img, x, y, w, Green) + RowSum(img, x, y, w, Blue)
  {
    if w > 0 {
      RowSumPooled(img, x, y, w - 1);
    }
  }

  /** Pooling the channels per pixel and then summing is summing each channel and then adding. */
  lemma {:induction false} RegionSumPooled(img: Image, x: nat, y: nat, w: nat, h: nat)
    ensures RegionSum(img, x, y, w, h, AllChannels)
         == RegionSum(img, x, y, w, h, Red) + RegionSum(img, x, y, w, h, Green) + RegionSum(img, x, y, w, h, Blue)
  {
    if h > 0 {
      RegionSumPooled(img, x, y, w, h - 1);
      RowSumPooled(img, x, y + h - 1, w);
    }
  }

  /** Every pixel of the rectangle [x, x+w) x [y, y+h) lies in the image and has colour p. */
  ghost predicate UniformRegion(img: Image, x: nat, y: nat, w: nat, h: nat, p: Rgb)
  {
    x + w <= img.width && y + h <= img.height &&
    forall px, py :: x <= px < x + w && y <= py < y + h ==> img.rows[py][px] == p
  }

  lemma {:induction false} RowSumUniform(img: Image, x: nat, y: nat, w: nat, h: nat, p: Rgb, s: Sample, dy: nat)
    requires UniformRegion(img, x, y, w, h, p) && dy < h
    ensures RowSum(img, x, y + dy, w, s) == Value(p, s) * w
  {
    if w > 0 {
      RowSumUniform(img, x, y, w - 1, h, p, s, dy);
      assert img.rows[y + dy][x + w - 1] == p;
      assert Value(p, s) * w == Value(p, s) * (w - 1) + Value(p, s);
    }
  }

  /** A region of one colour sums to that colour's value times its pixel count. */
  lemma {:induction false} RegionSumUniform(img: Image, x: nat, y: nat, w: nat, h: nat, p: Rgb, s: Sample)
    requires UniformRegion(img, x, y, w, h, p)
    ensures RegionSum(img, x, y, w, h, s) == Value(p, s) * w * h
  {
    if h > 0 {
      RegionSumUniform(img, x, y, w, h - 1, p, s);
      RowSumUniform(img, x, y, w, h, p, s, h - 1);
      assert Value(p, s) * w * h == Value(p, s) * w * (h - 1) + Value(p, s) * w;
    }
  }

  /** An integer sum bounded by `bound * d`, divided exactly by `d`, lies in [0, bound]. */
  lemma QuotientBound(sum: nat, d: nat, bound: nat)
    requires d > 0 && sum <= bound * d
    ensures 0.0 <= sum as real / d as real <= bound as real
  {
    var q := sum as real / d as real;
    assert q * d as real == sum as real;
    assert sum as real <= bound as real * d as real;
  }

  /**
    `sub_image_mean`: the sum of all three channels over the region divided by
    3*w*h. The quotient is exact here, where the source computes it in `f64`.
   */
  function SubImageMean(img: Image, x: nat, y: nat, w: nat, h: nat): (m: real)
    requires w > 0 && h > 0
    ensures 0.0 <= m <= 255.0
  {
    RegionMeanBound(img, x, y, w, h, AllChannels, 3 * w * h);
    RegionSum(img, x, y, w, h, AllChannels) as real / (3 * w * h) as real
  }

  /** A region's sum over its count of samples, d, lies in [0, 255]. */
  lemma RegionMeanBound(img: Image, x: nat, y: nat, w: nat, h: nat, s: Sample, d: nat)
    requires w > 0 && h > 0 && d == (if s == AllChannels then 3 else 1) * w * h
    ensures 0.0 <= RegionSum(img, x, y, w, h, s) as real / d as real <= 255.0
  {
    RegionSumBound(img, x, y, w, h, s);
    var wh := w * h;
    assert d == (if s == AllChannels then 3 else 1) * wh;
    assert MaxValue(s) * wh == 255 * d;
    QuotientBound(RegionSum(img, x, y, w, h, s), d, 255);
  }

  /** One channel's mean over the region: its sum divided by w*h. */
  function ChannelMean(img: Image, x: nat, y: nat, w: nat, h: nat, s: Sample): (m: real)
    requires w > 0 && h > 0 && s != AllChannels
    ensures 0.0 <= m <= 255.0
  {
    RegionMeanBound(img, x, y, w, h, s, w * h);
    RegionSum(img, x, y, w, h, s) as real / (w * h) as real
  }

  /** `sub_image_mean_rgb`: the per-channel means of the region. */
  function SubImageMeanRgb(img: Image, x: nat, y: nat, w: nat, h: nat): (m: (real, real, real))
    requires w > 0 && h > 0
    ensures 0.0 <= m.0 <= 255.0 && 0.0 <= m.1 <= 255.0 && 0.0 <= m.2 <= 255.0
  {
    (ChannelMean(img, x, y, w, h, Red), ChannelMean(img, x, y, w, h, Green), ChannelMean(img, x, y, w, h, Blue))
  }

  lemma AverageOfQuotients(a: nat, b: nat, c: nat, n: nat)
    requires n > 0
    ensures (a as real / n as real + b as real / n as real + c as real / n as real) / 3.0
         == (a + b + c) as real / (3 * n) as real
  {
  }

  /** The average of the three channel means is the pooled mean of the same region. */
  lemma MeanRgbAverage(img: Image, x: nat, y: nat, w: nat, h: nat)
    requires w > 0 && h > 0
    ensures var m := SubImageMeanRgb(img, x, y, w, h);
            (m.0 + m.1 + m.2) / 3.0 == SubImageMean(img, x, y, w, h)
  {
    RegionSumPooled(img, x, y, w, h);
    assert 3 * w * h == 3 * (w * h);
    AverageOfQuotients(RegionSum(img, x, y, w, h, Red), RegionSum(img, x, y, w, h, Green),
                       RegionSum(img, x, y, w, h, Blue), w * h);
  }

  lemma QuotientOfMultiple(v: nat, w: nat, h: nat)
    requires w > 0 && h > 0
    ensures (v * w * h) as real / (w * h) as real == v as real
  {
    assert v * w * h == v * (w * h);
  }

  /** The channel mean of a uniform region is that channel's value. */
  lemma ChannelMeanUniform(img: Image, x: nat, y: nat, w: nat, h: nat, p: Rgb, s: Sample)
    requires w > 0 && h > 0 && s != AllChannels && UniformRegion(img, x, y, w, h, p)
    ensures ChannelMean(img, x, y, w, h, s) == Value(p, s) as real
  {
    RegionSumUniform(img, x, y, w, h, p, s);
    QuotientOfMultiple(Value(p, s), w, h);
  }

  /** A block of one colour (r, g, b) has channel means exactly (r, g, b) and pooled mean (r+g+b)/3. */
  lemma MeanUniform(img: Image, x: nat, y: nat, w: nat, h: nat, p: Rgb)
    requires w > 0 && h > 0 && UniformRegion(img, x, y, w, h, p)
    ensures SubImageMeanRgb(img, x, y, w, h) == (p.r as real, p.g as real, p.b as real)
    ensures SubImageMean(img, x, y, w, h) == (p.r + p.g + p.b) as real / 3.0
  {
    ChannelMeanUniform(img, x, y, w, h, p, Red);
    ChannelMeanUniform(img, x, y, w, h, p, Green);
    ChannelMeanUniform(img, x, y, w, h, p, Blue);
    MeanRgbAverage(img, x, y, w, h);
  }

  // ---------------------------------------------------------------- quantiser

  /** `f64::round`: to the nearest integer, halves away from zero. */
  function Round(x: real): (n: int)
    ensures x - 0.5 <= n as real <= x + 0.5
  {
    if x >= 0.0 then (x + 0.5).Floor else -((-x + 0.5).Floor)
  }

  /**
    An `f64 as usize` cast, after rounding: negative values saturate to 0. The
    upper saturation at `usize::MAX` is not written out, because `get_index`
    clamps the result to `len - 1` anyway.
   */
  function AsUsize(n: int): nat
  {
    if n < 0 then 0 else n
  }

  /** `mean / 255.0 * len`: the brightness scaled onto [0, len]. */
  function Scaled(len: nat, mean: real): real
  {
    mean / 255.0 * len as real
  }

  /**
    `get_index`: the scaled brightness, rounded, then clamped to the last
    position. `len - 1` underflows for `len == 0`, so the source needs `len >= 1`.
   */
  function GetIndex(len: nat, mean: real): (k: nat)
    requires len >= 1
    ensures k <= len - 1
  {
    var n := AsUsize(Round(Scaled(len, mean)));
    if n <= len - 1 then n else len - 1
  }

  /** Black maps to the first position. */
  lemma GetIndexZero(len: nat)
    requires len >= 1
    ensures GetIndex(len, 0.0) == 0
  {
  }

  /** Full white maps to the last position: `round(len) == len` is caught by the clamp. */
  lemma GetIndexFull(len: nat)
    requires len >= 1
    ensures GetIndex(len, 255.0) == len - 1
  {
    assert Scaled(len, 255.0) == len as real;
  }

  lemma RoundMonotone(x: real, y: real)
    requires x <= y
    ensures Round(x) <= Round(y)
  {
  }

  /** A brighter mean never selects an earlier position. */
  lemma GetIndexMonotone(len: nat, m1: real, m2: real)
    requires len >= 1 && m1 <= m2
    ensures GetIndex(len, m1) <= GetIndex(len, m2)
  {
    assert Scaled(len, m2) - Scaled(len, m1) == (m2 - m1) / 255.0 * len as real;
    RoundMonotone(Scaled(len, m1), Scaled(len, m2));
  }

  /**
    The quantiser is a bucketing of [0, 255]: for a non-negative mean, position
    k is chosen exactly when the scaled mean lies in [k - 1/2, k + 1/2), the
    last bucket taking everything from len - 3/2 up.
   */
  lemma GetIndexBucket(len: nat, mean: real, k: nat)
    requires len >= 1 && mean >= 0.0 && k < len
    ensures GetIndex(len, mean) == k
        <==> k as real - 0.5 <= Scaled(len, mean) && (k == len - 1 || Scaled(len, mean) < k as real + 0.5)
  {
    var t := Scaled(len, mean);
    assert mean / 255.0 >= 0.0 && t >= 0.0;
    assert Round(t) == (t + 0.5).Floor;
  }

  /** The UTF-8 length of one character. */
  function Utf8Len(c: char): (n: nat)
    ensures 1 <= n <= 4 && (n == 1 <==> c as int < 0x80)
  {
    if c as int < 0x80 then 1
    else if c as int < 0x800 then 2
    else if c as int < 0x1_0000 then 3
    else 4
  }

  predicate IsAscii(s: string)
  {
    forall i :: 0 <= i < |s| ==> s[i] as int < 0x80
  }

  /**
    `str::len`: the length in bytes of the UTF-8 encoding. It is never below the
    number of characters, and equals it exactly for ASCII text.
   */
  function ByteLen(s: string): (n: nat)
    ensures n >= |s|
    ensures n == |s| <==> IsAscii(s)
  {
    if s == [] then 0
    else
      var rest := ByteLen(s[1..]);
      assert IsAscii(s) <==> s[0] as int < 0x80 && IsAscii(s[1..]) by {
        assert forall i :: 0 < i < |s| ==> s[i] == s[1..][i - 1];
      }
      Utf8Len(s[0]) + rest
  }

  /** `get_char_`: `chars().nth(index)`, where `None` is the panic of `unwrap`. */
  function GetCharAt(charSet: string, index: nat): (c: Option<char>)
    ensures c.Some? <==> index < |charSet|
    ensures c.Some? ==> c.value == charSet[index]
  {
    if index < |charSet| then Some(charSet[index]) else None
  }

  /**
    `get_char`: the position is computed from the BYTE length of the set but
    used as a CHARACTER position. An empty set panics (`len - 1` underflows,
    and `nth(0)` of nothing is `None`). Every character returned is in the set.
   */
  function GetChar(charSet: string, mean: real): (c: Option<char>)
    ensures c.Some? ==> c.value in charSet
    ensures charSet == [] ==> c.None?
  {
    if charSet == [] then None
    else GetCharAt(charSet, GetIndex(ByteLen(charSet), mean))
  }

  /** For a non-empty ASCII set the lookup never panics and returns the character at `get_index`. */
  lemma GetCharAscii(charSet: string, mean: real)
    requires |charSet| >= 1 && IsAscii(charSet)
    ensures GetChar(charSet, mean) == Some(charSet[GetIndex(|charSet|, mean)])
  {
  }

  /**
    For a set holding a multi-byte character, a white block makes `get_index`
    return the last BYTE position, which is past the last character: the
    `unwrap` panics.
   */
  lemma GetCharMultiByte(charSet: string)
    requires |charSet| >= 1 && !IsAscii(charSet)
    ensures GetChar(charSet, 255.0).None?
  {
    GetIndexFull(ByteLen(charSet));
  }

  /** For an ASCII set, black selects the first character and white the last. */
  lemma GetCharEnds(charSet: string)
    requires |charSet| >= 1 && IsAscii(charSet)
    ensures GetChar(charSet, 0.0) == Some(charSet[0])
    ensures GetChar(charSet, 255.0) == Some(charSet[|charSet| - 1])
  {
    GetCharAscii(charSet, 0.0);
    GetCharAscii(charSet, 255.0);
    GetIndexFull(|charSet|);
  }

  // ---------------------------------------------------------------- glyph drawing

  /** Font bytes, with the font library's verdict on whether they parse (the parser is not modelled). */
  datatype Font = Font(bytes: seq<Byte>, wellFormed: bool)

  /** `write_text` parses the font it is given, else the embedded default. */
  function SelectFont(font: Option<Font>, embedded: Font): (f: Font)
    ensures font.Some? ==> f == font.value
    ensures font.None? ==> f == embedded
  {
    font.GetOr(embedded)
  }

  /**
    The stroke colour of `write_text`: the explicit colour if one is given, else
    white on a dark background and black on a light one.
   */
  function StrokeColour(color: Option<Rgb>, darkMode: bool): (c: Rgb)
    ensures color.Some? ==> c == color.value
    ensures color.None? ==> c == if darkMode then White else Black
  {
    match color
    case Some(c) => c
    case None => if darkMode then White else Black
  }

  /** The glyph's pixel scale: one pixel less than the cell in each direction. */
  function GlyphScale(size: BlockSize): (scale: (real, real))
    ensures scale.0 + 1.0 == size.0 as real && scale.1 + 1.0 == size.1 as real
  {
    (size.0 as real - 1.0, size.1 as real - 1.0)
  }

  /**
    `write_text`: parse the font, then draw `text` at (x, y). Drawing is
    recorded as one glyph command on `img`; the raster is not touched here.
   */
  method WriteText(text: string, img: RgbImage, x: int, y: int, font: Option<Font>, embedded: Font,
                   darkMode: bool, size: BlockSize, color: Option<Rgb>) returns (r: Outcome<Error>)
    modifies img
    ensures r == if SelectFont(font, embedded).wellFormed then Pass else Fail(FontError)
    ensures img.glyphs == if r.Pass? then old(img.glyphs) + [Glyph(text, x, y, StrokeColour(color, darkMode), GlyphScale(size))]
                          else old(img.glyphs)
  {
    var f := SelectFont(font, embedded);
    if !f.wellFormed {
      return Fail(FontError);
    }
    var c := StrokeColour(color, darkMode);
    img.glyphs := img.glyphs + [Glyph(text, x, y, c, GlyphScale(size))];
    return Pass;
  }
}
