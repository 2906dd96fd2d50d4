/**
  Whole runs on solid-colour images: every whole block of a uniform image has
  the image's colour as its mean, so the glyphs and the colourful raster can be
  written out in full.
 */
module Scenarios {
  import opened Wrappers
  import opened Pixels
  import opened Utils
  import opened BlockWalk
  import opened ColorfulImg

  /** Every whole block of a solid image is a uniform region of that colour. */
  lemma UniformBlock(w: nat, h: nat, p: Rgb, bs: BlockSize, i: nat, j: nat)
    requires bs.0 > 0 && bs.1 > 0
    requires i < GetBlocksNum(Uniform(w, h, p), bs).0 && j < GetBlocksNum(Uniform(w, h, p), bs).1
    ensures UniformRegion(Uniform(w, h, p), Origin(i, bs.0), Origin(j, bs.1), bs.0, bs.1, p)
  {
    CellBounds(Uniform(w, h, p), bs, i, j);
  }

  /**
    On a solid image of colour p, a successful run draws at block (i, j) the
    character the set gives for the brightness (r+g+b)/3.
   */
  lemma UniformGlyph(w: nat, h: nat, p: Rgb, charSet: string, blockSize: Option<BlockSize>, mode: Mode, font: Font,
                     i: nat, j: nat)
    requires Render(Uniform(w, h, p), charSet, blockSize, mode, font).Ok?
    requires var bs := ResolveBlockSize(blockSize);
             bs.0 > 0 && bs.1 > 0 && i < GetBlocksNum(Uniform(w, h, p), bs).0 && j < GetBlocksNum(Uniform(w, h, p), bs).1
    ensures var bs := ResolveBlockSize(blockSize);
            var n := GetBlocksNum(Uniform(w, h, p), bs);
            var gs := Render(Uniform(w, h, p), charSet, blockSize, mode, font).value;
            var c := GetChar(charSet, (p.r + p.g + p.b) as real / 3.0);
            Rank(i, j, n.1) < |gs| && c.Some? &&
            gs[Rank(i, j, n.1)] == Glyph([c.value], Origin(i, bs.0), Origin(j, bs.1), GlyphColour(mode), GlyphScale(bs))
  {
    var bs := ResolveBlockSize(blockSize);
    RenderGlyphAt(Uniform(w, h, p), charSet, blockSize, mode, font, i, j);
    UniformBlock(w, h, p, bs, i, j);
    MeanUniform(Uniform(w, h, p), Origin(i, bs.0), Origin(j, bs.1), bs.0, bs.1, p);
  }

  /**
    A 24x24 black image, default blocks, set "Aa", light mode: brightness 0
    picks 'A', drawn in black in each of the four cells, column by column.
   */
  lemma BlackImageLightMode(font: Font)
    requires font.wellFormed
    ensures Render(Uniform(24, 24, Black), "Aa", None, Mono(false), font)
         == Ok([Glyph("A", 0, 0, Black, (11.0, 11.0)), Glyph("A", 0, 12, Black, (11.0, 11.0)),
                Glyph("A", 12, 0, Black, (11.0, 11.0)), Glyph("A", 12, 12, Black, (11.0, 11.0))])
  {
    FourCells(24, 24, Black, "Aa", Mono(false), font, 'A', Black);
  }

  /**
    The same image in white, dark mode: brightness 255 picks the last
    character, 'a', drawn in white in each cell.
   */
  lemma WhiteImageDarkMode(font: Font)
    requires font.wellFormed
    ensures Render(Uniform(24, 24, White), "Aa", None, Mono(true), font)
         == Ok([Glyph("a", 0, 0, White, (11.0, 11.0)), Glyph("a", 0, 12, White, (11.0, 11.0)),
                Glyph("a", 12, 0, White, (11.0, 11.0)), Glyph("a", 12, 12, White, (11.0, 11.0))])
  {
    FourCells(24, 24, White, "Aa", Mono(true), font, 'a', White);
  }

  /**
    The four glyphs of a solid image two default blocks wide and high (and
    less than three): one per cell, column by column.
   */
  lemma FourCells(w: nat, h: nat, p: Rgb, charSet: string, mode: Mode, font: Font, c: char, colour: Rgb)
    requires 24 <= w < 36 && 24 <= h < 36
    requires |charSet| >= 1 && IsAscii(charSet) && font.wellFormed
    requires GetChar(charSet, (p.r + p.g + p.b) as real / 3.0) == Some(c) && GlyphColour(mode) == colour
    ensures Render(Uniform(w, h, p), charSet, None, mode, font)
         == Ok([Glyph([c], 0, 0, colour, (11.0, 11.0)), Glyph([c], 0, 12, colour, (11.0, 11.0)),
                Glyph([c], 12, 0, colour, (11.0, 11.0)), Glyph([c], 12, 12, colour, (11.0, 11.0))])
  {
    CellGlyph(w, h, p, charSet, mode, font, c, colour, 0, 0);
    CellGlyph(w, h, p, charSet, mode, font, c, colour, 0, 1);
    CellGlyph(w, h, p, charSet, mode, font, c, colour, 1, 0);
    CellGlyph(w, h, p, charSet, mode, font, c, colour, 1, 1);
    var gs := Render(Uniform(w, h, p), charSet, None, mode, font).value;
    assert gs == [Glyph([c], 0, 0, colour, (11.0, 11.0)), Glyph([c], 0, 12, colour, (11.0, 11.0)),
                  Glyph([c], 12, 0, colour, (11.0, 11.0)), Glyph([c], 12, 12, colour, (11.0, 11.0))];
  }

  /** One cell of `FourCells`: the glyph of block (i, j) is the (2i + j)-th command. */
  lemma CellGlyph(w: nat, h: nat, p: Rgb, charSet: string, mode: Mode, font: Font, c: char, colour: Rgb, i: nat, j: nat)
    requires 24 <= w < 36 && 24 <= h < 36 && i < 2 && j < 2
    requires |charSet| >= 1 && IsAscii(charSet) && font.wellFormed
    requires GetChar(charSet, (p.r + p.g + p.b) as real / 3.0) == Some(c) && GlyphColour(mode) == colour
    ensures Render(Uniform(w, h, p), charSet, None, mode, font).Ok?
    ensures var gs := Render(Uniform(w, h, p), charSet, None, mode, font).value;
            |gs| == 4 && gs[2 * i + j] == Glyph([c], 12 * i, 12 * j, colour, (11.0, 11.0))
  {
    var img := Uniform(w, h, p);
    RenderAscii(img, charSet, None, mode, font);
    var bs := ResolveBlockSize(None);
    var n := GetBlocksNum(img, bs);
    assert n == (2, 2);
    assert GlyphScale(bs) == (11.0, 11.0);
    UniformGlyph(w, h, p, charSet, None, mode, font, i, j);
    RenderGlyphAt(img, charSet, None, mode, font, i, j);
    assert Rank(i, j, n.1) == 2 * i + j && Origin(i, bs.0) == 12 * i && Origin(j, bs.1) == 12 * j;
  }

  /** Inside the grid of whole blocks, the colourful raster of a solid image is that image's colour. */
  lemma ColorfulUniform(w: nat, h: nat, p: Rgb, bs: BlockSize, x: nat, y: nat)
    requires bs.0 > 0 && bs.1 > 0
    requires var n := GetBlocksNum(Uniform(w, h, p), bs); x / bs.0 < n.0 && y / bs.1 < n.1
    ensures ColorfulPixel(Uniform(w, h, p), bs, GetBlocksNum(Uniform(w, h, p), bs), x, y) == p
  {
    var b := (x / bs.0, y / bs.1);
    UniformBlock(w, h, p, bs, b.0, b.1);
    CellColourUniform(Uniform(w, h, p), bs, b, p);
  }

  /**
    A solid image at least one and less than two default blocks in each
    direction is one block: one glyph is drawn, at the origin, chosen by the
    brightness (r+g+b)/3, in the mode's colour.
   */
  lemma OneBlock(w: nat, h: nat, p: Rgb, charSet: string, mode: Mode, font: Font)
    requires 12 <= w < 24 && 12 <= h < 24
    requires |charSet| >= 1 && IsAscii(charSet) && font.wellFormed
    ensures Render(Uniform(w, h, p), charSet, None, mode, font)
         == Ok([Glyph([charSet[GetIndex(|charSet|, (p.r + p.g + p.b) as real / 3.0)]], 0, 0, GlyphColour(mode), (11.0, 11.0))])
  {
    var img := Uniform(w, h, p);
    assert GetBlocksNum(img, (12, 12)) == (1, 1);
    RenderAscii(img, charSet, None, mode, font);
    var gs := Render(img, charSet, None, mode, font).value;
    RenderGlyphAt(img, charSet, None, mode, font, 0, 0);
    UniformGlyph(w, h, p, charSet, None, mode, font, 0, 0);
    GetCharAscii(charSet, (p.r + p.g + p.b) as real / 3.0);
    assert GlyphScale((12, 12)) == (11.0, 11.0);
    var bs := ResolveBlockSize(None);
    var n := GetBlocksNum(img, bs);
    assert Rank(0, 0, n.1) == 0 && Origin(0, bs.0) == 0 && Origin(0, bs.1) == 0;
    var c := charSet[GetIndex(|charSet|, (p.r + p.g + p.b) as real / 3.0)];
    assert gs[0] == Glyph([c], 0, 0, GlyphColour(mode), (11.0, 11.0));
    assert |gs| == 1;
    assert gs == [gs[0]];
  }

  /**
    A 12x12 image of solid (200, 100, 50) in colourful mode: its cell keeps
    exactly that colour, and one black glyph is drawn, the character for
    brightness 350/3.
   */
  lemma OrangeBlock(charSet: string, font: Font, x: nat, y: nat)
    requires |charSet| >= 1 && IsAscii(charSet) && font.wellFormed && x < 12 && y < 12
    ensures var img := Uniform(12, 12, Rgb(200, 100, 50));
            ColorfulPixel(img, (12, 12), GetBlocksNum(img, (12, 12)), x, y) == Rgb(200, 100, 50) &&
            Render(img, charSet, None, Colorful, font)
              == Ok([Glyph([charSet[GetIndex(|charSet|, 350.0 / 3.0)]], 0, 0, Black, (11.0, 11.0))])
  {
    OneBlock(12, 12, Rgb(200, 100, 50), charSet, Colorful, font);
    ColorfulUniform(12, 12, Rgb(200, 100, 50), (12, 12), x, y);
  }

  /** A 5x5 image with the default 12x12 blocks: no block fits, no glyph, no error, in any mode. */
  lemma ImageSmallerThanBlock(p: Rgb, charSet: string, mode: Mode, font: Font)
    ensures Render(Uniform(5, 5, p), charSet, None, mode, font) == Ok([])
  {
    RenderSmallImage(Uniform(5, 5, p), charSet, None, mode, font);
  }
}
