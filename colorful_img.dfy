/**
  `img_to_colorful_img`: the colourful pipeline. The output starts black; each
  whole block's cell is filled with the block's truncated mean colour and then
  gets a black glyph chosen by the block's brightness. Pixels right of or below
  the last whole block keep the initial black.
 */
module ColorfulImg {
  import opened Wrappers
  import opened Pixels
  import opened Utils
  import opened BlockWalk

  /** `f64 as u8`: truncates toward zero and saturates at 0 and 255. */
  function AsU8(x: real): (b: Byte)
    ensures 0.0 <= x <= 255.0 ==> b == x.Floor
  {
    if x < 0.0 then 0 else if x >= 255.0 then 255 else x.Floor
  }

  /** The colour a block's cell is filled with: its channel means, each truncated to a byte. */
  function CellColour(img: Image, bs: BlockSize, b: Block): (c: Rgb)
    requires bs.0 > 0 && bs.1 > 0
  {
    var m := SubImageMeanRgb(img, Origin(b.0, bs.0), Origin(b.1, bs.1), bs.0, bs.1);
    Rgb(AsU8(m.0), AsU8(m.1), AsU8(m.2))
  }

  /** The cell colour is the floor of each channel mean. */
  lemma CellColourFloor(img: Image, bs: BlockSize, b: Block)
    requires bs.0 > 0 && bs.1 > 0
    ensures var m := SubImageMeanRgb(img, Origin(b.0, bs.0), Origin(b.1, bs.1), bs.0, bs.1);
            CellColour(img, bs, b) == Rgb(m.0.Floor, m.1.Floor, m.2.Floor)
  {
  }

  /** A block of one colour is filled with exactly that colour. */
  lemma CellColourUniform(img: Image, bs: BlockSize, b: Block, p: Rgb)
    requires bs.0 > 0 && bs.1 > 0 && UniformRegion(img, Origin(b.0, bs.0), Origin(b.1, bs.1), bs.0, bs.1, p)
    ensures CellColour(img, bs, b) == p
  {
    MeanUniform(img, Origin(b.0, bs.0), Origin(b.1, bs.1), bs.0, bs.1, p);
  }

  /**
    The raster `img_to_colorful_img` leaves behind (glyphs aside): the pixel at
    (x, y) lies in cell (x / bw, y / bh); inside the grid of whole blocks it has
    that cell's colour, outside it the initial black.
   */
  function ColorfulPixel(img: Image, bs: BlockSize, n: (nat, nat), x: nat, y: nat): Rgb
    requires bs.0 > 0 && bs.1 > 0
  {
    if x / bs.0 < n.0 && y / bs.1 < n.1 then CellColourAt(img, bs, x, y) else Black
  }

  /** One more factor of c: a < b gives a*c + c <= b*c. */
  lemma {:induction false} MulStep(a: nat, b: nat, c: nat)
    requires a < b
    ensures a * c + c <= b * c
  {
    if b > a + 1 {
      MulStep(a, b - 1, c);
      assert (b - 1) * c + c == b * c;
    } else {
      assert b * c == a * c + c;
    }
  }

  /** Pixel p lies in the k-th span of width `size` exactly when p / size == k. */
  lemma CellOf(p: nat, k: nat, size: nat)
    requires size > 0
    ensures k * size <= p < k * size + size <==> p / size == k
  {
    var q := p / size;
    assert q * size <= p < q * size + size;
    if q < k {
      MulStep(q, k, size);
    } else if q > k {
      MulStep(k, q, size);
    }
  }

  /** A pixel at or beyond n whole spans of width `size` is in span n or later. */
  lemma SpanAtLeast(p: nat, n: nat, size: nat)
    requires size > 0 && p >= n * size
    ensures p / size >= n
  {
    var q := p / size;
    assert p < q * size + size;
    if q < n {
      MulStep(q, n, size);
    }
  }

  /** Cells of two different blocks share no pixel, so the order of the walk does not matter. */
  lemma CellsDisjoint(bs: BlockSize, b1: Block, b2: Block, x: nat, y: nat)
    requires bs.0 > 0 && bs.1 > 0 && b1 != b2
    requires Origin(b1.0, bs.0) <= x < Origin(b1.0, bs.0) + bs.0 && Origin(b1.1, bs.1) <= y < Origin(b1.1, bs.1) + bs.1
    ensures !(Origin(b2.0, bs.0) <= x < Origin(b2.0, bs.0) + bs.0 && Origin(b2.1, bs.1) <= y < Origin(b2.1, bs.1) + bs.1)
  {
    CellOf(x, b1.0, bs.0);
    CellOf(x, b2.0, bs.0);
    CellOf(y, b1.1, bs.1);
    CellOf(y, b2.1, bs.1);
  }

  /** A pixel outside the grid of whole blocks keeps the initial black. */
  lemma BorderStaysBlack(img: Image, bs: BlockSize, x: nat, y: nat)
    requires bs.0 > 0 && bs.1 > 0
    requires var n := GetBlocksNum(img, bs); x >= Origin(n.0, bs.0) || y >= Origin(n.1, bs.1)
    ensures ColorfulPixel(img, bs, GetBlocksNum(img, bs), x, y) == Black
  {
    var n := GetBlocksNum(img, bs);
    BlocksNumBounds(img, bs);
    if x >= Origin(n.0, bs.0) {
      SpanAtLeast(x, n.0, bs.0);
    } else {
      SpanAtLeast(y, n.1, bs.1);
    }
  }

  /** The colour of the cell pixel (x, y) lies in. */
  function CellColourAt(img: Image, bs: BlockSize, x: nat, y: nat): Rgb
    requires bs.0 > 0 && bs.1 > 0
  {
    CellColour(img, bs, (x / bs.0, y / bs.1))
  }

  /** Pixel (x, y) has been painted once the walk has passed block (i, j) in column-major order. */
  ghost predicate Painted(bs: BlockSize, i: nat, j: nat, ny: nat, x: nat, y: nat)
    requires bs.0 > 0 && bs.1 > 0
  {
    (x / bs.0 < i && y / bs.1 < ny) || (x / bs.0 == i && y / bs.1 < j)
  }

  /** After the last column, the painted pixels are those of the whole-block grid. */
  lemma PaintedAll(img: Image, bs: BlockSize, n: (nat, nat), x: nat, y: nat)
    requires bs.0 > 0 && bs.1 > 0
    ensures ColorfulPixel(img, bs, n, x, y) == if Painted(bs, n.0, 0, n.1, x, y) then CellColourAt(img, bs, x, y) else Black
  {
  }

  /** Filling block (i, j) paints exactly its cell on top of what was painted before. */
  lemma PaintedStep(img: Image, bs: BlockSize, i: nat, j: nat, ny: nat, x: nat, y: nat)
    requires bs.0 > 0 && bs.1 > 0
    ensures var inCell := Origin(i, bs.0) <= x < Origin(i, bs.0) + bs.0 && Origin(j, bs.1) <= y < Origin(j, bs.1) + bs.1;
            (inCell ==> CellColourAt(img, bs, x, y) == CellColour(img, bs, (i, j))) &&
            (Painted(bs, i, j + 1, ny, x, y) <==> Painted(bs, i, j, ny, x, y) || inCell)
  {
    CellOf(x, i, bs.0);
    CellOf(y, j, bs.1);
  }

  /** The nested `put_pixel` loops: paint the rectangle [x0, x0+w) x [y0, y0+h) with c. */
  method FillCell(img: RgbImage, x0: nat, y0: nat, w: nat, h: nat, c: Rgb)
    requires img.Valid() && x0 + w <= img.width && y0 + h <= img.height
    modifies img.pixels
    ensures forall x, y :: 0 <= x < img.width && 0 <= y < img.height ==>
              img.pixels[x, y] == if x0 <= x < x0 + w && y0 <= y < y0 + h then c else old(img.pixels[x, y])
  {
    for dx := 0 to w
      invariant forall x, y :: 0 <= x < img.width && 0 <= y < img.height ==>
                  img.pixels[x, y] == if x0 <= x < x0 + dx && y0 <= y < y0 + h then c else old(img.pixels[x, y])
    {
      for dy := 0 to h
        invariant forall x, y :: 0 <= x < img.width && 0 <= y < img.height ==>
                    img.pixels[x, y] == if (x0 <= x < x0 + dx && y0 <= y < y0 + h) || (x == x0 + dx && y0 <= y < y0 + dy)
                                        then c else old(img.pixels[x, y])
      {
        img.PutPixel(x0 + dx, y0 + dy, c);
      }
    }
  }

  /** The output so far: the painted cells have their colour, everything else is still black. */
  ghost predicate PaintedSoFar(out: RgbImage, img: Image, bs: BlockSize, i: nat, j: nat, ny: nat)
    requires bs.0 > 0 && bs.1 > 0
    reads out, out.pixels
  {
    out.Valid() && out.width == img.width && out.height == img.height &&
    forall x, y :: 0 <= x < img.width && 0 <= y < img.height ==>
      out.pixels[x, y] == if Painted(bs, i, j, ny, x, y) then CellColourAt(img, bs, x, y) else Black
  }

  /**
    The body of the block loops for block (i, j): sample the block, pick its
    character, fill its cell with the truncated mean colour, then draw the
    character over it in black.
   */
  method ColorBlock(out: RgbImage, img: Image, charSet: string, bs: BlockSize, n: (nat, nat),
                    i: nat, j: nat, embedded: Font) returns (o: Outcome<Error>)
    requires bs.0 > 0 && bs.1 > 0 && n == GetBlocksNum(img, bs) && i < n.0 && j < n.1
    requires PaintedSoFar(out, img, bs, i, j, n.1)
    requires Commands(WalkSetup(img, charSet, bs, Colorful, embedded), Visited(i, j, n.1)) == Ok(out.glyphs)
    modifies out, out.pixels
    ensures o.Pass? ==> PaintedSoFar(out, img, bs, i, j + 1, n.1)
    ensures o.Pass? ==> Commands(WalkSetup(img, charSet, bs, Colorful, embedded), Visited(i, j + 1, n.1)) == Ok(out.glyphs)
    ensures o.Fail? ==> Commands(WalkSetup(img, charSet, bs, Colorful, embedded), BlockOrder(n.0, n.1)) == Err(o.error)
  {
    ghost var w: Walk := WalkSetup(img, charSet, bs, Colorful, embedded);
    ghost var before := out.glyphs;
    var rgb := SubImageMeanRgb(img, Origin(i, bs.0), Origin(j, bs.1), bs.0, bs.1);
    var mean := (rgb.0 + rgb.1 + rgb.2) / 3.0;
    var ch := GetChar(charSet, mean);
    assert BlockChar(w, (i, j)) == ch;
    if ch.None? {
      StepErr(w, n.0, n.1, i, j, before);
      return Fail(CharIndexOutOfRange);
    }
    CellBounds(img, bs, i, j);
    FillCell(out, Origin(i, bs.0), Origin(j, bs.1), bs.0, bs.1, Rgb(AsU8(rgb.0), AsU8(rgb.1), AsU8(rgb.2)));
    forall x, y | 0 <= x < img.width && 0 <= y < img.height
      ensures out.pixels[x, y] == if Painted(bs, i, j + 1, n.1, x, y) then CellColourAt(img, bs, x, y) else Black
    {
      PaintedStep(img, bs, i, j, n.1, x, y);
    }
    o := WriteText([ch.value], out, Origin(i, bs.0), Origin(j, bs.1), None, embedded, false, bs, Some(Black));
    if o.Fail? {
      StepErr(w, n.0, n.1, i, j, before);
    } else {
      StepOk(w, i, j, n.1, before);
    }
  }

  /**
    The walk over the decoded image `img`. The result is the image that would be
    saved; decoding and saving are not modelled.
   */
  method ImgToColorfulImg(img: Image, charSet: string, blockSize: Option<BlockSize>, embedded: Font)
    returns (r: Result<RgbImage, Error>)
    ensures r.Err? ==> Render(img, charSet, blockSize, Colorful, embedded) == Err(r.error)
    ensures r.Ok? ==> Render(img, charSet, blockSize, Colorful, embedded) == Ok(r.value.glyphs)
    ensures r.Ok? ==> fresh(r.value) && fresh(r.value.pixels) && r.value.Valid()
    ensures r.Ok? ==> r.value.width == img.width && r.value.height == img.height
    ensures r.Ok? ==> var bs := ResolveBlockSize(blockSize);
              bs.0 > 0 && bs.1 > 0 && ColorfulRaster(r.value, img, bs)
  {
    var bs := ResolveBlockSize(blockSize);
    if bs.0 == 0 || bs.1 == 0 {
      return Err(DivisionByZero);
    }
    var blocks := GetBlocksNum(img, bs);
    var newImg := new RgbImage.FromPixel(img.width, img.height, Black);
    ghost var w: Walk := WalkSetup(img, charSet, bs, Colorful, embedded);
    PaintedStart(newImg, img, bs, blocks.1);
    for i := 0 to blocks.0
      invariant PaintedSoFar(newImg, img, bs, i, 0, blocks.1)
      invariant Commands(w, Visited(i, 0, blocks.1)) == Ok(newImg.glyphs)
    {
      for j := 0 to blocks.1
        invariant PaintedSoFar(newImg, img, bs, i, j, blocks.1)
        invariant Commands(w, Visited(i, j, blocks.1)) == Ok(newImg.glyphs)
      {
        var o := ColorBlock(newImg, img, charSet, bs, blocks, i, j, embedded);
        if o.Fail? {
          return Err(o.error);
        }
      }
      ColumnDone(i, blocks.1);
      ColumnPainted(newImg, img, bs, i, blocks.1);
    }
    PaintedFinal(newImg, img, bs, blocks);
    RenderIsWalk(img, charSet, blockSize, Colorful, embedded);
    return Ok(newImg);
  }

  /** The finished output: every pixel is the colourful raster's pixel. */
  ghost predicate ColorfulRaster(out: RgbImage, img: Image, bs: BlockSize)
    requires bs.0 > 0 && bs.1 > 0
    reads out, out.pixels
  {
    out.Valid() && out.width == img.width && out.height == img.height &&
    forall x, y :: 0 <= x < img.width && 0 <= y < img.height ==>
      out.pixels[x, y] == ColorfulPixel(img, bs, GetBlocksNum(img, bs), x, y)
  }

  /** A fresh black canvas is the picture before the first block. */
  lemma PaintedStart(out: RgbImage, img: Image, bs: BlockSize, ny: nat)
    requires bs.0 > 0 && bs.1 > 0
    requires out.Valid() && out.width == img.width && out.height == img.height
    requires forall x, y :: 0 <= x < out.width && 0 <= y < out.height ==> out.pixels[x, y] == Black
    ensures PaintedSoFar(out, img, bs, 0, 0, ny)
  {
    forall x, y | 0 <= x < img.width && 0 <= y < img.height
      ensures out.pixels[x, y] == if Painted(bs, 0, 0, ny, x, y) then CellColourAt(img, bs, x, y) else Black
    {
      assert x / bs.0 >= 0 && y / bs.1 >= 0;
    }
  }

  /** When the last column is done, the output is the colourful raster. */
  lemma PaintedFinal(out: RgbImage, img: Image, bs: BlockSize, n: (nat, nat))
    requires bs.0 > 0 && bs.1 > 0 && n == GetBlocksNum(img, bs) && PaintedSoFar(out, img, bs, n.0, 0, n.1)
    ensures ColorfulRaster(out, img, bs)
  {
    forall x, y | 0 <= x < img.width && 0 <= y < img.height
      ensures out.pixels[x, y] == ColorfulPixel(img, bs, n, x, y)
    {
      PaintedAll(img, bs, n, x, y);
    }
  }

  /** A finished column leaves the picture the next column starts from. */
  lemma ColumnPainted(out: RgbImage, img: Image, bs: BlockSize, i: nat, ny: nat)
    requires bs.0 > 0 && bs.1 > 0 && PaintedSoFar(out, img, bs, i, ny, ny)
    ensures PaintedSoFar(out, img, bs, i + 1, 0, ny)
  {
  }

  /** The cell of a whole block lies inside the image. */
  lemma CellBounds(img: Image, bs: BlockSize, i: nat, j: nat)
    requires bs.0 > 0 && bs.1 > 0 && i < GetBlocksNum(img, bs).0 && j < GetBlocksNum(img, bs).1
    ensures Origin(i, bs.0) + bs.0 <= img.width && Origin(j, bs.1) + bs.1 <= img.height
  {
    var n := GetBlocksNum(img, bs);
    BlocksNumBounds(img, bs);
    MulStep(i, n.0, bs.0);
    MulStep(j, n.1, bs.1);
  }
}
