/**
  `img_to_img`: the monochrome pipeline. The output has the input's size, a
  white background (black in dark mode), and one glyph per whole block, chosen
  by the block's pooled mean and drawn in the mode's default stroke colour.
 */
module MonoImg {
  import opened Wrappers
  import opened Pixels
  import opened Utils
  import opened BlockWalk

  /** The background `img_to_img` allocates. */
  function Background(darkMode: bool): Rgb
  {
    if darkMode then Black else White
  }

  /**
    The walk over the decoded image `img`. The result is the image that would be
    saved; decoding and saving are not modelled. The
    `image_to_blocks_and_reshape` the source calls is `get_blocks_num`.
   */
  method ImgToImg(img: Image, charSet: string, blockSize: Option<BlockSize>, darkMode: bool, embedded: Font)
    returns (r: Result<RgbImage, Error>)
    ensures r.Err? ==> Render(img, charSet, blockSize, Mono(darkMode), embedded) == Err(r.error)
    ensures r.Ok? ==> Render(img, charSet, blockSize, Mono(darkMode), embedded) == Ok(r.value.glyphs)
    ensures r.Ok? ==> fresh(r.value) && fresh(r.value.pixels) && r.value.Valid()
    ensures r.Ok? ==> r.value.width == img.width && r.value.height == img.height
    ensures r.Ok? ==> forall x, y :: 0 <= x < img.width && 0 <= y < img.height ==>
                        r.value.pixels[x, y] == Background(darkMode)
  {
    var bs := ResolveBlockSize(blockSize);
    if bs.0 == 0 || bs.1 == 0 {
      return Err(DivisionByZero);
    }
    var blocks := GetBlocksNum(img, bs);
    var newImg: RgbImage;
    if darkMode {
      newImg := new RgbImage.FromPixel(img.width, img.height, Black);
    } else {
      newImg := new RgbImage.FromPixel(img.width, img.height, White);
    }
    ghost var w: Walk := WalkSetup(img, charSet, bs, Mono(darkMode), embedded);
    for i := 0 to blocks.0
      modifies newImg
      invariant Commands(w, Visited(i, 0, blocks.1)) == Ok(newImg.glyphs)
    {
      for j := 0 to blocks.1
        modifies newImg
        invariant Commands(w, Visited(i, j, blocks.1)) == Ok(newImg.glyphs)
      {
        ghost var before := newImg.glyphs;
        var mean := SubImageMean(img, Origin(i, bs.0), Origin(j, bs.1), bs.0, bs.1);
        var ch := GetChar(charSet, mean);
        assert BlockChar(w, (i, j)) == ch;
        if ch.None? {
          StepErr(w, blocks.0, blocks.1, i, j, newImg.glyphs);
          return Err(CharIndexOutOfRange);
        }
        var o := WriteText([ch.value], newImg, Origin(i, bs.0), Origin(j, bs.1), None, embedded, darkMode, bs, None);
        if o.Fail? {
          StepErr(w, blocks.0, blocks.1, i, j, before);
          return Err(o.error);
        }
        StepOk(w, i, j, blocks.1, before);
      }
      ColumnDone(i, blocks.1);
    }
    RenderIsWalk(img, charSet, blockSize, Mono(darkMode), embedded);
    return Ok(newImg);
  }
}
