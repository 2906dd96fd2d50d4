# ascii_generator_rs: block-quantisation core in Dafny

This project models the part of `ascii_generator_rs` that turns a decoded image into ASCII art. It also proves what that code promises.

The model covers three parts:

- **The helpers in `src/utils.rs`:**
  - the block grid (`get_blocks_num`);
  - the region means (`sub_image_mean`, `sub_image_mean_rgb`);
  - the brightness-to-character quantiser (`get_index`, `get_char`, `get_char_`);
  - the pure part of `write_text`: which font is parsed, the stroke colour, and the glyph scale.
- **The monochrome walker, `img_to_img`.** It allocates a white background (black in dark mode). It then draws one glyph per whole block, chosen by the block's pooled mean.
- **The colourful walker, `img_to_colorful_img`.** It allocates a black canvas. For each whole block it fills the cell in place with the truncated mean colour, then draws a black glyph.

## Modules

- `Wrappers` (`wrappers.dfy`) holds `Option`, `Result` and `Outcome`.
- `Pixels` (`pixels.dfy`) holds stand-ins for the `image` crate:
  - `Rgb` pixels;
  - `Image`, a read-only grid of rows (the decoded input);
  - the `RgbImage` class, the mutable output. Its pixels live in an `array2`. `glyphs` is a log of the text-drawing calls made on it.
- `Utils` (`utils.dfy`) models `src/utils.rs`.
- `BlockWalk` (`block_walk.dfy`) holds what both walkers share:
  - the default block size;
  - the column-major visit order of `for i in 0..nx { for j in 0..ny }`;
  - one block's step;
  - `Render`, the fold of those steps over the whole grid, which stops at the first error as `?` and `unwrap` do.
- `MonoImg` (`mono_img.dfy`) models `img_to_img` as a method with nested loops over an `RgbImage`.
- `ColorfulImg` (`colorful_img.dfy`) models `img_to_colorful_img` in the same way. Its cell fill is a nested `put_pixel` loop on the output array, proved against `ColorfulPixel`, a cell-by-cell definition of the finished raster.
- `Scenarios` (`scenarios.dfy`) works out whole runs on solid-colour images.

## Modelling decisions

- **Exact means.** The means are exact rationals: an integer sum divided by the sample count. The source computes them in `f64`.
  - `f64::round` rounds halves away from zero (`Utils.Round`).
  - `as usize` saturates negatives to 0 (`Utils.AsUsize`).
  - `as u8` truncates and saturates (`ColorfulImg.AsU8`).
- **Panics and errors are values.** Each walker returns `Err` for:
  - a zero block dimension, which divides by zero in `get_blocks_num`;
  - `unwrap` on a character index past the end of the set;
  - a font the font library rejects.
  The saved output is what the walker returns on success.
- **Byte length against character position.** `get_char` passes `char_set.len()`, a UTF-8 byte length, to `get_index`, but `get_char_` indexes by character. The model does the same: `ByteLen` on one side, `GetCharAt` on the other.
  - For ASCII sets the two agree (`GetCharAscii`).
  - For a set with a multi-byte character, a white block panics (`GetCharMultiByte`).
  - Indexing by position would need the character count. The code passes the byte count, and the model follows the code.
- **The undefined block-count helper.** `img_to_img` calls `image_to_blocks_and_reshape`, which `src/utils.rs` does not define. The only block-count helper there is `get_blocks_num`, and the model uses that.
- **Clamped crops.** `sub_image` crops through `crop_imm`, which clamps to the image. In the model, a position outside the image contributes 0 to a sum, while the divisor is the full rectangle's sample count (3*w*h pooled, w*h per channel), as in the source. The walkers only ask for whole blocks, which lie inside the image (`ColorfulImg.CellBounds`).
- **Glyphs are commands.** Drawing a glyph appends a `Glyph(text, x, y, colour, scale)` command to the output's log. It is not rasterised. A font's parse verdict is the `wellFormed` flag of `Utils.Font`, and the embedded default font is the `embedded` parameter.

## Model

| member | source | states |
|---|---|---|
| Utils.BlocksNumBounds | src/utils.rs:86-97 | The whole blocks fit in the image: `n*bw <= W`. The leftover strip is narrower than a block: `W - n*bw < bw`. The same holds vertically. When the size is a multiple of the block, nothing is left over. |
| Utils.RegionSumBound | src/utils.rs:59-62 | A region's sum is at most the largest sample value times the pixel count. |
| Utils.RegionSumPooled | src/utils.rs:56-79 | Summing r+g+b per pixel gives the same total as summing each channel and adding. |
| Utils.RegionSumUniform | src/utils.rs:59-62 | A region of one colour sums to that colour's value times w*h. |
| Utils.RegionMeanBound | src/utils.rs:63-77 | A region's sum over its sample count lies in [0, 255]. |
| Utils.SubImageMean | src/utils.rs:56-66 | The pooled mean, the sum of all channels over 3*w*h, lies in [0, 255]. |
| Utils.ChannelMean | src/utils.rs:71-77 | Each channel mean, the channel sum over w*h, lies in [0, 255]. |
| Utils.SubImageMeanRgb | src/utils.rs:68-79 | All three per-channel means lie in [0, 255]. |
| Utils.MeanRgbAverage | src/utils.rs:56-79 | The average of the three channel means equals the pooled mean of the same region. |
| Utils.ChannelMeanUniform | src/utils.rs:68-79 | A uniform region's channel mean is exactly that channel's value. |
| Utils.MeanUniform | src/utils.rs:56-79 | A block of one colour (r,g,b) has channel means exactly (r,g,b) and pooled mean (r+g+b)/3. |
| Utils.Round | src/utils.rs:83 | The rounded value is within 1/2 of its argument. |
| Utils.GetIndex | src/utils.rs:81-84 | For `len >= 1`, the position is at most `len - 1`. |
| Utils.GetIndexZero | src/utils.rs:81-84 | Mean 0 selects position 0. |
| Utils.GetIndexFull | src/utils.rs:82-83 | Mean 255 selects `len - 1`: the clamp catches `round(len) == len`. |
| Utils.RoundMonotone | src/utils.rs:83 | Rounding is monotone. |
| Utils.GetIndexMonotone | src/utils.rs:82-83 | A larger mean never selects an earlier position. |
| Utils.GetIndexBucket | src/utils.rs:81-84 | For a non-negative mean, position k is chosen exactly when the scaled mean lies in [k - 1/2, k + 1/2). The last bucket is open above. Both directions are stated. |
| Utils.Utf8Len | src/utils.rs:105 | One character takes 1 to 4 UTF-8 bytes, and exactly 1 when it is ASCII. |
| Utils.ByteLen | src/utils.rs:105 | `str::len` is at least the character count, and equals it exactly when the string is ASCII. |
| Utils.GetCharAt | src/utils.rs:100-102 | `chars().nth(i)` is a character exactly when `i` is below the character count, and then it is the i-th character. |
| Utils.GetChar | src/utils.rs:104-107 | Any character returned is a member of the set. An empty set panics. |
| Utils.GetCharAscii | src/utils.rs:104-107 | For a non-empty ASCII set the lookup never panics and returns the character at `get_index(len, mean)`. |
| Utils.GetCharMultiByte | src/utils.rs:100-107 | For a set with a multi-byte character, mean 255 gives a byte position past the last character, so `unwrap` panics. |
| Utils.GetCharEnds | src/utils.rs:104-107 | For an ASCII set, black selects the first character and white the last. |
| Utils.SelectFont | src/utils.rs:17-23 | The given font is parsed if there is one, else the embedded one. |
| Utils.StrokeColour | src/utils.rs:25-34 | The explicit colour wins. Without one, the stroke is white in dark mode and black otherwise. |
| Utils.GlyphScale | src/utils.rs:41-44 | The pixel scale is one less than the cell size in each direction. |
| Utils.WriteText | src/utils.rs:7-50 | It fails with a font error exactly when the selected font does not parse, and then draws nothing. Otherwise it appends one glyph command with the selected colour and scale. |
| Pixels.RgbImage.FromPixel | src/img_to_img.rs:21-25 | `RgbImage::new` / `from_pixel`: a fresh w×h canvas with every pixel set to the given colour and no glyphs. |
| Pixels.RgbImage.PutPixel | src/img_to_colorful_img.rs:34-38 | `put_pixel` sets one pixel and leaves every other pixel unchanged. |
| BlockWalk.ResolveBlockSize | src/img_to_colorful_img.rs:10-14 | The block size defaults to 12×12 (the same code is at src/img_to_img.rs:12-16). |
| BlockWalk.Column | src/img_to_img.rs:28 | The inner loop visits (i,0), …, (i,j-1) in order. |
| BlockWalk.BlockOrderLength | src/img_to_img.rs:27-28 | The nested loops visit nx*ny blocks. |
| BlockWalk.BlockOrderAt | src/img_to_img.rs:27-28 | Block (i,j) is the (i*ny + j)-th visited: column-major order. |
| BlockWalk.BlockOrderMembers | src/img_to_img.rs:27-28 | A block is visited exactly when i < nx and j < ny. |
| BlockWalk.BlockOrderDistinct | src/img_to_img.rs:27-28 | No block is visited twice. |
| BlockWalk.BlockOrderEmpty | src/img_to_img.rs:27-28 | No block is visited exactly when nx == 0 or ny == 0. |
| BlockWalk.VisitedPrefix | src/img_to_img.rs:27-28 | The blocks visited before (i, j) are a prefix of the whole walk. |
| BlockWalk.BlockMean | src/img_to_colorful_img.rs:22-30 | A block's brightness lies in [0, 255] in either mode. |
| BlockWalk.BlockMeanPooled | src/img_to_colorful_img.rs:22-31 | In colourful mode the brightness is the average of the three channel means. That equals the pooled mean the monochrome walker uses. |
| BlockWalk.GlyphColour | src/img_to_img.rs:37-46 | Monochrome mode passes no colour, so glyphs are white in dark mode and black in light mode. Colourful mode passes black (src/img_to_colorful_img.rs:41-50). |
| BlockWalk.BlockStep | src/img_to_img.rs:29-46 | A block yields a glyph exactly when its character lookup succeeds and the font parses. |
| BlockWalk.CommandsSnoc | src/img_to_img.rs:27-48 | One more block keeps an earlier error, adds its own error, or appends its glyph. |
| BlockWalk.CommandsErrSticks | src/img_to_img.rs:46 | After `?` returns an error, later blocks change nothing. |
| BlockWalk.CommandsOk | src/img_to_img.rs:27-48 | A walk succeeds exactly when every block's step does. It then issues one glyph per block, in visit order. |
| BlockWalk.StepOk | src/img_to_img.rs:36-46 | A successful loop body extends the glyph log by that block's glyph. |
| BlockWalk.StepErr | src/img_to_img.rs:36-46 | A failing loop body makes the whole run fail with that block's error. |
| BlockWalk.ColumnDone | src/img_to_img.rs:27-28 | A finished column is where the next column starts. |
| BlockWalk.RenderIsWalk | src/img_to_img.rs:27-48 | What the loops have produced after the last column is the run's result. |
| BlockWalk.WalkOk | src/img_to_img.rs:27-48 | A walk succeeds exactly when the grid is empty, or the font parses and every block's character exists. |
| BlockWalk.CharsPooled | src/img_to_colorful_img.rs:22-31 | Every block has a character exactly when every block's pooled-mean lookup succeeds. |
| BlockWalk.WalkOkPooled | src/img_to_colorful_img.rs:20-52 | `WalkOk` with each character written as the lookup of the block's pooled mean. |
| BlockWalk.WalkGlyphs | src/img_to_img.rs:27-48 | A successful walk issues exactly nx*ny commands. The (i*ny + j)-th is block (i,j)'s glyph. |
| BlockWalk.WalkGlyphBlock | src/img_to_img.rs:27-48 | Every command of a successful walk belongs to a block of the grid and is that block's glyph. |
| BlockWalk.WalkGlyphsDistinct | src/img_to_img.rs:27-48 | No two commands of a successful walk belong to the same block. |
| BlockWalk.RenderOk | src/img_to_img.rs:12-48 | A run succeeds exactly when all of these hold: the block size is non-zero; and either no whole block fits, or the font parses and every block's pooled mean has a character. This holds in both modes. |
| BlockWalk.RenderGlyphAt | src/img_to_img.rs:27-46 | On success there are nx*ny commands. The (i*ny + j)-th has: the character for block (i,j)'s pooled mean; the block origin (i*bw, j*bh); the mode's colour; and scale bs - 1. |
| BlockWalk.RenderSmallImage | src/img_to_img.rs:19-28 | An image narrower or lower than one block yields no glyph and no error. |
| BlockWalk.RenderAscii | src/utils.rs:100-107 | With a non-empty ASCII set, a font that parses and a non-zero block size, a run never fails. |
| BlockWalk.RenderZeroBlock | src/utils.rs:86-88 | A zero block dimension panics in `get_blocks_num` before anything is drawn. |
| MonoImg.ImgToImg | src/img_to_img.rs:5-53 | The method fails exactly as `Render` does. On success the output and its pixel buffer are freshly allocated; the output has the input's size and is all background, and its glyph log is `Render`'s commands. |
| ColorfulImg.AsU8 | src/img_to_colorful_img.rs:37 | On [0, 255], `as u8` is the floor. |
| ColorfulImg.CellColourFloor | src/img_to_colorful_img.rs:22-37 | A cell is filled with the floor of each channel mean. |
| ColorfulImg.CellColourUniform | src/img_to_colorful_img.rs:22-37 | A block of one colour is filled with exactly that colour. |
| ColorfulImg.CellsDisjoint | src/img_to_colorful_img.rs:32-40 | Two different blocks' cells share no pixel. |
| ColorfulImg.BorderStaysBlack | src/img_to_colorful_img.rs:18-40 | Pixels with x >= nx*bw or y >= ny*bh keep the initial black. |
| ColorfulImg.PaintedAll | src/img_to_colorful_img.rs:20-40 | Once every column is done, the painted pixels are exactly those of the whole-block grid. |
| ColorfulImg.PaintedStep | src/img_to_colorful_img.rs:32-40 | Filling block (i,j) paints exactly its cell, in that cell's colour. |
| ColorfulImg.FillCell | src/img_to_colorful_img.rs:32-40 | The `put_pixel` loops set every pixel of the rectangle to the colour and leave every other pixel unchanged. |
| ColorfulImg.CellBounds | src/img_to_colorful_img.rs:22-36 | A whole block's cell lies inside the image. |
| ColorfulImg.PaintedStart | src/img_to_colorful_img.rs:18 | The fresh black canvas is the picture before the first block. |
| ColorfulImg.ColumnPainted | src/img_to_colorful_img.rs:20-52 | A finished column leaves the picture the next column starts from. |
| ColorfulImg.PaintedFinal | src/img_to_colorful_img.rs:20-52 | After the last column, every pixel is `ColorfulPixel`: its cell's truncated mean colour inside the block grid, black outside. |
| ColorfulImg.ColorBlock | src/img_to_colorful_img.rs:22-50 | One block: sample, look up the character (which may panic), fill the cell, then draw the glyph (which may fail). On success the picture and the log grow by exactly this block. On failure the whole run fails with its error. |
| ColorfulImg.ImgToColorfulImg | src/img_to_colorful_img.rs:4-56 | The method fails exactly as `Render` does. On success the output and its pixel buffer are freshly allocated, the output has the input's size, every pixel is `ColorfulPixel`, and its glyph log is `Render`'s commands. |
| Scenarios.UniformBlock | src/img_to_img.rs:29-35 | Every whole block of a solid image is a uniform region of the image's colour. |
| Scenarios.UniformGlyph | src/img_to_img.rs:29-46 | On a solid image, every block's glyph is the character for brightness (r+g+b)/3. |
| Scenarios.CellGlyph | src/img_to_img.rs:27-46 | With 12×12 blocks on a solid image 24 to 35 pixels wide and 24 to 35 pixels high, block (i,j)'s glyph is the (2i+j)-th command, at (12i, 12j). |
| Scenarios.FourCells | src/img_to_img.rs:27-46 | Such an image gives exactly four glyph commands, column by column. |
| Scenarios.BlackImageLightMode | src/img_to_img.rs:5-53 | A 24×24 black image with set "Aa" in light mode gives 'A' in black in all four cells. |
| Scenarios.WhiteImageDarkMode | src/img_to_img.rs:5-53 | A 24×24 white image in dark mode gives 'a' in white in all four cells. |
| Scenarios.ColorfulUniform | src/img_to_colorful_img.rs:20-40 | Inside the block grid, the colourful raster of a solid image is the image's colour. |
| Scenarios.OneBlock | src/img_to_img.rs:27-46 | A solid image one block in size gives exactly one glyph, at the origin. |
| Scenarios.OrangeBlock | src/img_to_colorful_img.rs:4-56 | A 12×12 image of solid (200,100,50) keeps exactly that colour in its cell. It gets one black glyph, the character for brightness 350/3. |
| Scenarios.ImageSmallerThanBlock | src/img_to_img.rs:19-28 | A 5×5 image with the default blocks yields no glyph and no error. |

## Left out

- **Glyph rasterisation and font parsing.**
  - `draw_text_mut` and `FontRef::try_from_slice` belong to the font library. A glyph is a recorded command, and the model does not say which pixels it touches. So `ColorfulPixel` and `Background` describe the raster under the glyphs.
  - A font's parse result is the abstract `wellFormed` flag, and re-parsing the same font gives the same verdict.
- **Image decoding and saving.** `image::open`, `into_rgb8` and `save` are file I/O. The decoded image is an `Image` parameter, and the saved image is the returned `RgbImage`. Errors from reading or writing files are not modelled.
- **`process_image_with_rayon`** (src/img_to_colorful_img.rs:58-117) is left out. It is unused parallel code built around a `Mutex`.
- **Floating point.** `f64`/`f32` rounding error and NaN are not modelled. Means are exact rationals, and the scale is an exact real.
- **Integer widths.** The `u32` and `i32` casts of block origins and counts are not modelled, and neither is the `u32` overflow of `w * h * 3` for huge blocks. All integers are unbounded.
- **`src/constants.rs`.** `FONT` is embedded binary font data; it becomes the `embedded` parameter. `ENGLISH` is a literal character set that none of the modelled code uses.
- **The `#[cfg(test)]` harnesses.** They read and write image files.
- Utils.SubImageMean: requires w > 0 and h > 0. For an empty region the source divides 0 by 0 and gets NaN. The walkers never ask for one, because a zero block size panics first in `get_blocks_num`.
- Utils.ChannelMean: requires w > 0 and h > 0, for the same reason as `SubImageMean`.
- Utils.GetIndex: requires len >= 1. For len 0, `len - 1` underflows. `GetChar` handles the empty set itself, reporting the panic as `None`.
- Utils.AsUsize: leaves out the upper saturation at `usize::MAX`. The clamp to `len - 1` in `get_index` makes it unobservable.
