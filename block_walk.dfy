/**
  What both block walkers have in common: the block size default, the order in
  which `for i in 0..nx { for j in 0..ny { ... } }` visits blocks, and what one
  block contributes to the output, folded over the visit order. An error stops
  the walk at the first block that fails, as `?` and `unwrap` do.
 */
module BlockWalk {
  import opened Wrappers
  import opened Pixels
  import opened Utils

  /** The block size used when none is given. */
  function ResolveBlockSize(blockSize: Option<BlockSize>): (bs: BlockSize)
    ensures blockSize.None? ==> bs == (12, 12)
    ensures blockSize.Some? ==> bs == blockSize.value
  {
    blockSize.GetOr((12, 12))
  }

  /** Block (i, j): column i, row j; its cell has its top-left pixel at (i*bw, j*bh). */
  type Block = (nat, nat)

  /** The blocks (i, 0), ..., (i, j-1): what the inner loop visits in column i before row j. */
  function Column(i: nat, j: nat): (c: seq<Block>)
    ensures |c| == j && forall k :: 0 <= k < j ==> c[k] == (i, k)
  {
    seq(j, k => (i, k))
  }

  /** Every block of the first nx columns, in visit order. */
  function BlockOrder(nx: nat, ny: nat): seq<Block>
  {
    if nx == 0 then [] else BlockOrder(nx - 1, ny) + Column(nx - 1, ny)
  }

  /** The walk visits nx*ny blocks. */
  lemma {:induction false} BlockOrderLength(nx: nat, ny: nat)
    ensures |BlockOrder(nx, ny)| == nx * ny
  {
    if nx > 0 {
      BlockOrderLength(nx - 1, ny);
      assert nx * ny == (nx - 1) * ny + ny;
    }
  }

  /** The blocks visited before block (i, j). */
  function Visited(i: nat, j: nat, ny: nat): seq<Block>
  {
    BlockOrder(i, ny) + Column(i, j)
  }

  /** The position of block (i, j) in column-major order over columns of ny blocks. */
  function Rank(i: nat, j: nat, ny: nat): nat
  {
    i * ny + j
  }

  /** Block (i, j) is the (i*ny + j)-th block visited. */
  lemma {:induction false} BlockOrderAt(nx: nat, ny: nat, i: nat, j: nat)
    requires i < nx && j < ny
    ensures Rank(i, j, ny) < |BlockOrder(nx, ny)| && BlockOrder(nx, ny)[Rank(i, j, ny)] == (i, j)
  {
    BlockOrderLength(nx - 1, ny);
    if i < nx - 1 {
      BlockOrderAt(nx - 1, ny, i, j);
    } else {
      assert i * ny == (nx - 1) * ny;
    }
  }

  /** The walk visits exactly the blocks (i, j) with i < nx and j < ny ... */
  lemma {:induction false} BlockOrderMembers(nx: nat, ny: nat, b: Block)
    ensures b in BlockOrder(nx, ny) <==> b.0 < nx && b.1 < ny
  {
    if nx > 0 {
      BlockOrderMembers(nx - 1, ny, b);
      if b.0 == nx - 1 && b.1 < ny {
        assert Column(nx - 1, ny)[b.1] == b;
      }
    }
  }

  /** ... and none of them twice. */
  lemma {:induction false} BlockOrderDistinct(nx: nat, ny: nat, k1: nat, k2: nat)
    requires k1 < k2 < |BlockOrder(nx, ny)|
    ensures BlockOrder(nx, ny)[k1] != BlockOrder(nx, ny)[k2]
  {
    var prev := BlockOrder(nx - 1, ny);
    assert BlockOrder(nx, ny) == prev + Column(nx - 1, ny);
    if k2 < |prev| {
      BlockOrderDistinct(nx - 1, ny, k1, k2);
    } else if k1 < |prev| {
      BlockOrderMembers(nx - 1, ny, prev[k1]);
      assert prev[k1] in prev;
    }
  }

  /** The blocks visited before (i, j) are the first ones of the whole walk. */
  lemma {:induction false} VisitedPrefix(nx: nat, ny: nat, i: nat, j: nat)
    requires i < nx && j <= ny
    ensures Visited(i, j, ny) <= BlockOrder(nx, ny)
  {
    if i == nx - 1 {
      assert Column(i, j) <= Column(i, ny);
    } else {
      VisitedPrefix(nx - 1, ny, i, j);
      assert Visited(i, j, ny) <= BlockOrder(nx - 1, ny);
    }
  }

  /** The three render modes: monochrome, light or dark, and colourful. */
  datatype Mode = Mono(dark: bool) | Colorful

  datatype WalkSetup = WalkSetup(img: Image, charSet: string, bs: BlockSize, mode: Mode, font: Font)

  /** One run of a walker, after the block size is resolved and found non-zero. */
  type Walk = w: WalkSetup | w.bs.0 > 0 && w.bs.1 > 0
    witness WalkSetup(Grid(0, 0, []), [], (1, 1), Colorful, Font([], true))

  /**
    The brightness a block is quantised by: the pooled mean in monochrome mode,
    the average of the three channel means in colourful mode.
   */
  function BlockMean(w: Walk, b: Block): (m: real)
    ensures 0.0 <= m <= 255.0
  {
    var (x, y) := (Origin(b.0, w.bs.0), Origin(b.1, w.bs.1));
    match w.mode
    case Mono(_) => SubImageMean(w.img, x, y, w.bs.0, w.bs.1)
    case Colorful =>
      var m := SubImageMeanRgb(w.img, x, y, w.bs.0, w.bs.1);
      (m.0 + m.1 + m.2) / 3.0
  }

  /** Both modes quantise a block by the same brightness: its pooled mean. */
  lemma BlockMeanPooled(w: Walk, b: Block)
    ensures BlockMean(w, b) == SubImageMean(w.img, Origin(b.0, w.bs.0), Origin(b.1, w.bs.1), w.bs.0, w.bs.1)
  {
    MeanRgbAverage(w.img, Origin(b.0, w.bs.0), Origin(b.1, w.bs.1), w.bs.0, w.bs.1);
  }

  function BlockChar(w: Walk, b: Block): Option<char>
  {
    GetChar(w.charSet, BlockMean(w, b))
  }

  /** The colour override each mode passes to `write_text`, and its dark-mode flag. */
  function GlyphColour(mode: Mode): (c: Rgb)
    ensures mode.Mono? ==> c == if mode.dark then White else Black
    ensures mode.Colorful? ==> c == Black
  {
    match mode
    case Mono(dark) => StrokeColour(None, dark)
    case Colorful => StrokeColour(Some(Black), false)
  }

  /** The glyph command for character c in block b: at the cell's origin, scaled to the cell. */
  function GlyphAt(w: Walk, b: Block, c: char): Glyph
  {
    Glyph([c], Origin(b.0, w.bs.0), Origin(b.1, w.bs.1), GlyphColour(w.mode), GlyphScale(w.bs))
  }

  /** One block: pick its character (may panic), then draw it (may fail to parse the font). */
  function BlockStep(w: Walk, b: Block): (r: Result<Glyph, Error>)
    ensures r.Ok? <==> BlockChar(w, b).Some? && w.font.wellFormed
  {
    match BlockChar(w, b)
    case None => Err(CharIndexOutOfRange)
    case Some(c) => if w.font.wellFormed then Ok(GlyphAt(w, b, c)) else Err(FontError)
  }

  /** The glyph commands of a walk over `order`, or the error of the first block that fails. */
  function Commands(w: Walk, order: seq<Block>): Result<seq<Glyph>, Error>
  {
    if order == [] then Ok([])
    else
      match BlockStep(w, order[0])
      case Err(e) => Err(e)
      case Ok(g) =>
        match Commands(w, order[1..])
        case Err(e) => Err(e)
        case Ok(gs) => Ok([g] + gs)
  }

  /** Visiting one more block either keeps an earlier error, adds its error, or appends its glyph. */
  lemma {:induction false} CommandsSnoc(w: Walk, order: seq<Block>, b: Block)
    ensures Commands(w, order + [b]) ==
      match Commands(w, order)
      case Err(e) => Err(e)
      case Ok(gs) =>
        match BlockStep(w, b)
        case Err(e) => Err(e)
        case Ok(g) => Ok(gs + [g])
  {
    if order != [] {
      assert (order + [b])[0] == order[0];
      assert (order + [b])[1..] == order[1..] + [b];
      CommandsSnoc(w, order[1..], b);
      if BlockStep(w, order[0]).Ok? && Commands(w, order[1..]).Ok? && BlockStep(w, b).Ok? {
        var g, gs, g' := BlockStep(w, order[0]).value, Commands(w, order[1..]).value, BlockStep(w, b).value;
        assert [g] + (gs + [g']) == ([g] + gs) + [g'];
      }
    } else {
      assert order + [b] == [b] && [b][1..] == [];
      assert Commands(w, []) == Ok([]);
      if BlockStep(w, b).Ok? {
        var g := BlockStep(w, b).value;
        assert [g] + [] == [] + [g];
      }
    }
  }

  /** Once a block has failed, the blocks after it change nothing. */
  lemma {:induction false} CommandsErrSticks(w: Walk, order: seq<Block>, rest: seq<Block>)
    requires Commands(w, order).Err?
    ensures Commands(w, order + rest) == Commands(w, order)
  {
    assert order != [];
    assert (order + rest)[0] == order[0];
    assert (order + rest)[1..] == order[1..] + rest;
    if BlockStep(w, order[0]).Ok? {
      CommandsErrSticks(w, order[1..], rest);
    }
  }

  /** A walk succeeds exactly when every block's step does; then it issues one glyph per block, in order. */
  lemma {:induction false} CommandsOk(w: Walk, order: seq<Block>)
    ensures Commands(w, order).Ok? <==> forall k :: 0 <= k < |order| ==> BlockStep(w, order[k]).Ok?
    ensures Commands(w, order).Ok? ==>
      |Commands(w, order).value| == |order| &&
      forall k :: 0 <= k < |order| ==> Commands(w, order).value[k] == BlockStep(w, order[k]).value
  {
    if order != [] {
      CommandsOk(w, order[1..]);
      assert forall k :: 0 < k < |order| ==> order[k] == order[1..][k - 1];
    }
  }

  /** The walker loop's step on success: the visited prefix grows by block (i, j) and its glyph. */
  lemma StepOk(w: Walk, i: nat, j: nat, ny: nat, gs: seq<Glyph>)
    requires Commands(w, Visited(i, j, ny)) == Ok(gs) && BlockStep(w, (i, j)).Ok?
    ensures Commands(w, Visited(i, j + 1, ny)) == Ok(gs + [BlockStep(w, (i, j)).value])
  {
    assert Visited(i, j + 1, ny) == Visited(i, j, ny) + [(i, j)];
    CommandsSnoc(w, Visited(i, j, ny), (i, j));
  }

  /** The walker loop's step on failure: the whole walk fails with this block's error. */
  lemma StepErr(w: Walk, nx: nat, ny: nat, i: nat, j: nat, gs: seq<Glyph>)
    requires i < nx && j < ny
    requires Commands(w, Visited(i, j, ny)) == Ok(gs) && BlockStep(w, (i, j)).Err?
    ensures Commands(w, BlockOrder(nx, ny)) == Err(BlockStep(w, (i, j)).error)
  {
    var done := Visited(i, j + 1, ny);
    assert done == Visited(i, j, ny) + [(i, j)];
    CommandsSnoc(w, Visited(i, j, ny), (i, j));
    VisitedPrefix(nx, ny, i, j + 1);
    var all := BlockOrder(nx, ny);
    assert all == done + all[|done|..];
    CommandsErrSticks(w, done, all[|done|..]);
  }

  /** What a walker's loops compute after the last column is the run's result. */
  lemma RenderIsWalk(img: Image, charSet: string, blockSize: Option<BlockSize>, mode: Mode, font: Font)
    requires var bs := ResolveBlockSize(blockSize); bs.0 > 0 && bs.1 > 0
    ensures var bs := ResolveBlockSize(blockSize);
            var n := GetBlocksNum(img, bs);
            Render(img, charSet, blockSize, mode, font) == Commands(WalkSetup(img, charSet, bs, mode, font), Visited(n.0, 0, n.1))
  {
    var bs := ResolveBlockSize(blockSize);
    var n := GetBlocksNum(img, bs);
    assert Visited(n.0, 0, n.1) == BlockOrder(n.0, n.1);
  }

  /** The column loop's step: a finished column is the start of the next one. */
  lemma ColumnDone(i: nat, ny: nat)
    ensures Visited(i, ny, ny) == Visited(i + 1, 0, ny)
  {
  }

  /**
    What a walker computes, besides its raster: the block size is resolved, a
    zero dimension panics in `get_blocks_num`, and then every whole block is
    visited in order.
   */
  function Render(img: Image, charSet: string, blockSize: Option<BlockSize>, mode: Mode, font: Font)
    : Result<seq<Glyph>, Error>
  {
    var bs := ResolveBlockSize(blockSize);
    if bs.0 == 0 || bs.1 == 0 then Err(DivisionByZero)
    else
      var n := GetBlocksNum(img, bs);
      Commands(WalkSetup(img, charSet, bs, mode, font), BlockOrder(n.0, n.1))
  }

  /** The walk visits no block at all exactly when the grid has no column or no row. */
  lemma {:induction false} BlockOrderEmpty(nx: nat, ny: nat)
    ensures BlockOrder(nx, ny) == [] <==> nx == 0 || ny == 0
  {
    if nx > 0 {
      BlockOrderEmpty(nx - 1, ny);
      if ny > 0 {
        assert Column(nx - 1, ny)[0] == (nx - 1, 0);
      }
    }
  }

  /**
    A walk over the nx-by-ny grid succeeds exactly when it has no block at all,
    or the font parses and every block's character lookup succeeds.
   */
  lemma WalkOk(w: Walk, nx: nat, ny: nat)
    ensures Commands(w, BlockOrder(nx, ny)).Ok?
        <==> nx == 0 || ny == 0 || (w.font.wellFormed && forall i: nat, j: nat :: i < nx && j < ny ==> BlockChar(w, (i, j)).Some?)
  {
    var o := BlockOrder(nx, ny);
    CommandsOk(w, o);
    BlockOrderEmpty(nx, ny);
    if o != [] {
      BlockOrderMembers(nx, ny, o[0]);
      if Commands(w, o).Ok? {
        forall i: nat, j: nat | i < nx && j < ny ensures BlockChar(w, (i, j)).Some? {
          BlockOrderMembers(nx, ny, (i, j));
        }
      } else if w.font.wellFormed && forall i: nat, j: nat :: i < nx && j < ny ==> BlockChar(w, (i, j)).Some? {
        forall k | 0 <= k < |o| ensures BlockStep(w, o[k]).Ok? {
          BlockOrderMembers(nx, ny, o[k]);
        }
      }
    }
  }

  /**
    A successful walk issues exactly nx*ny glyph commands; the (i*ny + j)-th is
    block (i, j)'s character at the cell origin (i*bw, j*bh).
   */
  lemma WalkGlyphs(w: Walk, nx: nat, ny: nat, i: nat, j: nat)
    requires Commands(w, BlockOrder(nx, ny)).Ok? && i < nx && j < ny
    ensures var gs := Commands(w, BlockOrder(nx, ny)).value;
            |gs| == nx * ny && Rank(i, j, ny) < |gs| && BlockChar(w, (i, j)).Some? &&
            gs[Rank(i, j, ny)] == GlyphAt(w, (i, j), BlockChar(w, (i, j)).value)
  {
    CommandsOk(w, BlockOrder(nx, ny));
    BlockOrderAt(nx, ny, i, j);
    BlockOrderLength(nx, ny);
  }

  /** Every glyph command of a successful walk belongs to a block of the grid and is that block's glyph. */
  lemma WalkGlyphBlock(w: Walk, nx: nat, ny: nat, k: nat)
    requires Commands(w, BlockOrder(nx, ny)).Ok? && k < |BlockOrder(nx, ny)|
    ensures var o := BlockOrder(nx, ny);
            o[k].0 < nx && o[k].1 < ny &&
            |Commands(w, o).value| == |o| && BlockChar(w, o[k]).Some? &&
            Commands(w, o).value[k] == GlyphAt(w, o[k], BlockChar(w, o[k]).value)
  {
    var o := BlockOrder(nx, ny);
    CommandsOk(w, o);
    BlockOrderMembers(nx, ny, o[k]);
  }

  /** No two glyph commands of a successful walk belong to the same block. */
  lemma WalkGlyphsDistinct(w: Walk, nx: nat, ny: nat, k1: nat, k2: nat)
    requires Commands(w, BlockOrder(nx, ny)).Ok? && k1 < k2 < |BlockOrder(nx, ny)|
    ensures var o := BlockOrder(nx, ny);
            |Commands(w, o).value| == |o| && o[k1] != o[k2]
  {
    CommandsOk(w, BlockOrder(nx, ny));
    BlockOrderDistinct(nx, ny, k1, k2);
  }

  /**
    A run succeeds exactly when the block size is non-zero and either no whole
    block fits, or the font parses and every block's pooled mean gives a
    character. The same condition holds in every mode.
   */
  lemma RenderOk(img: Image, charSet: string, blockSize: Option<BlockSize>, mode: Mode, font: Font)
    ensures Render(img, charSet, blockSize, mode, font).Ok? <==>
      var bs := ResolveBlockSize(blockSize);
      bs.0 > 0 && bs.1 > 0 &&
      var n := GetBlocksNum(img, bs);
      (n.0 == 0 || n.1 == 0 ||
       (font.wellFormed &&
        forall i: nat, j: nat :: i < n.0 && j < n.1 ==>
          GetChar(charSet, SubImageMean(img, Origin(i, bs.0), Origin(j, bs.1), bs.0, bs.1)).Some?))
  {
    var bs := ResolveBlockSize(blockSize);
    if bs.0 > 0 && bs.1 > 0 {
      var w: Walk := WalkSetup(img, charSet, bs, mode, font);
      var n := GetBlocksNum(img, bs);
      WalkOkPooled(w, n.0, n.1);
    }
  }

  /** `WalkOk` with each block's character written out as the lookup of its pooled mean. */
  lemma WalkOkPooled(w: Walk, nx: nat, ny: nat)
    ensures Commands(w, BlockOrder(nx, ny)).Ok? <==>
      nx == 0 || ny == 0 ||
      (w.font.wellFormed &&
       forall i: nat, j: nat :: i < nx && j < ny ==>
         GetChar(w.charSet, SubImageMean(w.img, Origin(i, w.bs.0), Origin(j, w.bs.1), w.bs.0, w.bs.1)).Some?)
  {
    WalkOk(w, nx, ny);
    CharsPooled(w, nx, ny);
  }

  lemma CharsPooled(w: Walk, nx: nat, ny: nat)
    ensures (forall i: nat, j: nat :: i < nx && j < ny ==> BlockChar(w, (i, j)).Some?) <==>
            (forall i: nat, j: nat :: i < nx && j < ny ==>
               GetChar(w.charSet, SubImageMean(w.img, Origin(i, w.bs.0), Origin(j, w.bs.1), w.bs.0, w.bs.1)).Some?)
  {
    forall i: nat, j: nat | i < nx && j < ny
      ensures BlockChar(w, (i, j)) == GetChar(w.charSet, SubImageMean(w.img, Origin(i, w.bs.0), Origin(j, w.bs.1), w.bs.0, w.bs.1))
    {
      BlockMeanPooled(w, (i, j));
    }
  }

  /**
    On success there is one glyph command per whole block: the (i*ny + j)-th is
    block (i, j)'s character, chosen by its pooled mean, at its cell's origin,
    in the mode's colour and scaled one pixel short of the cell.
   */
  lemma RenderGlyphAt(img: Image, charSet: string, blockSize: Option<BlockSize>, mode: Mode, font: Font, i: nat, j: nat)
    requires Render(img, charSet, blockSize, mode, font).Ok?
    requires var bs := ResolveBlockSize(blockSize);
             bs.0 > 0 && bs.1 > 0 && i < GetBlocksNum(img, bs).0 && j < GetBlocksNum(img, bs).1
    ensures var bs := ResolveBlockSize(blockSize);
            var n := GetBlocksNum(img, bs);
            var gs := Render(img, charSet, blockSize, mode, font).value;
            var c := GetChar(charSet, SubImageMean(img, Origin(i, bs.0), Origin(j, bs.1), bs.0, bs.1));
            |gs| == n.0 * n.1 && Rank(i, j, n.1) < |gs| && c.Some? &&
            gs[Rank(i, j, n.1)] == Glyph([c.value], Origin(i, bs.0), Origin(j, bs.1), GlyphColour(mode), GlyphScale(bs))
  {
    var bs := ResolveBlockSize(blockSize);
    var w: Walk := WalkSetup(img, charSet, bs, mode, font);
    var n := GetBlocksNum(img, bs);
    WalkGlyphs(w, n.0, n.1, i, j);
    BlockMeanPooled(w, (i, j));
  }

  /** An image narrower or lower than one block yields no glyph and no error, whatever the font. */
  lemma RenderSmallImage(img: Image, charSet: string, blockSize: Option<BlockSize>, mode: Mode, font: Font)
    requires var bs := ResolveBlockSize(blockSize);
             bs.0 > 0 && bs.1 > 0 && (img.width < bs.0 || img.height < bs.1)
    ensures Render(img, charSet, blockSize, mode, font) == Ok([])
  {
    var bs := ResolveBlockSize(blockSize);
    var n := GetBlocksNum(img, bs);
    if img.width < bs.0 {
      SmallQuotient(img.width, bs.0);
    } else {
      SmallQuotient(img.height, bs.1);
    }
    BlockOrderEmpty(n.0, n.1);
  }

  lemma SmallQuotient(a: nat, b: nat)
    requires a < b
    ensures a / b == 0
  {
  }

  /** With a non-empty ASCII character set and a font that parses, a run never fails. */
  lemma RenderAscii(img: Image, charSet: string, blockSize: Option<BlockSize>, mode: Mode, font: Font)
    requires |charSet| >= 1 && IsAscii(charSet) && font.wellFormed
    requires var bs := ResolveBlockSize(blockSize); bs.0 > 0 && bs.1 > 0
    ensures Render(img, charSet, blockSize, mode, font).Ok?
  {
    RenderOk(img, charSet, blockSize, mode, font);
    forall m: real ensures GetChar(charSet, m).Some? {
      GetCharAscii(charSet, m);
    }
  }

  /** A zero block dimension panics before anything is drawn. */
  lemma RenderZeroBlock(img: Image, charSet: string, blockSize: Option<BlockSize>, mode: Mode, font: Font)
    requires var bs := ResolveBlockSize(blockSize); bs.0 == 0 || bs.1 == 0
    ensures Render(img, charSet, blockSize, mode, font) == Err(DivisionByZero)
  {
  }
}
