/** Tile signatures. A tile image of at least TileWidth x TileHeight pixels is
    reduced to a ScaledWidth x ScaledHeight grid of colours; grid cell (x, y) is
    the per-channel average of the TileScale x TileScale block whose top-left
    corner is (x * TileScale, y * TileScale). */
module Tiles {
  import opened Pixels
  import opened Raster

  const TileWidth: nat := 90
  const TileHeight: nat := 90
  const TileScale: nat := 9
  const ScaledWidth: nat := TileWidth / TileScale
  const ScaledHeight: nat := TileHeight / TileScale
  /** Number of source pixels averaged into one cell. */
  const CellArea: nat := TileScale * TileScale

  datatype Channel = Red | Green | Blue

  function ChannelOf(ch: Channel, rgb: Word): (v: int)
    ensures IsChannel(v)
  {
    match ch
    case Red => GetRed(rgb)
    case Green => GetGreen(rgb)
    case Blue => GetBlue(rgb)
  }

  /** An image large enough to have a signature. */
  predicate IsTileImage(img: Image) {
    img.width >= TileWidth && img.height >= TileHeight
  }

  /** Channel `ch` summed over the n pixels (x, y), (x, y + 1), ..., (x, y + n - 1). */
  function ColumnSum(img: Image, x: nat, y: nat, ch: Channel, n: nat): int
    requires x < img.width && y + n <= img.height
  {
    if n == 0 then 0 else ColumnSum(img, x, y, ch, n - 1) + ChannelOf(ch, At(img, x, y + n - 1))
  }

  /** Channel `ch` summed over the m columns x .. x + m - 1 of the block rows y .. y + TileScale - 1. */
  function BlockSum(img: Image, x: nat, y: nat, ch: Channel, m: nat): int
    requires x + m <= img.width && y + TileScale <= img.height
  {
    if m == 0 then 0 else BlockSum(img, x, y, ch, m - 1) + ColumnSum(img, x + m - 1, y, ch, TileScale)
  }

  /** The colour of the block with top-left corner (x, y): each channel is the
      block's channel sum divided by CellArea, truncated. */
  function BlockAverage(img: Image, x: nat, y: nat): (p: Pixel)
    requires x + TileScale <= img.width && y + TileScale <= img.height
    ensures InRange(p)
  {
    AverageIsChannel(img, x, y, Red);
    AverageIsChannel(img, x, y, Green);
    AverageIsChannel(img, x, y, Blue);
    Pixel(BlockSum(img, x, y, Red, TileScale) / CellArea,
          BlockSum(img, x, y, Green, TileScale) / CellArea,
          BlockSum(img, x, y, Blue, TileScale) / CellArea)
  }

  /** Signature cell (cx, cy) of a tile image. */
  function SignatureCell(img: Image, cx: nat, cy: nat): Pixel
    requires IsTileImage(img) && cx < ScaledWidth && cy < ScaledHeight
  {
    BlockAverage(img, cx * TileScale, cy * TileScale)
  }

  lemma {:induction false} ColumnSumBounds(img: Image, x: nat, y: nat, ch: Channel, n: nat)
    requires x < img.width && y + n <= img.height
    ensures 0 <= ColumnSum(img, x, y, ch, n) <= 255 * n
  {
    if n > 0 {
      ColumnSumBounds(img, x, y, ch, n - 1);
    }
  }

  /** A block sum is at most 255 per pixel summed. */
  lemma {:induction false} BlockSumBounds(img: Image, x: nat, y: nat, ch: Channel, m: nat)
    requires x + m <= img.width && y + TileScale <= img.height
    ensures 0 <= BlockSum(img, x, y, ch, m) <= (255 * TileScale) * m
  {
    if m > 0 {
      BlockSumBounds(img, x, y, ch, m - 1);
      ColumnSumBounds(img, x + m - 1, y, ch, TileScale);
    }
  }

  /** Each averaged channel fits in a byte. */
  lemma AverageIsChannel(img: Image, x: nat, y: nat, ch: Channel)
    requires x + TileScale <= img.width && y + TileScale <= img.height
    ensures IsChannel(BlockSum(img, x, y, ch, TileScale) / CellArea)
  {
    BlockSumBounds(img, x, y, ch, TileScale);
  }

  /** A block of one colour sums to that colour's channel value times the block size. */
  lemma {:induction false} UniformColumnSum(img: Image, x: nat, y: nat, ch: Channel, n: nat, c: Word)
    requires x < img.width && y + n <= img.height
    requires forall j | y <= j < y + n :: At(img, x, j) == c
    ensures ColumnSum(img, x, y, ch, n) == n * ChannelOf(ch, c)
  {
    if n > 0 {
      UniformColumnSum(img, x, y, ch, n - 1, c);
      var v := ChannelOf(ch, c);
      assert ChannelOf(ch, At(img, x, y + n - 1)) == v;
      assert (n - 1) * v + v == n * v;
    }
  }

  lemma {:induction false} UniformBlockSum(img: Image, x: nat, y: nat, ch: Channel, m: nat, c: Word)
    requires x + m <= img.width && y + TileScale <= img.height
    requires forall i, j | x <= i < x + m && y <= j < y + TileScale :: At(img, i, j) == c
    ensures BlockSum(img, x, y, ch, m) == m * (TileScale * ChannelOf(ch, c))
  {
    if m > 0 {
      UniformBlockSum(img, x, y, ch, m - 1, c);
      UniformColumnSum(img, x + m - 1, y, ch, TileScale, c);
      var k := TileScale * ChannelOf(ch, c);
      assert (m - 1) * k + k == m * k;
    }
  }

  /** A block filled with one colour averages to exactly that colour. */
  lemma UniformBlockAverage(img: Image, x: nat, y: nat, c: Word)
    requires x + TileScale <= img.width && y + TileScale <= img.height
    requires forall i, j | x <= i < x + TileScale && y <= j < y + TileScale :: At(img, i, j) == c
    ensures BlockAverage(img, x, y) == Decode(c)
  {
    UniformBlockSum(img, x, y, Red, TileScale, c);
    UniformBlockSum(img, x, y, Green, TileScale, c);
    UniformBlockSum(img, x, y, Blue, TileScale, c);
  }

  /** A uniformly coloured tile image has that colour in every signature cell. */
  lemma UniformSignature(img: Image, c: Word, cx: nat, cy: nat)
    requires IsTileImage(img) && cx < ScaledWidth && cy < ScaledHeight
    requires forall i, j | 0 <= i < img.width && 0 <= j < img.height :: At(img, i, j) == c
    ensures SignatureCell(img, cx, cy) == Decode(c)
  {
    UniformBlockAverage(img, cx * TileScale, cy * TileScale, c);
  }

  /** Two images that agree on a column run have the same run sum. */
  lemma {:induction false} ColumnSumLocal(a: Image, b: Image, x: nat, y: nat, ch: Channel, n: nat)
    requires x < a.width && y + n <= a.height && x < b.width && y + n <= b.height
    requires forall j | y <= j < y + n :: At(a, x, j) == At(b, x, j)
    ensures ColumnSum(a, x, y, ch, n) == ColumnSum(b, x, y, ch, n)
  {
    if n > 0 {
      ColumnSumLocal(a, b, x, y, ch, n - 1);
    }
  }

  lemma {:induction false} BlockSumLocal(a: Image, b: Image, x: nat, y: nat, ch: Channel, m: nat)
    requires x + m <= a.width && y + TileScale <= a.height && x + m <= b.width && y + TileScale <= b.height
    requires forall i, j | x <= i < x + m && y <= j < y + TileScale :: At(a, i, j) == At(b, i, j)
    ensures BlockSum(a, x, y, ch, m) == BlockSum(b, x, y, ch, m)
  {
    if m > 0 {
      BlockSumLocal(a, b, x, y, ch, m - 1);
      ColumnSumLocal(a, b, x + m - 1, y, ch, TileScale);
    }
  }

  /** Signature cell (cx, cy) depends only on the source pixels in
      [cx * TileScale, cx * TileScale + TileScale) x [cy * TileScale, cy * TileScale + TileScale). */
  lemma SignatureCellLocal(a: Image, b: Image, cx: nat, cy: nat)
    requires IsTileImage(a) && IsTileImage(b) && cx < ScaledWidth && cy < ScaledHeight
    requires forall i, j | cx * TileScale <= i < cx * TileScale + TileScale && cy * TileScale <= j < cy * TileScale + TileScale ::
      At(a, i, j) == At(b, i, j)
    ensures SignatureCell(a, cx, cy) == SignatureCell(b, cx, cy)
  {
    var x, y := cx * TileScale, cy * TileScale;
    BlockSumLocal(a, b, x, y, Red, TileScale);
    BlockSumLocal(a, b, x, y, Green, TileScale);
    BlockSumLocal(a, b, x, y, Blue, TileScale);
  }

  /** The signature grid is exactly tiled by the blocks: TileWidth is ScaledWidth
      blocks of TileScale pixels, so every block read lies inside the tile area. */
  lemma SignatureGridFitsTile(cx: nat, cy: nat)
    requires cx < ScaledWidth && cy < ScaledHeight
    ensures ScaledWidth == 10 && ScaledHeight == 10
    ensures 0 <= cx * TileScale && cx * TileScale + TileScale <= TileWidth
    ensures 0 <= cy * TileScale && cy * TileScale + TileScale <= TileHeight
  {
  }

  /** A tile: the full-resolution image and its signature grid. */
  class Tile {
    const image: Image
    const pixels: array2<Pixel>

    /** `pixels` holds the signature of `image`. */
    ghost predicate Valid()
      reads pixels
    {
      IsTileImage(image) &&
      pixels.Length0 == ScaledWidth && pixels.Length1 == ScaledHeight &&
      forall x, y | 0 <= x < ScaledWidth && 0 <= y < ScaledHeight :: pixels[x, y] == SignatureCell(image, x, y)
    }

    /** Keeps the image and computes its signature. Reading the blocks needs an
        image of at least TileWidth x TileHeight pixels. */
    constructor (image: Image)
      requires IsTileImage(image)
      ensures this.image == image
      ensures fresh(pixels) && Valid()
    {
      this.image := image;
      pixels := new Pixel[ScaledWidth, ScaledHeight];
      new;
      CalcPixels();
    }

    /** Fills every grid cell (x, y) from the block at (x * TileScale, y * TileScale). */
    method CalcPixels()
      requires IsTileImage(image)
      requires pixels.Length0 == ScaledWidth && pixels.Length1 == ScaledHeight
      modifies pixels
      ensures Valid()
    {
      for x := 0 to ScaledWidth
        invariant forall i, j | 0 <= i < x && 0 <= j < ScaledHeight :: pixels[i, j] == SignatureCell(image, i, j)
      {
        for y := 0 to ScaledHeight
          invariant forall i, j | 0 <= i < x && 0 <= j < ScaledHeight :: pixels[i, j] == SignatureCell(image, i, j)
          invariant forall j | 0 <= j < y :: pixels[x, j] == SignatureCell(image, x, j)
        {
          pixels[x, y] := CalcPixel(x * TileScale, y * TileScale);
        }
      }
    }

    /** Averages the TileScale x TileScale block whose top-left corner is (x, y),
        accumulating the three channel totals column by column. */
    method CalcPixel(x: nat, y: nat) returns (p: Pixel)
      requires x + TileScale <= image.width && y + TileScale <= image.height
      ensures p == BlockAverage(image, x, y)
    {
      var redTotal, greenTotal, blueTotal := 0, 0, 0;
      for i := 0 to TileScale
        invariant redTotal == BlockSum(image, x, y, Red, i)
        invariant greenTotal == BlockSum(image, x, y, Green, i)
        invariant blueTotal == BlockSum(image, x, y, Blue, i)
      {
        for j := 0 to TileScale
          invariant redTotal == BlockSum(image, x, y, Red, i) + ColumnSum(image, x + i, y, Red, j)
          invariant greenTotal == BlockSum(image, x, y, Green, i) + ColumnSum(image, x + i, y, Green, j)
          invariant blueTotal == BlockSum(image, x, y, Blue, i) + ColumnSum(image, x + i, y, Blue, j)
        {
          var rgb := At(image, x + i, y + j);
          redTotal := redTotal + GetRed(rgb);
          greenTotal := greenTotal + GetGreen(rgb);
          blueTotal := blueTotal + GetBlue(rgb);
        }
      }
      var count := TileScale * TileScale;
      p := Pixel(redTotal / count, greenTotal / count, blueTotal / count);
    }
  }
}
