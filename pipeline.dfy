/** The whole photomosaic: partition the target into blocks, match each block
    to its best tile, and composite the tiles on the enlarged canvas. The
    blocks are held in a hash set, so they are matched and composited in an
    order nobody chooses; here that order is a parameter, and every property
    holds for all orders. */
module Pipeline {
  import opened Wrappers
  import opened Pixels
  import opened Raster
  import opened Tiles
  import opened Matching
  import opened Partition
  import opened Output
  import opened Compositor

  /** Every part of the partition has exactly the size the score expects. */
  lemma BlocksAreBlocks(input: Image)
    ensures AllBlocks(Blocks(input))
  {
    BlockIsSignatureGrid();
  }

  /** `order` lists 0 .. n - 1, each exactly once, and `inv` gives each one's place in it. */
  predicate Reorders(order: seq<nat>, inv: seq<nat>, n: nat) {
    |order| == n && |inv| == n &&
    (forall k | 0 <= k < n :: order[k] < n && inv[order[k]] == k) &&
    (forall b | 0 <= b < n :: inv[b] < n && order[inv[b]] == b)
  }

  /** The partition's own order is one such order. */
  lemma InOrderReorders(n: nat)
    ensures Reorders(seq(n, k => k), seq(n, k => k), n)
  {
  }

  /** The elements of `s` in the order `order` visits them. */
  function Reorder(s: seq<Part>, order: seq<nat>): (r: seq<Part>)
    requires forall k | 0 <= k < |order| :: order[k] < |s|
    ensures |r| == |order|
    ensures forall k | 0 <= k < |order| :: r[k] == s[order[k]]
  {
    seq(|order|, k requires 0 <= k < |order| => s[order[k]])
  }

  /** `parts` holds one tile-sized image per block, at that block's position:
      part k stands for block order[k]. */
  predicate Placed(parts: seq<Part>, blocks: seq<Part>, order: seq<nat>, inv: seq<nat>) {
    Reorders(order, inv, |blocks|) && |parts| == |blocks| &&
    forall k | 0 <= k < |parts| ::
      order[k] < |blocks| &&
      parts[k].x == blocks[order[k]].x && parts[k].y == blocks[order[k]].y && IsTileImage(parts[k].image)
  }

  /** Matching the blocks in any order places a tile image at every block's position. */
  lemma MatchAllPlaced(inputs: seq<Part>, imgs: seq<Image>, bw: bool, order: seq<nat>, inv: seq<nat>)
    requires AllBlocks(inputs) && AllTileImages(imgs) && |imgs| > 0
    requires Reorders(order, inv, |inputs|)
    ensures AllBlocks(Reorder(inputs, order))
    ensures Placed(MatchAll(Reorder(inputs, order), imgs, bw), inputs, order, inv)
  {
    var visited := Reorder(inputs, order);
    var parts := MatchAll(visited, imgs, bw);
    forall k | 0 <= k < |parts|
      ensures parts[k].x == inputs[order[k]].x && parts[k].y == inputs[order[k]].y && IsTileImage(parts[k].image)
    {
      MatchAllAt(visited, imgs, bw, k);
    }
  }

  /** Parts at distinct block-grid positions whose windows lie on the canvas. */
  predicate WellPlaced(parts: seq<Part>, width: nat, height: nat) {
    (forall k | 0 <= k < |parts| :: WindowFits(parts[k], width, height) && Aligned(parts[k])) &&
    DistinctPositions(parts)
  }

  /** Parts placed at the partition's blocks, in any order, sit on the block grid
      at distinct positions, and each one's window lies on the canvas. */
  lemma BlocksWellPlaced(input: Image, parts: seq<Part>, order: seq<nat>, inv: seq<nat>)
    requires Placed(parts, Blocks(input), order, inv)
    ensures WellPlaced(parts, input.width, input.height)
  {
    var os := PartitionOrigins(input.width, input.height);
    forall k | 0 <= k < |parts|
      ensures parts[k].x == os[order[k]].0 && parts[k].y == os[order[k]].1
    {
    }
    forall k | 0 <= k < |parts|
      ensures WindowFits(parts[k], input.width, input.height) && Aligned(parts[k])
    {
      PartitionOriginsFit(input.width, input.height, order[k]);
    }
    OriginsDistinct(input.width / BlockWidth, input.height / BlockHeight);
    forall a, b | 0 <= a < b < |parts|
      ensures parts[a].x != parts[b].x || parts[a].y != parts[b].y
    {
      assert inv[order[a]] == a && inv[order[b]] == b;
      if order[a] < order[b] {
        assert os[order[a]] != os[order[b]];
      } else {
        assert os[order[b]] != os[order[a]];
      }
    }
  }

  /** Inside the window of block b, the canvas shows the tile placed for that
      block, whatever order the parts are composited in. */
  lemma MosaicPixel(input: Image, parts: seq<Part>, order: seq<nat>, inv: seq<nat>, b: nat, i: nat, j: nat)
    requires Placed(parts, Blocks(input), order, inv)
    requires b < |parts|
    requires i < TileWidth && j < TileHeight
    ensures inv[b] < |parts|
    ensures CanvasAt(parts, TileScale * Blocks(input)[b].x + i, TileScale * Blocks(input)[b].y + j) ==
      At(parts[inv[b]].image, i, j)
  {
    BlocksWellPlaced(input, parts, order, inv);
    CanvasShowsTile(parts, inv[b], i, j);
  }

  /** The canvas strips to the right of and below the last whole block column
      and row are never written and keep the background. */
  lemma MosaicMargin(input: Image, parts: seq<Part>, order: seq<nat>, inv: seq<nat>, i: int, j: int)
    requires Placed(parts, Blocks(input), order, inv)
    requires i >= TileWidth * (input.width / BlockWidth) || j >= TileHeight * (input.height / BlockHeight)
    ensures CanvasAt(parts, i, j) == Background
  {
    var os := PartitionOrigins(input.width, input.height);
    var cols, rows := input.width / BlockWidth, input.height / BlockHeight;
    forall q | 0 <= q < |parts| ensures !InWindow(parts[q], i, j) {
      OriginsShape(cols, rows, order[q]);
      assert parts[q].x == os[order[q]].0 && parts[q].y == os[order[q]].1;
      var ox, oy := parts[q].x / BlockWidth, parts[q].y / BlockHeight;
      assert parts[q].x == BlockWidth * ox && parts[q].y == BlockHeight * oy;
      assert ox + 1 <= cols && oy + 1 <= rows;
      assert TileScale * parts[q].x + TileWidth == TileWidth * (ox + 1) <= TileWidth * cols;
      assert TileScale * parts[q].y + TileHeight == TileHeight * (oy + 1) <= TileHeight * rows;
    }
    CanvasAtUncovered(parts, i, j);
  }

  /** The blocks of a target, matched in any order, are placed at the blocks'
      positions with their windows on the canvas at distinct grid positions, and
      MakeOutputImage composites them exactly when the target has pixels. */
  lemma MosaicComposes(input: Image, imgs: seq<Image>, bw: bool, order: seq<nat>, inv: seq<nat>)
    requires AllTileImages(imgs) && |imgs| > 0
    requires Reorders(order, inv, |Blocks(input)|)
    ensures AllBlocks(Reorder(Blocks(input), order))
    ensures Placed(MatchAll(Reorder(Blocks(input), order), imgs, bw), Blocks(input), order, inv)
    ensures WellPlaced(MatchAll(Reorder(Blocks(input), order), imgs, bw), input.width, input.height)
    ensures Composable(input.width, input.height, MatchAll(Reorder(Blocks(input), order), imgs, bw)) <==>
      input.width > 0 && input.height > 0
  {
    BlocksAreBlocks(input);
    MatchAllPlaced(Blocks(input), imgs, bw, order, inv);
    BlocksWellPlaced(input, MatchAll(Reorder(Blocks(input), order), imgs, bw), order, inv);
  }

  /** The best tile for the target block in block column cx and block row cy. */
  function BlockTile(input: Image, imgs: seq<Image>, bw: bool, cx: nat, cy: nat): (tile: Image)
    requires AllTileImages(imgs) && |imgs| > 0
    requires cx < input.width / BlockWidth && cy < input.height / BlockHeight
    ensures tile in imgs
  {
    var block := SubImage(input, BlockWidth * cx, BlockHeight * cy, BlockWidth, BlockHeight);
    imgs[BestIndex(block, imgs, bw)]
  }

  /** The finished photomosaic at canvas pixel (i, j), defined without any visiting
      order: the canvas is cut into TileWidth x TileHeight windows, window (cx, cy)
      shows the best tile for the target block at (BlockWidth * cx, BlockHeight * cy),
      and where no whole block lies the canvas keeps the background. */
  function PhotomosaicAt(input: Image, imgs: seq<Image>, bw: bool, i: nat, j: nat): Word
    requires AllTileImages(imgs)
  {
    var cx, cy := i / TileWidth, j / TileHeight;
    if |imgs| > 0 && cx < input.width / BlockWidth && cy < input.height / BlockHeight then
      At(BlockTile(input, imgs, bw, cx, cy), i % TileWidth, j % TileHeight)
    else Background
  }

  /** The block in block column cx and block row cy is one of the partition's blocks. */
  lemma BlockOf(input: Image, cx: nat, cy: nat) returns (b: nat)
    requires cx < input.width / BlockWidth && cy < input.height / BlockHeight
    ensures b < |Blocks(input)|
    ensures BlockWidth * cx + BlockWidth <= input.width && BlockHeight * cy + BlockHeight <= input.height
    ensures Blocks(input)[b] ==
      Part(SubImage(input, BlockWidth * cx, BlockHeight * cy, BlockWidth, BlockHeight), BlockWidth * cx, BlockHeight * cy)
  {
    var os := PartitionOrigins(input.width, input.height);
    OriginsComplete(input.width / BlockWidth, input.height / BlockHeight, cx, cy);
    b :| 0 <= b < |os| && os[b] == (BlockWidth * cx, BlockHeight * cy);
    PartitionOriginsFit(input.width, input.height, b);
  }

  /** Block (cx, cy) is partition block b, and whatever the visiting order, the
      part matched for it carries the best tile for that block. */
  lemma MatchedBlock(input: Image, imgs: seq<Image>, bw: bool, order: seq<nat>, inv: seq<nat>, cx: nat, cy: nat)
    returns (b: nat)
    requires AllTileImages(imgs) && |imgs| > 0
    requires Reorders(order, inv, |Blocks(input)|)
    requires cx < input.width / BlockWidth && cy < input.height / BlockHeight
    ensures b < |Blocks(input)| && inv[b] < |Blocks(input)|
    ensures Blocks(input)[b].x == BlockWidth * cx && Blocks(input)[b].y == BlockHeight * cy
    ensures AllBlocks(Reorder(Blocks(input), order))
    ensures MatchAll(Reorder(Blocks(input), order), imgs, bw)[inv[b]].image == BlockTile(input, imgs, bw, cx, cy)
  {
    BlocksAreBlocks(input);
    var blocks := Blocks(input);
    var visited := Reorder(blocks, order);
    b := BlockOf(input, cx, cy);
    var k := inv[b];
    MatchAllAt(visited, imgs, bw, k);
    assert visited[k] == blocks[b];
  }

  /** Offset (a, c) of window (cx, cy) shows the best tile for block (cx, cy),
      whatever order the blocks were matched and composited in. */
  lemma MosaicWindow(input: Image, imgs: seq<Image>, bw: bool, order: seq<nat>, inv: seq<nat>, cx: nat, cy: nat, a: nat, c: nat)
    requires AllTileImages(imgs) && |imgs| > 0
    requires Reorders(order, inv, |Blocks(input)|)
    requires cx < input.width / BlockWidth && cy < input.height / BlockHeight
    requires a < TileWidth && c < TileHeight
    ensures AllBlocks(Reorder(Blocks(input), order))
    ensures CanvasAt(MatchAll(Reorder(Blocks(input), order), imgs, bw), TileWidth * cx + a, TileHeight * cy + c) ==
      At(BlockTile(input, imgs, bw, cx, cy), a, c)
  {
    var b := MatchedBlock(input, imgs, bw, order, inv, cx, cy);
    var parts := MatchAll(Reorder(Blocks(input), order), imgs, bw);
    MatchAllPlaced(Blocks(input), imgs, bw, order, inv);
    MosaicPixel(input, parts, order, inv, b, a, c);
    var x, y := Blocks(input)[b].x, Blocks(input)[b].y;
    assert TileScale * x + a == TileWidth * cx + a && TileScale * y + c == TileHeight * cy + c;
  }

  /** Outside every whole block's window, the matched blocks leave the background. */
  lemma MosaicBeyondBlocks(input: Image, imgs: seq<Image>, bw: bool, order: seq<nat>, inv: seq<nat>, i: nat, j: nat)
    requires AllTileImages(imgs) && |imgs| > 0
    requires Reorders(order, inv, |Blocks(input)|)
    requires i / TileWidth >= input.width / BlockWidth || j / TileHeight >= input.height / BlockHeight
    ensures AllBlocks(Reorder(Blocks(input), order))
    ensures CanvasAt(MatchAll(Reorder(Blocks(input), order), imgs, bw), i, j) == Background
  {
    BlocksAreBlocks(input);
    MatchAllPlaced(Blocks(input), imgs, bw, order, inv);
    var parts := MatchAll(Reorder(Blocks(input), order), imgs, bw);
    MosaicMargin(input, parts, order, inv, i, j);
  }

  /** Compositing the matched blocks, in any order, yields the photomosaic. */
  lemma MosaicCanvas(input: Image, imgs: seq<Image>, bw: bool, order: seq<nat>, inv: seq<nat>, i: nat, j: nat)
    requires AllTileImages(imgs) && |imgs| > 0
    requires Reorders(order, inv, |Blocks(input)|)
    ensures AllBlocks(Reorder(Blocks(input), order))
    ensures CanvasAt(MatchAll(Reorder(Blocks(input), order), imgs, bw), i, j) == PhotomosaicAt(input, imgs, bw, i, j)
  {
    BlocksAreBlocks(input);
    var cx, cy := i / TileWidth, j / TileHeight;
    if cx < input.width / BlockWidth && cy < input.height / BlockHeight {
      var a, c := i % TileWidth, j % TileHeight;
      MosaicWindow(input, imgs, bw, order, inv, cx, cy, a, c);
    } else {
      MosaicBeyondBlocks(input, imgs, bw, order, inv, i, j);
    }
  }

  /** Why building the photomosaic failed: matching a block against an empty
      tile pool, or compositing. */
  datatype PhotomosaicError = MatchFailed(MatchError) | CompositeFailed(CompositeError)

  /** `process` once the files are read: the target is partitioned, its blocks are
      matched in the order `order` (that of the hash set), and the matched tiles are
      composited. The result is the same photomosaic for every order. */
  method CreatePhotomosaic(input: Image, imgs: seq<Image>, bw: bool, order: seq<nat>, ghost inv: seq<nat>)
    returns (r: Result<array2<Word>, PhotomosaicError>)
    requires AllTileImages(imgs)
    requires Reorders(order, inv, |Blocks(input)|)
    ensures |imgs| == 0 && |Blocks(input)| > 0 ==> r == Failure(MatchFailed(EmptyTilePool))
    ensures |imgs| > 0 || |Blocks(input)| == 0 ==> (r.Success? <==> input.width > 0 && input.height > 0)
    ensures r.Success? ==>
      fresh(r.value) && r.value.Length0 == TileScale * input.width && r.value.Length1 == TileScale * input.height &&
      forall i, j | 0 <= i < r.value.Length0 && 0 <= j < r.value.Length1 :: r.value[i, j] == PhotomosaicAt(input, imgs, bw, i, j)
  {
    var blocks := GetImagesFromInput(input);
    if |imgs| == 0 && |blocks| > 0 {
      return Failure(MatchFailed(EmptyTilePool));
    }
    BlocksAreBlocks(input);
    var visited := Reorder(blocks, order);
    assert AllBlocks(visited);
    var parts := MatchAll(visited, imgs, bw);
    if |imgs| > 0 {
      MosaicComposes(input, imgs, bw, order, inv);
    }
    var canvas := MakeOutputImage(input.width, input.height, parts);
    if canvas.Failure? {
      return Failure(CompositeFailed(canvas.error));
    }
    forall i, j | 0 <= i < canvas.value.Length0 && 0 <= j < canvas.value.Length1
      ensures CanvasAt(parts, i, j) == PhotomosaicAt(input, imgs, bw, i, j)
    {
      if |imgs| > 0 {
        MosaicCanvas(input, imgs, bw, order, inv, i, j);
      }
    }
    return Success(canvas.value);
  }
}
