# Photomosaic tile-matching engine in Dafny

The Photomosaic project builds a mosaic of a target picture in two ways.

The **tile mosaic** works as follows:
- Every tile image is reduced to a 10 x 10 *signature*. Each signature cell is the per-channel average of a 9 x 9 block of the tile, using integer division by 81.
- The target is cut into 10 x 10 blocks at origins that are multiples of 10. Columns are visited in the outer loop and rows in the inner loop. A right or bottom strip narrower than a block is dropped.
- Each raw block is scored against each tile's signature. A cell scores `765 - (|dr| + |dg| + |db|)`, or `255 - |dr|` in black-and-white mode, and the cell scores are summed.
- The tile with the highest score wins. The scan starts at -1 and moves only on a strictly greater score, so the first best tile wins and an empty pool gives `null`.
- The chosen tiles are copied into the 90 x 90 windows of a canvas that is 9 times the target's size.

The **pixel mosaic** covers the target with 5 x 5 blocks. Edge blocks are kept and clipped. Each block is painted with the top-left colour of the source image whose top-left colour is nearest to the block's top-left target pixel. Nearness is squared RGB distance. Ties go to the earlier source, because `List.sort` is stable.

Modules:
- `Pixels`: the packed colour word and its channel extractors.
- `Raster`: images as column-major grids, `getSubimage`, and the image part record.
- `Tiles`: the signature, including the `Tile` class whose `pixels` array is filled in place.
- `Matching`: scoring, the dimension checks and the best-fit search.
- `Partition`: block partitioning.
- `Output`: matching every block, including the caller's output list as a class.
- `Compositor`: the canvas, filled in place.
- `Pipeline`: how the three stages fit together, for every order in which the hash set yields the blocks.
- `PixelMosaic`: the pixel mosaic, whose mosaic is an `array2` filled in place.

A packed pixel is a Java `int` laid out `0xAARRGGBB`. The model keeps it as the signed 32-bit integer it is (`Word`). On a two's-complement word, `(p >>> 16) & 0xff` is the floor quotient by 2^16 taken modulo 2^8, whatever the sign. The extractors are written that way rather than over bit-vectors, which keeps the arithmetic proofs in linear integer reasoning. `UnpackPack` and `PackUnpack` tie the extractors to the byte layout.

The repository holds several near-identical copies of the engine. Each behaviour is modelled once:
- **Signature.** `Tiles.Tile` models `photomosaic/image/Tile.java`, `PhotomosaicSara/image/Tile.java` and the `Tile` nested in `MainPhotomosaic.java` (lines 132-165). They differ only in constant names.
- **Checked score.** `Matching.GetScoreChecked`, `GetBestFitTileChecked` and `Output.CreateOutput` model the score with a throwing dimension check. This is the score of `photomosaic/image/PhotomosaicService.java` and `PhotomosaicSara/image/PhotomosaicService.java`.
- **Unchecked score.** `Matching.GetScore`, `GetBestFitTile` and `Output.MatchParts` model the score guarded only by a Java `assert`. This is the score of `PhotomosaicSara/image/Service.java` and `MainPhotomosaic.java`.
- **Black-and-white mode.** The `bw` parameter is the `IS_BW` constant of `MainPhotomosaic.java`. The other copies always score in colour (`bw == false`).
- **Partition and compositing.** `Partition.GetImagesFromInput` and `Compositor.MakeOutputImage` model the identical partition and compositing loops of all four service files.
- **Pixel mosaic.** `PixelMosaic.*` models both `photomosaic/pixel/PixelService.java` (`createPixelMosaic`) and the same loop inlined in `PhotomosaicSara/pixel/MainPixel.java` (lines 29-46, with `getColorDistance` at lines 51-56).

## Model

| member | source | states |
|---|---|---|
| Pixels.GetRed | src/main/java/com/PhotomosaicSara/image/Pixel.java:15-17 | the red extractor returns a value in [0, 255] for every word |
| Pixels.GetGreen | src/main/java/com/PhotomosaicSara/image/Pixel.java:19-21 | the green extractor returns a value in [0, 255] |
| Pixels.GetBlue | src/main/java/com/PhotomosaicSara/image/Pixel.java:23-25 | the blue extractor returns a value in [0, 255] |
| Pixels.Decode | src/main/java/com/PhotomosaicSara/image/Pixel.java:15-25 | the decoded colour has all three channels in [0, 255] |
| Pixels.UnpackPack | src/main/java/com/PhotomosaicSara/image/Pixel.java:15-25 | for bytes a, r, g, b the word `(a<<24)\|(r<<16)\|(g<<8)\|b` yields red r, green g, blue b (and alpha a): each extractor reads only its own byte |
| Pixels.PackUnpack | src/main/java/com/PhotomosaicSara/image/Pixel.java:15-25 | every 32-bit word is the packing of the four bytes the extractors read, so the extractors lose nothing but the alpha byte |
| Pixels.AlphaIgnored | src/main/java/com/PhotomosaicSara/image/Pixel.java:15-17 | words that differ only in the alpha byte decode to the same colour |
| Tiles.BlockAverage | src/main/java/com/photomosaic/image/Tile.java:31-43 | the average of a 9 x 9 block has every channel in [0, 255] |
| Tiles.ColumnSumBounds | src/main/java/com/photomosaic/image/Tile.java:34-40 | a run of n channel values sums to between 0 and 255 * n |
| Tiles.BlockSumBounds | src/main/java/com/photomosaic/image/Tile.java:34-40 | a block's channel total lies between 0 and 255 per pixel summed |
| Tiles.AverageIsChannel | src/main/java/com/photomosaic/image/Tile.java:41-43 | a block total divided by 81 is a byte value |
| Tiles.UniformColumnSum | src/main/java/com/photomosaic/image/Tile.java:34-40 | a single-colour run sums to its length times the channel value |
| Tiles.UniformBlockSum | src/main/java/com/photomosaic/image/Tile.java:34-40 | a single-colour block sums to its area times the channel value |
| Tiles.UniformBlockAverage | src/main/java/com/photomosaic/image/Tile.java:31-43 | a block of one colour averages to exactly that colour |
| Tiles.UniformSignature | src/main/java/com/photomosaic/image/Tile.java:23-43 | a uniformly coloured tile has that colour in every signature cell |
| Tiles.ColumnSumLocal | src/main/java/com/photomosaic/image/Tile.java:34-36 | a run sum depends only on the pixels of the run |
| Tiles.BlockSumLocal | src/main/java/com/photomosaic/image/Tile.java:34-36 | a block sum depends only on the block's pixels |
| Tiles.SignatureCellLocal | src/main/java/com/photomosaic/image/Tile.java:24-36 | signature cell (x, y) depends only on the pixels in [9x, 9x+9) x [9y, 9y+9) |
| Tiles.SignatureGridFitsTile | src/main/java/com/photomosaic/image/Tile.java:9-15 | the grid is 90/9 = 10 by 10 and every block read lies inside [0, 90) x [0, 90) |
| Tiles.Tile.constructor | src/main/java/com/photomosaic/image/Tile.java:18-21 | keeps the image unchanged and leaves a fresh, fully computed signature |
| Tiles.Tile.CalcPixels | src/main/java/com/photomosaic/image/Tile.java:23-29 | every cell (x, y), x, y < 10, holds the average of the block at (9x, 9y) |
| Tiles.Tile.CalcPixel | src/main/java/com/photomosaic/image/Tile.java:31-43 | the running channel totals over the 9 x 9 loop, divided by 81, give the block average |
| Matching.Distance | src/main/java/com/photomosaic/image/PhotomosaicService.java:86-90 | the L1 colour distance is never negative |
| Matching.DistanceZero | src/main/java/com/photomosaic/image/PhotomosaicService.java:86-90 | the distance is 0 exactly when all three channels agree |
| Matching.DistanceSymmetric | src/main/java/com/photomosaic/image/PhotomosaicService.java:86-90 | the distance is symmetric |
| Matching.GetDifference | src/main/java/com/photomosaic/image/PhotomosaicService.java:86-90 | the difference between a packed pixel and a cell is never negative |
| Matching.DifferenceSymmetric | src/main/java/com/photomosaic/image/PhotomosaicService.java:86-90 | swapping target and candidate colour leaves the difference unchanged |
| Matching.GetDiff | src/main/java/com/PhotomosaicSara/image/MainPhotomosaic.java:88-96 | both modes' distances are never negative |
| Matching.GetDiffBounds | src/main/java/com/PhotomosaicSara/image/MainPhotomosaic.java:88-96 | against an in-range cell the distance is at most 765 in colour mode and at most 255 in black-and-white mode |
| Matching.GetDiffZero | src/main/java/com/PhotomosaicSara/image/MainPhotomosaic.java:88-96 | the distance is 0 exactly when the red channels agree (black-and-white) or all channels agree (colour) |
| Matching.CellScoreBounds | src/main/java/com/PhotomosaicSara/image/MainPhotomosaic.java:73-82 | one cell scores between 0 and 765 (255 in black-and-white), and hits the top exactly when it matches |
| Matching.ColumnTotalBounds | src/main/java/com/photomosaic/image/PhotomosaicService.java:75-81 | summing n cell scores, each in [0, k], gives a value in [0, n * k] |
| Matching.ColumnTotalTop | src/main/java/com/photomosaic/image/PhotomosaicService.java:75-81 | such a sum is n * k exactly when every term is k |
| Matching.GridTotalBounds | src/main/java/com/photomosaic/image/PhotomosaicService.java:73-83 | the sum over an m x h grid of values in [0, k] lies in [0, m * h * k] |
| Matching.GridTotalTop | src/main/java/com/photomosaic/image/PhotomosaicService.java:73-83 | the grid sum reaches m * h * k exactly when every term is k |
| Matching.CellScoresInRange | src/main/java/com/photomosaic/image/PhotomosaicService.java:76-80 | every cell score of a block lies in [0, 765] (colour) or [0, 255] (black-and-white) |
| Matching.CellScoresTop | src/main/java/com/photomosaic/image/PhotomosaicService.java:76-80 | a cell has the top score exactly when it matches its signature cell |
| Matching.ScoreBounds | src/main/java/com/photomosaic/image/PhotomosaicService.java:73-83 | a block's score lies between 0 and 100 times the top cell score (76500 in colour) |
| Matching.ScoreTop | src/main/java/com/photomosaic/image/PhotomosaicService.java:73-83 | the score is the grid maximum exactly when every block pixel matches its signature cell |
| Matching.ScoreNonNegative | src/main/java/com/PhotomosaicSara/image/MainPhotomosaic.java:70-85 | in both modes the total is non-negative, so it always beats the initial -1 |
| Matching.PerfectColourScore | src/main/java/com/photomosaic/image/PhotomosaicService.java:73-83 | a colour score is at most 76500, and equals 76500 exactly when every block pixel decodes to its signature cell |
| Matching.GetScore | src/main/java/com/PhotomosaicSara/image/Service.java:43-58 | given a 10 x 10 block (the Java assert), the nested accumulation returns the sum of the 100 cell scores |
| Matching.ColumnScore | src/main/java/com/PhotomosaicSara/image/Service.java:49-56 | the inner loop accumulates exactly the cell scores of column x |
| Matching.DimensionCheckAsWritten | src/main/java/com/photomosaic/image/PhotomosaicService.java:65-71 | the as-written check rejects exactly the blocks that are not 10 x 10 |
| Matching.WidthMessageReportsHeight | src/main/java/com/photomosaic/image/PhotomosaicService.java:69-71 | with the right height and a wrong width, the as-written width error reports 10 (the height), not the width |
| Matching.DimensionCheck | src/main/java/com/photomosaic/image/PhotomosaicService.java:65-71 | rejects exactly the non-10 x 10 blocks: the height first, and each error reports its own wrong dimension |
| Matching.GetScoreChecked | src/main/java/com/photomosaic/image/PhotomosaicService.java:61-84 | a wrongly sized block throws the height or width error; a 10 x 10 block gets its colour score |
| Matching.FirstBest | src/main/java/com/photomosaic/image/PhotomosaicService.java:47-59 | the scan's result is an index of the scanned range |
| Matching.FirstBestIsFirstBest | src/main/java/com/photomosaic/image/PhotomosaicService.java:47-59 | the left-to-right strict-`>` scan ends on a greatest value with every earlier value strictly smaller |
| Matching.FirstBestUnique | src/main/java/com/photomosaic/image/PhotomosaicService.java:53 | there is only one such first greatest index |
| Matching.BestIndex | src/main/java/com/photomosaic/image/PhotomosaicService.java:47-59 | the picked index lies in a non-empty pool |
| Matching.BestIndexIsFirstBest | src/main/java/com/photomosaic/image/PhotomosaicService.java:47-59 | the picked tile scores at least as high as every tile, strictly higher than every earlier tile, and is the only index with both properties |
| Matching.ScanStep | src/main/java/com/photomosaic/image/PhotomosaicService.java:52-56 | one step over a non-negative score keeps the scan state: a strictly greater score takes over, otherwise the best stays |
| Matching.ScanFindsFirstBest | src/main/java/com/photomosaic/image/PhotomosaicService.java:51-58 | a finished scan over a non-empty pool holds the first best index |
| Matching.GetBestFitTile | src/main/java/com/PhotomosaicSara/image/MainPhotomosaic.java:52-64 | returns null exactly for an empty pool, and otherwise the first of the best-scoring tiles |
| Matching.SingleTilePool | src/main/java/com/photomosaic/image/PhotomosaicService.java:48-58 | a one-tile pool yields that tile whatever its score, because every score beats -1 |
| Matching.ExactMatchWins | src/main/java/com/photomosaic/image/PhotomosaicService.java:47-59 | a tile whose signature equals the block forces the winner to score 76500, and the winner is that tile or an earlier one |
| Matching.GetBestFitTileChecked | src/main/java/com/photomosaic/image/PhotomosaicService.java:47-59 | an empty pool gives null without scoring; otherwise a wrongly sized block throws the dimension error, and a 10 x 10 block gets the first best tile |
| Partition.BlockIsSignatureGrid | src/main/java/com/PhotomosaicSara/image/MainPhotomosaic.java:118-119 | the block size is the signature size, 90 / 9 = 10 in each direction |
| Partition.OriginsShape | src/main/java/com/photomosaic/image/PhotomosaicService.java:109-117 | every visited origin is a multiple of 10 inside the visited columns and rows |
| Partition.PartitionOriginsFit | src/main/java/com/photomosaic/image/PhotomosaicService.java:109-117 | every origin is a multiple of 10 with x + 10 <= W and y + 10 <= H |
| Partition.PartitionFits | src/main/java/com/photomosaic/image/PhotomosaicService.java:109-117 | every block of the partition lies inside the image |
| Partition.GetImagesFromInput | src/main/java/com/photomosaic/image/PhotomosaicService.java:102-119 | the nested while loops produce exactly the blocks of the partition, columns outer and rows inner |
| Partition.OriginsCount | src/main/java/com/photomosaic/image/PhotomosaicService.java:109-117 | cols columns of rows blocks give cols * rows origins |
| Partition.PartitionCount | src/main/java/com/photomosaic/image/PhotomosaicService.java:109-117 | there are exactly (W / 10) * (H / 10) blocks |
| Partition.OriginsComplete | src/main/java/com/photomosaic/image/PhotomosaicService.java:109-117 | every grid position inside the visited columns and rows is visited |
| Partition.PartitionMembership | src/main/java/com/photomosaic/image/PhotomosaicService.java:109-117 | an origin is visited exactly when both coordinates are multiples of 10 and the block fits; partial strips are dropped |
| Partition.OriginsDistinct | src/main/java/com/photomosaic/image/PhotomosaicService.java:109-117 | no origin is visited twice |
| Partition.PixelCovered | src/main/java/com/photomosaic/image/PhotomosaicService.java:109-117 | every pixel of the whole-block area lies in the block at (i - i % 10, j - j % 10), which is visited |
| Partition.Partition23x23 | src/main/java/com/photomosaic/image/PhotomosaicService.java:109-117 | a 23 x 23 image has exactly the blocks (0,0), (0,10), (10,0), (10,10) |
| Compositor.CopyWindow | src/main/java/com/photomosaic/image/PhotomosaicService.java:41-42 | copying a part changes only its window at (9x, 9y), clipped to the tile, which then shows the tile; every other canvas pixel is unchanged |
| Compositor.MakeOutputImage | src/main/java/com/photomosaic/image/PhotomosaicService.java:38-45 | succeeds exactly when the target has pixels and every part's 90 x 90 window lies on the canvas; then the canvas is 9W x 9H and each pixel is that of the last part whose window holds it, or the background |
| Compositor.WindowsDisjoint | src/main/java/com/photomosaic/image/PhotomosaicService.java:41 | windows of parts at distinct block-grid positions do not overlap |
| Compositor.CanvasAtCovered | src/main/java/com/photomosaic/image/PhotomosaicService.java:40-43 | with distinct grid positions, a pixel in a part's window shows that part's tile, whatever the part order |
| Compositor.CanvasShowsTile | src/main/java/com/photomosaic/image/PhotomosaicService.java:40-43 | offset (i, j) of a full-size part's window shows the tile's pixel (i, j) |
| Compositor.CanvasAtUncovered | src/main/java/com/photomosaic/image/PhotomosaicService.java:39-43 | a pixel outside every window keeps the background |
| Compositor.PartitionWindowsFit | src/main/java/com/photomosaic/image/PhotomosaicService.java:38-45 | the window of every partition block lies on the canvas and is on the block grid |
| Output.MatchPart | src/main/java/com/photomosaic/image/PhotomosaicService.java:123-124 | the output part keeps the block's position and carries an image of the pool |
| Output.MatchPartIsBest | src/main/java/com/photomosaic/image/PhotomosaicService.java:123-124 | no pool image scores higher against the block than the output part's image |
| Output.MapParts | src/main/java/com/photomosaic/image/PhotomosaicService.java:121-126 | mapping keeps the number of parts |
| Output.MapPartsAt | src/main/java/com/photomosaic/image/PhotomosaicService.java:121-126 | the k-th output is the image of the k-th input |
| Output.MapPartsSnoc | src/main/java/com/photomosaic/image/PhotomosaicService.java:121-126 | handling one more input appends exactly its image |
| Output.MatchAll | src/main/java/com/photomosaic/image/PhotomosaicService.java:121-126 | one output part per input part |
| Output.MatchAllAt | src/main/java/com/photomosaic/image/PhotomosaicService.java:121-126 | the k-th output part is the best-fit match of the k-th block, at its position |
| Output.MatchAllSnoc | src/main/java/com/photomosaic/image/PhotomosaicService.java:121-126 | matching one more block appends that block's match |
| Output.BestTilePart | src/main/java/com/photomosaic/image/PhotomosaicService.java:123-124 | the part built from the search's tile is the block's match |
| Output.FirstMisfit | src/main/java/com/photomosaic/image/PhotomosaicService.java:121-126 | the parts before the result are blocks, and the part at it is not |
| Output.FirstMisfitAt | src/main/java/com/photomosaic/image/PhotomosaicService.java:121-126 | a non-block after i blocks is the first misfit |
| Output.FirstMisfitNone | src/main/java/com/photomosaic/image/PhotomosaicService.java:121-126 | when all parts are blocks there is no misfit |
| Output.PartList.constructor | src/main/java/com/photomosaic/image/PhotomosaicService.java:32 | the output list starts empty |
| Output.PartList.Add | src/main/java/com/photomosaic/image/PhotomosaicService.java:124 | adding appends exactly one part at the end |
| Output.NextOutputPart | src/main/java/com/photomosaic/image/PhotomosaicService.java:122-124 | an empty pool dereferences null; a wrongly sized block throws the dimension error; otherwise the result is the block's match |
| Output.AppendedStep | src/main/java/com/photomosaic/image/PhotomosaicService.java:121-126 | appending one block's match keeps the list equal to the initial list plus the matches so far |
| Output.AppendedMisfit | src/main/java/com/photomosaic/image/PhotomosaicService.java:121-126 | when the loop stops at a non-block, the list holds the matches of the blocks before it |
| Output.AppendedAll | src/main/java/com/photomosaic/image/PhotomosaicService.java:121-126 | when the loop completes, the list holds the matches of all blocks |
| Output.CreateOutput | src/main/java/com/photomosaic/image/PhotomosaicService.java:121-126 | appends one part per input part, at the same position with the best tile's image, up to the first wrongly sized part (which throws); an empty pool throws on the first part with nothing appended |
| Output.MatchParts | src/main/java/com/PhotomosaicSara/image/MainPhotomosaic.java:30-33 | the main loop yields the matches of all blocks in order; an empty pool with at least one block dereferences null |
| Pipeline.BlocksAreBlocks | src/main/java/com/photomosaic/image/PhotomosaicService.java:109-112 | every partition part has exactly the size the score demands |
| Pipeline.MatchAllPlaced | src/main/java/com/photomosaic/image/PhotomosaicService.java:121-126 | matching the blocks in any visiting order puts one tile image at every block's position |
| Pipeline.BlocksWellPlaced | src/main/java/com/photomosaic/image/PhotomosaicService.java:27-35 | parts placed at the blocks, in any order, are on the grid at distinct positions, with windows on the canvas |
| Pipeline.MosaicPixel | src/main/java/com/photomosaic/image/PhotomosaicService.java:27-35 | inside a block's window, the canvas shows the tile placed for that block, for every order in which the parts are composited |
| Pipeline.MosaicMargin | src/main/java/com/photomosaic/image/PhotomosaicService.java:27-35 | for parts placed at the blocks in any order, canvas pixels right of or below the last whole block keep the background |
| Pipeline.MosaicComposes | src/main/java/com/photomosaic/image/PhotomosaicService.java:27-35 | the blocks of a target, matched in any order, are placed at the blocks' positions, and compositing them succeeds exactly when the target is at least one pixel wide and high |
| Pipeline.BlockOf | src/main/java/com/photomosaic/image/PhotomosaicService.java:109-117 | block column cx and block row cy of the target is one of the partition's blocks: the 10 x 10 sub-image at (10 cx, 10 cy) |
| Pipeline.MatchedBlock | src/main/java/com/photomosaic/image/PhotomosaicService.java:121-126 | whatever the visiting order, the part matched for block (cx, cy) carries the best tile for that block |
| Pipeline.MosaicWindow | src/main/java/com/photomosaic/image/PhotomosaicService.java:27-45 | offset (a, c) of canvas window (cx, cy) shows pixel (a, c) of the best tile for target block (cx, cy), whatever the order |
| Pipeline.MosaicBeyondBlocks | src/main/java/com/photomosaic/image/PhotomosaicService.java:38-45 | a canvas pixel outside every whole block's window keeps the background, whatever the order |
| Pipeline.MosaicCanvas | src/main/java/com/photomosaic/image/PhotomosaicService.java:27-45 | compositing the matched blocks in any order gives, at every canvas pixel, the photomosaic defined without an order: window (cx, cy) shows the best tile of block (cx, cy), the rest is background |
| Pipeline.CreatePhotomosaic | src/main/java/com/photomosaic/image/PhotomosaicService.java:27-35 | an empty pool with at least one block fails the match; otherwise the run succeeds exactly when the target has pixels, and the canvas is 9W x 9H and equals that photomosaic for every visiting order |
| PixelMosaic.GetColorDistance | src/main/java/com/photomosaic/pixel/PixelService.java:61-66 | the squared distance is non-negative, 0 exactly for equal colours, and at most 3 * 255^2 = 195075 between byte colours |
| PixelMosaic.ColorDistanceSymmetric | src/main/java/com/photomosaic/pixel/PixelService.java:61-66 | the squared distance is symmetric |
| PixelMosaic.InsertionPoint | src/main/java/com/photomosaic/pixel/PixelService.java:41 | the insertion point is the first place whose element does not score below the new one: everything before it scores strictly less |
| PixelMosaic.Insert | src/main/java/com/photomosaic/pixel/PixelService.java:41 | inserting adds exactly one element and keeps the multiset |
| PixelMosaic.InsertPlacement | src/main/java/com/photomosaic/pixel/PixelService.java:41 | the inserted element lands at its insertion point, with the list before and after it unchanged, so it precedes the equal-scored elements that follow it |
| PixelMosaic.InsertSorted | src/main/java/com/photomosaic/pixel/PixelService.java:41 | insertion into a sorted list keeps it sorted |
| PixelMosaic.SortByScore | src/main/java/com/photomosaic/pixel/PixelService.java:41 | the sort returns a sorted permutation of the scores |
| PixelMosaic.FirstLowest | src/main/java/com/photomosaic/pixel/PixelService.java:41-42 | the result has the lowest score, and every earlier element scores strictly higher |
| PixelMosaic.SortedHead | src/main/java/com/photomosaic/pixel/PixelService.java:41-42 | the head of the stably sorted list is the first of the lowest-scored elements |
| PixelMosaic.NearestIsFirstClosest | src/main/java/com/photomosaic/pixel/PixelService.java:36-42 | the chosen source is no farther than any source and strictly nearer than every earlier one |
| PixelMosaic.ExactColourWins | src/main/java/com/photomosaic/pixel/PixelService.java:36-42 | a source with exactly the target colour makes the choice that source or an earlier one of the same colour |
| PixelMosaic.ClosestImage | src/main/java/com/photomosaic/pixel/PixelService.java:34-42 | with no sources `get(0)` fails; otherwise the sorted head is the first nearest source |
| PixelMosaic.FillBlock | src/main/java/com/photomosaic/pixel/PixelService.java:43-47 | the clipped 5 x 5 block takes the colour, and every other pixel is unchanged |
| PixelMosaic.PaintBlock | src/main/java/com/photomosaic/pixel/PixelService.java:34-47 | one block: fails exactly with no sources; otherwise its clipped pixels take their final mosaic colour and nothing else changes |
| PixelMosaic.PaintColumn | src/main/java/com/photomosaic/pixel/PixelService.java:33-48 | one column of blocks: fails exactly with no sources and a non-empty column; otherwise the column strip is finished and nothing else changes |
| PixelMosaic.CreatePixelMosaic | src/main/java/com/photomosaic/pixel/PixelService.java:31-50 | fails exactly when there are no sources and the target has pixels, leaving the mosaic as it was; otherwise every pixel (i, j) holds the top-left colour of the source chosen for the block at (i - i % 5, j - j % 5) |

## Left out

- File and image I/O are not modelled. This covers `ImageIO.read`/`write`, `File.listFiles` with its `.jpg` filter, the `process`/`main` orchestration, and `getImagesFromTiles`/`getBufferedImages`. Images arrive as values and tiles as a sequence.
- `src/main/java/com/PhotomosaicSara/image/Photomosaic.java` is not modelled. It only orchestrates, and its loop repeats `createOutput`.
- `HashSet` and `Collections.synchronizedSet` iteration orders are unspecified. Tiles are a sequence in whatever order the caller iterates them, and the tie-break results are relative to that order. The blocks' visiting order is a parameter of the `Pipeline` lemmas (any permutation of the partition), and every property there holds for all such orders. No threads are involved. Parts and tiles compare by identity, so a set never merges two of them.
- JPEG encoding of the output is not modelled, and neither are AWT colour models.
- Compositor.MakeOutputImage: stores each tile's packed word unchanged. A `TYPE_3BYTE_BGR` canvas keeps only the three colour bytes, so the alpha byte of a copied pixel is not modelled. The red, green and blue bytes agree, as `Pixels.AlphaIgnored` shows.
- Compositor.MakeOutputImage: copies each tile clipped to the 90 x 90 window at (9x, 9y), which is what `setData` does for a tile at least that large. Other raster band layouts are not modelled.
- Tiles.Tile.constructor: requires a tile image of at least 90 x 90. For a smaller image the source throws from `getRGB`, and that exception is not modelled.
- Matching.GetScore: the 10 x 10 precondition is a Java `assert`, so it is off unless assertions are enabled. With assertions off, a smaller block throws from `getRGB` and a larger block is scored on its top-left 10 x 10 corner. Neither behaviour is modelled.
- Matching.GetScoreChecked: a block of the right height and the wrong width throws `UnexpectedWidth` carrying the width. The source's message carries the height there (see Findings); the model reports the corrected value. Which blocks throw, and which error kind, are as in the source.
- Matching.GetBestFitTileChecked: inherits the corrected width message from `GetScoreChecked`.
- Output.NextOutputPart: inherits the corrected width message from `GetScoreChecked`.
- Output.CreateOutput: inherits the corrected width message from `GetScoreChecked`.
- Output.MatchParts: requires every part to be a 10 x 10 block, for the same reason as `Matching.GetScore`.
- PixelMosaic.CreatePixelMosaic: requires every source image to have a pixel at (0, 0). A decoded image always has one, so `getRGB(0, 0)` cannot fail.
- PixelMosaic.CreatePixelMosaic: states the final colour of every mosaic pixel. It does not state that each pixel is written exactly once.
- `List.sort` on the `ImageScore` list is modelled as a stable insertion sort, `SortByScore`, returning a new sequence. The list is not observed after its head is taken, so sorting in place makes no difference.
- The mosaic buffer created by the caller (`TYPE_INT_RGB`, target-sized) is the `array2` passed to `CreatePixelMosaic`. A `TYPE_INT_RGB` buffer drops the alpha byte that `setRGB` writes; that is not modelled.
- Matching.ColumnScore: the inner loop of `getScore` is a method of its own. `PixelMosaic.PaintColumn` and `PixelMosaic.PaintBlock` do the same for the inner loop and the loop body of `createPixelMosaic`. The cells are visited in the same order as the Java code, with the same accumulations and writes.
- Java `int` overflow is not modelled: integers are unbounded. No sum can overflow, because a channel total is at most 81 * 255 and a score at most 76500 (`Matching.ScoreBounds`).
- The fields `Tile.image` and `Tile.pixels` are public and mutable in Java. Here they are constants, so reassignment by other code is not modelled.

## Findings

| source | as written | input that shows it | evidently intended | confidence | as-written member | corrected member |
|---|---|---|---|---|---|---|
| src/main/java/com/photomosaic/image/PhotomosaicService.java:69-71 | the width check's message concatenates `height` | a block 10 high and 12 wide: the error reads "Unexpected width: 10" | report the offending width ("Unexpected width: 12") | not executed | Matching.DimensionCheckAsWritten, Matching.WidthMessageReportsHeight | Matching.DimensionCheck |
| src/main/java/com/PhotomosaicSara/image/PhotomosaicService.java:63-65 | the same width message reports `height` | a block 10 high and 12 wide: "Unexpected width: 10" | report the offending width | not executed | Matching.DimensionCheckAsWritten, Matching.WidthMessageReportsHeight | Matching.DimensionCheck |
