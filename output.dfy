/** Matching every block of the target against the tile pool: each block is
    replaced by the image of its best-scoring tile, at the block's own position. */
module Output {
  import opened Wrappers
  import opened Raster
  import opened Tiles
  import opened Matching

  /** Why matching stopped: a null best tile (empty pool) was dereferenced, or
      the checked score refused a wrongly sized block. */
  datatype MatchError = EmptyTilePool | Dimension(e: DimensionError)

  predicate AllBlocks(parts: seq<Part>) {
    forall k | 0 <= k < |parts| :: IsBlock(parts[k].image)
  }

  /** The output part for one block: the best tile's image, at the block's position. */
  function MatchPart(p: Part, imgs: seq<Image>, bw: bool): (q: Part)
    requires IsBlock(p.image) && AllTileImages(imgs) && |imgs| > 0
    ensures q.x == p.x && q.y == p.y
    ensures q.image in imgs
  {
    Part(imgs[BestIndex(p.image, imgs, bw)], p.x, p.y)
  }

  /** No image of the pool scores higher against the block than the one its
      output part carries. */
  lemma MatchPartIsBest(p: Part, imgs: seq<Image>, bw: bool)
    requires IsBlock(p.image) && AllTileImages(imgs) && |imgs| > 0
    ensures forall img | img in imgs :: Score(p.image, img, bw) <= Score(p.image, MatchPart(p, imgs, bw).image, bw)
  {
    var k := BestIndex(p.image, imgs, bw);
    BestIndexIsFirstBest(p.image, imgs, bw);
    forall img | img in imgs ensures Score(p.image, img, bw) <= Score(p.image, imgs[k], bw) {
      var j :| 0 <= j < |imgs| && imgs[j] == img;
    }
  }

  /** Applies `f` to each part, in order. */
  function MapParts(inputs: seq<Part>, f: Part --> Part): (outputs: seq<Part>)
    requires forall k | 0 <= k < |inputs| :: f.requires(inputs[k])
    ensures |outputs| == |inputs|
  {
    if |inputs| == 0 then []
    else MapParts(inputs[..|inputs| - 1], f) + [f(inputs[|inputs| - 1])]
  }

  /** The k-th output is `f` of the k-th input. */
  lemma {:induction false} MapPartsAt(inputs: seq<Part>, f: Part --> Part, k: nat)
    requires forall j | 0 <= j < |inputs| :: f.requires(inputs[j])
    requires k < |inputs|
    ensures MapParts(inputs, f)[k] == f(inputs[k])
  {
    var n := |inputs| - 1;
    if k < n {
      MapPartsAt(inputs[..n], f, k);
    }
  }

  /** Mapping one more input appends its image under `f`. */
  lemma MapPartsSnoc(inputs: seq<Part>, i: nat, f: Part --> Part)
    requires i < |inputs| && forall j | 0 <= j <= i :: f.requires(inputs[j])
    ensures MapParts(inputs[..i + 1], f) == MapParts(inputs[..i], f) + [f(inputs[i])]
  {
    assert inputs[..i + 1][..i] == inputs[..i];
  }

  /** Matching one block against the pool, as a function of the block. */
  function Matcher(imgs: seq<Image>, bw: bool): Part --> Part {
    (p: Part) requires IsBlock(p.image) && AllTileImages(imgs) && |imgs| > 0 => MatchPart(p, imgs, bw)
  }

  /** The output parts for a list of blocks, one per block, in the same order. */
  function MatchAll(inputs: seq<Part>, imgs: seq<Image>, bw: bool): (outputs: seq<Part>)
    requires AllBlocks(inputs) && AllTileImages(imgs) && (|inputs| == 0 || |imgs| > 0)
    ensures |outputs| == |inputs|
  {
    MapParts(inputs, Matcher(imgs, bw))
  }

  /** The k-th output part is the match of the k-th block. */
  lemma MatchAllAt(inputs: seq<Part>, imgs: seq<Image>, bw: bool, k: nat)
    requires AllBlocks(inputs) && AllTileImages(imgs) && |imgs| > 0 && k < |inputs|
    ensures MatchAll(inputs, imgs, bw)[k] == MatchPart(inputs[k], imgs, bw)
  {
    MapPartsAt(inputs, Matcher(imgs, bw), k);
  }

  /** Matching one more block appends that block's match. */
  lemma MatchAllSnoc(inputs: seq<Part>, i: nat, imgs: seq<Image>, bw: bool)
    requires i < |inputs| && forall j | 0 <= j <= i :: IsBlock(inputs[j].image)
    requires AllTileImages(imgs) && |imgs| > 0
    ensures AllBlocks(inputs[..i]) && AllBlocks(inputs[..i + 1])
    ensures MatchAll(inputs[..i + 1], imgs, bw) == MatchAll(inputs[..i], imgs, bw) + [MatchPart(inputs[i], imgs, bw)]
  {
    var t := inputs[..i + 1];
    assert AllBlocks(t) by {
      forall j | 0 <= j < |t| ensures IsBlock(t[j].image) {
        assert t[j] == inputs[j];
      }
    }
    MapPartsSnoc(inputs, i, Matcher(imgs, bw));
  }

  /** The part built from the tile the search returns is the block's match. */
  lemma BestTilePart(p: Part, tiles: seq<Tile>, bw: bool)
    requires IsBlock(p.image) && AllTileImages(TileImages(tiles)) && |tiles| > 0
    ensures Part(tiles[BestIndex(p.image, TileImages(tiles), bw)].image, p.x, p.y) == MatchPart(p, TileImages(tiles), bw)
  {
  }

  /** The index of the first part that is not a block, or |parts| when all are. */
  function FirstMisfit(parts: seq<Part>): (k: nat)
    ensures k <= |parts|
    ensures forall j | 0 <= j < k :: IsBlock(parts[j].image)
    ensures k < |parts| ==> !IsBlock(parts[k].image)
  {
    if |parts| == 0 then 0
    else if !IsBlock(parts[0].image) then 0
    else 1 + FirstMisfit(parts[1..])
  }

  lemma FirstMisfitAt(parts: seq<Part>, i: nat)
    requires i < |parts| && !IsBlock(parts[i].image)
    requires forall j | 0 <= j < i :: IsBlock(parts[j].image)
    ensures FirstMisfit(parts) == i
  {
  }

  lemma FirstMisfitNone(parts: seq<Part>)
    requires forall j | 0 <= j < |parts| :: IsBlock(parts[j].image)
    ensures FirstMisfit(parts) == |parts|
  {
  }

  /** The caller's list that `createOutput` appends the output parts to. */
  class PartList {
    var parts: seq<Part>

    constructor ()
      ensures parts == []
    {
      parts := [];
    }

    method Add(p: Part)
      modifies this
      ensures parts == old(parts) + [p]
    {
      parts := parts + [p];
    }
  }

  /** One pass of the `createOutput` loop: the best tile for the part by the
      checked score, as an output part at the part's position. */
  method NextOutputPart(inputImagePart: Part, tileImages: seq<Tile>) returns (r: Result<Part, MatchError>)
    requires AllValid(tileImages)
    ensures AllTileImages(TileImages(tileImages))
    ensures |tileImages| == 0 ==> r == Failure(EmptyTilePool)
    ensures |tileImages| > 0 && !IsBlock(inputImagePart.image) ==>
      r == Failure(Dimension(DimensionCheck(inputImagePart.image).value))
    ensures |tileImages| > 0 && IsBlock(inputImagePart.image) ==>
      r == Success(MatchPart(inputImagePart, TileImages(tileImages), false))
  {
    AllValidImages(tileImages);
    var bestFitTile := GetBestFitTileChecked(inputImagePart.image, tileImages);
    if bestFitTile.Failure? {
      return Failure(Dimension(bestFitTile.error));
    }
    if bestFitTile.value.None? {
      return Failure(EmptyTilePool);
    }
    BestTilePart(inputImagePart, tileImages, false);
    return Success(Part(bestFitTile.value.value.image, inputImagePart.x, inputImagePart.y));
  }

  /** After the first i input parts: all of them were blocks and, with a
      non-empty pool, their matches were appended to `before` to give `after`;
      with an empty pool nothing happened yet. */
  predicate Appended(before: seq<Part>, after: seq<Part>, inputs: seq<Part>, i: nat, imgs: seq<Image>, bw: bool) {
    i <= |inputs| && AllTileImages(imgs) && AllBlocks(inputs[..i]) &&
    (|imgs| == 0 ==> i == 0 && after == before) &&
    (|imgs| > 0 ==> after == before + MatchAll(inputs[..i], imgs, bw))
  }

  /** Appending the match of one more block keeps `Appended`. */
  lemma AppendedStep(before: seq<Part>, after: seq<Part>, inputs: seq<Part>, i: nat, imgs: seq<Image>, bw: bool)
    requires Appended(before, after, inputs, i, imgs, bw)
    requires i < |inputs| && IsBlock(inputs[i].image) && |imgs| > 0
    ensures Appended(before, after + [MatchPart(inputs[i], imgs, bw)], inputs, i + 1, imgs, bw)
  {
    assert forall j | 0 <= j < i :: inputs[..i][j] == inputs[j];
    MatchAllSnoc(inputs, i, imgs, bw);
  }

  /** A part that is not a block, after i blocks, is the first misfit. */
  lemma AppendedMisfit(before: seq<Part>, after: seq<Part>, inputs: seq<Part>, i: nat, imgs: seq<Image>, bw: bool)
    requires Appended(before, after, inputs, i, imgs, bw)
    requires i < |inputs| && !IsBlock(inputs[i].image) && |imgs| > 0
    ensures FirstMisfit(inputs) == i && after == before + MatchAll(inputs[..i], imgs, bw)
  {
    assert forall j | 0 <= j < i :: inputs[..i][j] == inputs[j];
    FirstMisfitAt(inputs, i);
  }

  /** Once every part was a block, all of them were matched. */
  lemma AppendedAll(before: seq<Part>, after: seq<Part>, inputs: seq<Part>, imgs: seq<Image>, bw: bool)
    requires Appended(before, after, inputs, |inputs|, imgs, bw) && |imgs| > 0
    ensures FirstMisfit(inputs) == |inputs| && after == before + MatchAll(inputs[..|inputs|], imgs, bw)
  {
    assert inputs[..|inputs|] == inputs;
    FirstMisfitNone(inputs);
  }

  /** `createOutput`: for each input part in turn, looks up the best tile with the
      checked score and appends the tile's image at the part's position. With no
      input nothing happens; with an empty pool the first best tile is null and
      nothing is appended; a wrongly sized part stops the loop with the parts
      before it already appended. */
  method CreateOutput(inputImageParts: seq<Part>, tileImages: seq<Tile>, outputImageParts: PartList)
    returns (err: Option<MatchError>)
    requires AllValid(tileImages)
    modifies outputImageParts
    ensures AllTileImages(TileImages(tileImages))
    ensures |inputImageParts| == 0 ==> err == None && outputImageParts.parts == old(outputImageParts.parts)
    ensures |inputImageParts| > 0 && |tileImages| == 0 ==>
      err == Some(EmptyTilePool) && outputImageParts.parts == old(outputImageParts.parts)
    ensures |tileImages| > 0 ==>
      var k := FirstMisfit(inputImageParts);
      outputImageParts.parts == old(outputImageParts.parts) + MatchAll(inputImageParts[..k], TileImages(tileImages), false) &&
      err == (if k == |inputImageParts| then None else Some(Dimension(DimensionCheck(inputImageParts[k].image).value)))
  {
    AllValidImages(tileImages);
    ghost var imgs := TileImages(tileImages);
    ghost var before := outputImageParts.parts;
    for i := 0 to |inputImageParts|
      invariant AllValid(tileImages)
      invariant Appended(before, outputImageParts.parts, inputImageParts, i, imgs, false)
    {
      var outputImagePart := NextOutputPart(inputImageParts[i], tileImages);
      if outputImagePart.Failure? {
        if |tileImages| > 0 {
          AppendedMisfit(before, outputImageParts.parts, inputImageParts, i, imgs, false);
        }
        return Some(outputImagePart.error);
      }
      AppendedStep(before, outputImageParts.parts, inputImageParts, i, imgs, false);
      outputImageParts.Add(outputImagePart.value);
    }
    if |tileImages| > 0 {
      AppendedAll(before, outputImageParts.parts, inputImageParts, imgs, false);
    }
    return None;
  }

  /** The matching loop of the program with the unchecked score: blocks of the
      right size are required, and an empty pool with at least one block
      dereferences a null best tile. */
  method MatchParts(inputImageParts: seq<Part>, tileImages: seq<Tile>, bw: bool) returns (r: Result<seq<Part>, MatchError>)
    requires AllBlocks(inputImageParts)
    requires AllValid(tileImages)
    ensures AllTileImages(TileImages(tileImages))
    ensures |inputImageParts| > 0 && |tileImages| == 0 ==> r == Failure(EmptyTilePool)
    ensures |inputImageParts| == 0 || |tileImages| > 0 ==>
      r == Success(MatchAll(inputImageParts, TileImages(tileImages), bw))
  {
    AllValidImages(tileImages);
    ghost var imgs := TileImages(tileImages);
    var outputImageParts := [];
    for i := 0 to |inputImageParts|
      invariant |tileImages| == 0 ==> i == 0 && outputImageParts == []
      invariant |tileImages| > 0 ==> outputImageParts == MatchAll(inputImageParts[..i], imgs, bw)
    {
      var inputImagePart := inputImageParts[i];
      var bestFitTile := GetBestFitTile(inputImagePart.image, tileImages, bw);
      if bestFitTile.None? {
        return Failure(EmptyTilePool);
      }
      MatchAllSnoc(inputImageParts, i, imgs, bw);
      BestTilePart(inputImagePart, tileImages, bw);
      outputImageParts := outputImageParts + [Part(bestFitTile.value.image, inputImagePart.x, inputImagePart.y)];
    }
    assert inputImageParts[..|inputImageParts|] == inputImageParts;
    return Success(outputImageParts);
  }
}
