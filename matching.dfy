/** Scoring a raw ScaledWidth x ScaledHeight target block against tile
    signatures, and the exhaustive best-fit search over the tile pool. */
module Matching {
  import opened Wrappers
  import opened Pixels
  import opened Raster
  import opened Tiles

  function Abs(v: int): int {
    if v < 0 then -v else v
  }

  /** Channel-wise L1 distance between two colours. */
  function Distance(a: Pixel, b: Pixel): (d: int)
    ensures d >= 0
  {
    Abs(a.r - b.r) + Abs(a.g - b.g) + Abs(a.b - b.b)
  }

  /** Two colours are at distance 0 exactly when they are equal. */
  lemma DistanceZero(a: Pixel, b: Pixel)
    ensures Distance(a, b) == 0 <==> a == b
  {
  }

  lemma DistanceSymmetric(a: Pixel, b: Pixel)
    ensures Distance(a, b) == Distance(b, a)
  {
  }

  /** Channel-wise L1 distance between a packed target pixel and a signature cell. */
  function GetDifference(target: Word, candidate: Pixel): (d: int)
    ensures d >= 0
  {
    Distance(Decode(target), candidate)
  }

  /** The greatest score one cell can contribute: 255 when only red is
      compared (black-and-white mode), 3 * 255 otherwise. */
  function MaxCellScore(bw: bool): int {
    if bw then 255 else 255 * 3
  }

  /** Distance used for scoring: the red distance alone in black-and-white mode,
      the full RGB distance otherwise. */
  function GetDiff(bw: bool, target: Word, candidate: Pixel): (d: int)
    ensures d >= 0
  {
    if bw then Abs(GetRed(target) - candidate.r) else GetDifference(target, candidate)
  }

  /** Against a colour with 8-bit channels the distance is at most the largest
      cell score, so no cell score is negative. */
  lemma GetDiffBounds(bw: bool, target: Word, candidate: Pixel)
    requires InRange(candidate)
    ensures GetDiff(bw, target, candidate) <= MaxCellScore(bw)
  {
  }

  /** The distance is 0 exactly when the compared channels agree: the red
      channel alone in black-and-white mode, the whole colour otherwise. */
  lemma GetDiffZero(bw: bool, target: Word, candidate: Pixel)
    ensures GetDiff(bw, target, candidate) == 0 <==>
      if bw then GetRed(target) == candidate.r else Decode(target) == candidate
  {
    if !bw {
      DistanceZero(Decode(target), candidate);
    }
  }

  /** The distance does not depend on which of the two colours is the target. */
  lemma DifferenceSymmetric(p: Word, q: Word)
    ensures GetDifference(p, Decode(q)) == GetDifference(q, Decode(p))
  {
    DistanceSymmetric(Decode(p), Decode(q));
  }

  /** A target block: exactly as large as a signature grid. */
  predicate IsBlock(target: Image) {
    target.width == ScaledWidth && target.height == ScaledHeight
  }

  /** Score of the cell (x, y): the largest cell score less the distance. */
  function CellScore(target: Image, tileImage: Image, bw: bool, x: nat, y: nat): int
    requires IsBlock(target) && IsTileImage(tileImage) && x < ScaledWidth && y < ScaledHeight
  {
    MaxCellScore(bw) - GetDiff(bw, At(target, x, y), SignatureCell(tileImage, x, y))
  }

  /** The block pixel (x, y) matches its signature cell. */
  predicate MatchesCell(target: Image, tileImage: Image, bw: bool, x: nat, y: nat)
    requires IsBlock(target) && IsTileImage(tileImage) && x < ScaledWidth && y < ScaledHeight
  {
    GetDiff(bw, At(target, x, y), SignatureCell(tileImage, x, y)) == 0
  }

  /** One cell scores between 0 and the largest cell score, and reaches the top
      exactly when it matches. */
  lemma CellScoreBounds(target: Image, tileImage: Image, bw: bool, x: nat, y: nat)
    requires IsBlock(target) && IsTileImage(tileImage) && x < ScaledWidth && y < ScaledHeight
    ensures 0 <= CellScore(target, tileImage, bw, x, y) <= MaxCellScore(bw)
    ensures CellScore(target, tileImage, bw, x, y) == MaxCellScore(bw) <==> MatchesCell(target, tileImage, bw, x, y)
  {
    GetDiffBounds(bw, At(target, x, y), SignatureCell(tileImage, x, y));
  }

  /** The cell scores of a block against one tile, as a function of the cell. */
  function CellScores(target: Image, tileImage: Image, bw: bool): (nat, nat) --> int
    requires IsBlock(target) && IsTileImage(tileImage)
  {
    (x: nat, y: nat) requires x < ScaledWidth && y < ScaledHeight => CellScore(target, tileImage, bw, x, y)
  }

  /** f(x, 0) + ... + f(x, n - 1). */
  function ColumnTotal(f: (nat, nat) --> int, x: nat, n: nat): int
    requires forall y | 0 <= y < n :: f.requires(x, y)
  {
    if n == 0 then 0 else ColumnTotal(f, x, n - 1) + f(x, n - 1)
  }

  /** The column totals of columns 0 .. m - 1, each over rows 0 .. h - 1. */
  function GridTotal(f: (nat, nat) --> int, m: nat, h: nat): int
    requires forall x, y | 0 <= x < m && 0 <= y < h :: f.requires(x, y)
  {
    if m == 0 then 0 else GridTotal(f, m - 1, h) + ColumnTotal(f, m - 1, h)
  }

  /** How well a tile fits a target block: the cell scores summed column by column. */
  function Score(target: Image, tileImage: Image, bw: bool): int
    requires IsBlock(target) && IsTileImage(tileImage)
  {
    GridTotal(CellScores(target, tileImage, bw), target.width, target.height)
  }

  lemma MulSucc(c: int, t: int)
    ensures c * t + t == (c + 1) * t
  {
  }

  /** Summing n terms, each between 0 and k, gives between 0 and n * k. */
  lemma {:induction false} ColumnTotalBounds(f: (nat, nat) --> int, x: nat, n: nat, k: int)
    requires forall y | 0 <= y < n :: f.requires(x, y)
    requires forall y | 0 <= y < n :: 0 <= f(x, y) <= k
    ensures 0 <= ColumnTotal(f, x, n) <= n * k
  {
    if n > 0 {
      ColumnTotalBounds(f, x, n - 1, k);
      MulSucc(n - 1, k);
    }
  }

  /** Such a sum reaches n * k exactly when every term is k. */
  lemma {:induction false} ColumnTotalTop(f: (nat, nat) --> int, x: nat, n: nat, k: int)
    requires forall y | 0 <= y < n :: f.requires(x, y)
    requires forall y | 0 <= y < n :: 0 <= f(x, y) <= k
    ensures ColumnTotal(f, x, n) == n * k <==> forall y | 0 <= y < n :: f(x, y) == k
  {
    if n > 0 {
      ColumnTotalBounds(f, x, n - 1, k);
      ColumnTotalTop(f, x, n - 1, k);
      MulSucc(n - 1, k);
      assert (forall y | 0 <= y < n :: f(x, y) == k) <==>
        (forall y | 0 <= y < n - 1 :: f(x, y) == k) && f(x, n - 1) == k;
    }
  }

  /** The same bounds for the sum over an m x h grid. */
  lemma {:induction false} GridTotalBounds(f: (nat, nat) --> int, m: nat, h: nat, k: int)
    requires forall x, y | 0 <= x < m && 0 <= y < h :: f.requires(x, y)
    requires forall x, y | 0 <= x < m && 0 <= y < h :: 0 <= f(x, y) <= k
    ensures 0 <= GridTotal(f, m, h) <= m * (h * k)
  {
    if m > 0 {
      GridTotalBounds(f, m - 1, h, k);
      ColumnTotalBounds(f, m - 1, h, k);
      MulSucc(m - 1, h * k);
    }
  }

  /** The grid sum reaches m * (h * k) exactly when every term is k. */
  lemma {:induction false} GridTotalTop(f: (nat, nat) --> int, m: nat, h: nat, k: int)
    requires forall x, y | 0 <= x < m && 0 <= y < h :: f.requires(x, y)
    requires forall x, y | 0 <= x < m && 0 <= y < h :: 0 <= f(x, y) <= k
    ensures GridTotal(f, m, h) == m * (h * k) <==> forall x, y | 0 <= x < m && 0 <= y < h :: f(x, y) == k
  {
    if m > 0 {
      var c := m - 1;
      GridTotalBounds(f, c, h, k);
      GridTotalTop(f, c, h, k);
      ColumnTotalBounds(f, c, h, k);
      ColumnTotalTop(f, c, h, k);
      MulSucc(c, h * k);
      if forall x, y | 0 <= x < m && 0 <= y < h :: f(x, y) == k {
        assert forall y | 0 <= y < h :: f(c, y) == k;
      }
    }
  }

  /** Every cell scores between 0 and the largest cell score. */
  lemma CellScoresInRange(target: Image, tileImage: Image, bw: bool)
    requires IsBlock(target) && IsTileImage(tileImage)
    ensures forall x: nat, y: nat | x < target.width && y < target.height ::
      0 <= CellScores(target, tileImage, bw)(x, y) <= MaxCellScore(bw)
  {
    forall x: nat, y: nat | x < target.width && y < target.height
      ensures 0 <= CellScores(target, tileImage, bw)(x, y) <= MaxCellScore(bw)
    {
      CellScoreBounds(target, tileImage, bw, x, y);
    }
  }

  /** A cell scores the largest cell score exactly when it matches. */
  lemma CellScoresTop(target: Image, tileImage: Image, bw: bool)
    requires IsBlock(target) && IsTileImage(tileImage)
    ensures forall x: nat, y: nat | x < target.width && y < target.height ::
      CellScores(target, tileImage, bw)(x, y) == MaxCellScore(bw) <==> MatchesCell(target, tileImage, bw, x, y)
  {
    forall x: nat, y: nat | x < target.width && y < target.height
      ensures CellScores(target, tileImage, bw)(x, y) == MaxCellScore(bw) <==> MatchesCell(target, tileImage, bw, x, y)
    {
      CellScoreBounds(target, tileImage, bw, x, y);
    }
  }

  /** A score lies between 0 and the grid size times the largest cell score
      (76500 in colour mode). */
  lemma ScoreBounds(target: Image, tileImage: Image, bw: bool)
    requires IsBlock(target) && IsTileImage(tileImage)
    ensures 0 <= Score(target, tileImage, bw) <= ScaledWidth * ScaledHeight * MaxCellScore(bw)
  {
    CellScoresInRange(target, tileImage, bw);
    GridTotalBounds(CellScores(target, tileImage, bw), target.width, target.height, MaxCellScore(bw));
  }

  /** A score reaches the top exactly when every block pixel matches its signature cell. */
  lemma ScoreTop(target: Image, tileImage: Image, bw: bool)
    requires IsBlock(target) && IsTileImage(tileImage)
    ensures Score(target, tileImage, bw) == target.width * (target.height * MaxCellScore(bw)) <==>
      forall x: nat, y: nat | x < target.width && y < target.height :: MatchesCell(target, tileImage, bw, x, y)
  {
    CellScoresInRange(target, tileImage, bw);
    CellScoresTop(target, tileImage, bw);
    GridTotalTop(CellScores(target, tileImage, bw), target.width, target.height, MaxCellScore(bw));
  }

  lemma ScoreNonNegative(target: Image, tileImage: Image, bw: bool)
    requires IsBlock(target) && IsTileImage(tileImage)
    ensures Score(target, tileImage, bw) >= 0
  {
    ScoreBounds(target, tileImage, bw);
  }

  /** In colour mode the top score 76500 means every block pixel decodes to its signature cell. */
  lemma PerfectColourScore(target: Image, tileImage: Image)
    requires IsBlock(target) && IsTileImage(tileImage)
    ensures Score(target, tileImage, false) <= 76500
    ensures Score(target, tileImage, false) == 76500 <==>
      forall x: nat, y: nat | x < target.width && y < target.height :: Decode(At(target, x, y)) == SignatureCell(tileImage, x, y)
  {
    ScoreBounds(target, tileImage, false);
    ScoreTop(target, tileImage, false);
    forall x: nat, y: nat | x < target.width && y < target.height
      ensures MatchesCell(target, tileImage, false, x, y) <==> Decode(At(target, x, y)) == SignatureCell(tileImage, x, y)
    {
      GetDiffZero(false, At(target, x, y), SignatureCell(tileImage, x, y));
    }
  }

  /** Scores the block cell by cell against the tile's signature. Callers must
      pass a block of exactly ScaledWidth x ScaledHeight pixels. */
  method GetScore(target: Image, tile: Tile, bw: bool) returns (total: int)
    requires IsBlock(target)
    requires tile.Valid()
    ensures total == Score(target, tile.image, bw)
  {
    ghost var f := CellScores(target, tile.image, bw);
    total := 0;
    for x := 0 to ScaledWidth
      invariant total == GridTotal(f, x, target.height)
    {
      var column := ColumnScore(target, tile, bw, x);
      total := total + column;
    }
  }

  /** The inner loop of the score: the cell scores of column x, top to bottom. */
  method ColumnScore(target: Image, tile: Tile, bw: bool, x: nat) returns (total: int)
    requires IsBlock(target)
    requires tile.Valid()
    requires x < ScaledWidth
    ensures total == ColumnTotal(CellScores(target, tile.image, bw), x, target.height)
  {
    ghost var f := CellScores(target, tile.image, bw);
    total := 0;
    for y := 0 to ScaledHeight
      invariant total == ColumnTotal(f, x, y)
    {
      var targetPixel := At(target, x, y);
      var candidatePixel := tile.pixels[x, y];
      var diff := GetDiff(bw, targetPixel, candidatePixel);
      var score := MaxCellScore(bw) - diff;
      total := total + score;
    }
  }

  /** The error a dimension check raises, carrying the number its message reports. */
  datatype DimensionError = UnexpectedHeight(reported: int) | UnexpectedWidth(reported: int)

  /** The dimension check as the source writes it: the width message reports the height. */
  function DimensionCheckAsWritten(target: Image): (e: Option<DimensionError>)
    ensures e.None? <==> IsBlock(target)
  {
    if target.height != ScaledHeight then Some(UnexpectedHeight(target.height))
    else if target.width != ScaledWidth then Some(UnexpectedWidth(target.height))
    else None
  }

  /** With the right height and a wrong width, the as-written message reports
      ScaledHeight, which is not the offending width. */
  lemma WidthMessageReportsHeight(target: Image)
    requires target.height == ScaledHeight && target.width != ScaledWidth
    ensures DimensionCheckAsWritten(target) == Some(UnexpectedWidth(ScaledHeight))
    ensures DimensionCheckAsWritten(target).value.reported != target.width
  {
  }

  /** The dimension check with each message reporting the dimension it is about:
      height is checked first, then width. */
  function DimensionCheck(target: Image): (e: Option<DimensionError>)
    ensures e.None? <==> IsBlock(target)
    ensures e.Some? && e.value.UnexpectedHeight? ==> e.value.reported == target.height != ScaledHeight
    ensures e.Some? && e.value.UnexpectedWidth? ==>
      target.height == ScaledHeight && e.value.reported == target.width != ScaledWidth
  {
    if target.height != ScaledHeight then Some(UnexpectedHeight(target.height))
    else if target.width != ScaledWidth then Some(UnexpectedWidth(target.width))
    else None
  }

  /** Scoring that rejects a target of the wrong size by throwing instead of
      reading past the block. */
  method GetScoreChecked(target: Image, tile: Tile) returns (r: Result<int, DimensionError>)
    requires tile.Valid()
    ensures !IsBlock(target) ==> r == Failure(DimensionCheck(target).value)
    ensures IsBlock(target) ==> r.Success? && r.value == Score(target, tile.image, false)
  {
    var error := DimensionCheck(target);
    if error.Some? {
      return Failure(error.value);
    }
    var total := GetScore(target, tile, false);
    return Success(total);
  }

  /** The images of a tile pool, in iteration order. */
  function TileImages(tiles: seq<Tile>): (imgs: seq<Image>)
    ensures |imgs| == |tiles|
    ensures forall i | 0 <= i < |tiles| :: imgs[i] == tiles[i].image
  {
    seq(|tiles|, i requires 0 <= i < |tiles| => tiles[i].image)
  }

  predicate AllTileImages(imgs: seq<Image>) {
    forall i | 0 <= i < |imgs| :: IsTileImage(imgs[i])
  }

  /** Index of the first greatest of f(0), ..., f(n - 1): the running best of a
      left-to-right scan that moves only on a strictly greater value. */
  function FirstBest(f: nat --> int, n: nat): (k: nat)
    requires 0 < n && forall j | 0 <= j < n :: f.requires(j)
    ensures k < n
  {
    if n == 1 then 0
    else
      var k := FirstBest(f, n - 1);
      if f(n - 1) > f(k) then n - 1 else k
  }

  /** Among f(0), ..., f(n - 1), f(k) is greatest and every value before it is smaller. */
  predicate IsFirstBest(f: nat --> int, n: nat, k: nat)
    requires forall j | 0 <= j < n :: f.requires(j)
  {
    k < n &&
    (forall j | 0 <= j < n :: f(j) <= f(k)) &&
    (forall j | 0 <= j < k :: f(j) < f(k))
  }

  lemma {:induction false} FirstBestIsFirstBest(f: nat --> int, n: nat)
    requires 0 < n && forall j | 0 <= j < n :: f.requires(j)
    ensures IsFirstBest(f, n, FirstBest(f, n))
  {
    if n > 1 {
      FirstBestIsFirstBest(f, n - 1);
    }
  }

  /** There is only one first best. */
  lemma FirstBestUnique(f: nat --> int, n: nat, k1: nat, k2: nat)
    requires forall j | 0 <= j < n :: f.requires(j)
    requires IsFirstBest(f, n, k1) && IsFirstBest(f, n, k2)
    ensures k1 == k2
  {
    assert f(k2) <= f(k1);
    assert f(k1) <= f(k2);
  }

  /** The scores of a pool against one block, by position in the pool. */
  function ScoreOf(target: Image, imgs: seq<Image>, bw: bool): nat --> int
    requires IsBlock(target) && AllTileImages(imgs)
  {
    (j: nat) requires j < |imgs| => Score(target, imgs[j], bw)
  }

  /** Which tile of a non-empty pool the search picks. */
  function BestIndex(target: Image, imgs: seq<Image>, bw: bool): (k: nat)
    requires IsBlock(target) && AllTileImages(imgs) && |imgs| > 0
    ensures k < |imgs|
  {
    FirstBest(ScoreOf(target, imgs, bw), |imgs|)
  }

  /** The picked tile scores highest, and every tile before it scores strictly
      lower: it is the first of the best-scoring tiles, and the only one. */
  lemma BestIndexIsFirstBest(target: Image, imgs: seq<Image>, bw: bool)
    requires IsBlock(target) && AllTileImages(imgs) && |imgs| > 0
    ensures forall j | 0 <= j < |imgs| ::
      Score(target, imgs[j], bw) <= Score(target, imgs[BestIndex(target, imgs, bw)], bw)
    ensures forall j | 0 <= j < BestIndex(target, imgs, bw) ::
      Score(target, imgs[j], bw) < Score(target, imgs[BestIndex(target, imgs, bw)], bw)
    ensures forall k | 0 <= k < |imgs| && IsFirstBest(ScoreOf(target, imgs, bw), |imgs|, k) ::
      k == BestIndex(target, imgs, bw)
  {
    var f := ScoreOf(target, imgs, bw);
    var k := BestIndex(target, imgs, bw);
    FirstBestIsFirstBest(f, |imgs|);
    forall j | 0 <= j < |imgs|
      ensures Score(target, imgs[j], bw) <= Score(target, imgs[k], bw)
      ensures j < k ==> Score(target, imgs[j], bw) < Score(target, imgs[k], bw)
    {
      assert f(j) == Score(target, imgs[j], bw) && f(k) == Score(target, imgs[k], bw);
    }
    forall k | 0 <= k < |imgs| && IsFirstBest(f, |imgs|, k) ensures k == BestIndex(target, imgs, bw) {
      FirstBestUnique(f, |imgs|, k, BestIndex(target, imgs, bw));
    }
  }

  /** The state of a scan over f(0), ..., f(n - 1) after the first i values:
      nothing yet (best value -1), or the first best so far with its value. */
  predicate ScanState(f: nat --> int, n: nat, i: nat, best: nat, bestValue: int)
    requires forall j | 0 <= j < n :: f.requires(j)
  {
    i <= n &&
    (i == 0 ==> bestValue == -1) &&
    (i > 0 ==> IsFirstBest(f, i, best) && bestValue == f(best))
  }

  /** One step of the scan over non-negative values: the next value takes over
      exactly when it is strictly greater than the best so far. */
  lemma ScanStep(f: nat --> int, n: nat, i: nat, best: nat, bestValue: int)
    requires forall j | 0 <= j < n :: f.requires(j)
    requires ScanState(f, n, i, best, bestValue) && i < n && f(i) >= 0
    ensures f(i) > bestValue ==> ScanState(f, n, i + 1, i, f(i))
    ensures f(i) <= bestValue ==> ScanState(f, n, i + 1, best, bestValue)
  {
  }

  /** A finished scan has found the first best. */
  lemma ScanFindsFirstBest(f: nat --> int, n: nat, best: nat, bestValue: int)
    requires forall j | 0 <= j < n :: f.requires(j)
    requires n > 0 && ScanState(f, n, n, best, bestValue)
    ensures best == FirstBest(f, n)
  {
    FirstBestIsFirstBest(f, n);
    FirstBestUnique(f, n, best, FirstBest(f, n));
  }

  ghost predicate AllValid(tiles: seq<Tile>)
    reads set t | t in tiles :: t.pixels
  {
    forall t | t in tiles :: t.Valid()
  }

  lemma AllValidImages(tiles: seq<Tile>)
    requires AllValid(tiles)
    ensures AllTileImages(TileImages(tiles))
  {
    forall i | 0 <= i < |tiles| ensures IsTileImage(TileImages(tiles)[i]) {
      assert tiles[i] in tiles;
    }
  }

  /** Exhaustive search for the best-scoring tile. The running best starts at
      null with score -1 and is replaced only on a strictly greater score, so the
      first of several best tiles wins and an empty pool gives null. */
  method GetBestFitTile(target: Image, tiles: seq<Tile>, bw: bool) returns (bestFit: Option<Tile>)
    requires IsBlock(target)
    requires AllValid(tiles)
    ensures |tiles| == 0 <==> bestFit.None?
    ensures |tiles| > 0 ==>
      AllTileImages(TileImages(tiles)) && bestFit == Some(tiles[BestIndex(target, TileImages(tiles), bw)])
  {
    AllValidImages(tiles);
    ghost var imgs := TileImages(tiles);
    ghost var f := ScoreOf(target, imgs, bw);
    bestFit := None;
    var bestFitScore := -1;
    ghost var best := 0;
    for i := 0 to |tiles|
      invariant ScanState(f, |tiles|, i, best, bestFitScore)
      invariant i == 0 ==> bestFit == None
      invariant i > 0 ==> best < |tiles| && bestFit == Some(tiles[best])
    {
      assert tiles[i] in tiles;
      var score := GetScore(target, tiles[i], bw);
      assert score == f(i);
      ScoreNonNegative(target, imgs[i], bw);
      ScanStep(f, |tiles|, i, best, bestFitScore);
      if score > bestFitScore {
        bestFitScore := score;
        bestFit := Some(tiles[i]);
        best := i;
      }
    }
    if |tiles| > 0 {
      ScanFindsFirstBest(f, |tiles|, best, bestFitScore);
    }
  }

  /** The search on a pool of one returns that tile whatever its score. */
  lemma SingleTilePool(target: Image, tileImage: Image, bw: bool)
    requires IsBlock(target) && IsTileImage(tileImage)
    ensures BestIndex(target, [tileImage], bw) == 0
  {
  }

  /** A tile whose signature equals the block wins with the top score 76500. */
  lemma ExactMatchWins(target: Image, imgs: seq<Image>, k: nat)
    requires IsBlock(target) && AllTileImages(imgs) && k < |imgs|
    requires forall x: nat, y: nat | x < target.width && y < target.height ::
      Decode(At(target, x, y)) == SignatureCell(imgs[k], x, y)
    ensures Score(target, imgs[BestIndex(target, imgs, false)], false) == 76500
    ensures BestIndex(target, imgs, false) <= k
  {
    BestIndexIsFirstBest(target, imgs, false);
    PerfectColourScore(target, imgs[k]);
    PerfectColourScore(target, imgs[BestIndex(target, imgs, false)]);
  }

  /** The search with the throwing dimension check: a non-empty pool and a
      wrongly sized target raise the check's error at the first tile; an empty
      pool returns null without scoring anything. */
  method GetBestFitTileChecked(target: Image, tiles: seq<Tile>) returns (r: Result<Option<Tile>, DimensionError>)
    requires AllValid(tiles)
    ensures |tiles| == 0 ==> r == Success(None)
    ensures |tiles| > 0 && !IsBlock(target) ==> r == Failure(DimensionCheck(target).value)
    ensures |tiles| > 0 && IsBlock(target) ==>
      AllTileImages(TileImages(tiles)) && r == Success(Some(tiles[BestIndex(target, TileImages(tiles), false)]))
  {
    if |tiles| == 0 {
      return Success(None);
    }
    var error := DimensionCheck(target);
    if error.Some? {
      return Failure(error.value);
    }
    var bestFit := GetBestFitTile(target, tiles, false);
    return Success(bestFit);
  }
}
