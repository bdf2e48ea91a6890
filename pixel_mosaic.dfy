/** The pixel mosaic: the target is covered by TileSize x TileSize blocks (the
    last row and column of blocks clipped to the image), and each block is
    filled with the top-left colour of the source image whose top-left colour is
    nearest, in squared RGB distance, to the block's top-left target pixel. */
module PixelMosaic {
  import opened Wrappers
  import opened Pixels
  import opened Raster

  const TileSize: nat := 5

  /** Multiplying by a natural number keeps the order. */
  lemma MulMonotone(a: nat, b: nat, c: nat)
    requires b <= c
    ensures a * b <= a * c
  {
    assert a * c == a * b + a * (c - b);
  }

  lemma NatSquare(e: nat)
    ensures e * e >= 0
    ensures e * e == 0 <==> e == 0
    ensures e <= 255 ==> e * e <= 255 * 255
  {
    if e > 0 {
      MulMonotone(e, 1, e);
    }
    if e <= 255 {
      MulMonotone(e, e, 255);
      MulMonotone(255, e, 255);
    }
  }

  lemma SquareFacts(d: int)
    ensures d * d >= 0
    ensures d * d == 0 <==> d == 0
    ensures -255 <= d <= 255 ==> d * d <= 255 * 255
  {
    var e: nat := if d < 0 then -d else d;
    assert d * d == e * e;
    NatSquare(e);
  }

  /** Squared Euclidean distance between two colours: zero exactly for equal
      colours and at most 3 * 255 * 255 between in-range colours. */
  function GetColorDistance(a: Pixel, b: Pixel): (d: int)
    ensures d >= 0
    ensures d == 0 <==> a == b
    ensures InRange(a) && InRange(b) ==> d <= 3 * 255 * 255
  {
    var deltaRed, deltaGreen, deltaBlue := a.r - b.r, a.g - b.g, a.b - b.b;
    SquareFacts(deltaRed);
    SquareFacts(deltaGreen);
    SquareFacts(deltaBlue);
    deltaRed * deltaRed + deltaGreen * deltaGreen + deltaBlue * deltaBlue
  }

  /** The distance does not depend on which colour is the target. */
  lemma ColorDistanceSymmetric(a: Pixel, b: Pixel)
    ensures GetColorDistance(a, b) == GetColorDistance(b, a)
  {
    var dr, dg, db := a.r - b.r, a.g - b.g, a.b - b.b;
    assert dr * dr == (-dr) * (-dr);
    assert dg * dg == (-dg) * (-dg);
    assert db * db == (-db) * (-db);
  }

  /** A source image with its distance from the target colour. */
  datatype ImageScore = ImageScore(score: int, image: Image)

  predicate Sorted(s: seq<ImageScore>) {
    forall i, j | 0 <= i < j < |s| :: s[i].score <= s[j].score
  }

  /** The place of the first element of `t` whose score is not below `x`'s, or |t|. */
  function InsertionPoint(x: ImageScore, t: seq<ImageScore>): (i: nat)
    ensures i <= |t|
    ensures forall j | 0 <= j < i :: t[j].score < x.score
    ensures i < |t| ==> x.score <= t[i].score
  {
    if |t| == 0 || x.score <= t[0].score then 0 else 1 + InsertionPoint(x, t[1..])
  }

  /** Inserts `x` before the first element whose score is not smaller, so it
      precedes the equal-scored elements that came after it in the input. */
  function Insert(x: ImageScore, t: seq<ImageScore>): (r: seq<ImageScore>)
    ensures |r| == |t| + 1
    ensures multiset(r) == multiset(t) + multiset{x}
    ensures r[0] == (if |t| == 0 || x.score <= t[0].score then x else t[0])
  {
    if |t| == 0 || x.score <= t[0].score then [x] + t
    else
      assert t == [t[0]] + t[1..];
      [t[0]] + Insert(x, t[1..])
  }

  /** `x` lands at its insertion point, with the rest of the list around it unchanged. */
  lemma {:induction false} InsertPlacement(x: ImageScore, t: seq<ImageScore>)
    ensures Insert(x, t) == t[..InsertionPoint(x, t)] + [x] + t[InsertionPoint(x, t)..]
  {
    if |t| > 0 && x.score > t[0].score {
      var rest := t[1..];
      InsertPlacement(x, rest);
      assert t == [t[0]] + rest;
      ConsPlacement(t[0], rest, x, InsertionPoint(x, rest));
    } else {
      assert InsertionPoint(x, t) == 0;
      assert t[..0] + [x] + t[0..] == [x] + t;
    }
  }

  /** Putting h in front of a list with x at place i puts x at place i + 1. */
  lemma ConsPlacement(h: ImageScore, rest: seq<ImageScore>, x: ImageScore, i: nat)
    requires i <= |rest|
    ensures [h] + (rest[..i] + [x] + rest[i..]) == ([h] + rest)[..i + 1] + [x] + ([h] + rest)[i + 1..]
  {
    assert ([h] + rest)[..i + 1] == [h] + rest[..i];
    assert ([h] + rest)[i + 1..] == rest[i..];
  }

  lemma {:induction false} InsertSorted(x: ImageScore, t: seq<ImageScore>)
    requires Sorted(t)
    ensures Sorted(Insert(x, t))
  {
    if |t| > 0 && x.score > t[0].score {
      var rest := Insert(x, t[1..]);
      InsertSorted(x, t[1..]);
      assert Insert(x, t) == [t[0]] + rest;
      assert forall k | 0 <= k < |rest| :: t[0].score <= rest[0].score <= rest[k].score;
    }
  }

  /** `List.sort` by score: a stable sort, here an insertion sort. */
  function SortByScore(s: seq<ImageScore>): (r: seq<ImageScore>)
    ensures |r| == |s|
    ensures multiset(r) == multiset(s)
    ensures Sorted(r)
  {
    if |s| == 0 then []
    else
      assert s == [s[0]] + s[1..];
      var rest := SortByScore(s[1..]);
      InsertSorted(s[0], rest);
      Insert(s[0], rest)
  }

  /** The index of the first element with the lowest score. */
  function FirstLowest(s: seq<ImageScore>): (k: nat)
    requires |s| > 0
    ensures k < |s|
    ensures forall j | 0 <= j < |s| :: s[k].score <= s[j].score
    ensures forall j | 0 <= j < k :: s[j].score > s[k].score
  {
    if |s| == 1 then 0
    else
      var m := 1 + FirstLowest(s[1..]);
      if s[0].score <= s[m].score then 0 else m
  }

  /** The head of the sorted list is the first of the lowest-scored elements of
      the unsorted one: ties go to the earlier source image. */
  lemma {:induction false} SortedHead(s: seq<ImageScore>)
    requires |s| > 0
    ensures SortByScore(s)[0] == s[FirstLowest(s)]
  {
    if |s| > 1 {
      SortedHead(s[1..]);
    }
  }

  /** The colour the pixel mosaic sees for an image: its top-left pixel. */
  function TopLeft(img: Image): Word
    requires img.width > 0 && img.height > 0
  {
    At(img, 0, 0)
  }

  predicate AllNonEmpty(sources: seq<Image>) {
    forall k | 0 <= k < |sources| :: sources[k].width > 0 && sources[k].height > 0
  }

  /** The scores of the source images against a target colour, in source order. */
  function ScoresFor(targetColor: Pixel, sources: seq<Image>): (s: seq<ImageScore>)
    requires AllNonEmpty(sources)
    ensures |s| == |sources|
    ensures forall k | 0 <= k < |sources| ::
      s[k] == ImageScore(GetColorDistance(targetColor, Decode(TopLeft(sources[k]))), sources[k])
  {
    seq(|sources|, k requires 0 <= k < |sources| =>
      ImageScore(GetColorDistance(targetColor, Decode(TopLeft(sources[k]))), sources[k]))
  }

  /** The index of the source image nearest to the colour: the head of the
      sorted scores. */
  function Nearest(targetColor: Pixel, sources: seq<Image>): (k: nat)
    requires AllNonEmpty(sources) && |sources| > 0
    ensures k < |sources|
  {
    FirstLowest(ScoresFor(targetColor, sources))
  }

  /** The nearest source is no farther than any other, and strictly nearer than
      every source before it: ties go to the first. */
  lemma NearestIsFirstClosest(targetColor: Pixel, sources: seq<Image>)
    requires AllNonEmpty(sources) && |sources| > 0
    ensures forall j | 0 <= j < |sources| ::
      GetColorDistance(targetColor, Decode(TopLeft(sources[Nearest(targetColor, sources)]))) <= GetColorDistance(targetColor, Decode(TopLeft(sources[j])))
    ensures forall j | 0 <= j < Nearest(targetColor, sources) ::
      GetColorDistance(targetColor, Decode(TopLeft(sources[j]))) > GetColorDistance(targetColor, Decode(TopLeft(sources[Nearest(targetColor, sources)])))
  {
    var s := ScoresFor(targetColor, sources);
    assert forall j | 0 <= j < |sources| :: s[j].score == GetColorDistance(targetColor, Decode(TopLeft(sources[j])));
  }

  /** A source whose top-left colour equals the target colour is chosen, unless
      an earlier source has that colour too. */
  lemma ExactColourWins(targetColor: Pixel, sources: seq<Image>, k: nat)
    requires AllNonEmpty(sources) && k < |sources|
    requires Decode(TopLeft(sources[k])) == targetColor
    ensures Nearest(targetColor, sources) <= k
    ensures Decode(TopLeft(sources[Nearest(targetColor, sources)])) == targetColor
  {
    var n := Nearest(targetColor, sources);
    NearestIsFirstClosest(targetColor, sources);
    assert GetColorDistance(targetColor, Decode(TopLeft(sources[k]))) == 0;
    assert GetColorDistance(targetColor, Decode(TopLeft(sources[n]))) == 0;
  }

  /** Scores every source image against the colour, sorts the scores and takes
      the head; with no source images the head does not exist. */
  method ClosestImage(targetColor: Pixel, sources: seq<Image>) returns (closest: Option<Image>)
    requires AllNonEmpty(sources)
    ensures |sources| == 0 <==> closest.None?
    ensures |sources| > 0 ==> closest == Some(sources[Nearest(targetColor, sources)])
  {
    var imageScores := [];
    for k := 0 to |sources|
      invariant |imageScores| == k
      invariant forall q | 0 <= q < k ::
        imageScores[q] == ImageScore(GetColorDistance(targetColor, Decode(TopLeft(sources[q]))), sources[q])
    {
      var sourceColor := Decode(TopLeft(sources[k]));
      var distance := GetColorDistance(targetColor, sourceColor);
      imageScores := imageScores + [ImageScore(distance, sources[k])];
    }
    assert imageScores == ScoresFor(targetColor, sources);
    var sorted := SortByScore(imageScores);
    if |sorted| == 0 {
      return None;
    }
    SortedHead(imageScores);
    closest := Some(sorted[0].image);
  }

  /** The colour of the block whose top-left target pixel is (x, y). */
  function BlockColour(target: Image, sources: seq<Image>, x: nat, y: nat): Word
    requires AllNonEmpty(sources) && |sources| > 0
    requires x < target.width && y < target.height
  {
    TopLeft(sources[Nearest(Decode(At(target, x, y)), sources)])
  }

  /** Paints the block at (x, y), clipped to the width x height mosaic, in one colour. */
  method FillBlock(mosaic: array2<Word>, x: nat, y: nat, colour: Word)
    modifies mosaic
    ensures forall i, j | 0 <= i < mosaic.Length0 && 0 <= j < mosaic.Length1 ::
      mosaic[i, j] == if x <= i < x + TileSize && y <= j < y + TileSize then colour else old(mosaic[i, j])
  {
    var i := x;
    while i < x + TileSize && i < mosaic.Length0
      invariant x <= i <= x + TileSize
      invariant forall i', j | 0 <= i' < mosaic.Length0 && 0 <= j < mosaic.Length1 ::
        mosaic[i', j] == if x <= i' < i && y <= j < y + TileSize then colour else old(mosaic[i', j])
      decreases x + TileSize - i
    {
      var j := y;
      while j < y + TileSize && j < mosaic.Length1
        invariant y <= j <= y + TileSize
        invariant forall i', j' | 0 <= i' < mosaic.Length0 && 0 <= j' < mosaic.Length1 ::
          mosaic[i', j'] ==
            if (x <= i' < i && y <= j' < y + TileSize) || (i' == i && y <= j' < j) then colour
            else old(mosaic[i', j'])
        decreases y + TileSize - j
      {
        mosaic[i, j] := colour;
        j := j + 1;
      }
      i := i + 1;
    }
  }

  /** Within a block-aligned step, every coordinate's block origin is the step's start. */
  lemma BlockOrigin(c: nat, i: nat)
    requires c <= i < TileSize * (c / TileSize) + TileSize && c % TileSize == 0
    ensures i - i % TileSize == c
  {
  }

  /** `imageScores.get(0)` on the empty score list of an empty source pool. */
  datatype MosaicError = NoSourceImages

  /** The colour the finished mosaic has at (i, j): that of the block holding it. */
  function MosaicAt(target: Image, sources: seq<Image>, i: nat, j: nat): Word
    requires AllNonEmpty(sources) && |sources| > 0
    requires i < target.width && j < target.height
  {
    BlockColour(target, sources, i - i % TileSize, j - j % TileSize)
  }

  /** One block of the walk: finds the source image nearest to the block's
      top-left target colour and paints the block, clipped to the mosaic, with
      that image's top-left colour; fails when there are no source images. */
  method PaintBlock(target: Image, sources: seq<Image>, mosaic: array2<Word>, x: nat, y: nat) returns (err: Option<MosaicError>)
    requires AllNonEmpty(sources)
    requires mosaic.Length0 == target.width && mosaic.Length1 == target.height
    requires x % TileSize == 0 && x < target.width && y % TileSize == 0 && y < target.height
    modifies mosaic
    ensures err.Some? <==> |sources| == 0
    ensures forall i, j | 0 <= i < mosaic.Length0 && 0 <= j < mosaic.Length1 ::
      mosaic[i, j] ==
        if err.None? && x <= i < x + TileSize && y <= j < y + TileSize then MosaicAt(target, sources, i, j)
        else old(mosaic[i, j])
  {
    var targetColor := Decode(At(target, x, y));
    var closestImage := ClosestImage(targetColor, sources);
    if closestImage.None? {
      return Some(NoSourceImages);
    }
    err := None;
    var colour := TopLeft(closestImage.value);
    FillBlock(mosaic, x, y, colour);
    forall i, j | 0 <= i < mosaic.Length0 && 0 <= j < mosaic.Length1 && x <= i < x + TileSize && y <= j < y + TileSize
      ensures MosaicAt(target, sources, i, j) == colour
    {
      BlockOrigin(x, i);
      BlockOrigin(y, j);
    }
  }

  /** Walks down the column of blocks starting at x, painting each block with the
      colour of the nearest source image; fails at the first block when there
      are no source images. */
  method PaintColumn(target: Image, sources: seq<Image>, mosaic: array2<Word>, x: nat) returns (err: Option<MosaicError>)
    requires AllNonEmpty(sources)
    requires mosaic.Length0 == target.width && mosaic.Length1 == target.height
    requires x % TileSize == 0 && x < target.width
    modifies mosaic
    ensures err.Some? <==> |sources| == 0 && target.height > 0
    ensures forall i, j | 0 <= i < mosaic.Length0 && 0 <= j < mosaic.Length1 ::
      mosaic[i, j] == if err.None? && x <= i < x + TileSize then MosaicAt(target, sources, i, j) else old(mosaic[i, j])
  {
    err := None;
    var y := 0;
    while y < target.height
      invariant err.None?
      invariant y % TileSize == 0
      invariant y > 0 ==> |sources| > 0
      invariant forall i, j | 0 <= i < mosaic.Length0 && 0 <= j < mosaic.Length1 ::
        mosaic[i, j] == if x <= i < x + TileSize && j < y then MosaicAt(target, sources, i, j) else old(mosaic[i, j])
      decreases target.height - y
    {
      label before:
      err := PaintBlock(target, sources, mosaic, x, y);
      if err.Some? {
        assert y == 0;
        forall i, j | 0 <= i < mosaic.Length0 && 0 <= j < mosaic.Length1
          ensures mosaic[i, j] == old(mosaic[i, j])
        {
          assert mosaic[i, j] == old@before(mosaic[i, j]);
        }
        return;
      }
      forall i, j | 0 <= i < mosaic.Length0 && 0 <= j < mosaic.Length1
        ensures mosaic[i, j] == if x <= i < x + TileSize && j < y + TileSize then MosaicAt(target, sources, i, j) else old(mosaic[i, j])
      {
        if !(x <= i < x + TileSize && y <= j < y + TileSize) {
          assert mosaic[i, j] == old@before(mosaic[i, j]);
        }
      }
      y := y + TileSize;
    }
  }

  /** Walks the blocks column by column and paints each one with the colour of
      the nearest source image. The mosaic has the target's size. */
  method CreatePixelMosaic(target: Image, sources: seq<Image>, mosaic: array2<Word>) returns (err: Option<MosaicError>)
    requires AllNonEmpty(sources)
    requires mosaic.Length0 == target.width && mosaic.Length1 == target.height
    modifies mosaic
    ensures err.Some? <==> |sources| == 0 && target.width > 0 && target.height > 0
    ensures err.Some? ==> forall i, j | 0 <= i < mosaic.Length0 && 0 <= j < mosaic.Length1 :: mosaic[i, j] == old(mosaic[i, j])
    ensures err.None? && target.width > 0 && target.height > 0 ==>
      |sources| > 0 &&
      forall i, j | 0 <= i < mosaic.Length0 && 0 <= j < mosaic.Length1 ::
        mosaic[i, j] == MosaicAt(target, sources, i, j)
  {
    err := None;
    var x := 0;
    while x < target.width
      invariant err.None?
      invariant x % TileSize == 0
      invariant x > 0 && target.height > 0 ==> |sources| > 0
      invariant forall i, j | 0 <= i < mosaic.Length0 && 0 <= j < mosaic.Length1 ::
        mosaic[i, j] == if i < x then MosaicAt(target, sources, i, j) else old(mosaic[i, j])
      decreases target.width - x
    {
      label before:
      err := PaintColumn(target, sources, mosaic, x);
      if err.Some? {
        assert x == 0;
        forall i, j | 0 <= i < mosaic.Length0 && 0 <= j < mosaic.Length1
          ensures mosaic[i, j] == old(mosaic[i, j])
        {
          assert mosaic[i, j] == old@before(mosaic[i, j]);
        }
        return;
      }
      forall i, j | 0 <= i < mosaic.Length0 && 0 <= j < mosaic.Length1
        ensures mosaic[i, j] == if i < x + TileSize then MosaicAt(target, sources, i, j) else old(mosaic[i, j])
      {
        if !(x <= i < x + TileSize) {
          assert mosaic[i, j] == old@before(mosaic[i, j]);
        }
      }
      x := x + TileSize;
    }
  }
}
