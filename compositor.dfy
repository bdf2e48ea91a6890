/** Compositing: the output canvas is TileScale times the target in each
    direction, and each part's tile is copied into the window whose top-left
    corner is the part's position scaled by TileScale. */
module Compositor {
  import opened Wrappers
  import opened Pixels
  import opened Raster
  import opened Tiles
  import opened Partition

  /** The colour of a canvas pixel no part has written: a new 3-byte BGR buffer is all zeros. */
  const Background: Word := 0

  function Min(a: int, b: int): int {
    if a <= b then a else b
  }

  /** (i, j) lies in the window the part's tile is copied to: the TileWidth x
      TileHeight window at (TileScale * x, TileScale * y), clipped to the tile's own size. */
  predicate InWindow(p: Part, i: int, j: int) {
    TileScale * p.x <= i < TileScale * p.x + Min(TileWidth, p.image.width) &&
    TileScale * p.y <= j < TileScale * p.y + Min(TileHeight, p.image.height)
  }

  /** The whole TileWidth x TileHeight window of the part lies on a canvas for a
      width x height target; otherwise taking the sub-image throws. */
  predicate WindowFits(p: Part, width: nat, height: nat) {
    0 <= p.x && 0 <= p.y &&
    TileScale * p.x + TileWidth <= TileScale * width && TileScale * p.y + TileHeight <= TileScale * height
  }

  /** The canvas pixel (i, j) after the parts have been copied in order: the last
      part whose window holds (i, j) decides it; untouched pixels keep the background. */
  function CanvasAt(parts: seq<Part>, i: int, j: int): Word {
    if |parts| == 0 then Background
    else
      var p := parts[|parts| - 1];
      if InWindow(p, i, j) then At(p.image, i - TileScale * p.x, j - TileScale * p.y)
      else CanvasAt(parts[..|parts| - 1], i, j)
  }

  /** `getSubimage(...).setData(part.image.getData())`: copies the tile, clipped to
      the window, into the canvas; every other canvas pixel is left alone. */
  method CopyWindow(canvas: array2<Word>, p: Part)
    requires 0 <= p.x && 0 <= p.y
    requires TileScale * p.x + TileWidth <= canvas.Length0 && TileScale * p.y + TileHeight <= canvas.Length1
    modifies canvas
    ensures forall i, j | 0 <= i < canvas.Length0 && 0 <= j < canvas.Length1 ::
      canvas[i, j] == if InWindow(p, i, j) then At(p.image, i - TileScale * p.x, j - TileScale * p.y) else old(canvas[i, j])
  {
    var ox, oy := TileScale * p.x, TileScale * p.y;
    var w, h := Min(TileWidth, p.image.width), Min(TileHeight, p.image.height);
    for a := 0 to w
      invariant forall i, j | 0 <= i < canvas.Length0 && 0 <= j < canvas.Length1 ::
        canvas[i, j] == if ox <= i < ox + a && oy <= j < oy + h then At(p.image, i - ox, j - oy) else old(canvas[i, j])
    {
      for b := 0 to h
        invariant forall i, j | 0 <= i < canvas.Length0 && 0 <= j < canvas.Length1 ::
          canvas[i, j] ==
            if (ox <= i < ox + a && oy <= j < oy + h) || (i == ox + a && oy <= j < oy + b) then At(p.image, i - ox, j - oy)
            else old(canvas[i, j])
      {
        canvas[ox + a, oy + b] := At(p.image, a, b);
      }
    }
  }

  /** The condition under which compositing completes: the canvas has pixels and
      every part's window lies wholly on it. */
  predicate Composable(width: nat, height: nat, parts: seq<Part>) {
    width > 0 && height > 0 && forall k | 0 <= k < |parts| :: WindowFits(parts[k], width, height)
  }

  /** Why compositing threw: a canvas with no pixels cannot be allocated, and
      `getSubimage` refuses a window that is not on the canvas. */
  datatype CompositeError = EmptyCanvas | WindowOutsideCanvas

  /** Allocates a (TileScale * width) x (TileScale * height) canvas and copies each
      part's tile into its window, in order. A part whose window is not wholly on
      the canvas aborts the whole composition, and so does a target with no pixels. */
  method MakeOutputImage(width: nat, height: nat, parts: seq<Part>) returns (r: Result<array2<Word>, CompositeError>)
    ensures width == 0 || height == 0 ==> r == Failure(EmptyCanvas)
    ensures r.Success? <==> Composable(width, height, parts)
    ensures r.Success? ==>
      fresh(r.value) && r.value.Length0 == TileScale * width && r.value.Length1 == TileScale * height &&
      forall i, j | 0 <= i < r.value.Length0 && 0 <= j < r.value.Length1 :: r.value[i, j] == CanvasAt(parts, i, j)
  {
    if width == 0 || height == 0 {
      return Failure(EmptyCanvas);
    }
    var image := new Word[TileScale * width, TileScale * height]((i, j) => Background);
    for k := 0 to |parts|
      invariant forall q | 0 <= q < k :: WindowFits(parts[q], width, height)
      invariant forall i, j | 0 <= i < image.Length0 && 0 <= j < image.Length1 :: image[i, j] == CanvasAt(parts[..k], i, j)
    {
      var part := parts[k];
      if !WindowFits(part, width, height) {
        return Failure(WindowOutsideCanvas);
      }
      CopyWindow(image, part);
      assert parts[..k + 1][..k] == parts[..k];
    }
    assert parts[..|parts|] == parts;
    return Success(image);
  }

  /** A part positioned on the block grid. */
  predicate Aligned(p: Part) {
    0 <= p.x && 0 <= p.y && p.x % BlockWidth == 0 && p.y % BlockHeight == 0
  }

  predicate DistinctPositions(parts: seq<Part>) {
    forall a, b | 0 <= a < b < |parts| :: parts[a].x != parts[b].x || parts[a].y != parts[b].y
  }

  /** Windows of parts at distinct block-grid positions never overlap. */
  lemma WindowsDisjoint(p: Part, q: Part, i: int, j: int)
    requires Aligned(p) && Aligned(q)
    requires p.x != q.x || p.y != q.y
    ensures !(InWindow(p, i, j) && InWindow(q, i, j))
  {
    if p.x != q.x {
      assert p.x == BlockWidth * (p.x / BlockWidth) && q.x == BlockWidth * (q.x / BlockWidth);
    } else {
      assert p.y == BlockHeight * (p.y / BlockHeight) && q.y == BlockHeight * (q.y / BlockHeight);
    }
  }

  /** With distinct block-grid positions, a pixel in a part's window holds that
      part's tile pixel, whatever the order of the parts. */
  lemma {:induction false} CanvasAtCovered(parts: seq<Part>, k: nat, i: int, j: int)
    requires forall q | 0 <= q < |parts| :: Aligned(parts[q])
    requires DistinctPositions(parts)
    requires k < |parts| && InWindow(parts[k], i, j)
    ensures CanvasAt(parts, i, j) == At(parts[k].image, i - TileScale * parts[k].x, j - TileScale * parts[k].y)
  {
    var n := |parts|;
    if k < n - 1 {
      WindowsDisjoint(parts[k], parts[n - 1], i, j);
      CanvasAtCovered(parts[..n - 1], k, i, j);
    }
  }

  /** The canvas at offset (i, j) of a full-size part's window shows the part's
      tile pixel (i, j). */
  lemma CanvasShowsTile(parts: seq<Part>, k: nat, i: nat, j: nat)
    requires forall q | 0 <= q < |parts| :: Aligned(parts[q])
    requires DistinctPositions(parts)
    requires k < |parts| && parts[k].image.width >= TileWidth && parts[k].image.height >= TileHeight
    requires i < TileWidth && j < TileHeight
    ensures CanvasAt(parts, TileScale * parts[k].x + i, TileScale * parts[k].y + j) == At(parts[k].image, i, j)
  {
    CanvasAtCovered(parts, k, TileScale * parts[k].x + i, TileScale * parts[k].y + j);
  }

  /** A pixel outside every window keeps the background. */
  lemma {:induction false} CanvasAtUncovered(parts: seq<Part>, i: int, j: int)
    requires forall q | 0 <= q < |parts| :: !InWindow(parts[q], i, j)
    ensures CanvasAt(parts, i, j) == Background
  {
    if |parts| > 0 {
      CanvasAtUncovered(parts[..|parts| - 1], i, j);
    }
  }

  /** The window of every partition block lies on the canvas. */
  lemma PartitionWindowsFit(width: nat, height: nat, o: Origin, image: Image)
    requires o in PartitionOrigins(width, height)
    ensures WindowFits(Part(image, o.0, o.1), width, height)
    ensures Aligned(Part(image, o.0, o.1))
  {
    PartitionMembership(width, height, o);
  }
}
