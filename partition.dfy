/** Block partitioning of the target image: BlockWidth x BlockHeight blocks at
    origins that are multiples of the block size, columns outer and rows inner;
    a right or bottom strip narrower than one block is dropped. */
module Partition {
  import opened Raster
  import opened Tiles

  /** Block size in target pixels: one target pixel per signature cell, so a
      block is as large as a signature grid (BlockIsSignatureGrid). */
  const BlockWidth: nat := 10
  const BlockHeight: nat := 10

  lemma BlockIsSignatureGrid()
    ensures BlockWidth == ScaledWidth == TileWidth / TileScale
    ensures BlockHeight == ScaledHeight == TileHeight / TileScale
  {
  }

  type Origin = (nat, nat)

  /** The origins of block column cx, rows 0 .. rows - 1, top to bottom. */
  function Column(cx: nat, rows: nat): (os: seq<Origin>)
    ensures |os| == rows
    ensures forall r | 0 <= r < rows :: os[r] == (BlockWidth * cx, BlockHeight * r)
  {
    seq(rows, r requires 0 <= r < rows => (BlockWidth * cx, BlockHeight * r))
  }

  /** The origins of block columns 0 .. cols - 1, column after column. */
  function Origins(cols: nat, rows: nat): seq<Origin> {
    if cols == 0 then [] else Origins(cols - 1, rows) + Column(cols - 1, rows)
  }

  /** The origins of the blocks that fit entirely in a width x height image. */
  function PartitionOrigins(width: nat, height: nat): seq<Origin> {
    Origins(width / BlockWidth, height / BlockHeight)
  }

  predicate Fits(o: Origin, width: nat, height: nat) {
    o.0 + BlockWidth <= width && o.1 + BlockHeight <= height
  }

  /** Every block of `os` lies inside a width x height image. */
  predicate AllFit(os: seq<Origin>, width: nat, height: nat) {
    forall k | 0 <= k < |os| :: os[k].0 + BlockWidth <= width && os[k].1 + BlockHeight <= height
  }

  lemma {:induction false} OriginsShape(cols: nat, rows: nat, k: nat)
    requires k < |Origins(cols, rows)|
    ensures Origins(cols, rows)[k].0 % BlockWidth == 0 && Origins(cols, rows)[k].1 % BlockHeight == 0
    ensures Origins(cols, rows)[k].0 < BlockWidth * cols && Origins(cols, rows)[k].1 < BlockHeight * rows
  {
    var prev, col := Origins(cols - 1, rows), Column(cols - 1, rows);
    assert Origins(cols, rows) == prev + col;
    if k < |prev| {
      OriginsShape(cols - 1, rows, k);
      assert Origins(cols, rows)[k] == prev[k];
    } else {
      var r := k - |prev|;
      assert Origins(cols, rows)[k] == col[r] == (BlockWidth * (cols - 1), BlockHeight * r);
    }
  }

  /** Every origin of a partition is a multiple of the block size whose block lies inside the image. */
  lemma PartitionOriginsFit(width: nat, height: nat, k: nat)
    requires k < |PartitionOrigins(width, height)|
    ensures PartitionOrigins(width, height)[k].0 % BlockWidth == 0
    ensures PartitionOrigins(width, height)[k].1 % BlockHeight == 0
    ensures Fits(PartitionOrigins(width, height)[k], width, height)
  {
    OriginsShape(width / BlockWidth, height / BlockHeight, k);
  }

  lemma PartitionFits(width: nat, height: nat)
    ensures AllFit(PartitionOrigins(width, height), width, height)
  {
    var os := PartitionOrigins(width, height);
    forall k | 0 <= k < |os| ensures os[k].0 + BlockWidth <= width && os[k].1 + BlockHeight <= height {
      PartitionOriginsFit(width, height, k);
    }
  }

  /** The parts for a list of origins: the block at each origin, tagged with it. */
  function PartsAt(input: Image, os: seq<Origin>): (parts: seq<Part>)
    requires AllFit(os, input.width, input.height)
    ensures |parts| == |os|
    ensures forall k | 0 <= k < |os| ::
      parts[k] == Part(SubImage(input, os[k].0, os[k].1, BlockWidth, BlockHeight), os[k].0, os[k].1)
  {
    seq(|os|, k requires 0 <= k < |os| => Part(SubImage(input, os[k].0, os[k].1, BlockWidth, BlockHeight), os[k].0, os[k].1))
  }

  /** All the blocks of an image, in the order the partition visits them. */
  function Blocks(input: Image): seq<Part> {
    var os := PartitionOrigins(input.width, input.height);
    PartitionFits(input.width, input.height);
    PartsAt(input, os)
  }

  /** Slices the image into blocks: x steps over block columns while a whole
      block still fits, and for each x, y steps down the rows the same way. */
  method GetImagesFromInput(input: Image) returns (parts: seq<Part>)
    ensures parts == Blocks(input)
  {
    var totalHeight := input.height;
    var totalWidth := input.width;
    var rows := totalHeight / BlockHeight;
    parts := [];
    var x := 0;
    var y := 0;
    var w := BlockWidth;
    var h := BlockHeight;
    ghost var cx := 0;
    while x + w <= totalWidth
      invariant x == BlockWidth * cx && x <= totalWidth
      invariant y == 0
      invariant AllFit(Origins(cx, rows), totalWidth, totalHeight)
      invariant parts == PartsAt(input, Origins(cx, rows))
      decreases totalWidth - x
    {
      ghost var ry := 0;
      ghost var next := Origins(cx + 1, rows);
      forall k | 0 <= k < |next| ensures next[k].0 + BlockWidth <= totalWidth && next[k].1 + BlockHeight <= totalHeight {
        OriginsShape(cx + 1, rows, k);
      }
      assert next == Origins(cx, rows) + Column(cx, rows);
      while y + h <= totalHeight
        invariant y == BlockHeight * ry && y <= totalHeight && ry <= rows
        invariant parts == PartsAt(input, Origins(cx, rows) + Column(cx, ry))
        decreases totalHeight - y
      {
        var inputImagePart := SubImage(input, x, y, w, h);
        assert Column(cx, ry + 1) == Column(cx, ry) + [(x, y)];
        parts := parts + [Part(inputImagePart, x, y)];
        y := y + h;
        ry := ry + 1;
      }
      assert ry == rows;
      y := 0;
      x := x + w;
      cx := cx + 1;
    }
    assert cx == totalWidth / BlockWidth;
  }

  /** There are exactly (width / BlockWidth) * (height / BlockHeight) blocks. */
  lemma {:induction false} OriginsCount(cols: nat, rows: nat)
    ensures |Origins(cols, rows)| == cols * rows
  {
    if cols > 0 {
      OriginsCount(cols - 1, rows);
      assert (cols - 1) * rows + rows == cols * rows;
    }
  }

  lemma PartitionCount(width: nat, height: nat)
    ensures |PartitionOrigins(width, height)| == (width / BlockWidth) * (height / BlockHeight)
  {
    OriginsCount(width / BlockWidth, height / BlockHeight);
  }

  /** Every block-aligned origin whose block fits is in the partition. */
  lemma {:induction false} OriginsComplete(cols: nat, rows: nat, a: nat, b: nat)
    requires a < cols && b < rows
    ensures (BlockWidth * a, BlockHeight * b) in Origins(cols, rows)
  {
    if a < cols - 1 {
      OriginsComplete(cols - 1, rows, a, b);
    } else {
      assert Column(cols - 1, rows)[b] == (BlockWidth * a, BlockHeight * b);
    }
  }

  /** An origin is in the partition exactly when both coordinates are multiples
      of the block size and the whole block fits in the image; blocks that would
      stick out of the right or bottom edge are dropped. */
  lemma PartitionMembership(width: nat, height: nat, o: Origin)
    ensures o in PartitionOrigins(width, height) <==>
      o.0 % BlockWidth == 0 && o.1 % BlockHeight == 0 && Fits(o, width, height)
  {
    var os := PartitionOrigins(width, height);
    if o in os {
      var k :| 0 <= k < |os| && os[k] == o;
      PartitionOriginsFit(width, height, k);
    }
    if o.0 % BlockWidth == 0 && o.1 % BlockHeight == 0 && Fits(o, width, height) {
      OriginsComplete(width / BlockWidth, height / BlockHeight, o.0 / BlockWidth, o.1 / BlockHeight);
    }
  }

  /** No origin is visited twice. */
  lemma {:induction false} OriginsDistinct(cols: nat, rows: nat)
    ensures forall i, j | 0 <= i < j < |Origins(cols, rows)| :: Origins(cols, rows)[i] != Origins(cols, rows)[j]
  {
    if cols > 0 {
      OriginsDistinct(cols - 1, rows);
      var prev, col := Origins(cols - 1, rows), Column(cols - 1, rows);
      forall k | 0 <= k < |prev| ensures prev[k].0 < BlockWidth * (cols - 1) {
        OriginsShape(cols - 1, rows, k);
      }
    }
  }

  /** Every pixel of the largest block-aligned sub-rectangle lies in the block
      at (i - i % BlockWidth, j - j % BlockHeight), which is in the partition. */
  lemma PixelCovered(width: nat, height: nat, i: nat, j: nat)
    requires i < BlockWidth * (width / BlockWidth) && j < BlockHeight * (height / BlockHeight)
    ensures (i - i % BlockWidth, j - j % BlockHeight) in PartitionOrigins(width, height)
  {
    PartitionMembership(width, height, (i - i % BlockWidth, j - j % BlockHeight));
  }

  /** A 23 x 23 image has four blocks, (0, 0), (0, 10), (10, 0) and (10, 10); the
      trailing 3-pixel strips are dropped. */
  lemma Partition23x23()
    ensures PartitionOrigins(23, 23) == [(0, 0), (0, 10), (10, 0), (10, 10)]
  {
    assert 23 / BlockWidth == 2 && 23 / BlockHeight == 2;
    assert Column(0, 2) == [(0, 0), (0, 10)];
    assert Column(1, 2) == [(10, 0), (10, 10)];
    assert Origins(2, 2) == Origins(1, 2) + Column(1, 2);
    assert Origins(1, 2) == Origins(0, 2) + Column(0, 2);
  }
}
