/** Decoded images and image parts. */
module Raster {
  import opened Pixels

  /** A pixel buffer: `cols[x][y]` is the packed colour at column x, row y,
      the order in which `getRGB(x, y)` takes its coordinates. */
  datatype Grid = Grid(width: nat, height: nat, cols: seq<seq<Word>>)

  /** A well-formed buffer: `width` columns, each `height` pixels high. */
  type Image = g: Grid | |g.cols| == g.width && forall x | 0 <= x < |g.cols| :: |g.cols[x]| == g.height
    witness Grid(0, 0, [])

  /** `getRGB(x, y)`. */
  function At(img: Image, x: nat, y: nat): Word
    requires x < img.width && y < img.height
  {
    img.cols[x][y]
  }

  /** `getSubimage(x, y, w, h)`: the w-by-h window whose top-left corner is (x, y). */
  function SubImage(img: Image, x: nat, y: nat, w: nat, h: nat): (s: Image)
    requires x + w <= img.width && y + h <= img.height
    ensures s.width == w && s.height == h
    ensures forall i, j | 0 <= i < w && 0 <= j < h :: At(s, i, j) == At(img, x + i, y + j)
  {
    Grid(w, h, seq(w, i requires 0 <= i < w => seq(h, j requires 0 <= j < h => img.cols[x + i][y + j])))
  }

  /** `BufferedImagePart`: an image together with the position it belongs at. */
  datatype Part = Part(image: Image, x: int, y: int)
}
