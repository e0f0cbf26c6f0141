/** Turning the loaded logo into the grid (index.js:158-181): each cell takes
    the class of the colour at its centre pixel. The canvas is 512 x 512
    (index.js:6-7) and its RGBA data holds four bytes per pixel, row by row. */
module Sampler {
  import opened Board

  const CanvasWidth: int := 512
  const CanvasHeight: int := 512

  /** One channel of the canvas's RGBA data. */
  type Byte = b: int | 0 <= b < 256

  /** The data `getImageData` returns for the whole canvas. */
  predicate IsPixelBuffer(pix: seq<Byte>) {
    |pix| == CanvasWidth * CanvasHeight * 4
  }

  /** `Math.floor((i + .5) * cellWidth)` with `cellWidth = 512 / 30`,
      computed exactly. */
  function CentreX(i: int): (cx: int)
    requires 0 <= i < GridWidth
    ensures 0 <= cx < CanvasWidth
    ensures cx as real <= (i as real + 0.5) * (CanvasWidth as real / GridWidth as real) < cx as real + 1.0
  {
    ((2 * i + 1) * CanvasWidth) / (2 * GridWidth)
  }

  /** `Math.floor((j + .5) * cellHeight)` with `cellHeight = 512 / 30`,
      computed exactly. */
  function CentreY(j: int): (cy: int)
    requires 0 <= j < GridHeight
    ensures 0 <= cy < CanvasHeight
    ensures cy as real <= (j as real + 0.5) * (CanvasHeight as real / GridHeight as real) < cy as real + 1.0
  {
    ((2 * j + 1) * CanvasHeight) / (2 * GridHeight)
  }

  /** Index of the red byte of pixel `(cx, cy)`: the whole pixel, alpha
      included, lies inside the buffer. */
  function PixelOffset(cx: int, cy: int): (o: int)
    requires 0 <= cx < CanvasWidth && 0 <= cy < CanvasHeight
    ensures 0 <= o && o + 3 < CanvasWidth * CanvasHeight * 4
    ensures o % 4 == 0
  {
    (cy * CanvasWidth + cx) * 4
  }

  /** The pixel `(column, row)` whose bytes start at offset `o` of the
      row-by-row RGBA data. */
  function PixelAt(o: int): (int, int) {
    ((o / 4) % CanvasWidth, (o / 4) / CanvasWidth)
  }

  /** The offset of pixel `(cx, cy)` decodes back to that pixel, so the
      sampler reads the pixel it means and not, say, its transpose. */
  lemma PixelOffsetDecodes(cx: int, cy: int)
    requires 0 <= cx < CanvasWidth && 0 <= cy < CanvasHeight
    ensures PixelAt(PixelOffset(cx, cy)) == (cx, cy)
  {
  }

  /** The cell value of a colour (index.js:171-179): exactly #b22222 is
      background, exactly #d89090 is far foreground, every other colour
      foreground. */
  function Classify(r: Byte, g: Byte, b: Byte): (v: int)
    ensures 0 <= v <= 2
    ensures v == 0 <==> r == 0xb2 && g == 0x22 && b == 0x22
    ensures v == 2 <==> r == 0xd8 && g == 0x90 && b == 0x90
  {
    if r == 0xb2 && g == 0x22 && b == 0x22 then 0
    else if r == 0xd8 && g == 0x90 && b == 0x90 then 2
    else 1
  }

  /** The value the sampler writes to cell `(i, j)`: the class of the
      colour at the cell's centre pixel; the alpha byte plays no part. */
  function SampleCell(pix: seq<Byte>, i: int, j: int): (v: int)
    requires IsPixelBuffer(pix) && InGrid(i, j)
    ensures 0 <= v <= 2
  {
    var o := PixelOffset(CentreX(i), CentreY(j));
    Classify(pix[o], pix[o + 1], pix[o + 2])
  }

  /** The grid the sampler produces. */
  function Sample(pix: seq<Byte>): (g: Grid)
    requires IsPixelBuffer(pix)
    ensures ValuesOk(g)
    ensures forall i, j :: InGrid(i, j) ==> g[i][j] == SampleCell(pix, i, j)
  {
    seq(GridWidth, i requires 0 <= i < GridWidth =>
      seq(GridHeight, j requires 0 <= j < GridHeight => SampleCell(pix, i, j)))
  }

  /** An image of one colour throughout gives a grid of one value
      throughout: background for #b22222, far foreground for #d89090,
      foreground for any other colour. */
  lemma UniformImage(pix: seq<Byte>, r: Byte, g: Byte, b: Byte)
    requires IsPixelBuffer(pix)
    requires forall o :: 0 <= o < |pix| && o % 4 == 0 ==> pix[o] == r && pix[o + 1] == g && pix[o + 2] == b
    ensures forall i, j :: InGrid(i, j) ==> Sample(pix)[i][j] == Classify(r, g, b)
    ensures r == 0xb2 && g == 0x22 && b == 0x22 ==>
      forall i, j :: InGrid(i, j) ==> Sample(pix)[i][j] == 0
    ensures r == 0xd8 && g == 0x90 && b == 0x90 ==>
      forall i, j :: InGrid(i, j) ==> Sample(pix)[i][j] == 2
    ensures !(r == 0xb2 && g == 0x22 && b == 0x22) && !(r == 0xd8 && g == 0x90 && b == 0x90) ==>
      forall i, j :: InGrid(i, j) ==> Sample(pix)[i][j] == 1
  {
    forall i, j | InGrid(i, j)
      ensures Sample(pix)[i][j] == Classify(r, g, b)
    {
      var o := PixelOffset(CentreX(i), CentreY(j));
      assert pix[o] == r && pix[o + 1] == g && pix[o + 2] == b;
    }
  }

  /** Alpha is ignored: two images that differ only in their alpha bytes
      give the same grid. */
  lemma AlphaIgnored(pix: seq<Byte>, pix': seq<Byte>)
    requires IsPixelBuffer(pix) && IsPixelBuffer(pix')
    requires forall k :: 0 <= k < |pix| && k % 4 != 3 ==> pix[k] == pix'[k]
    ensures Sample(pix) == Sample(pix')
  {
    forall i, j | InGrid(i, j)
      ensures Sample(pix)[i][j] == Sample(pix')[i][j]
    {
      var o := PixelOffset(CentreX(i), CentreY(j));
      assert (o + 1) % 4 == 1 && (o + 2) % 4 == 2;
      assert pix[o] == pix'[o] && pix[o + 1] == pix'[o + 1] && pix[o + 2] == pix'[o + 2];
    }
    GridExt(Sample(pix), Sample(pix'));
  }
}
