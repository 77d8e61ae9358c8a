/** The tiling of `get_watermarked_pdf`: every page gets an overlay of the
    watermark text drawn on a grid, merged on top of the page. Reading and
    writing PDF bytes and drawing glyphs are left to the libraries; a page is
    its media box, its original content (opaque) and the overlays merged onto
    it. */
module Watermark {

  const WatermarkFontSize: int := 18
  const WatermarkAngle: int := 45
  const WatermarkOpacity: real := 0.1
  const WatermarkFont: string := "Helvetica"

  /** `max(watermark_font_size * 4, 100)`. */
  const StepSize: int := if WatermarkFontSize * 4 > 100 then WatermarkFontSize * 4 else 100

  /** A PDF media box: lower-left and upper-right corners. */
  datatype MediaBox = MediaBox(llx: real, lly: real, urx: real, ury: real)

  /** One `drawString` of the text, after translating to (x, y) and rotating. */
  datatype Tile = Tile(x: int, y: int, angle: int, opacity: real, font: string, fontSize: int,
                       text: string)

  /** The single-page watermark PDF drawn on a canvas of the given size. */
  datatype Overlay = Overlay(width: real, height: real, tiles: seq<Tile>)

  /** A page: its box, its original content, and the overlays merged on it,
      the last one on top. */
  datatype Page = Page(mediabox: MediaBox, content: int, overlays: seq<Overlay>)

  /** `page.merge_page(overlay)`: the overlay goes on top, the rest stays. */
  function MergePage(page: Page, overlay: Overlay): Page
  {
    page.(overlays := page.overlays + [overlay])
  }

  /** Python's `int()` of a number: truncation toward zero. */
  function Trunc(r: real): int
  {
    if r >= 0.0 then r.Floor else -((-r).Floor)
  }

  /** `int(dim / step_size) + 2`, the number of tiles along one axis. */
  function TileCount(dim: real): (c: int)
    ensures dim >= 0.0 ==> c >= 2 && ((c - 2) * StepSize) as real <= dim < ((c - 1) * StepSize) as real
  {
    Trunc(dim / StepSize as real) + 2
  }

  /** The number of iterations of `range(n)`. */
  function RangeLength(n: int): nat
  {
    if n > 0 then n else 0
  }

  /** The tile drawn at loop position (x, y): origin ((x-1)*step, (y-1)*step). */
  function TileAt(x: int, y: int, text: string): Tile
  {
    Tile((x - 1) * StepSize, (y - 1) * StepSize, WatermarkAngle, WatermarkOpacity,
         WatermarkFont, WatermarkFontSize, text)
  }

  /** The tiles of one pass of the inner loop, for column `x`. */
  function Column(x: int, ny: nat, text: string): seq<Tile>
  {
    seq(ny, y requires 0 <= y < ny => TileAt(x, y, text))
  }

  /** The tiles of the first `nx` columns, in drawing order. */
  function Grid(nx: nat, ny: nat, text: string): (g: seq<Tile>)
    ensures |g| == nx * ny
  {
    if nx == 0 then [] else Grid(nx - 1, ny, text) + Column(nx - 1, ny, text)
  }

  /** The grid draws `nx * ny` tiles, exactly the positions (x, y) with
      x < nx and y < ny. */
  lemma {:induction false} GridSpec(nx: nat, ny: nat, text: string)
    ensures |Grid(nx, ny, text)| == nx * ny
    ensures forall t :: t in Grid(nx, ny, text) <==>
              exists x, y :: 0 <= x < nx && 0 <= y < ny && t == TileAt(x, y, text)
  {
    if nx > 0 {
      GridSpec(nx - 1, ny, text);
      var g := Grid(nx, ny, text);
      assert g == Grid(nx - 1, ny, text) + Column(nx - 1, ny, text);
      var c := nx - 1;
      forall t | t in Column(c, ny, text)
        ensures exists y :: 0 <= y < ny && t == TileAt(c, y, text)
      {
        var y :| 0 <= y < ny && Column(c, ny, text)[y] == t;
      }
      forall x, y | 0 <= x < nx && 0 <= y < ny
        ensures TileAt(x, y, text) in g
      {
        if x == nx - 1 {
          assert Column(nx - 1, ny, text)[y] == TileAt(x, y, text);
        }
      }
    }
  }

  /** The nested `for x / for y` loops that draw one overlay. */
  method DrawTiles(width: real, height: real, text: string) returns (tiles: seq<Tile>)
    ensures tiles == Grid(RangeLength(TileCount(width)), RangeLength(TileCount(height)), text)
  {
    var numX := TileCount(width);
    var numY := TileCount(height);
    ghost var nx, ny := RangeLength(numX), RangeLength(numY);
    tiles := [];
    var x := 0;
    while x < numX
      invariant 0 <= x && (x <= numX || x == 0)
      invariant tiles == Grid(x, ny, text)
    {
      var y := 0;
      while y < numY
        invariant 0 <= y && (y <= numY || y == 0)
        invariant tiles == Grid(x, ny, text) + Column(x, ny, text)[..y]
      {
        tiles := tiles + [TileAt(x, y, text)];
        assert Column(x, ny, text)[..y + 1] == Column(x, ny, text)[..y] + [TileAt(x, y, text)];
        y := y + 1;
      }
      assert Column(x, ny, text)[..y] == Column(x, ny, text);
      x := x + 1;
    }
    assert x == nx;
  }

  /** The overlay of one page: the canvas takes the page's upper-right
      corner as its size, and the tile counts follow from it. */
  function PageOverlay(page: Page, text: string): Overlay
  {
    var w, h := page.mediabox.urx, page.mediabox.ury;
    Overlay(w, h, Grid(RangeLength(TileCount(w)), RangeLength(TileCount(h)), text))
  }

  /** `get_watermarked_pdf` after reading the input: one output page per
      input page, in order, each the input page with its overlay on top. */
  method GetWatermarkedPdf(pages: seq<Page>, text: string) returns (output: seq<Page>)
    ensures |output| == |pages|
    ensures forall i :: 0 <= i < |pages| ==>
              output[i] == MergePage(pages[i], PageOverlay(pages[i], text))
  {
    output := [];
    for i := 0 to |pages|
      invariant |output| == i
      invariant forall k :: 0 <= k < i ==> output[k] == MergePage(pages[k], PageOverlay(pages[k], text))
    {
      var page := pages[i];
      var width := page.mediabox.urx;
      var height := page.mediabox.ury;
      var tiles := DrawTiles(width, height, text);
      output := output + [MergePage(page, Overlay(width, height, tiles))];
    }
  }

  /** A watermarked page keeps its box and its content, and carries the
      page's overlay on top of whatever it had. */
  lemma WatermarkedPageKeepsPage(page: Page, text: string)
    ensures var p := MergePage(page, PageOverlay(page, text));
            p.mediabox == page.mediabox && p.content == page.content &&
            p.overlays[..|page.overlays|] == page.overlays &&
            p.overlays[|p.overlays| - 1].tiles ==
              Grid(RangeLength(TileCount(page.mediabox.urx)), RangeLength(TileCount(page.mediabox.ury)), text)
  {
  }

  /** The step is 100 and the tiles of a non-negative dimension run from
      -100 up to `floor(dim/100)*100`, which lies past `dim - 100`. */
  lemma TileRange(dim: real)
    requires dim >= 0.0
    ensures StepSize == 100
    ensures TileCount(dim) >= 2
    ensures ((TileCount(dim) - 2) * StepSize) as real > dim - StepSize as real
  {
    var f := (dim / 100.0).Floor;
    assert f as real <= dim / 100.0 < f as real + 1.0;
  }

  /** Every point of the page from the origin to the upper-right corner lies
      in the square [x, x+100) x [y, y+100) of some tile origin (x, y). */
  lemma Coverage(page: Page, text: string, px: real, py: real)
    requires 0.0 <= px <= page.mediabox.urx && 0.0 <= py <= page.mediabox.ury
    ensures exists t :: t in PageOverlay(page, text).tiles &&
              t.x as real <= px < (t.x + StepSize) as real &&
              t.y as real <= py < (t.y + StepSize) as real
  {
    var w, h := page.mediabox.urx, page.mediabox.ury;
    var nx, ny := RangeLength(TileCount(w)), RangeLength(TileCount(h));
    var x := CoveringIndex(px, w);
    var y := CoveringIndex(py, h);
    GridSpec(nx, ny, text);
    assert TileAt(x, y, text) in Grid(nx, ny, text);
  }

  /** The loop index whose tile covers coordinate `p` of an axis of length `dim`. */
  lemma CoveringIndex(p: real, dim: real) returns (x: int)
    requires 0.0 <= p <= dim
    ensures 0 <= x < RangeLength(TileCount(dim))
    ensures ((x - 1) * StepSize) as real <= p < (x * StepSize) as real
  {
    var fp := (p / 100.0).Floor;
    var fd := (dim / 100.0).Floor;
    assert fp as real <= p / 100.0 < fp as real + 1.0;
    assert fd as real <= dim / 100.0 < fd as real + 1.0;
    assert fp <= fd;
    x := fp + 1;
  }
}
