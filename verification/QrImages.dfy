/** The symbol as a picture in a data URL. */
module QrImages {
  // Modules are squares of cellSize pixels inside a margin. Main result: from segments to the data
  // URL and back, when the picture is read and each module sampled at any one of its pixels.

  import opened Wrappers
  import Bits
  import Gf256
  import GifImages
  import Segments
  import opened QrData
  import opened QrBlocks
  import opened QrPlacement
  import opened QrSymbol

  /** What a caller's cell size and margin amount to: a size of 0 counts as not given. */
  function CellSize(given: Option<nat>): (cellSize: nat)
    ensures cellSize > 0
  {
    match given case Some(size) => (if size > 0 then size else 2) case None => 2
  }

  function Margin(given: Option<nat>, cellSize: nat): nat {
    match given case Some(margin) => margin case None => cellSize * 4
  }

  function PictureSize(n: nat, cellSize: nat, margin: nat): nat {
    n * cellSize + margin * 2
  }

  /** Without a size a module is two pixels wide, and without a margin the quiet zone has the four
      modules on each side that ISO/IEC 18004:2015, section 6.3.8, asks for; given ones are kept. */
  lemma Defaults(n: nat, size: Option<nat>, margin: Option<nat>)
    ensures var cellSize := CellSize(size);
      && (size == None || size == Some(0) ==> cellSize == 2)
      && (size.Some? && size.value > 0 ==> cellSize == size.value)
      && (margin == None ==> PictureSize(n, cellSize, Margin(margin, cellSize)) == (n + 8) * cellSize)
      && (margin.Some? ==> PictureSize(n, cellSize, Margin(margin, cellSize)) == n * cellSize + 2 * margin.value)
  {}

  predicate InSymbol(k: nat, n: nat, cellSize: nat, margin: nat) {
    margin <= k < n * cellSize + margin
  }

  lemma ModuleInside(k: nat, n: nat, cellSize: nat)
    requires cellSize > 0 && k < n * cellSize
    ensures Bits.Quotient(k, cellSize) < n
  {
    var q, r := Bits.DivMod(k, cellSize);
    if q >= n { Bits.MulMonotone(n, q, cellSize); }
  }

  /** 0 is black, 1 is white. The module asked for is always in the grid, so isDark never throws. */
  function PixelOf(n: nat, grid: Grid, cellSize: nat, margin: nat, x: nat, y: nat): (pixel: nat)
    requires cellSize > 0 && IsGrid(n, grid)
    ensures pixel < 2
  {
    if InSymbol(x, n, cellSize, margin) && InSymbol(y, n, cellSize, margin) then
      ModuleInside(x - margin, n, cellSize);
      ModuleInside(y - margin, n, cellSize);
      var c, r := Bits.Quotient(x - margin, cellSize), Bits.Quotient(y - margin, cellSize);
      if grid[Cell(r, c)] == Dark then 0 else 1
    else
      1
  }

  ghost function Picture(n: nat, grid: Grid, cellSize: nat, margin: nat): GifImages.Image
    requires cellSize > 0 && IsGrid(n, grid)
  {
    var size := PictureSize(n, cellSize, margin);
    GifImages.Image(size, size, [0, 0, 0, 255, 255, 255],
                    GifImages.Pixels(size, size, (x: nat, y: nat) => PixelOf(n, grid, cellSize, margin, x, y)))
  }

  /** createDataURL of a finished symbol. */
  method CreateDataUrl(modules: array2<Module>, givenSize: Option<nat>, givenMargin: Option<nat>) returns (url: string)
    requires modules.Length0 == modules.Length1
    ensures var n, cellSize := modules.Length0, CellSize(givenSize);
            var margin := Margin(givenMargin, cellSize);
            && IsGrid(n, Cells(modules))
            && (GifImages.ReadUrl(url) == Some(Picture(n, Cells(modules), cellSize, margin))
                <==> PictureSize(n, cellSize, margin) < 65536)
  {
    hide GifImages.ReadUrl, GifImages.Pixels, PixelOf;
    var n, grid := modules.Length0, Cells(modules);
    var cellSize := CellSize(givenSize);
    var margin := Margin(givenMargin, cellSize);
    var size := PictureSize(n, cellSize, margin);
    url := GifImages.CreateDataUrl(size, size, (x: nat, y: nat) => PixelOf(n, grid, cellSize, margin, x, y));
  }

  // ---- Reading the picture --------------------------------------------------------------------

  /** The colour a viewer shows at (x, y); empty outside the picture or the palette. */
  function Colour(image: GifImages.Image, x: nat, y: nat): seq<nat> {
    var k := y * image.width + x;
    if x < image.width && k < |image.pixels| && 3 * image.pixels[k] + 3 <= |image.palette|
    then image.palette[3 * image.pixels[k]..3 * image.pixels[k] + 3] else []
  }

  /** The coordinate d pixels into the k-th module. */
  function Into(k: nat, d: nat, cellSize: nat, margin: nat): nat {
    margin + k * cellSize + d
  }

  /** Takes one pixel of every module, dx to the right of and dy below its corner. */
  function Sampled(image: GifImages.Image, n: nat, cellSize: nat, margin: nat, dx: nat, dy: nat): (g: Grid)
    ensures IsGrid(n, g)
  {
    hide Colour, Into;
    map r: int, c: int | 0 <= r < n && 0 <= c < n ::
      Cell(r, c) := Shade(Colour(image, Into(c, dx, cellSize, margin), Into(r, dy, cellSize, margin)) == [0, 0, 0])
  }

  lemma ModulePixel(k: nat, d: nat, n: nat, cellSize: nat, margin: nat)
    requires k < n && d < cellSize
    ensures InSymbol(Into(k, d, cellSize, margin), n, cellSize, margin)
    ensures Bits.Quotient(k * cellSize + d, cellSize) == k
  {
    Bits.MulStep(k, n, cellSize);
    Bits.ModUnique(k * cellSize + d, cellSize, k, d);
  }

  lemma PictureColour(n: nat, grid: Grid, cellSize: nat, margin: nat, x: nat, y: nat)
    requires cellSize > 0 && IsGrid(n, grid)
    requires x < PictureSize(n, cellSize, margin) && y < PictureSize(n, cellSize, margin)
    ensures Colour(Picture(n, grid, cellSize, margin), x, y)
         == if PixelOf(n, grid, cellSize, margin, x, y) == 0 then [0, 0, 0] else [255, 255, 255]
  {
    hide PixelOf;
    var size := PictureSize(n, cellSize, margin);
    GifImages.PixelAt(size, size, (a: nat, b: nat) => PixelOf(n, grid, cellSize, margin, a, b), x, y);
  }

  /** Every pixel of a module shows it: black for dark, white for light or empty. */
  lemma ModuleShown(n: nat, grid: Grid, cellSize: nat, margin: nat, r: nat, c: nat, dx: nat, dy: nat)
    requires IsGrid(n, grid) && r < n && c < n && dx < cellSize && dy < cellSize
    ensures Colour(Picture(n, grid, cellSize, margin), Into(c, dx, cellSize, margin), Into(r, dy, cellSize, margin))
         == if grid[Cell(r, c)] == Dark then [0, 0, 0] else [255, 255, 255]
  {
    hide Colour, Picture;
    ModulePixel(c, dx, n, cellSize, margin);
    ModulePixel(r, dy, n, cellSize, margin);
    PictureColour(n, grid, cellSize, margin, Into(c, dx, cellSize, margin), Into(r, dy, cellSize, margin));
  }

  /** Everything around the symbol is white. */
  lemma MarginIsWhite(n: nat, grid: Grid, cellSize: nat, margin: nat, x: nat, y: nat)
    requires cellSize > 0 && IsGrid(n, grid)
    requires x < PictureSize(n, cellSize, margin) && y < PictureSize(n, cellSize, margin)
    requires !InSymbol(x, n, cellSize, margin) || !InSymbol(y, n, cellSize, margin)
    ensures Colour(Picture(n, grid, cellSize, margin), x, y) == [255, 255, 255]
  {
    hide Colour, Picture;
    PictureColour(n, grid, cellSize, margin, x, y);
  }

  lemma SampledShades(n: nat, grid: Grid, cellSize: nat, margin: nat, dx: nat, dy: nat)
    requires IsGrid(n, grid) && dx < cellSize && dy < cellSize
    ensures forall x :: x in grid ==>
              x in Sampled(Picture(n, grid, cellSize, margin), n, cellSize, margin, dx, dy)
              && Sampled(Picture(n, grid, cellSize, margin), n, cellSize, margin, dx, dy)[x] == Shade(grid[x] == Dark)
  {
    hide Colour, Picture;
    var sampled := Sampled(Picture(n, grid, cellSize, margin), n, cellSize, margin, dx, dy);
    forall x | x in grid ensures x in sampled && sampled[x] == Shade(grid[x] == Dark) {
      ModuleShown(n, grid, cellSize, margin, x.row, x.col, dx, dy);
      assert x == Cell(x.row, x.col);
    }
  }

  /** A scan depends on nothing but which modules are dark. */
  lemma {:induction false} ReadsDark(path: seq<Cell>, before: Grid, g: Grid, h: Grid, pattern: nat)
    requires pattern < 8 && Within(path, before) && Within(path, g)
    requires forall x :: x in g ==> x in h && h[x] == Shade(g[x] == Dark)
    ensures Within(path, h)
    ensures ReadBack(path, before, h, pattern) == ReadBack(path, before, g, pattern)
  {
    hide Inverted;
    if path != [] { ReadsDark(path[1..], before, g, h, pattern); }
  }

  /** MAIN RESULT: the data URL of a symbol made from segments, read as base64, as a GIF, module by
      module at any pixel of each, and as a QR symbol, gives the segments. */
  method MakeDataUrl(math: Gf256.QrMath, modules: array2<Module>, version: int, blocks: seq<RsBlock>,
                     segments: seq<Segments.Segment>, pattern: nat,
                     givenSize: Option<nat>, givenMargin: Option<nat>)
    returns (r: Result<Option<string>>)
    requires math.Valid() && modules.Length0 == modules.Length1 > 0 && pattern < 8
    requires Proper(blocks) && 1 <= version < 41 && DataTotal(blocks) <= MaxDataCodewords(version)
    requires forall i :: 0 <= i < |segments| && segments[i].Bytes? ==> Segments.Writable(segments[i])
    modifies modules
    ensures r.Ok? <==> Segments.AllWritable(segments, version)
                       && |Segments.SegmentsBits(segments, version)| <= DataTotal(blocks) * Bits.BYTE
    ensures r.Ok? && ShortCorrections(blocks) ==> r.value.Some?
    ensures var n, cellSize := modules.Length0, CellSize(givenSize);
            var margin := Margin(givenMargin, cellSize);
            && r.Ok? && r.value.Some? && n >= 7 && n % 2 == 1 && PictureSize(n, cellSize, margin) < 65536
            && (forall i :: 0 <= i < n ==> old(Cells(modules))[Cell(i, 6)] != Empty)
            && |Free(old(Cells(modules)))| >= Bits.BYTE * CodeTotal(blocks)
            ==> && GifImages.ReadUrl(r.value.value).Some?
                && forall dx: nat, dy: nat :: dx < cellSize && dy < cellSize ==>
                     ScansTo(GifImages.ReadUrl(r.value.value).value, n, cellSize, margin, dx, dy, old(Cells(modules)), pattern,
                             blocks, version, segments)
  {
    hide Path, Free, Scan, Segments.AllWritable, Segments.SegmentsBits, GifImages.ReadUrl, Picture, Sampled, ScansTo;
    ghost var before := Cells(modules);
    var made := MakeSymbol(math, modules, version, blocks, segments, pattern);
    if made.Err? {
      return Err(made.error);
    } else if made.value.None? {
      return Ok(None);
    }
    var url := CreateDataUrl(modules, givenSize, givenMargin);
    r := Ok(Some(url));
    ghost var n, cellSize := modules.Length0, CellSize(givenSize);
    ghost var margin := Margin(givenMargin, cellSize);
    ghost var after := Cells(modules);
    if Scan(n, before, after, pattern, blocks, version) == Some(segments) {
      forall dx: nat, dy: nat | dx < cellSize && dy < cellSize
        ensures ScansTo(Picture(n, after, cellSize, margin), n, cellSize, margin, dx, dy, before, pattern,
                        blocks, version, segments)
      {
        PictureScans(n, before, after, cellSize, margin, dx, dy, pattern, blocks, version, segments);
      }
    }
  }

  /** The modules sampled from the picture scan to the segments. */
  ghost predicate ScansTo(image: GifImages.Image, n: nat, cellSize: nat, margin: nat, dx: nat, dy: nat, before: Grid,
                          pattern: nat, blocks: seq<RsBlock>, version: int, segments: seq<Segments.Segment>)
    requires pattern < 8
  {
    Scan(n, before, Sampled(image, n, cellSize, margin, dx, dy), pattern, blocks, version) == Some(segments)
  }

  lemma PictureScans(n: nat, before: Grid, after: Grid, cellSize: nat, margin: nat, dx: nat, dy: nat, pattern: nat,
                     blocks: seq<RsBlock>, version: int, segments: seq<Segments.Segment>)
    requires pattern < 8 && IsGrid(n, after) && dx < cellSize && dy < cellSize
    requires Scan(n, before, after, pattern, blocks, version) == Some(segments)
    ensures ScansTo(Picture(n, after, cellSize, margin), n, cellSize, margin, dx, dy, before, pattern, blocks, version,
                    segments)
  {
    hide WalkFrom, Picture, Sampled, ReadBack, Segments.ParseBytes, ReadSymbol;
    SampledShades(n, after, cellSize, margin, dx, dy);
    ReadsDark(Walk(n), before, after, Sampled(Picture(n, after, cellSize, margin), n, cellSize, margin, dx, dy), pattern);
  }
}
