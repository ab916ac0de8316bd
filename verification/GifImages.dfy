/** The GIF file around the raster, and its data URL. The file is read by a reader of GIF files with
    one image and a global palette of two colours. Main result: the data URL reads back as the
    picture drawn, exactly for pictures less than 65536 pixels wide and high. */
module GifImages {
  import opened Wrappers
  import opened Bits
  import opened GifRaster
  import opened Base64

  // ---- Byte output ----------------------------------------------------------------------------

  ghost predicate AllBytes(xs: seq<nat>) {
    forall i :: 0 <= i < |xs| ==> xs[i] < 256
  }

  /** The two bytes of a 16-bit number, low byte first; higher bits are lost. */
  function Short(i: nat): (b: seq<nat>)
    ensures |b| == 2 && AllBytes(b)
  {
    [i % 256, i / 256 % 256]
  }

  function Word(lo: nat, hi: nat): nat {
    lo + 256 * hi
  }

  lemma ShortReads(i: nat)
    ensures Word(Short(i)[0], Short(i)[1]) < 65536
    ensures Word(Short(i)[0], Short(i)[1]) == i <==> i < 65536
  {}

  function CharCodes(s: string): (b: seq<nat>)
    ensures |b| == |s| && AllBytes(b)
  {
    seq(|s|, i requires 0 <= i < |s| => s[i] as nat % 256)
  }

  class ByteArrayOutputStream {
    var bytes: seq<nat>

    constructor ()
      ensures bytes == []
    {
      bytes := [];
    }

    method WriteByte(b: nat)
      modifies this
      ensures bytes == old(bytes) + [b % 256]
    {
      bytes := bytes + [b % 256];
    }

    method WriteShort(i: nat)
      modifies this
      ensures bytes == old(bytes) + Short(i)
    {
      WriteByte(i);
      WriteByte(i / 256);
    }

    /** A length of 0 would mean all of `b`; no caller passes one. */
    method WriteBytes(b: seq<nat>, off: nat, len: nat)
      requires AllBytes(b) && 0 < len && off + len <= |b|
      modifies this
      ensures bytes == old(bytes) + b[off..off + len]
    {
      var i := 0;
      while i < len
        invariant i <= len
        invariant bytes == old(bytes) + b[off..off + i]
      {
        WriteByte(b[i + off]);
        i := i + 1;
      }
    }

    method WriteString(s: string)
      modifies this
      ensures bytes == old(bytes) + CharCodes(s)
    {
      var i := 0;
      while i < |s|
        invariant i <= |s|
        invariant bytes == old(bytes) + CharCodes(s)[..i]
      {
        WriteByte(s[i] as nat);
        i := i + 1;
      }
    }
  }

  // ---- The file -------------------------------------------------------------------------------

  const BLACK: seq<nat> := [0, 0, 0]
  const WHITE: seq<nat> := [255, 255, 255]
  const MIN_CODE_SIZE: nat := 2

  /** Signature, screen descriptor and global palette. */
  function Screen(width: nat, height: nat): (b: seq<nat>)
    ensures |b| == 19 && AllBytes(b)
  {
    CharCodes("GIF87a") + Short(width) + Short(height) + [0x80, 0, 0] + BLACK + WHITE
  }

  /** Image descriptor and the code size of the raster. */
  function Descriptor(width: nat, height: nat): (b: seq<nat>)
    ensures |b| == 11 && AllBytes(b)
  {
    CharCodes(",") + Short(0) + Short(0) + Short(width) + Short(height) + [0, MIN_CODE_SIZE]
  }

  function GifBytes(width: nat, height: nat, raster: seq<nat>): seq<nat> {
    Screen(width, height) + (Descriptor(width, height) + (SubBlocks(raster) + CharCodes(";")))
  }

  lemma {:induction false} SubBlocksAreBytes(raster: seq<nat>)
    requires AllBytes(raster)
    ensures AllBytes(SubBlocks(raster))
  {
    if |raster| > 255 { SubBlocksAreBytes(raster[255..]); }
  }

  lemma GifIsBytes(width: nat, height: nat, raster: seq<nat>)
    requires AllBytes(raster)
    ensures AllBytes(GifBytes(width, height, raster))
  {
    hide SubBlocks, Screen, Descriptor, CharCodes;
    SubBlocksAreBytes(raster);
  }

  /** A picture: its palette holds three bytes a colour, its pixels are palette indices row by row. */
  datatype Image = Image(width: nat, height: nat, palette: seq<nat>, pixels: seq<nat>)

  /** Reads a file with one image that covers the screen, a global palette of two colours of which the
      first is the background, and square pixels. */
  function ReadGif(b: seq<nat>): Option<Image> {
    if |b| < 30 || b[..6] != [0x47, 0x49, 0x46, 0x38, 0x37, 0x61] || b[10..13] != [0x80, 0, 0] then None
    else if b[19] != 0x2c || b[20..24] != [0, 0, 0, 0] || b[24..28] != b[6..10] || b[28] != 0 then None
    else ReadRaster(Word(b[24], b[25]), Word(b[26], b[27]), b[13..19], b[29], b[30..])
  }

  /** The raster's sub-blocks, followed by the terminator and nothing else. */
  function ReadRaster(width: nat, height: nat, palette: seq<nat>, m: nat, b: seq<nat>): (r: Option<Image>)
    ensures r.Some? ==> r.value.width == width && r.value.height == height
  {
    match ReadSubBlocks(b)
    case None => None
    case Some((raster, after)) =>
      if after != [0x3b] then None else
        match DecodeImage(m, LsbBytes(raster), width * height)
        case None => None
        case Some(d) => Some(Image(width, height, palette, d.pixels))
  }

  /** The raster stands for the pixels. */
  ghost predicate Compresses(raster: seq<nat>, data: seq<nat>) {
    && raster != [] && AllBytes(raster)
    && var d := DecodeImage(MIN_CODE_SIZE, LsbBytes(raster), |data|); d.Some? && d.value.pixels == data
  }

  lemma ScreenReads(width: nat, height: nat)
    ensures var b := Screen(width, height);
            && b[..6] == [0x47, 0x49, 0x46, 0x38, 0x37, 0x61]
            && b[6..10] == Short(width) + Short(height) && b[10..13] == [0x80, 0, 0] && b[13..19] == BLACK + WHITE
  {}

  lemma DescriptorReads(width: nat, height: nat)
    ensures var b := Descriptor(width, height);
            && b[0] == 0x2c && b[1..5] == [0, 0, 0, 0]
            && b[5..9] == Short(width) + Short(height) && b[9] == 0 && b[10] == MIN_CODE_SIZE
  {}

  lemma HeaderReads(b: seq<nat>, width: nat, height: nat, rest: seq<nat>)
    requires b == Screen(width, height) + (Descriptor(width, height) + rest)
    ensures ReadGif(b) == ReadRaster(Word(Short(width)[0], Short(width)[1]), Word(Short(height)[0], Short(height)[1]),
                                     BLACK + WHITE, MIN_CODE_SIZE, rest)
  {
    hide Screen, Descriptor, Short, Word, ReadRaster;
    ScreenReads(width, height);
    DescriptorReads(width, height);
    var s, d := Screen(width, height), Descriptor(width, height);
    assert b[..6] == s[..6] && b[6..10] == s[6..10] && b[10..13] == s[10..13] && b[13..19] == s[13..19];
    assert b[20..24] == d[1..5] && b[24..28] == d[5..9] && b[30..] == rest;
    assert d[5..9][0] == d[5] && d[5..9][1] == d[6] && d[5..9][2] == d[7] && d[5..9][3] == d[8];
  }

  /** MAIN RESULT: the file reads back as the picture exactly when both sizes fit 16 bits. */
  lemma GifRoundTrip(width: nat, height: nat, data: seq<nat>, raster: seq<nat>)
    requires |data| == width * height && Compresses(raster, data)
    ensures ReadGif(GifBytes(width, height, raster)) == Some(Image(width, height, [0, 0, 0, 255, 255, 255], data))
            <==> width < 65536 && height < 65536
  {
    hide Screen, Descriptor, Short, Word, SubBlocks, ReadSubBlocks, DecodeImage, ReadGif;
    HeaderReads(GifBytes(width, height, raster), width, height, SubBlocks(raster) + CharCodes(";"));
    SubBlocksRoundTrip(raster, CharCodes(";"));
    ShortReads(width);
    ShortReads(height);
    assert BLACK + WHITE == [0, 0, 0, 255, 255, 255];
  }

  // ---- Drawing and writing --------------------------------------------------------------------

  /** Pixel (x, y) of a picture is number y * width + x. */
  class GifImage {
    const width: nat
    const height: nat
    const data: array<nat>

    ghost predicate Valid()
      reads data
    {
      data.Length == width * height
    }

    /** Pixels never set behave as 0. */
    constructor (width: nat, height: nat)
      ensures Valid() && fresh(data) && this.width == width && this.height == height
    {
      this.width, this.height := width, height;
      data := new nat[width * height](_ => 0);
    }

    method SetPixel(x: nat, y: nat, pixel: nat)
      requires Valid() && x < width && y < height
      modifies data
      ensures Valid() && y * width + x < data.Length
      ensures data[..] == old(data[..])[y * width + x := pixel]
    {
      InPicture(width, height, x, y);
      data[y * width + x] := pixel;
    }

    method Write(out: ByteArrayOutputStream) returns (ghost raster: seq<nat>)
      requires Valid() && AllPixels(MIN_CODE_SIZE, data[..])
      modifies out
      ensures Compresses(raster, data[..])
      ensures out.bytes == old(out.bytes) + GifBytes(width, height, raster)
    {
      hide Screen, Descriptor, SubBlocks, DecodeImage, RasterBits, LsbBytes;
      WriteScreen(out);
      WriteDescriptor(out);
      var bytes, padding := GetLzwRaster(MIN_CODE_SIZE, data[..]);
      raster := bytes;
      RasterNotEmpty(data[..], bytes, padding);
      WriteRaster(out, bytes);
      out.WriteString(";");
      Assoc(old(out.bytes), Screen(width, height), Descriptor(width, height));
      assert out.bytes == old(out.bytes) + GifBytes(width, height, raster);
    }

    method WriteScreen(out: ByteArrayOutputStream)
      modifies out
      ensures out.bytes == old(out.bytes) + Screen(width, height)
    {
      out.WriteString("GIF87a");
      out.WriteShort(width);
      out.WriteShort(height);
      out.WriteByte(0x80);
      out.WriteByte(0);
      out.WriteByte(0);
      WritePalette(out);
    }

    method WritePalette(out: ByteArrayOutputStream)
      modifies out
      ensures out.bytes == old(out.bytes) + BLACK + WHITE
    {
      out.WriteByte(0x00);
      out.WriteByte(0x00);
      out.WriteByte(0x00);
      out.WriteByte(0xff);
      out.WriteByte(0xff);
      out.WriteByte(0xff);
    }

    method WriteDescriptor(out: ByteArrayOutputStream)
      modifies out
      ensures out.bytes == old(out.bytes) + Descriptor(width, height)
    {
      out.WriteString(",");
      out.WriteShort(0);
      out.WriteShort(0);
      out.WriteShort(width);
      out.WriteShort(height);
      out.WriteByte(0);
      out.WriteByte(MIN_CODE_SIZE);
    }

    method WriteRaster(out: ByteArrayOutputStream, raster: seq<nat>)
      requires AllBytes(raster) && raster != []
      modifies out
      ensures out.bytes == old(out.bytes) + SubBlocks(raster)
    {
      var offset := 0;
      while |raster| - offset > 255
        invariant 0 <= offset < |raster|
        invariant out.bytes + SubBlocks(raster[offset..]) == old(out.bytes) + SubBlocks(raster)
      {
        ghost var was := out.bytes;
        assert raster[offset..][..255] == raster[offset..offset + 255];
        assert raster[offset..][255..] == raster[offset + 255..];
        out.WriteByte(255);
        out.WriteBytes(raster, offset, 255);
        assert out.bytes == was + ([255] + raster[offset..offset + 255]);
        Assoc(was, [255] + raster[offset..offset + 255], SubBlocks(raster[offset + 255..]));
        offset := offset + 255;
      }
      ghost var was := out.bytes;
      var len := |raster| - offset;
      out.WriteByte(len);
      out.WriteBytes(raster, offset, len);
      out.WriteByte(0x00);
      assert raster[offset..offset + len] == raster[offset..];
      assert out.bytes == was + ([len] + raster[offset..] + [0]);
    }
  }

  lemma InPicture(width: nat, height: nat, x: nat, y: nat)
    requires x < width && y < height
    ensures y * width + x < width * height
  {
    MulStep(y, height, width);
  }

  lemma RasterNotEmpty(data: seq<nat>, raster: seq<nat>, padding: nat)
    requires AllPixels(MIN_CODE_SIZE, data)
    requires LsbBytes(raster) == RasterBits(MIN_CODE_SIZE, data) + Zeros(padding)
    ensures raster != []
  {
    hide EmittedBits, ImageCodes, LastWidth;
    assert |RasterBits(MIN_CODE_SIZE, data)| > 0;
  }

  // ---- The data URL ---------------------------------------------------------------------------

  /** The picture drawn by asking for every pixel, row by row. */
  function Pixels(width: nat, height: nat, getPixel: (nat, nat) -> nat): (p: seq<nat>)
  {
    if height == 0 then []
    else Pixels(width, height - 1, getPixel) + RowStart(width, height - 1, getPixel)
  }

  /** The first pixels of row y. */
  function RowStart(count: nat, y: nat, getPixel: (nat, nat) -> nat): (p: seq<nat>)
    ensures |p| == count
  {
    seq(count, x requires 0 <= x < count => getPixel(x, y))
  }

  lemma {:induction false} PixelCount(width: nat, height: nat, getPixel: (nat, nat) -> nat)
    ensures |Pixels(width, height, getPixel)| == width * height
  {
    if height > 0 {
      PixelCount(width, height - 1, getPixel);
      assert width * height == width * (height - 1) + width;
    }
  }

  /** Every pixel is where a reader looks for it. */
  lemma {:induction false} PixelAt(width: nat, height: nat, getPixel: (nat, nat) -> nat, x: nat, y: nat)
    requires x < width && y < height
    ensures y * width + x < |Pixels(width, height, getPixel)|
    ensures Pixels(width, height, getPixel)[y * width + x] == getPixel(x, y)
  {
    PixelCount(width, height - 1, getPixel);
    if y < height - 1 {
      PixelAt(width, height - 1, getPixel, x, y);
    } else {
      assert width * (height - 1) == y * width;
    }
  }

  const PREFIX: string := "data:image/gif;base64,"

  /** Reads bytes up to the end of the stream. */
  function Collect(rs: seq<ReadResult>): Option<seq<nat>> {
    if rs == [] then None
    else match rs[0]
      case EndOfStream => Some([])
      case Byte(b) => (match Collect(rs[1..]) case None => None case Some(more) => Some([b] + more))
      case _ => None
  }

  function ReadUrl(url: string): Option<Image> {
    if !("data:image/gif;base64," <= url) then None else
      var text := url[22..];
      match Collect(Reads([], text, |text| + 1))
      case None => None
      case Some(bytes) => ReadGif(bytes)
  }

  lemma {:induction false} CollectExpected(bytes: seq<nat>, n: nat)
    requires n > |bytes|
    ensures Collect(Expected(bytes, n)) == Some(bytes)
    decreases n
  {
    if bytes != [] {
      CollectExpected(bytes[1..], n - 1);
      assert [bytes[0]] + bytes[1..] == bytes;
    }
  }

  lemma TextIsLonger(bytes: seq<nat>)
    ensures |Rfc4648(bytes)| >= |bytes|
  {
    hide Sextets;
    BytesLength(bytes);
    var bits := MsbBytes(bytes) + Zeros(PadBits(|bytes|));
    ChunksOfSextets(bits);
    SextetsOfChunks(Sextets(bits));
  }

  lemma UrlReads(bytes: seq<nat>)
    requires AllBytes(bytes)
    ensures ReadUrl(PREFIX + Rfc4648(bytes)) == ReadGif(bytes)
  {
    hide Rfc4648, Reads, Expected, Collect, ReadGif;
    var text := Rfc4648(bytes);
    assert (PREFIX + text)[|PREFIX|..] == text;
    TextIsLonger(bytes);
    RoundTrip(bytes, |text| + 1);
    CollectExpected(bytes, |text| + 1);
  }

  method Draw(width: nat, height: nat, getPixel: (nat, nat) -> nat) returns (gif: GifImage)
    ensures fresh(gif) && fresh(gif.data) && gif.Valid() && gif.width == width && gif.height == height
    ensures gif.data[..] == Pixels(width, height, getPixel)
  {
    gif := new GifImage(width, height);
    var y := 0;
    while y < height
      invariant y <= height && y * width <= width * height
      invariant gif.Valid() && gif.width == width && gif.height == height && fresh(gif.data)
      invariant gif.data[..y * width] == Pixels(width, y, getPixel)
    {
      MulStep(y, height, width);
      var x := 0;
      while x < width
        invariant x <= width
        invariant gif.Valid() && gif.width == width && gif.height == height && fresh(gif.data)
        invariant gif.data[..y * width + x] == Pixels(width, y, getPixel) + RowStart(x, y, getPixel)
      {
        ghost var was := gif.data[..];
        gif.SetPixel(x, y, getPixel(x, y));
        assert gif.data[..y * width + x + 1] == was[..y * width + x] + [getPixel(x, y)];
        assert RowStart(x + 1, y, getPixel) == RowStart(x, y, getPixel) + [getPixel(x, y)];
        x := x + 1;
      }
      assert (y + 1) * width == y * width + width;
      y := y + 1;
    }
    assert gif.data[..] == gif.data[..y * width];
  }

  method EncodeBase64(bytes: seq<nat>) returns (text: string)
    requires AllBytes(bytes)
    ensures text == Rfc4648(bytes)
  {
    hide Rfc4648, Base64EncodeOutputStream.Valid;
    var base64 := new Base64EncodeOutputStream();
    var i := 0;
    while i < |bytes|
      invariant i <= |bytes|
      invariant fresh(base64) && base64.Valid() && base64.bytes == bytes[..i]
    {
      base64.WriteByte(bytes[i]);
      i := i + 1;
    }
    assert bytes[..i] == bytes;
    base64.Flush();
    text := base64.base64;
  }

  /** MAIN RESULT: the data URL reads back as the picture drawn, exactly when both sizes fit the
      16 bits that the file has for them. */
  method CreateDataUrl(width: nat, height: nat, getPixel: (nat, nat) -> nat) returns (url: string)
    requires forall x: nat, y: nat :: x < width && y < height ==> getPixel(x, y) < 2
    ensures ReadUrl(url) == Some(Image(width, height, [0, 0, 0, 255, 255, 255], Pixels(width, height, getPixel)))
            <==> width < 65536 && height < 65536
  {
    hide GifBytes, Compresses, ReadGif, ReadUrl, Pixels;
    var gif := Draw(width, height, getPixel);
    var b := new ByteArrayOutputStream();
    PixelCount(width, height, getPixel);
    TwoColours(width, height, getPixel);
    ghost var raster := gif.Write(b);
    GifRoundTrip(width, height, gif.data[..], raster);
    CompressesBytes(raster, gif.data[..]);
    GifIsBytes(width, height, raster);
    assert b.bytes == GifBytes(width, height, raster);
    var base64 := EncodeBase64(b.bytes);
    UrlReads(b.bytes);
    return PREFIX + base64;
  }

  lemma CompressesBytes(raster: seq<nat>, data: seq<nat>)
    requires Compresses(raster, data)
    ensures AllBytes(raster)
  {}

  lemma {:induction false} TwoColours(width: nat, height: nat, getPixel: (nat, nat) -> nat)
    requires forall x: nat, y: nat :: x < width && y < height ==> getPixel(x, y) < 2
    ensures AllPixels(MIN_CODE_SIZE, Pixels(width, height, getPixel))
  {
    if height > 0 { TwoColours(width, height - 1, getPixel); }
  }
}
