/** The BMP decoder (`imagecreatefrombmpstring`): what it draws at every pixel,
    for any bytes, and that it inverts an encoder written from the format. */
module Bitmap {
  import opened Wrappers

  type byte = n: int | 0 <= n < 256

  /** A true colour with GD's alpha, 0 (opaque) to 127 (transparent). */
  datatype Colour = Colour(r: byte, g: byte, b: byte, alpha: int)

  const BLACK: Colour := Colour(0, 0, 0, 0)

  // ---- reading bytes ---------------------------------------------------------

  /** `ord` of a string offset: 0 outside of the string. */
  function ByteAt(s: seq<byte>, j: nat): byte {
    if j < |s| then s[j] else 0
  }

  /** `substr` */
  function Slice(s: seq<byte>, start: nat, len: nat): seq<byte> {
    if start >= |s| then [] else if start + len >= |s| then s[start..] else s[start..start + len]
  }

  /** The formats `v` and `V` of `unpack` */
  function Short(s: seq<byte>, at: nat): nat {
    ByteAt(s, at) + 0x100 * ByteAt(s, at + 1)
  }

  function Long(s: seq<byte>, at: nat): nat {
    Short(s, at) + 0x1_0000 * Short(s, at + 2)
  }

  // ---- geometry -----------------------------------------------------------------

  /** Bytes of a row that are read, and bytes to the next multiple of four. */
  function LineSize(bits: nat, width: nat): nat {
    (bits * width + 7) / 8
  }

  function LineAlign(bits: nat, width: nat): nat {
    if LineSize(bits, width) % 4 != 0 then 4 - LineSize(bits, width) % 4 else 0
  }

  function Stride(bits: nat, width: nat): nat {
    LineSize(bits, width) + LineAlign(bits, width)
  }

  /** The number of 32-bit words that hold `n` bits. */
  function Words(n: nat): nat {
    (n + 31) / 32
  }

  /** The stride is the size of a row in whole 32-bit words. */
  lemma StrideIsWholeWords(bits: nat, width: nat)
    ensures Stride(bits, width) == 4 * Words(bits * width)
  {
  }

  function LineOffset(bits: nat, width: nat, l: nat): nat {
    Stride(bits, width) * l
  }

  function LineStart(offset: nat, bits: nat, width: nat, l: nat): nat {
    offset + LineOffset(bits, width, l)
  }

  lemma ProductGrows(s: nat, k: nat, l: nat)
    requires k < l
    ensures s * k + s <= s * l
  {
    assert s * l == s * (k + 1) + s * (l - k - 1);
  }

  /** The rows that are read lie in the pixel data and do not overlap. */
  lemma LinesAreDisjoint(offset: nat, bits: nat, width: nat, height: nat, k: nat, l: nat)
    requires k < l < height
    ensures LineStart(offset, bits, width, k) + LineSize(bits, width) <= LineStart(offset, bits, width, l)
    ensures offset <= LineStart(offset, bits, width, k)
    ensures LineStart(offset, bits, width, l) + LineSize(bits, width) <= offset + LineOffset(bits, width, height)
  {
    ProductGrows(Stride(bits, width), k, l);
    ProductGrows(Stride(bits, width), l, height);
  }

  // ---- colours -------------------------------------------------------------------

  /** The precedence of `&` and `==` makes the mask the value 1, so that the test
      for magenta asks for odd red and blue and no green. */
  predicate IsKeyed(r: byte, g: byte, b: byte) {
    r % 2 != 0 && g == 0 && b % 2 != 0
  }

  function Allocate(r: byte, g: byte, b: byte, a: byte): Colour {
    Colour(r, g, b, if a > 127 || IsKeyed(r, g, b) then 127 else a)
  }

  /** The mask that was meant, 0xf8, asks for the five high bits of red and blue. */
  predicate IsMagenta(r: byte, g: byte, b: byte) {
    r / 8 == 31 && g == 0 && b / 8 == 31
  }

  function PaletteColour(data: seq<byte>, at: nat): Colour {
    Allocate(ByteAt(data, at + 2), ByteAt(data, at + 1), ByteAt(data, at), ByteAt(data, at + 3))
  }

  function PaletteSize(size: int): nat {
    if size <= 0 then 0 else (size + 3) / 4
  }

  function Palette(data: seq<byte>, size: int): seq<Colour> {
    seq(PaletteSize(size), i requires 0 <= i => PaletteColour(data, 4 * i))
  }

  /** An entry that is not there is null, which GD takes for the colour 0. */
  function ColourAt(pal: seq<Colour>, i: nat): Colour {
    if i < |pal| then pal[i] else BLACK
  }

  // ---- a pixel of a row ------------------------------------------------------------

  function HighNibble(b: byte): byte {
    b / 16
  }

  function LowNibble(b: byte): byte {
    b % 16
  }

  function PowerOfTwo(k: nat): nat
    requires k < 8
  {
    [1, 2, 4, 8, 16, 32, 64, 128][k]
  }

  /** The bit of the mask 0x80 >> k, as 0 or 1. */
  function BitOf(b: byte, k: nat): byte
    requires k < 8
  {
    b / PowerOfTwo(7 - k) % 2
  }

  /** The colour of pixel `x` of a row. */
  function PixelOf(bits: nat, pal: seq<Colour>, line: seq<byte>, x: nat): Colour {
    if bits == 24 then Allocate(ByteAt(line, 3 * x + 2), ByteAt(line, 3 * x + 1), ByteAt(line, 3 * x), 0)
    else if bits == 8 then ColourAt(pal, ByteAt(line, x))
    else if bits == 4 then
      ColourAt(pal, if x % 2 == 0 then HighNibble(ByteAt(line, x / 2)) else LowNibble(ByteAt(line, x / 2)))
    else if bits == 1 then ColourAt(pal, BitOf(ByteAt(line, x / 8), x % 8))
    else BLACK
  }

  datatype Header = Header(offset: nat, width: nat, height: nat, bits: nat)

  /** Too short for its headers, not of type BM, or without pixels: no image. */
  function ReadHeader(im: seq<byte>): Option<Header> {
    if |im| < 54 || Short(im, 0) != 0x4D42 || Long(im, 18) == 0 || Long(im, 22) == 0 then None
    else Some(Header(Long(im, 10), Long(im, 18), Long(im, 22), Short(im, 28)))
  }

  /** An image is read when it has both headers, starts with BM, and has columns
      and rows; its numbers are stored with the low byte first. */
  lemma WhichAreRead(im: seq<byte>)
    ensures ReadHeader(im).Some? <==>
      |im| >= 54 && im[0] as char == 'B' && im[1] as char == 'M'
      && (exists i :: 18 <= i < 22 && im[i] != 0) && (exists i :: 22 <= i < 26 && im[i] != 0)
    ensures ReadHeader(im).Some? ==>
      var h := ReadHeader(im).value;
      && h.offset == (im[10] as int) + 0x100 * (im[11] as int) + 0x1_0000 * (im[12] as int) +
        0x100_0000 * (im[13] as int)
      && h.width == (im[18] as int) + 0x100 * (im[19] as int) + 0x1_0000 * (im[20] as int) +
        0x100_0000 * (im[21] as int)
      && h.height == (im[22] as int) + 0x100 * (im[23] as int) + 0x1_0000 * (im[24] as int) +
        0x100_0000 * (im[25] as int)
      && h.bits == (im[28] as int) + 0x100 * (im[29] as int)
  {
    if |im| >= 54 {
      LongIsZero(im, 18);
      LongIsZero(im, 22);
    }
  }

  lemma LongIsZero(im: seq<byte>, at: nat)
    requires at + 4 <= |im|
    ensures Long(im, at) != 0 <==> exists i :: at <= i < at + 4 && im[i] != 0
  {
    if Long(im, at) != 0 {
      assert im[at] != 0 || im[at + 1] != 0 || im[at + 2] != 0 || im[at + 3] != 0;
    }
  }

  function PaletteOf(im: seq<byte>, h: Header): seq<Colour> {
    Palette(Slice(im, 54, if h.offset < 54 then 0 else h.offset - 54), h.offset - 54)
  }

  /** Row `y` from the top: the rows are stored from the bottom up. */
  function Line(im: seq<byte>, h: Header, y: nat): seq<byte>
    requires y < h.height
  {
    ScanLine(im, h, h.height - 1 - y, LineSize(h.bits, h.width))
  }

  function ScanLine(im: seq<byte>, h: Header, l: nat, lineSize: nat): seq<byte> {
    Slice(im, LineStart(h.offset, h.bits, h.width, l), lineSize)
  }

  function DecodedPixel(im: seq<byte>, h: Header, x: nat, y: nat): Colour
    requires y < h.height
  {
    PixelOf(h.bits, PaletteOf(im, h), Line(im, h, y), x)
  }

  /** An index stands for the entry that starts before the pixel data, and for black
      when there is none. */
  lemma WhichEntries(data: seq<byte>, size: int, i: nat)
    ensures ColourAt(Palette(data, size), i) == if 4 * i < size then PaletteColour(data, 4 * i) else Colour(0, 0, 0, 0)
  {
  }

  /** With other depths than 1, 4, 8 and 24 every pixel is black. */
  lemma OtherDepthsAreBlack(im: seq<byte>, h: Header, x: nat, y: nat)
    requires y < h.height && h.bits != 1 && h.bits != 4 && h.bits != 8 && h.bits != 24
    ensures DecodedPixel(im, h, x, y) == Colour(0, 0, 0, 0)
  {
  }

  /** A file that is cut short is drawn as if zeros followed. */
  lemma CutShort(im: seq<byte>, n: nat, h: Header, x: nat, y: nat)
    requires y < h.height
    ensures DecodedPixel(im + seq(n, _ => 0), h, x, y) == DecodedPixel(im, h, x, y)
  {
    var padded := im + seq(n, _ => 0);
    var size := if h.offset < 54 then 0 else h.offset - 54;
    SliceOfPadded(im, padded, 54, size);
    SamePalette(Slice(padded, 54, size), Slice(im, 54, size), h.offset - 54);
    SliceOfPadded(im, padded, LineStart(h.offset, h.bits, h.width, h.height - 1 - y), LineSize(h.bits, h.width));
    SamePixel(h.bits, PaletteOf(im, h), Line(padded, h, y), Line(im, h, y), x);
  }

  lemma SliceOfPadded(im: seq<byte>, padded: seq<byte>, start: nat, len: nat)
    requires im <= padded && forall j :: |im| <= j < |padded| ==> padded[j] == 0
    ensures forall j: nat :: ByteAt(Slice(padded, start, len), j) == ByteAt(Slice(im, start, len), j)
  {
  }

  lemma SamePalette(a: seq<byte>, b: seq<byte>, size: int)
    requires forall j: nat :: ByteAt(a, j) == ByteAt(b, j)
    ensures Palette(a, size) == Palette(b, size)
  {
  }

  lemma SamePixel(bits: nat, pal: seq<Colour>, a: seq<byte>, b: seq<byte>, x: nat)
    requires forall j: nat :: ByteAt(a, j) == ByteAt(b, j)
    ensures PixelOf(bits, pal, a, x) == PixelOf(bits, pal, b, x)
  {
  }

  // ---- drawing ---------------------------------------------------------------------

  class Image {
    const pixels: array2<Colour>

    /** `imagecreatetruecolor` */
    constructor (width: nat, height: nat)
      ensures fresh(pixels) && pixels.Length0 == height && pixels.Length1 == width
      ensures forall y, x :: 0 <= y < height && 0 <= x < width ==> pixels[y, x] == BLACK
    {
      pixels := new Colour[height, width]((y, x) => BLACK);
    }

    /** The first `n` pixels of row `y` are drawn as the row says. */
    predicate Drawn(y: nat, n: nat, bits: nat, pal: seq<Colour>, line: seq<byte>)
      requires y < pixels.Length0
      reads pixels
    {
      forall x :: 0 <= x < n && x < pixels.Length1 ==> pixels[y, x] == PixelOf(bits, pal, line, x)
    }

    twostate predicate OtherRowsKept(y: nat)
      reads pixels
    {
      forall v, x :: 0 <= v < pixels.Length0 && v != y && 0 <= x < pixels.Length1 ==> pixels[v, x] == old(pixels[v, x])
    }

    /** `imagesetpixel`, at the next place of a row; outside of the image nothing
        is drawn. */
    method SetPixel(x: nat, y: nat, c: Colour, ghost bits: nat, ghost pal: seq<Colour>, ghost line: seq<byte>)
      requires y < pixels.Length0 && Drawn(y, x, bits, pal, line) && c == PixelOf(bits, pal, line, x)
      modifies pixels
      ensures Drawn(y, x + 1, bits, pal, line) && OtherRowsKept(y)
    {
      if x < pixels.Length1 {
        pixels[y, x] := c;
      }
    }

    method DrawLine24(y: nat, line: seq<byte>, lineSize: nat, ghost pal: seq<Colour>)
      requires y < pixels.Length0 && lineSize == 3 * pixels.Length1
      modifies pixels
      ensures Drawn(y, pixels.Length1, 24, pal, line) && OtherRowsKept(y)
    {
      var j, n := 0, 0;
      while j < lineSize
        invariant j == 3 * n && j <= lineSize
        invariant Drawn(y, n, 24, pal, line) && OtherRowsKept(y)
      {
        var b := ByteAt(line, j);
        var g := ByteAt(line, j + 1);
        var r := ByteAt(line, j + 2);
        j := j + 3;
        var a: byte := 0;
        if r % 2 != 0 && g == 0 && b % 2 != 0 {
          a := 127;
        }
        SetPixel(n, y, Colour(r, g, b, a), 24, pal, line);
        n := n + 1;
      }
    }

    method DrawLine8(y: nat, line: seq<byte>, lineSize: nat, pal: seq<Colour>)
      requires y < pixels.Length0 && lineSize == pixels.Length1
      modifies pixels
      ensures Drawn(y, pixels.Length1, 8, pal, line) && OtherRowsKept(y)
    {
      var j := 0;
      while j < lineSize
        invariant j <= lineSize
        invariant Drawn(y, j, 8, pal, line) && OtherRowsKept(y)
      {
        var col := ColourAt(pal, ByteAt(line, j));
        j := j + 1;
        SetPixel(j - 1, y, col, 8, pal, line);
      }
    }

    method DrawLine4(y: nat, line: seq<byte>, lineSize: nat, pal: seq<Colour>)
      requires y < pixels.Length0 && pixels.Length1 <= 2 * lineSize
      modifies pixels
      ensures Drawn(y, pixels.Length1, 4, pal, line) && OtherRowsKept(y)
    {
      var j, n := 0, 0;
      while j < lineSize
        invariant j <= lineSize && n == 2 * j
        invariant Drawn(y, n, 4, pal, line) && OtherRowsKept(y)
      {
        var b := ByteAt(line, j);
        j := j + 1;
        SetPixel(n, y, ColourAt(pal, HighNibble(b)), 4, pal, line);
        n := n + 1;
        SetPixel(n, y, ColourAt(pal, LowNibble(b)), 4, pal, line);
        n := n + 1;
      }
    }

    /** A row of the given depth; of no other depth is anything drawn. */
    method DrawLine(y: nat, bits: nat, pal: seq<Colour>, line: seq<byte>, lineSize: nat)
      requires y < pixels.Length0 && lineSize == LineSize(bits, pixels.Length1)
      requires forall x :: 0 <= x < pixels.Length1 ==> pixels[y, x] == BLACK
      modifies pixels
      ensures Drawn(y, pixels.Length1, bits, pal, line) && OtherRowsKept(y)
    {
      if bits == 24 {
        DrawLine24(y, line, lineSize, pal);
      } else if bits == 8 {
        DrawLine8(y, line, lineSize, pal);
      } else if bits == 4 {
        DrawLine4(y, line, lineSize, pal);
      } else if bits == 1 {
        DrawLine1(y, line, lineSize, pal);
      }
    }

    /** The rows above `n` are drawn, the others are as they were created. */
    predicate DrawnTo(n: nat, im: seq<byte>, h: Header, pal: seq<Colour>)
      requires n <= h.height == pixels.Length0 && h.width == pixels.Length1
      reads pixels
    {
      && (forall y, x :: 0 <= y < n && 0 <= x < h.width ==> pixels[y, x] == PixelOf(h.bits, pal, Line(im, h, y), x))
      && (forall y, x :: n <= y < h.height && 0 <= x < h.width ==> pixels[y, x] == BLACK)
    }

    method DrawRow(i: nat, im: seq<byte>, h: Header, pal: seq<Colour>, scanLine: seq<byte>, scanLineSize: nat)
      requires i < h.height == pixels.Length0 && h.width == pixels.Length1 && DrawnTo(i, im, h, pal)
      requires scanLineSize == LineSize(h.bits, h.width) && scanLine == Line(im, h, i)
      modifies pixels
      ensures DrawnTo(i + 1, im, h, pal)
    {
      DrawLine(i, h.bits, pal, scanLine, scanLineSize);
    }

    method DrawLine1(y: nat, line: seq<byte>, lineSize: nat, pal: seq<Colour>)
      requires y < pixels.Length0 && pixels.Length1 <= 8 * lineSize
      modifies pixels
      ensures Drawn(y, pixels.Length1, 1, pal, line) && OtherRowsKept(y)
    {
      var j, n := 0, 0;
      while j < lineSize
        invariant j <= lineSize && n == 8 * j
        invariant Drawn(y, n, 1, pal, line) && OtherRowsKept(y)
      {
        var b := ByteAt(line, j);
        DrawBits(n, y, b, line, pal);
        j, n := j + 1, n + 8;
      }
    }

    /** The eight pixels of a byte, from its highest bit. */
    method DrawBits(n: nat, y: nat, b: byte, ghost line: seq<byte>, pal: seq<Colour>)
      requires y < pixels.Length0 && n % 8 == 0 && b == ByteAt(line, n / 8) && Drawn(y, n, 1, pal, line)
      modifies pixels
      ensures Drawn(y, n + 8, 1, pal, line) && OtherRowsKept(y)
    {
      DrawFourBits(n, 0, y, b, line, pal);
      DrawFourBits(n, 4, y, b, line, pal);
    }

    method DrawFourBits(n: nat, k: nat, y: nat, b: byte, ghost line: seq<byte>, pal: seq<Colour>)
      requires k + 4 <= 8
      requires y < pixels.Length0 && n % 8 == 0 && b == ByteAt(line, n / 8) && Drawn(y, n + k, 1, pal, line)
      modifies pixels
      ensures Drawn(y, n + k + 4, 1, pal, line) && OtherRowsKept(y)
    {
      DrawTwoBits(n, k, y, b, line, pal);
      DrawTwoBits(n, k + 2, y, b, line, pal);
    }

    method DrawTwoBits(n: nat, k: nat, y: nat, b: byte, ghost line: seq<byte>, pal: seq<Colour>)
      requires k + 2 <= 8
      requires y < pixels.Length0 && n % 8 == 0 && b == ByteAt(line, n / 8) && Drawn(y, n + k, 1, pal, line)
      modifies pixels
      ensures Drawn(y, n + k + 2, 1, pal, line) && OtherRowsKept(y)
    {
      BitPixel(n, k, pal, line);
      BitPixel(n, k + 1, pal, line);
      SetPixel(n + k, y, ColourAt(pal, BitOf(b, k)), 1, pal, line);
      SetPixel(n + k + 1, y, ColourAt(pal, BitOf(b, k + 1)), 1, pal, line);
    }
  }

  lemma BitPixel(n: nat, k: nat, pal: seq<Colour>, line: seq<byte>)
    requires n % 8 == 0 && k < 8
    ensures PixelOf(1, pal, line, n + k) == ColourAt(pal, BitOf(ByteAt(line, n / 8), k))
  {
    assert (n + k) / 8 == n / 8 && (n + k) % 8 == k;
  }

  /** The palette loop: four bytes an entry. */
  method ReadPalette(data: seq<byte>, size: int) returns (pal: seq<Colour>)
    ensures pal == Palette(data, size)
  {
    var j := 0;
    pal := [];
    while j < size
      invariant j == 4 * |pal| && |pal| <= PaletteSize(size)
      invariant forall i :: 0 <= i < |pal| ==> pal[i] == PaletteColour(data, 4 * i)
    {
      var b := ByteAt(data, j);
      var g := ByteAt(data, j + 1);
      var r := ByteAt(data, j + 2);
      var a := ByteAt(data, j + 3);
      j := j + 4;
      if a > 127 {
        a := 127;
      }
      if r % 2 != 0 && g == 0 && b % 2 != 0 {
        a := 127;
      }
      pal := pal + [Colour(r, g, b, a)];
    }
  }

  /** `imagecreatefrombmpstring`: false, or an image with every pixel as the file
      describes it. */
  method ImageCreateFromBmpString(im: seq<byte>) returns (image: Image?)
    ensures (image == null) == ReadHeader(im).None?
    ensures image != null ==>
      var h := ReadHeader(im).value;
      && fresh(image) && fresh(image.pixels) && image.pixels.Length0 == h.height && image.pixels.Length1 == h.width
      && forall y, x :: 0 <= y < h.height && 0 <= x < h.width ==> image.pixels[y, x] == DecodedPixel(im, h, x, y)
  {
    var header := ReadHeader(im);
    if header.None? {
      return null;
    }
    image := Draw(im, header.value);
  }

  method Draw(im: seq<byte>, h: Header) returns (image: Image)
    requires h.height > 0
    ensures fresh(image) && fresh(image.pixels) && image.pixels.Length0 == h.height && image.pixels.Length1 == h.width
    ensures forall y, x :: 0 <= y < h.height && 0 <= x < h.width ==> image.pixels[y, x] == DecodedPixel(im, h, x, y)
  {
    image := new Image(h.width, h.height);
    var pal := ReadPalette(Slice(im, 54, if h.offset < 54 then 0 else h.offset - 54), h.offset - 54);
    var scanLineSize := LineSize(h.bits, h.width);
    var i, l := 0, h.height - 1;
    while i < h.height
      invariant i <= h.height && l == h.height - 1 - i
      invariant image.DrawnTo(i, im, h, pal)
    {
      var scanLine := ScanLine(im, h, l, scanLineSize);
      image.DrawRow(i, im, h, pal, scanLine, scanLineSize);
      i, l := i + 1, l - 1;
    }
  }

  // ---- an encoder written from the format ----------------------------------------------

  datatype Entry = Entry(r: byte, g: byte, b: byte, a: byte)

  datatype Pixel = Index(i: byte) | Rgb(r: byte, g: byte, b: byte)

  datatype Picture = Picture(width: nat, bits: nat, palette: seq<Entry>, rows: seq<seq<Pixel>>)

  function Limit(bits: nat): nat {
    if bits == 1 then 2 else if bits == 4 then 16 else 256
  }

  predicate IsRow(bits: nat, width: nat, row: seq<Pixel>) {
    && |row| == width
    && forall x :: 0 <= x < |row| ==> if bits == 24 then row[x].Rgb? else row[x].Index? && row[x].i < Limit(bits)
  }

  predicate IsPicture(p: Picture) {
    && 0 < p.width < 0x1_0000_0000 && 0 < |p.rows| < 0x1_0000_0000 && |p.palette| <= 256
    && (p.bits == 1 || p.bits == 4 || p.bits == 8 || p.bits == 24)
    && forall y :: 0 <= y < |p.rows| ==> IsRow(p.bits, p.width, p.rows[y])
  }

  function EntryColour(e: Entry): Colour {
    Allocate(e.r, e.g, e.b, e.a)
  }

  /** What a pixel of the picture stands for. */
  function PixelColour(palette: seq<Entry>, pixel: Pixel): Colour {
    match pixel
    case Index(i) => if i < |palette| then EntryColour(palette[i]) else BLACK
    case Rgb(r, g, b) => Allocate(r, g, b, 0)
  }

  function IndexAt(row: seq<Pixel>, x: nat, limit: nat): (i: nat)
    ensures i < limit || i == 0
  {
    if x < |row| && row[x].Index? && row[x].i < limit then row[x].i else 0
  }

  function Channel(row: seq<Pixel>, j: nat): byte {
    if j / 3 < |row| && row[j / 3].Rgb? then
      (if j % 3 == 0 then row[j / 3].b else if j % 3 == 1 then row[j / 3].g else row[j / 3].r)
    else 0
  }

  function PackBits(row: seq<Pixel>, x: nat): byte {
    128 * IndexAt(row, x, 2) + 64 * IndexAt(row, x + 1, 2) + 32 * IndexAt(row, x + 2, 2) + 16 * IndexAt(row, x + 3, 2) +
    8 * IndexAt(row, x + 4, 2) + 4 * IndexAt(row, x + 5, 2) + 2 * IndexAt(row, x + 6, 2) + IndexAt(row, x + 7, 2)
  }

  function PackByte(bits: nat, row: seq<Pixel>, j: nat): byte {
    if bits == 24 then Channel(row, j)
    else if bits == 8 then IndexAt(row, j, 256)
    else if bits == 4 then 16 * IndexAt(row, 2 * j, 16) + IndexAt(row, 2 * j + 1, 16)
    else PackBits(row, 8 * j)
  }

  function PackRow(bits: nat, row: seq<Pixel>): seq<byte> {
    seq(LineSize(bits, |row|), j requires 0 <= j => PackByte(bits, row, j))
  }

  function Zeros(n: nat): seq<byte> {
    seq(n, _ => 0)
  }

  /** The rows from the bottom up, each filled with zeros to whole words. */
  function PixelData(bits: nat, rows: seq<seq<Pixel>>): seq<byte> {
    if rows == [] then []
    else PixelData(bits, rows[1..]) + (PackRow(bits, rows[0]) + Zeros(LineAlign(bits, |rows[0]|)))
  }

  function Bytes(n: nat): seq<byte> {
    [n % 256, n / 0x100 % 256, n / 0x1_0000 % 256, n / 0x100_0000 % 256]
  }

  function PaletteBytes(palette: seq<Entry>): seq<byte> {
    if palette == [] then []
    else [palette[0].b, palette[0].g, palette[0].r, palette[0].a] + PaletteBytes(palette[1..])
  }

  /** File header and info header; two 16-bit fields share four bytes. */
  function HeaderBytes(size: nat, offset: nat, width: nat, height: nat, bits: nat, dataSize: nat,
      colours: nat): (h: seq<byte>)
    ensures |h| == 54
  {
    [0x42, 0x4D] + Bytes(size) + Bytes(0) + Bytes(offset)
    + Bytes(40) + Bytes(width) + Bytes(height) + Bytes(1 + 0x1_0000 * bits)
    + Bytes(0) + Bytes(dataSize) + Bytes(0) + Bytes(0) + Bytes(colours) + Bytes(0)
  }

  function EncodedHeader(p: Picture): (h: seq<byte>)
    ensures |h| == 54
  {
    var palette, data := 4 * |p.palette|, |PixelData(p.bits, p.rows)|;
    HeaderBytes(54 + palette + data, 54 + palette, p.width, |p.rows|, p.bits, data, |p.palette|)
  }

  function Encode(p: Picture): seq<byte> {
    EncodedHeader(p) + PaletteBytes(p.palette) + PixelData(p.bits, p.rows)
  }

  // ---- the decoder inverts the encoder ------------------------------------------------------

  lemma LongOfBytes(s: seq<byte>, at: nat, n: nat)
    requires n < 0x1_0000_0000 && at + 4 <= |s| && s[at..at + 4] == Bytes(n)
    ensures Long(s, at) == n && Short(s, at) == n % 0x1_0000 && Short(s, at + 2) == n / 0x1_0000
  {
    assert s[at] == s[at..at + 4][0] && s[at + 1] == s[at..at + 4][1] && s[at + 2] == s[at..at + 4][2] &&
      s[at + 3] == s[at..at + 4][3];
    assert n / 0x1_0000 == n / 0x100 / 0x100 && n / 0x100_0000 == n / 0x1_0000 / 0x100;
  }

  lemma FieldsOfHeader(size: nat, offset: nat, width: nat, height: nat, bits: nat, dataSize: nat, colours: nat)
    ensures var h := HeaderBytes(size, offset, width, height, bits, dataSize, colours);
      && h[..2] == [0x42, 0x4D] && h[10..14] == Bytes(offset) && h[18..22] == Bytes(width)
      && h[22..26] == Bytes(height) && h[26..30] == Bytes(1 + 0x1_0000 * bits)
  {
  }

  lemma ByteAfter(a: seq<byte>, b: seq<byte>, j: nat)
    ensures ByteAt(a + b, |a| + j) == ByteAt(b, j)
  {
  }

  lemma {:induction false} PaletteIsRead(palette: seq<Entry>, i: nat)
    requires i < |palette|
    ensures PaletteColour(PaletteBytes(palette), 4 * i) == EntryColour(palette[i])
    decreases |palette|
  {
    if i > 0 {
      var entry, rest := [palette[0].b, palette[0].g, palette[0].r, palette[0].a], PaletteBytes(palette[1..]);
      PaletteIsRead(palette[1..], i - 1);
      var at := 4 * (i - 1);
      ByteAfter(entry, rest, at);
      ByteAfter(entry, rest, at + 1);
      ByteAfter(entry, rest, at + 2);
      ByteAfter(entry, rest, at + 3);
    }
  }

  lemma {:induction false} PaletteLength(palette: seq<Entry>)
    ensures |PaletteBytes(palette)| == 4 * |palette|
  {
    if palette != [] { PaletteLength(palette[1..]); }
  }

  lemma PackedBit(row: seq<Pixel>, n: nat, k: nat)
    requires k < 8
    ensures BitOf(PackBits(row, n), k) == IndexAt(row, n + k, 2)
  {
    SumOfBits(IndexAt(row, n, 2), IndexAt(row, n + 1, 2), IndexAt(row, n + 2, 2), IndexAt(row, n + 3, 2),
      IndexAt(row, n + 4, 2), IndexAt(row, n + 5, 2), IndexAt(row, n + 6, 2), IndexAt(row, n + 7, 2));
  }

  lemma SumOfBits(c0: nat, c1: nat, c2: nat, c3: nat, c4: nat, c5: nat, c6: nat, c7: nat)
    requires c0 < 2 && c1 < 2 && c2 < 2 && c3 < 2 && c4 < 2 && c5 < 2 && c6 < 2 && c7 < 2
    ensures var b: byte := 128 * c0 + 64 * c1 + 32 * c2 + 16 * c3 + 8 * c4 + 4 * c5 + 2 * c6 + c7;
      && BitOf(b, 0) == c0 && BitOf(b, 1) == c1 && BitOf(b, 2) == c2 && BitOf(b, 3) == c3
      && BitOf(b, 4) == c4 && BitOf(b, 5) == c5 && BitOf(b, 6) == c6 && BitOf(b, 7) == c7
  {
    var high, low := 8 * c0 + 4 * c1 + 2 * c2 + c3, 8 * c4 + 4 * c5 + 2 * c6 + c7;
    var b: byte := 128 * c0 + 64 * c1 + 32 * c2 + 16 * c3 + 8 * c4 + 4 * c5 + 2 * c6 + c7;
    assert b == 16 * high + low;
    HighBits(b, c0, c1, c2, c3, low);
    LowBits(b, high, c4, c5, c6, c7);
  }

  lemma HighBits(b: byte, c0: nat, c1: nat, c2: nat, c3: nat, low: nat)
    requires c0 < 2 && c1 < 2 && c2 < 2 && c3 < 2 && low < 16 && b == 16 * (8 * c0 + 4 * c1 + 2 * c2 + c3) + low
    ensures BitOf(b, 0) == c0 && BitOf(b, 1) == c1 && BitOf(b, 2) == c2 && BitOf(b, 3) == c3
  {
    assert b / 128 == c0;
    assert b / 64 == 2 * c0 + c1;
    assert b / 32 == 2 * (2 * c0 + c1) + c2;
    assert b / 16 == 2 * (4 * c0 + 2 * c1 + c2) + c3;
  }

  lemma LowBits(b: byte, high: nat, c4: nat, c5: nat, c6: nat, c7: nat)
    requires c4 < 2 && c5 < 2 && c6 < 2 && c7 < 2 && b == 16 * high + (8 * c4 + 4 * c5 + 2 * c6 + c7)
    ensures BitOf(b, 4) == c4 && BitOf(b, 5) == c5 && BitOf(b, 6) == c6 && BitOf(b, 7) == c7
  {
    assert b / 8 == 2 * high + c4;
    assert b / 4 == 2 * (2 * high + c4) + c5;
    assert b / 2 == 2 * (4 * high + 2 * c4 + c5) + c6;
    assert b / 1 == 2 * (8 * high + 4 * c4 + 2 * c5 + c6) + c7;
  }

  lemma PackedAt(bits: nat, row: seq<Pixel>, j: nat)
    requires j < LineSize(bits, |row|)
    ensures ByteAt(PackRow(bits, row), j) == PackByte(bits, row, j)
  {
  }

  lemma PackedIndex(bits: nat, width: nat, row: seq<Pixel>, pal: seq<Colour>, x: nat)
    requires IsRow(bits, width, row) && x < width && (bits == 1 || bits == 4 || bits == 8)
    ensures PixelOf(bits, pal, PackRow(bits, row), x) == ColourAt(pal, row[x].i)
  {
    if bits == 8 {
      PackedAt(8, row, x);
    } else if bits == 4 {
      PackedAt(4, row, x / 2);
    } else {
      PackedAt(1, row, x / 8);
      PackedBit(row, 8 * (x / 8), x % 8);
    }
  }

  lemma PackedRgb(width: nat, row: seq<Pixel>, pal: seq<Colour>, x: nat)
    requires IsRow(24, width, row) && x < width
    ensures PixelOf(24, pal, PackRow(24, row), x) == Allocate(row[x].r, row[x].g, row[x].b, 0)
  {
    PackedAt(24, row, 3 * x);
    PackedAt(24, row, 3 * x + 1);
    PackedAt(24, row, 3 * x + 2);
  }

  /** A pixel of a packed row is read as what it stands for. */
  lemma PackedPixel(bits: nat, width: nat, row: seq<Pixel>, palette: seq<Entry>, x: nat)
    requires IsRow(bits, width, row) && x < width && (bits == 1 || bits == 4 || bits == 8 || bits == 24)
    ensures PixelOf(bits, Palette(PaletteBytes(palette), 4 * |palette|), PackRow(bits, row), x) ==
      PixelColour(palette, row[x])
  {
    var pal := Palette(PaletteBytes(palette), 4 * |palette|);
    if bits == 24 {
      PackedRgb(width, row, pal, x);
    } else {
      PackedIndex(bits, width, row, pal, x);
      IndexIsColour(palette, row[x].i);
    }
  }

  lemma IndexIsColour(palette: seq<Entry>, i: nat)
    ensures ColourAt(Palette(PaletteBytes(palette), 4 * |palette|), i) ==
      if i < |palette| then EntryColour(palette[i]) else BLACK
  {
    if i < |palette| { PaletteIsRead(palette, i); }
  }

  lemma OneMoreLine(bits: nat, width: nat, l: nat)
    ensures LineOffset(bits, width, l + 1) == LineOffset(bits, width, l) + Stride(bits, width)
  {
  }

  lemma {:induction false} DataLength(bits: nat, width: nat, rows: seq<seq<Pixel>>)
    requires forall y :: 0 <= y < |rows| ==> IsRow(bits, width, rows[y])
    ensures |PixelData(bits, rows)| == LineOffset(bits, width, |rows|)
  {
    if rows != [] {
      DataLength(bits, width, rows[1..]);
      OneMoreLine(bits, width, |rows| - 1);
      assert IsRow(bits, width, rows[0]);
    }
  }

  /** A row is stored after the rows below it. */
  lemma {:induction false} AfterRowsBelow(bits: nat, rows: seq<seq<Pixel>>, y: nat)
    requires y < |rows|
    ensures var at, row := |PixelData(bits, rows[y + 1..])|, PackRow(bits, rows[y]);
      at + |row| <= |PixelData(bits, rows)| && PixelData(bits, rows)[at..at + |row|] == row
  {
    var rest, row, zeros := PixelData(bits, rows[1..]), PackRow(bits, rows[0]), Zeros(LineAlign(bits, |rows[0]|));
    if y > 0 {
      AfterRowsBelow(bits, rows[1..], y - 1);
      assert rows[1..][y - 1] == rows[y] && rows[1..][y..] == rows[y + 1..];
      TakePrefix(rest, row + zeros, |PixelData(bits, rows[y + 1..])|, |PackRow(bits, rows[y])|);
    } else {
      TakeMiddle(rest, row, zeros);
    }
  }

  /** Row `y` of the picture is stored at line `|rows| - 1 - y`. */
  lemma StoredRow(bits: nat, width: nat, rows: seq<seq<Pixel>>, y: nat, at: nat)
    requires y < |rows| && forall v :: 0 <= v < |rows| ==> IsRow(bits, width, rows[v])
    requires at == LineOffset(bits, width, |rows| - 1 - y)
    ensures at + LineSize(bits, width) <= |PixelData(bits, rows)|
    ensures PixelData(bits, rows)[at..at + LineSize(bits, width)] == PackRow(bits, rows[y])
  {
    DataLength(bits, width, rows[y + 1..]);
    AfterRowsBelow(bits, rows, y);
    assert |rows[y]| == width;
  }

  lemma TakePrefix(a: seq<byte>, b: seq<byte>, at: nat, len: nat)
    requires at + len <= |a|
    ensures (a + b)[at..at + len] == a[at..at + len]
  {
  }

  lemma TakeMiddle(a: seq<byte>, b: seq<byte>, c: seq<byte>)
    ensures (a + (b + c))[|a|..|a| + |b|] == b
  {
  }

  lemma TakeSuffix(a: seq<byte>, b: seq<byte>, at: nat, len: nat)
    requires at + len <= |b|
    ensures (a + b)[|a| + at..|a| + at + len] == b[at..at + len]
  {
  }

  lemma FieldsAreRead(im: seq<byte>, rest: seq<byte>, size: nat, offset: nat, width: nat, height: nat, bits: nat,
      dataSize: nat, colours: nat)
    requires im == HeaderBytes(size, offset, width, height, bits, dataSize, colours) + rest
    requires offset < 0x1_0000_0000 && 0 < width < 0x1_0000_0000 && 0 < height < 0x1_0000_0000 && bits < 0x100
    ensures ReadHeader(im) == Some(Header(offset, width, height, bits))
  {
    var header := HeaderBytes(size, offset, width, height, bits, dataSize, colours);
    FieldsOfHeader(size, offset, width, height, bits, dataSize, colours);
    PrefixField(header, rest, im);
    LongOfBytes(im, 10, offset);
    LongOfBytes(im, 18, width);
    LongOfBytes(im, 22, height);
    LongOfBytes(im, 26, 1 + 0x1_0000 * bits);
    assert im[0] == im[..2][0] && im[1] == im[..2][1];
  }

  lemma PrefixField(header: seq<byte>, rest: seq<byte>, im: seq<byte>)
    requires |header| == 54 && im == header + rest
    ensures im[..2] == header[..2] && im[10..14] == header[10..14] && im[18..22] == header[18..22]
    ensures im[22..26] == header[22..26] && im[26..30] == header[26..30]
  {
  }

  lemma HeaderOfPicture(p: Picture, im: seq<byte>, rest: seq<byte>)
    requires IsPicture(p) && im == EncodedHeader(p) + rest
    ensures ReadHeader(im) == Some(Header(54 + 4 * |p.palette|, p.width, |p.rows|, p.bits))
  {
    var palette, data := 4 * |p.palette|, |PixelData(p.bits, p.rows)|;
    HeaderLimits(p);
    FieldsAreRead(im, rest, 54 + palette + data, 54 + palette, p.width, |p.rows|, p.bits, data, |p.palette|);
  }

  lemma HeaderLimits(p: Picture)
    requires IsPicture(p)
    ensures 54 + 4 * |p.palette| < 0x1_0000_0000 && 0 < p.width < 0x1_0000_0000 && 0 < |p.rows| < 0x1_0000_0000 &&
      p.bits < 0x100
  {
  }

  lemma HeaderIsRead(p: Picture)
    requires IsPicture(p)
    ensures ReadHeader(Encode(p)) == Some(Header(54 + 4 * |p.palette|, p.width, |p.rows|, p.bits))
  {
    var palette, data := PaletteBytes(p.palette), PixelData(p.bits, p.rows);
    HeaderOfPicture(p, EncodedHeader(p) + (palette + data), palette + data);
    assert EncodedHeader(p) + palette + data == EncodedHeader(p) + (palette + data);
  }

  /** The three stretches of an encoded file. */
  lemma FileIsRead(header: seq<byte>, p: Picture, data: seq<byte>, h: Header, x: nat, y: nat, at: nat)
    requires |header| == 54 && x < p.width && y < |p.rows|
    requires h == Header(54 + 4 * |p.palette|, p.width, |p.rows|, p.bits) && IsPicture(p)
    requires at == LineOffset(p.bits, p.width, |p.rows| - 1 - y) && at + LineSize(p.bits, p.width) <= |data|
    requires data[at..at + LineSize(p.bits, p.width)] == PackRow(p.bits, p.rows[y])
    ensures DecodedPixel(header + PaletteBytes(p.palette) + data, h, x, y) == PixelColour(p.palette, p.rows[y][x])
  {
    var palette := PaletteBytes(p.palette);
    PaletteLength(p.palette);
    SliceOfMiddle(header, palette, data);
    LineIsRead(header + palette, data, h, y, at, PackRow(p.bits, p.rows[y]));
    PackedPixel(p.bits, p.width, p.rows[y], p.palette, x);
  }

  /** A row of the pixel data behind `front`. */
  lemma LineIsRead(front: seq<byte>, data: seq<byte>, h: Header, y: nat, at: nat, row: seq<byte>)
    requires y < h.height && h.offset == |front| && at == LineOffset(h.bits, h.width, h.height - 1 - y)
    requires at + LineSize(h.bits, h.width) <= |data| && data[at..at + LineSize(h.bits, h.width)] == row
    ensures Line(front + data, h, y) == row
  {
    LineOfFile(front, data, at, LineSize(h.bits, h.width));
  }

  /** Decoding the encoded picture gives the colour of every pixel. */
  lemma DecodeInvertsEncode(p: Picture, x: nat, y: nat)
    requires IsPicture(p) && x < p.width && y < |p.rows|
    ensures ReadHeader(Encode(p)).Some?
    ensures var h := ReadHeader(Encode(p)).value;
      h.width == p.width && h.height == |p.rows| &&
        DecodedPixel(Encode(p), h, x, y) == PixelColour(p.palette, p.rows[y][x])
  {
    var at := LineOffset(p.bits, p.width, |p.rows| - 1 - y);
    HeaderIsRead(p);
    StoredRow(p.bits, p.width, p.rows, y, at);
    FileIsRead(EncodedHeader(p), p, PixelData(p.bits, p.rows), ReadHeader(Encode(p)).value, x, y, at);
  }

  lemma SliceOfMiddle(a: seq<byte>, b: seq<byte>, c: seq<byte>)
    ensures Slice(a + b + c, |a|, |b|) == b
  {
    assert a + b + c == a + (b + c);
    TakeMiddle(a, b, c);
  }

  lemma LineOfFile(a: seq<byte>, data: seq<byte>, at: nat, len: nat)
    requires at + len <= |data|
    ensures Slice(a + data, |a| + at, len) == data[at..at + len]
  {
    TakeSuffix(a, data, at, len);
  }

  // ---- transparency ----------------------------------------------------------------------

  /** The alpha of a colour, 0 to 127, if magenta were recognised as documented. */
  function DocumentedAlpha(palette: seq<Entry>, pixel: Pixel): int {
    match pixel
    case Index(i) =>
      if i >= |palette| then 0
      else if palette[i].a > 127 || IsMagenta(palette[i].r, palette[i].g, palette[i].b) then 127
      else palette[i].a
    case Rgb(r, g, b) => if IsMagenta(r, g, b) then 127 else 0
  }

  /** The red, green, blue and alpha a pixel has in the file. */
  function StoredColour(palette: seq<Entry>, pixel: Pixel): Entry {
    match pixel
    case Index(i) => if i < |palette| then palette[i] else Entry(0, 0, 0, 0)
    case Rgb(r, g, b) => Entry(r, g, b, 0)
  }

  /** A colour without green that is not transparent in the file, and is either
      odd in red and blue or near to full in both, but not the two at once. */
  predicate IsMisjudged(c: Entry) {
    c.g == 0 && c.a < 127 && ((c.r % 2 == 1 && c.b % 2 == 1) != (c.r >= 248 && c.b >= 248))
  }

  /** A pixel is drawn with the alpha that is documented exactly when its stored
      colour is not one of the misjudged ones. */
  lemma WhatIsTransparent(p: Picture, x: nat, y: nat)
    requires IsPicture(p) && x < p.width && y < |p.rows|
    ensures ReadHeader(Encode(p)).Some? && ReadHeader(Encode(p)).value.height == |p.rows|
    ensures
      DecodedPixel(Encode(p), ReadHeader(Encode(p)).value, x, y).alpha == DocumentedAlpha(p.palette, p.rows[y][x]) <==>
      !IsMisjudged(StoredColour(p.palette, p.rows[y][x]))
  {
    DecodeInvertsEncode(p, x, y);
    AlphaOf(p.palette, p.rows[y][x]);
  }

  lemma AlphaOf(palette: seq<Entry>, pixel: Pixel)
    ensures PixelColour(palette, pixel).alpha == DocumentedAlpha(palette, pixel) <==>
      !IsMisjudged(StoredColour(palette, pixel))
  {
  }

  /** Of these two pixels the magenta one is drawn opaque and the nearly black
      one transparent. */
  lemma MagentaIsDrawnOpaque(p: Picture)
    requires IsPicture(p) && p.width == 2 && p.rows[0] == [Rgb(248, 0, 248), Rgb(1, 0, 1)]
    ensures ReadHeader(Encode(p)).Some? && ReadHeader(Encode(p)).value.height == |p.rows|
    ensures DecodedPixel(Encode(p), ReadHeader(Encode(p)).value, 0, 0) == Colour(248, 0, 248, 0)
    ensures DecodedPixel(Encode(p), ReadHeader(Encode(p)).value, 1, 0) == Colour(1, 0, 1, 127)
    ensures DocumentedAlpha(p.palette, p.rows[0][0]) == 127 && DocumentedAlpha(p.palette, p.rows[0][1]) == 0
  {
    DecodeInvertsEncode(p, 0, 0);
    DecodeInvertsEncode(p, 1, 0);
  }

  lemma SuchAPicture() returns (p: Picture)
    ensures IsPicture(p) && p.width == 2 && p.rows[0] == [Rgb(248, 0, 248), Rgb(1, 0, 1)]
  {
    p := Picture(2, 24, [], [[Rgb(248, 0, 248), Rgb(1, 0, 1)]]);
    assert IsRow(24, 2, p.rows[0]);
  }
}
