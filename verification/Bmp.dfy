/**
  The 24-bit BMP format and reader of common/Image.cpp. A file is two packed little-endian
  headers and then the rows, bottom one first, each padded to a multiple of four bytes.
 */
module Bmp {
  import opened Arithmetic

  /** A pixel as the program holds it: red in the low byte, then green, blue and alpha. */
  type Pixel = u32

  datatype Image = Image(width: u32, height: u32, pixels: seq<Pixel>) {
    predicate Valid() {
      |pixels| == Area(width, height)
    }
  }

  // ----- packed structures -----

  function Value(s: seq<byte>): nat {
    if s == [] then 0 else s[0] + 256 * Value(s[1..])
  }

  lemma {:induction false} ValueOfLittleEndian(v: nat, n: nat)
    requires v < Pow256(n)
    ensures Value(LittleEndian(v, n)) == v
    decreases n
  {
    if n > 0 {
      ValueOfLittleEndian(v / 256, n - 1);
      assert LittleEndian(v, n)[1..] == LittleEndian(v / 256, n - 1);
    }
  }

  /** The bytes of a structure whose fields have the sizes in `layout`. */
  function Size(layout: seq<nat>): nat {
    if layout == [] then 0 else layout[0] + Size(layout[1..])
  }

  function Pack(layout: seq<nat>, values: seq<nat>): (s: seq<byte>)
    requires |layout| == |values|
    ensures |s| == Size(layout)
  {
    if layout == [] then [] else LittleEndian(values[0], layout[0]) + Pack(layout[1..], values[1..])
  }

  function Unpack(layout: seq<nat>, data: seq<byte>): (values: seq<nat>)
    requires Size(layout) <= |data|
    ensures |values| == |layout|
  {
    if layout == [] then [] else [Value(data[..layout[0]])] + Unpack(layout[1..], data[layout[0]..])
  }

  ghost predicate Fit(layout: seq<nat>, values: seq<nat>) {
    |layout| == |values| && forall i | 0 <= i < |layout| :: values[i] < Pow256(layout[i])
  }

  lemma {:induction false} UnpackPack(layout: seq<nat>, values: seq<nat>, rest: seq<byte>)
    requires Fit(layout, values)
    ensures Unpack(layout, Pack(layout, values) + rest) == values
  {
    if layout != [] {
      var first, others := LittleEndian(values[0], layout[0]), Pack(layout[1..], values[1..]);
      var data := first + others + rest;
      assert data[..layout[0]] == first;
      assert data[layout[0]..] == others + rest;
      ValueOfLittleEndian(values[0], layout[0]);
      UnpackPack(layout[1..], values[1..], rest);
      assert values == [values[0]] + values[1..];
    }
  }

  // ----- the two headers -----

  /** The fields of BMPFileHeader and of BMPInfoHeader. */
  datatype Header = Header(
    fileType: nat, fileSize: nat, reserved1: nat, reserved2: nat, offset: nat,
    infoSize: nat, width: nat, height: nat, planes: nat, bitCount: nat, compression: nat, imageSize: nat,
    xPelsPerMeter: nat, yPelsPerMeter: nat, colorsUsed: nat, colorsImportant: nat)

  function FileLayout(): seq<nat> {
    [2, 4, 2, 2, 4]
  }

  function InfoLayout(): seq<nat> {
    [4, 4, 4] + [2, 2, 4, 4, 4] + [4, 4, 4]
  }

  function HeaderLayout(): seq<nat> {
    FileLayout() + InfoLayout()
  }

  const HEADER_SIZE: nat := 54

  function Fields(h: Header): (values: seq<nat>)
    ensures |values| == 16
  {
    [h.fileType, h.fileSize, h.reserved1, h.reserved2, h.offset,
     h.infoSize, h.width, h.height, h.planes, h.bitCount, h.compression, h.imageSize,
     h.xPelsPerMeter, h.yPelsPerMeter, h.colorsUsed, h.colorsImportant]
  }

  function FromFields(v: seq<nat>): Header
    requires |v| == 16
  {
    Header(v[0], v[1], v[2], v[3], v[4], v[5], v[6], v[7], v[8], v[9], v[10], v[11], v[12], v[13], v[14], v[15])
  }

  lemma {:induction false} SizeOfBoth(a: seq<nat>, b: seq<nat>)
    ensures Size(a + b) == Size(a) + Size(b)
  {
    if a == [] {
      assert a + b == b;
    } else {
      assert (a + b)[1..] == a[1..] + b;
      SizeOfBoth(a[1..], b);
    }
  }

  lemma HeaderLayoutSize()
    ensures |HeaderLayout()| == 16 && Size(HeaderLayout()) == HEADER_SIZE
  {
    SizeOfBoth(FileLayout(), InfoLayout());
    SizeOfBoth([4, 4, 4] + [2, 2, 4, 4, 4], [4, 4, 4]);
    SizeOfBoth([4, 4, 4], [2, 2, 4, 4, 4]);
    SizeOfFive(2, 4, 2, 2, 4);
    SizeOfFive(2, 2, 4, 4, 4);
    SizeOfThree(4, 4, 4);
  }

  lemma SizeOfThree(a: nat, b: nat, c: nat)
    ensures Size([a, b, c]) == a + b + c
  {
    SizeOfBoth([a], [b] + [c]);
    SizeOfBoth([b], [c]);
    assert [a] + ([b] + [c]) == [a, b, c];
    assert Size([a]) == a && Size([b]) == b && Size([c]) == c;
  }

  lemma SizeOfFive(a: nat, b: nat, c: nat, d: nat, e: nat)
    ensures Size([a, b, c, d, e]) == a + b + c + d + e
  {
    assert [a, b, c, d, e][1..] == [b, c, d, e] && [b, c, d, e][1..] == [c, d, e];
    SizeOfThree(c, d, e);
  }

  function WriteHeader(h: Header): (s: seq<byte>)
    ensures |s| == HEADER_SIZE
  {
    HeaderLayoutSize();
    Pack(HeaderLayout(), Fields(h))
  }

  function ReadHeader(data: seq<byte>): Header
    requires |data| >= HEADER_SIZE
  {
    HeaderLayoutSize();
    FromFields(Unpack(HeaderLayout(), data))
  }

  lemma HeaderRoundTrip(h: Header, rest: seq<byte>)
    requires Fit(HeaderLayout(), Fields(h))
    ensures ReadHeader(WriteHeader(h) + rest) == h
  {
    HeaderLayoutSize();
    UnpackPack(HeaderLayout(), Fields(h), rest);
  }

  // ----- rows and pixels -----

  /** The stride of the writer and of the reader's length check. */
  function RowSize(width: nat): (r: nat)
    ensures 3 * width <= r
  {
    ((width * 3 + 3) / 4) * 4
  }

  /** The stride with which the reader walks the rows. */
  function BitStride(width: nat, bitCount: nat): nat {
    ((width * bitCount + 31) / 32) * 4
  }

  lemma StridesAgree(width: nat)
    ensures BitStride(width, 24) == RowSize(width)
  {
    assert (width * 24 + 31) / 32 == (width * 3 + 3) / 4;
  }

  function Red(p: Pixel): byte { p % 256 }
  function Green(p: Pixel): byte { p / 256 % 256 }
  function Blue(p: Pixel): byte { p / 65536 % 256 }

  function Pack24(r: byte, g: byte, b: byte): Pixel {
    r + 256 * g + 65536 * b + 0xFF00_0000
  }

  /** The same colour with alpha 0xFF. */
  function Opaque(p: Pixel): Pixel {
    p % 0x100_0000 + 0xFF00_0000
  }

  lemma OpaqueIsPacked(p: Pixel)
    ensures Pack24(Red(p), Green(p), Blue(p)) == Opaque(p)
  {
    assert p / 256 / 256 == p / 65536;
    assert p % 0x100_0000 == p % 256 + 256 * (p / 256 % 256) + 65536 * (p / 65536 % 256);
  }

  /** Byte `c` of the three of a pixel in the file. */
  function Component(p: Pixel, c: nat): byte {
    if c == 0 then Blue(p) else if c == 1 then Green(p) else Red(p)
  }

  /** `width * height`, row by row. */
  function Area(width: nat, height: nat): nat {
    if height == 0 then 0 else Area(width, height - 1) + width
  }

  lemma {:induction false} AreaIsProduct(width: nat, height: nat)
    ensures Area(width, height) == width * height
  {
    if height > 0 {
      AreaIsProduct(width, height - 1);
      assert width * height == width * (height - 1) + width;
    }
  }

  lemma {:induction false} AreaGrows(width: nat, y: nat, height: nat)
    requires y < height
    ensures Area(width, y) + width <= Area(width, height)
    decreases height
  {
    if y < height - 1 {
      AreaGrows(width, y, height - 1);
    }
  }

  function Row(width: nat, k: nat): nat
    requires width > 0
  {
    k / width
  }

  function Column(width: nat, k: nat): (x: nat)
    requires width > 0
    ensures x < width
  {
    k % width
  }

  /** Cell `x` of row `y`. */
  lemma CellIs(width: nat, y: nat, x: nat)
    requires x < width
    ensures Row(width, Area(width, y) + x) == y && Column(width, Area(width, y) + x) == x
  {
    AreaIsProduct(width, y);
    DivisionUnique(Area(width, y) + x, width, y, x);
  }

  /** Every cell is in a row. */
  lemma CellOf(width: nat, height: nat, k: nat)
    requires 0 < width && k < Area(width, height)
    ensures Row(width, k) < height && k == Area(width, Row(width, k)) + Column(width, k)
  {
    var y := Row(width, k);
    AreaIsProduct(width, y);
    AreaIsProduct(width, height);
    assert (y - height) * width == k - k % width - width * height;
    ProductSign(y - height, width);
  }

  /** A row that starts in the last `stride` bytes below 2^32. */
  lemma RowBeforeWrap(stride: nat, height: nat) returns (y: nat)
    requires 0 < stride < WORD && height > 0 && Area(stride, height - 1) >= WORD
    ensures y < height && Area(stride, y) < WORD <= Area(stride, y) + stride
  {
    y := 0;
    while Area(stride, y + 1) < WORD
      invariant y < height - 1 && Area(stride, y) < WORD
      decreases height - y
    {
      y := y + 1;
    }
  }

  /** A size of image at which the data are 2^32 bytes. */
  lemma WrappingSize(width: nat, height: nat)
    requires width == 43690 && height == 32768
    ensures Area(RowSize(width), height) == WORD
  {
    AreaIsProduct(RowSize(width), height);
    assert RowSize(width) == 131072;
  }

  // ----- the file of an image -----

  function DataSize(image: Image): nat {
    Area(RowSize(image.width), image.height)
  }

  function FileSize(image: Image): nat {
    HEADER_SIZE + DataSize(image)
  }

  function HeaderOf(image: Image): Header {
    Header(
      fileType := 0x4D42, fileSize := FileSize(image), reserved1 := 0, reserved2 := 0, offset := HEADER_SIZE,
      infoSize := 40, width := image.width, height := image.height, planes := 1, bitCount := 24, compression := 0,
      imageSize := DataSize(image),
      xPelsPerMeter := 0, yPelsPerMeter := 0, colorsUsed := 0, colorsImportant := 0)
  }

  /** Byte `c` of row `y` of the file, which is row `height - 1 - y` of the image: blue, green
      and red of each pixel, then zeros. */
  function RowByte(image: Image, y: nat, c: nat): byte
    requires image.Valid() && y < image.height
  {
    if c < 3 * image.width then Component(PixelIn(image, image.height - 1 - y, c / 3), c % 3) else 0
  }

  /** Pixel `x` of row `y` of the image. */
  function PixelIn(image: Image, y: nat, x: nat): Pixel
    requires image.Valid() && y < image.height && x < image.width
  {
    AreaGrows(image.width, y, image.height);
    image.pixels[Area(image.width, y) + x]
  }

  function DataByte(image: Image, k: nat): byte
    requires image.Valid() && 0 < image.width && k < DataSize(image)
  {
    CellOf(RowSize(image.width), image.height, k);
    RowByte(image, Row(RowSize(image.width), k), Column(RowSize(image.width), k))
  }

  function FileBytes(image: Image): (s: seq<byte>)
    requires image.Valid() && 0 < image.width
    ensures |s| == FileSize(image)
  {
    WriteHeader(HeaderOf(image))
    + seq(DataSize(image), k requires 0 <= k < DataSize(image) => DataByte(image, k))
  }

  // ----- reading a file -----

  /** What loading gives: an image, `false`, or one of the formats that are not part of this
      model (palettes, 16 and 32 bits, run lengths). */
  datatype LoadResult = Loaded(image: Image) | Rejected | OtherFormat

  predicate Supported(compression: nat, bitCount: nat) {
    if compression == 0 then bitCount in {1, 4, 8, 16, 24, 32}
    else if compression == 1 then bitCount == 8
    else if compression == 2 then bitCount == 4
    else if compression == 3 || compression == 4 then bitCount == 16 || bitCount == 32
    else false
  }

  /** `std::abs` of a field read as a signed number. */
  function Magnitude(field: nat): nat {
    if field < 0x8000_0000 then field
    else if field < WORD then WORD - field
    else 0
  }

  /** A positive height means that the bottom row comes first. */
  predicate BottomUp(h: Header) {
    0 < h.height < 0x8000_0000
  }

  /** The row of the file that holds row `y` of the image, and the other way round. */
  function FlippedRow(h: Header, y: nat): nat {
    var height := Magnitude(h.height);
    if BottomUp(h) && y < height then height - 1 - y else y
  }

  /** Memory from the start of the buffer on. */
  type Memory = nat -> byte

  /** The buffer holds `data`; what comes after it is not the program's own. */
  function InMemory(data: seq<byte>, beyond: Memory): Memory {
    (i: nat) => if i < |data| then data[i] else beyond(i)
  }

  function PixelAt(memory: Memory, at: nat): Pixel {
    Pack24(memory(at + 2), memory(at + 1), memory(at))
  }

  /** Where row `y` of the file starts; `y * row_size` is computed in 32 bits. */
  function RowStart(h: Header, y: nat): nat {
    h.offset + Area(BitStride(Magnitude(h.width), 24), y) % WORD
  }

  /** Pixel `k` of the image in a file with header `h`. */
  function LoadedPixel(memory: Memory, h: Header, k: nat): Pixel
    requires 0 < Magnitude(h.width)
  {
    var width := Magnitude(h.width);
    PixelAt(memory, RowStart(h, FlippedRow(h, Row(width, k))) + 3 * Column(width, k))
  }

  /** The dimensions are accepted. */
  predicate GoodSize(h: Header) {
    0 < Magnitude(h.width) < 65536 && 0 < Magnitude(h.height) < 65536
  }

  function DataEnd(h: Header): nat {
    h.offset + Area(RowSize(Magnitude(h.width)), Magnitude(h.height))
  }

  function LoadedImage(memory: Memory, h: Header): (image: Image)
    requires GoodSize(h)
    ensures image.Valid()
  {
    var width, height := Magnitude(h.width), Magnitude(h.height);
    Image(width, height, seq(Area(width, height), k requires 0 <= k < Area(width, height) => LoadedPixel(memory, h, k)))
  }

  /** The reader takes these bytes for a 24-bit image. It computes the end of the data in
      32 bits. */
  predicate Accepted(data: seq<byte>) {
    && |data| >= HEADER_SIZE
    && var h := ReadHeader(data);
       && h.fileType == 0x4D42 && Supported(h.compression, h.bitCount) && GoodSize(h) && h.bitCount == 24
       && DataEnd(h) % WORD <= |data|
  }

  predicate IsOtherFormat(data: seq<byte>) {
    && |data| >= HEADER_SIZE
    && var h := ReadHeader(data);
       h.fileType == 0x4D42 && Supported(h.compression, h.bitCount) && GoodSize(h) && h.bitCount != 24
  }

  function LoadOf(data: seq<byte>, beyond: Memory): LoadResult {
    if Accepted(data) then Loaded(LoadedImage(InMemory(data, beyond), ReadHeader(data)))
    else if IsOtherFormat(data) then OtherFormat
    else Rejected
  }

  /** One row of the file, read from `at` on into the pixels from `base` on. */
  method LoadRow(pixels: array<Pixel>, memory: Memory, width: nat, at: nat, base: nat)
    requires base + width <= pixels.Length
    modifies pixels
    ensures forall x | 0 <= x < width :: pixels[base + x] == PixelAt(memory, at + 3 * x)
    ensures forall k | 0 <= k < pixels.Length && !(base <= k < base + width) :: pixels[k] == old(pixels[k])
  {
    var bitOffset := 0;
    for x := 0 to width
      invariant bitOffset == 24 * x
      invariant forall i | 0 <= i < x :: pixels[base + i] == PixelAt(memory, at + 3 * i)
      invariant forall k | 0 <= k < pixels.Length && !(base <= k < base + width) :: pixels[k] == old(pixels[k])
    {
      var byteIndex := bitOffset / 8;
      var b, g, r := memory(at + byteIndex), memory(at + byteIndex + 1), memory(at + byteIndex + 2);
      pixels[base + x] := Pack24(r, g, b);
      bitOffset := bitOffset + 24;
    }
  }

  /** The pixels of the first `y` rows of the file are in place. */
  ghost predicate RowsLoaded(pixels: seq<Pixel>, memory: Memory, h: Header, y: nat)
    requires GoodSize(h)
  {
    && |pixels| == Area(Magnitude(h.width), Magnitude(h.height))
    && forall k: nat | k < |pixels| :: PixelLoaded(pixels[k], memory, h, y, k)
  }

  ghost predicate PixelLoaded(pixel: Pixel, memory: Memory, h: Header, y: nat, k: nat)
    requires GoodSize(h)
  {
    FlippedRow(h, Row(Magnitude(h.width), k)) < y ==> pixel == LoadedPixel(memory, h, k)
  }

  lemma OneRowLoaded(before: seq<Pixel>, after: seq<Pixel>, memory: Memory, h: Header, y: nat, at: nat, base: nat)
    requires GoodSize(h) && y < Magnitude(h.height) && RowsLoaded(before, memory, h, y)
    requires |after| == |before| && base == Area(Magnitude(h.width), FlippedRow(h, y))
    requires base + Magnitude(h.width) <= |after|
    requires at == RowStart(h, y)
    requires forall x | 0 <= x < Magnitude(h.width) :: after[base + x] == PixelAt(memory, at + 3 * x)
    requires forall k | 0 <= k < |after| && !(base <= k < base + Magnitude(h.width)) :: after[k] == before[k]
    ensures RowsLoaded(after, memory, h, y + 1)
  {
    var next := y + 1;
    forall k: nat | k < |after| ensures PixelLoaded(after[k], memory, h, next, k) {
      assert PixelLoaded(before[k], memory, h, y, k);
      RowOfPixel(h, y, base, k);
      var x := k - base;
      assert 0 <= x < Magnitude(h.width) ==> after[base + x] == PixelAt(memory, at + 3 * x);
    }
  }

  /** The pixels from `base` on are those of row `y` of the file, in order. */
  lemma RowOfPixel(h: Header, y: nat, base: nat, k: nat)
    requires GoodSize(h) && y < Magnitude(h.height) && base == Area(Magnitude(h.width), FlippedRow(h, y))
    requires k < Area(Magnitude(h.width), Magnitude(h.height))
    ensures FlippedRow(h, Row(Magnitude(h.width), k)) == y <==> base <= k < base + Magnitude(h.width)
    ensures base <= k < base + Magnitude(h.width) ==> Column(Magnitude(h.width), k) == k - base
  {
    var width := Magnitude(h.width);
    CellOf(width, Magnitude(h.height), k);
    if base <= k < base + width {
      CellIs(width, FlippedRow(h, y), k - base);
    }
  }

  /** The 24-bit path of `LoadUncompressedBMP`. */
  method LoadRows(memory: Memory, h: Header) returns (image: Image)
    requires GoodSize(h) && h.bitCount == 24
    ensures image == LoadedImage(memory, h)
  {
    var width, height := Magnitude(h.width), Magnitude(h.height);
    var stride := BitStride(width, 24);
    AreaIsProduct(width, height);
    var pixels := new Pixel[width * height](_ => 0);
    for y := 0 to height
      invariant RowsLoaded(pixels[..], memory, h, y)
    {
      var target := if BottomUp(h) then height - 1 - y else y;
      ghost var before := pixels[..];
      AreaGrows(width, target, height);
      AreaIsProduct(stride, y);
      AreaIsProduct(width, target);
      var start := h.offset + y * stride % WORD;
      LoadRow(pixels, memory, width, start, target * width);
      OneRowLoaded(before, pixels[..], memory, h, y, start, target * width);
    }
    AllLoaded(pixels[..], memory, h);
    image := Image(width, height, pixels[..]);
  }

  lemma AllLoaded(pixels: seq<Pixel>, memory: Memory, h: Header)
    requires GoodSize(h) && RowsLoaded(pixels, memory, h, Magnitude(h.height))
    ensures pixels == LoadedImage(memory, h).pixels
  {
    forall k: nat | k < |pixels| ensures pixels[k] == LoadedPixel(memory, h, k) {
      assert PixelLoaded(pixels[k], memory, h, Magnitude(h.height), k);
      CellOf(Magnitude(h.width), Magnitude(h.height), k);
    }
  }

  /** `BMPBufferLoader`. */
  method Load(data: seq<byte>, beyond: Memory) returns (r: LoadResult)
    ensures r == LoadOf(data, beyond)
  {
    if |data| < HEADER_SIZE {
      return Rejected;
    }
    var h := ReadHeader(data);
    if h.fileType != 0x4D42 {
      return Rejected;
    }
    if !Supported(h.compression, h.bitCount) {
      return Rejected;
    }
    var width, height := Magnitude(h.width), Magnitude(h.height);
    if width == 0 || height == 0 {
      return Rejected;
    }
    if width >= 65536 || height >= 65536 {
      return Rejected;
    }
    if h.bitCount != 24 {
      return OtherFormat;
    }
    AreaIsProduct(RowSize(width), height);
    if (h.offset + RowSize(width) * height) % WORD > |data| {
      return Rejected;
    }
    var image := LoadRows(InMemory(data, beyond), h);
    r := Loaded(image);
  }

  // ----- what was saved is loaded -----

  lemma {:induction false} AreaAtLeast(width: nat, height: nat)
    requires width >= 2
    ensures Area(width, height) >= 2 * height
  {
    if height > 0 {
      AreaAtLeast(width, height - 1);
    }
  }

  /** The header of a saved file is read back, and its two dimensions are positive when taken
      as signed numbers. */
  lemma SavedHeader(image: Image)
    requires image.Valid() && 0 < image.width && 0 < image.height && FileSize(image) < WORD
    ensures ReadHeader(FileBytes(image)) == HeaderOf(image)
    ensures image.width < 0x8000_0000 && image.height < 0x8000_0000
  {
    AreaGrows(RowSize(image.width), 0, image.height);
    AreaAtLeast(RowSize(image.width), image.height);
    HeaderFits(HeaderOf(image));
    HeaderRoundTrip(HeaderOf(image), FileBytes(image)[HEADER_SIZE..]);
    assert FileBytes(image) == WriteHeader(HeaderOf(image)) + FileBytes(image)[HEADER_SIZE..];
  }

  lemma HeaderFits(h: Header)
    requires h.fileType < 0x1_0000 && h.reserved1 < 0x1_0000 && h.reserved2 < 0x1_0000
    requires h.planes < 0x1_0000 && h.bitCount < 0x1_0000
    requires h.fileSize < WORD && h.offset < WORD && h.infoSize < WORD
    requires h.width < WORD && h.height < WORD
    requires h.compression < WORD && h.imageSize < WORD
    requires h.xPelsPerMeter < WORD && h.yPelsPerMeter < WORD
    requires h.colorsUsed < WORD && h.colorsImportant < WORD
    ensures Fit(HeaderLayout(), Fields(h))
  {
    assert Pow256(2) == 0x1_0000;
    assert Pow256(4) == WORD;
  }

  /** The rows of the file of the image are in memory. */
  ghost predicate HoldsRows(memory: Memory, image: Image)
    requires image.Valid() && 0 < image.width
  {
    forall k: nat | k < DataSize(image) :: HoldsByte(memory, image, k)
  }

  ghost predicate HoldsByte(memory: Memory, image: Image, k: nat)
    requires image.Valid() && 0 < image.width && k < DataSize(image)
  {
    memory(HEADER_SIZE + k) == DataByte(image, k)
  }

  lemma SavedRows(image: Image, beyond: Memory)
    requires image.Valid() && 0 < image.width
    ensures HoldsRows(InMemory(FileBytes(image), beyond), image)
  {
    forall k: nat | k < DataSize(image) ensures HoldsByte(InMemory(FileBytes(image), beyond), image, k) {
      assert FileBytes(image)[HEADER_SIZE..][k] == DataByte(image, k);
    }
  }

  /** The three bytes of a pixel in the file. */
  lemma SavedComponent(memory: Memory, image: Image, y: nat, x: nat, c: nat)
    requires image.Valid() && y < image.height && x < image.width && c < 3 && HoldsRows(memory, image)
    ensures memory(HEADER_SIZE + Area(RowSize(image.width), image.height - 1 - y) + 3 * x + c)
            == Component(PixelIn(image, y, x), c)
  {
    var row, line := RowSize(image.width), image.height - 1 - y;
    AreaGrows(row, line, image.height);
    CellIs(row, line, 3 * x + c);
    assert HoldsByte(memory, image, Area(row, line) + 3 * x + c);
    DivisionUnique(3 * x + c, 3, x, c);
  }

  /** The same image with every pixel opaque. */
  function OpaqueImage(image: Image): Image {
    Image(image.width, image.height, seq(|image.pixels|, k requires 0 <= k < |image.pixels| => Opaque(image.pixels[k])))
  }

  lemma PixelFrom(memory: Memory, at: nat, p: Pixel)
    requires memory(at) == Component(p, 0) && memory(at + 1) == Component(p, 1) && memory(at + 2) == Component(p, 2)
    ensures PixelAt(memory, at) == Opaque(p)
  {
    OpaqueIsPacked(p);
  }

  lemma SavedPixelAt(memory: Memory, image: Image, y: nat, x: nat)
    requires image.Valid() && y < image.height && x < image.width && HoldsRows(memory, image)
    ensures PixelAt(memory, HEADER_SIZE + Area(RowSize(image.width), image.height - 1 - y) + 3 * x)
            == Opaque(PixelIn(image, y, x))
  {
    var at := HEADER_SIZE + Area(RowSize(image.width), image.height - 1 - y) + 3 * x;
    SavedComponent(memory, image, y, x, 0);
    SavedComponent(memory, image, y, x, 1);
    SavedComponent(memory, image, y, x, 2);
    PixelFrom(memory, at, PixelIn(image, y, x));
  }

  lemma SavedRowStart(image: Image, y: nat)
    requires 0 < image.width < 65536 && 0 < image.height < 65536 && y < image.height && FileSize(image) < WORD
    ensures RowStart(HeaderOf(image), FlippedRow(HeaderOf(image), y))
            == HEADER_SIZE + Area(RowSize(image.width), image.height - 1 - y)
  {
    StridesAgree(image.width);
    AreaGrows(RowSize(image.width), image.height - 1 - y, image.height);
  }

  lemma SavedPixel(memory: Memory, image: Image, k: nat)
    requires image.Valid() && k < |image.pixels| && 0 < image.width < 65536 && 0 < image.height < 65536
    requires FileSize(image) < WORD && HoldsRows(memory, image)
    ensures LoadedPixel(memory, HeaderOf(image), k) == Opaque(image.pixels[k])
  {
    var y, x := Row(image.width, k), Column(image.width, k);
    CellOf(image.width, image.height, k);
    SavedPixelAt(memory, image, y, x);
    SavedRowStart(image, y);
  }

  /** Loading a saved image gives its colours back with alpha 0xFF, exactly when both of its
      dimensions are below the limit of the reader. */
  lemma SaveLoad(image: Image, beyond: Memory)
    requires image.Valid() && 0 < image.width && 0 < image.height && FileSize(image) < WORD
    ensures LoadOf(FileBytes(image), beyond)
            == if image.width < 65536 && image.height < 65536 then Loaded(OpaqueImage(image)) else Rejected
  {
    SavedHeader(image);
    if image.width < 65536 && image.height < 65536 {
      var memory := InMemory(FileBytes(image), beyond);
      SavedRows(image, beyond);
      var loaded := LoadedImage(memory, HeaderOf(image)).pixels;
      forall k | 0 <= k < |loaded| ensures loaded[k] == Opaque(image.pixels[k]) {
        SavedPixel(memory, image, k);
      }
      assert loaded == OpaqueImage(image).pixels;
    }
  }
}
