/**
  The BMP format byte by byte: where the header fields are, which way up the rows are, and a
  whole small file.
 */
module BmpLayout {
  import opened Arithmetic
  import opened Bmp

  // ----- header fields at their places -----

  lemma {:induction false} FieldPlace(layout: seq<nat>, values: seq<nat>, i: nat, at: nat)
    requires |layout| == |values| && i < |layout| && at == Size(layout[..i])
    ensures at + layout[i] <= Size(layout)
    ensures Pack(layout, values)[at..at + layout[i]] == LittleEndian(values[i], layout[i])
  {
    var first, rest := LittleEndian(values[0], layout[0]), Pack(layout[1..], values[1..]);
    if i == 0 {
      assert at == 0 && (first + rest)[..layout[0]] == first;
    } else {
      assert layout[..i][0] == layout[0] && layout[..i][1..] == layout[1..][..i - 1];
      FieldPlace(layout[1..], values[1..], i - 1, at - layout[0]);
      SliceBehind(first, rest, at - layout[0], layout[i]);
    }
  }

  lemma SliceBehind(first: seq<byte>, rest: seq<byte>, at: nat, n: nat)
    requires at + n <= |rest|
    ensures (first + rest)[|first| + at..|first| + at + n] == rest[at..at + n]
  {
  }

  lemma {:induction false} SizeGrows(layout: seq<nat>, i: nat, at: nat, n: nat)
    requires i < |layout| && at == Size(layout[..i]) && n == layout[i]
    ensures Size(layout[..i + 1]) == at + n
  {
    SizeOfBoth(layout[..i], [layout[i]]);
    assert layout[..i + 1] == layout[..i] + [layout[i]];
    assert Size([layout[i]]) == layout[i] + Size([layout[i]][1..]);
  }

  /** Where each of the sixteen fields is, and how long. */
  function Place(i: nat): (nat, nat)
    requires i < 16
  {
    [(0, 2), (2, 4), (6, 2), (8, 2), (10, 4), (14, 4), (18, 4), (22, 4),
     (26, 2), (28, 2), (30, 4), (34, 4), (38, 4), (42, 4), (46, 4), (50, 4)][i]
  }

  lemma PlaceStep(i: nat)
    requires 0 < i < 16
    ensures Place(i).0 == Place(i - 1).0 + Place(i - 1).1
  {
  }

  lemma SizeOfField(layout: seq<nat>, i: nat)
    requires layout == HeaderLayout() && i < 16
    ensures |layout| == 16 && layout[i] == Place(i).1
  {
    assert layout == [2, 4, 2, 2, 4, 4, 4, 4, 2, 2, 4, 4, 4, 4, 4, 4];
  }

  lemma {:induction false} OffsetOfField(layout: seq<nat>, i: nat)
    requires layout == HeaderLayout() && i < 16
    ensures |layout| == 16 && Size(layout[..i]) == Place(i).0
  {
    SizeOfField(layout, i);
    if i == 0 {
      assert layout[..0] == [];
    } else {
      OffsetOfField(layout, i - 1);
      SizeOfField(layout, i - 1);
      PlaceStep(i);
      SizeGrows(layout, i - 1, Place(i - 1).0, Place(i - 1).1);
    }
  }

  /** Each of the sixteen header fields stands at its place, least significant byte first. */
  lemma HeaderPlaces(h: Header, i: nat)
    requires i < 16
    ensures var (at, n), v := Place(i), Fields(h)[i];
            at + n <= HEADER_SIZE &&
            WriteHeader(h)[at..at + n] == if n == 2 then [v % 256, v / 256 % 256]
                                          else [v % 256, v / 256 % 256, v / 0x1_0000 % 256, v / 0x100_0000 % 256]
  {
    FieldBytes(h, i);
    if Place(i).1 == 2 {
      TwoBytes(Fields(h)[i], 2);
    } else {
      FourBytes(Fields(h)[i], 4);
    }
  }

  lemma FieldBytes(h: Header, i: nat)
    requires i < 16
    ensures var (at, n) := Place(i);
            (n == 2 || n == 4) && at + n <= HEADER_SIZE && WriteHeader(h)[at..at + n] == LittleEndian(Fields(h)[i], n)
  {
    var layout := HeaderLayout();
    HeaderLayoutSize();
    OffsetOfField(layout, i);
    SizeOfField(layout, i);
    FieldPlace(layout, Fields(h), i, Place(i).0);
  }

  lemma TwoBytes(v: nat, n: nat)
    requires n == 2
    ensures LittleEndian(v, n) == [v % 256, v / 256 % 256]
  {
    assert LittleEndian(v / 256, 1) == [v / 256 % 256] + LittleEndian(v / 256 / 256, 0);
  }

  lemma FourBytes(v: nat, n: nat)
    requires n == 4
    ensures LittleEndian(v, n) == [v % 256, v / 256 % 256, v / 0x1_0000 % 256, v / 0x100_0000 % 256]
  {
    var w := v / 256 / 256;
    TwoBytes(w, 2);
    assert LittleEndian(v / 256, 3) == [v / 256 % 256] + LittleEndian(w, 2);
    assert w == v / 0x1_0000 && w / 256 == v / 0x100_0000;
  }

  // ----- which way up -----

  /** Row `row` of the image is row FlippedRow of the file. */
  lemma LoadedAt(memory: Memory, h: Header, row: nat, x: nat)
    requires GoodSize(h) && row < Magnitude(h.height) && x < Magnitude(h.width)
    ensures PixelIn(LoadedImage(memory, h), row, x) == PixelAt(memory, RowStart(h, FlippedRow(h, row)) + 3 * x)
  {
    var width := Magnitude(h.width);
    AreaGrows(width, row, Magnitude(h.height));
    CellIs(width, row, x);
    assert PixelIn(LoadedImage(memory, h), row, x) == LoadedPixel(memory, h, Area(width, row) + x);
  }

  lemma StartOfRow(h: Header, y: nat)
    ensures RowStart(h, y) == h.offset + y * (4 * ((24 * Magnitude(h.width) + 31) / 32)) % WORD
  {
    var stride := BitStride(Magnitude(h.width), 24);
    assert stride == 4 * ((24 * Magnitude(h.width) + 31) / 32);
    AreaIsProduct(stride, y);
    assert stride * y == y * stride;
  }

  /** The first row of the file is the bottom one if the height is positive and the top one if it
      is negative; each pixel is blue, green, red. */
  lemma RowsOfFile(memory: Memory, h: Header, y: nat, x: nat)
    requires GoodSize(h) && h.height < WORD && y < Magnitude(h.height) && x < Magnitude(h.width)
    ensures var at := h.offset + y * (4 * ((24 * Magnitude(h.width) + 31) / 32)) % WORD + 3 * x;
            PixelIn(LoadedImage(memory, h), if h.height < 0x8000_0000 then Magnitude(h.height) - 1 - y else y, x)
            == Pack24(memory(at + 2), memory(at + 1), memory(at))
  {
    LoadedAt(memory, h, if h.height < 0x8000_0000 then Magnitude(h.height) - 1 - y else y, x);
    StartOfRow(h, y);
  }

  /** The same image upside down. */
  function Flipped(image: Image): (r: Image)
    requires image.Valid() && 0 < image.width
    ensures r.Valid()
  {
    Image(image.width, image.height, seq(|image.pixels|, k requires 0 <= k < |image.pixels| => FlippedPixel(image, k)))
  }

  function FlippedPixel(image: Image, k: nat): Pixel
    requires image.Valid() && 0 < image.width && k < |image.pixels|
  {
    CellOf(image.width, image.height, k);
    PixelIn(image, image.height - 1 - Row(image.width, k), Column(image.width, k))
  }

  /** Negating the height in the header turns the image upside down. */
  lemma NegativeHeightFlips(memory: Memory, h: Header, t: Header)
    requires GoodSize(h) && 0 < h.height < 0x8000_0000 && t == h.(height := WORD - h.height)
    ensures GoodSize(t) && LoadedImage(memory, t) == Flipped(LoadedImage(memory, h))
  {
    var image, other := LoadedImage(memory, h), LoadedImage(memory, t);
    forall k | 0 <= k < |image.pixels| ensures other.pixels[k] == Flipped(image).pixels[k] {
      FlippedCell(memory, h, t, k);
    }
  }

  lemma FlippedCell(memory: Memory, h: Header, t: Header, k: nat)
    requires GoodSize(h) && 0 < h.height < 0x8000_0000 && t == h.(height := WORD - h.height)
    requires k < Area(Magnitude(h.width), Magnitude(h.height))
    ensures LoadedPixel(memory, t, k) == FlippedPixel(LoadedImage(memory, h), k)
  {
    var width, height := Magnitude(h.width), Magnitude(h.height);
    CellOf(width, height, k);
    LoadedAt(memory, h, height - 1 - Row(width, k), Column(width, k));
  }

  // ----- a whole file -----

  /** The header fields of one red pixel over one blue one. */
  lemma SmallHeader(image: Image)
    requires image == Image(1, 2, [0xFF00_00FF, 0xFFFF_0000])
    ensures Fields(HeaderOf(image)) == [0x4D42, 62, 0, 0, 54, 40, 1, 2, 1, 24, 0, 8, 0, 0, 0, 0]
  {
    SmallSizes(image);
  }

  /** The two rows of its file, each padded with a zero byte. */
  lemma SmallRows(image: Image)
    requires image == Image(1, 2, [0xFF00_00FF, 0xFFFF_0000])
    ensures image.Valid() && |FileBytes(image)| == 62 && FileBytes(image)[54..] == [255, 0, 0, 0, 0, 0, 255, 0]
  {
    SmallSizes(image);
    forall k: nat | k < 8 ensures FileBytes(image)[54..][k] == if k == 0 || k == 6 then 255 else 0 {
      ByteOfFile(image, k);
      SmallDataByte(image, k);
    }
    EightBytes(FileBytes(image)[54..]);
  }

  lemma ByteOfFile(image: Image, k: nat)
    requires image.Valid() && 0 < image.width && k < DataSize(image)
    ensures FileBytes(image)[54..][k] == DataByte(image, k)
  {
  }

  lemma EightBytes(data: seq<byte>)
    requires |data| == 8 && forall k: nat | k < 8 :: data[k] == if k == 0 || k == 6 then 255 else 0
    ensures data == [255, 0, 0, 0, 0, 0, 255, 0]
  {
  }

  lemma SmallDataByte(image: Image, k: nat)
    requires image == Image(1, 2, [0xFF00_00FF, 0xFFFF_0000]) && k < 8
    ensures image.Valid() && DataSize(image) == 8 && DataByte(image, k) == if k == 0 || k == 6 then 255 else 0
  {
    SmallSizes(image);
    SmallByte(image, k / 4, k % 4);
  }

  lemma SmallSizes(image: Image)
    requires image == Image(1, 2, [0xFF00_00FF, 0xFFFF_0000])
    ensures image.Valid() && RowSize(image.width) == 4 && DataSize(image) == 8
  {
    AreaIsProduct(1, 2);
    AreaIsProduct(4, 2);
  }

  lemma SmallByte(image: Image, y: nat, c: nat)
    requires image == Image(1, 2, [0xFF00_00FF, 0xFFFF_0000]) && y < 2 && c < 4
    ensures image.Valid() && RowByte(image, y, c) == if (y == 0 && c == 0) || (y == 1 && c == 2) then 255 else 0
  {
    SmallSizes(image);
    if c < 3 {
      AreaIsProduct(1, 1 - y);
      assert PixelIn(image, 1 - y, 0) == image.pixels[1 - y];
      assert c / 3 == 0 && c % 3 == c;
    }
  }
}
