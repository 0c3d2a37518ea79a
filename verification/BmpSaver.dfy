/**
  The 24-bit BMP writer. It computes sizes and the places it writes to in 32 bits and does not
  notice when they wrap; the model writes to a buffer that is checked, and stops at the first
  write outside it.
 */
module BmpSaver {
  import opened Arithmetic
  import opened Bmp

  // ----- what a file holds, row by row -----

  /** The bytes of a row of pixels, three to a pixel. */
  function RowBytes(row: seq<Pixel>): (s: seq<byte>)
    ensures |s| == 3 * |row|
  {
    if row == [] then [] else
    RowBytes(row[..|row| - 1]) + PixelBytes(row[|row| - 1])
  }

  function PixelBytes(p: Pixel): (s: seq<byte>)
    ensures |s| == 3
  {
    [Blue(p), Green(p), Red(p)]
  }

  lemma OnePixelMore(row: seq<Pixel>, x: nat)
    requires x < |row|
    ensures RowBytes(row[..x + 1]) == RowBytes(row[..x]) + PixelBytes(row[x])
  {
    assert row[..x + 1][..x] == row[..x];
  }

  lemma {:induction false} RowBytesAt(row: seq<Pixel>, x: nat, j: nat)
    requires x < |row| && j < 3
    ensures RowBytes(row)[3 * x + j] == Component(row[x], j)
  {
    if x < |row| - 1 {
      RowBytesAt(row[..|row| - 1], x, j);
    }
  }

  lemma OverwriteOn(s: seq<byte>, at: nat, a: seq<byte>, b: seq<byte>)
    requires at + |a| + |b| <= |s|
    ensures Overwritten(Overwritten(s, at, a), at + |a|, b) == Overwritten(s, at, a + b)
  {
  }

  lemma OverwriteNothing(s: seq<byte>, at: nat)
    requires at <= |s|
    ensures Overwritten(s, at, []) == s
  {
  }

  lemma OverwriteBehind(s: seq<byte>, at: nat, bytes: seq<byte>, n: nat)
    requires n <= at && at + |bytes| <= |s|
    ensures Overwritten(s, at, bytes)[..n] == s[..n]
  {
  }

  /** Row `y` of the image. */
  function PixelRow(image: Image, y: nat): (row: seq<Pixel>)
    requires image.Valid() && y < image.height
    ensures |row| == image.width && forall x | 0 <= x < image.width :: row[x] == PixelIn(image, y, x)
  {
    AreaGrows(image.width, y, image.height);
    image.pixels[Area(image.width, y)..Area(image.width, y) + image.width]
  }

  lemma RowByteFrom(image: Image, y: nat, c: nat)
    requires image.Valid() && y < image.height && c < 3 * image.width
    ensures RowBytes(PixelRow(image, image.height - 1 - y))[c] == RowByte(image, y, c)
  {
    RowBytesAt(PixelRow(image, image.height - 1 - y), c / 3, c % 3);
  }

  /** What the rows below `y` of the file leave in the buffer. */
  ghost predicate RowsSaved(buffer: seq<byte>, image: Image, y: nat)
    requires image.Valid() && 0 < image.width
  {
    && |buffer| == FileSize(image)
    && y <= image.height
    && buffer[..HEADER_SIZE] == WriteHeader(HeaderOf(image))
    && (forall k: nat | k < DataSize(image) :: ByteSaved(buffer, image, y, k))
  }

  ghost predicate ByteSaved(buffer: seq<byte>, image: Image, y: nat, k: nat)
    requires image.Valid() && 0 < image.width && k < DataSize(image) && |buffer| == FileSize(image)
  {
    buffer[HEADER_SIZE + k] == if k < Area(RowSize(image.width), y) then DataByte(image, k) else 0
  }

  lemma OneByteSaved(before: seq<byte>, after: seq<byte>, image: Image, y: nat, at: nat, k: nat)
    requires image.Valid() && 0 < image.width && y < image.height && k < DataSize(image)
    requires |before| == |after| == FileSize(image) && ByteSaved(before, image, y, k)
    requires at == HEADER_SIZE + Area(RowSize(image.width), y) && at + RowSize(image.width) <= |after|
    requires after == Overwritten(before, at, RowBytes(PixelRow(image, image.height - 1 - y)))
    ensures ByteSaved(after, image, y + 1, k)
  {
    var row, start := RowSize(image.width), at - HEADER_SIZE;
    if start <= k < start + row {
      CellIs(row, y, k - start);
      assert DataByte(image, k) == RowByte(image, y, k - start);
      if k - start < 3 * image.width {
        RowByteFrom(image, y, k - start);
      }
    }
  }

  lemma OneRowSaved(before: seq<byte>, after: seq<byte>, image: Image, y: nat, at: nat)
    requires image.Valid() && 0 < image.width && y < image.height && RowsSaved(before, image, y)
    requires |after| == |before| && at == HEADER_SIZE + Area(RowSize(image.width), y)
    requires at + RowSize(image.width) <= |after|
    requires after == Overwritten(before, at, RowBytes(PixelRow(image, image.height - 1 - y)))
    ensures RowsSaved(after, image, y + 1)
  {
    OverwriteBehind(before, at, RowBytes(PixelRow(image, image.height - 1 - y)), HEADER_SIZE);
    var next := y + 1;
    forall k: nat | k < DataSize(image) ensures ByteSaved(after, image, next, k) {
      assert ByteSaved(before, image, y, k);
      OneByteSaved(before, after, image, y, at, k);
    }
  }

  // ----- sizes and places in 32 bits -----

  /** The stride, the image size and the file size as the writer computes them, in 32 bits. */
  function SavedStride(width: u32): u32 {
    ((width * 3 + 3) % WORD) / 4 * 4
  }

  function SavedImageSize(width: u32, height: u32): u32 {
    Area(SavedStride(width), height) % WORD
  }

  function SavedFileSize(width: u32, height: u32): u32 {
    (HEADER_SIZE + SavedImageSize(width, height)) % WORD
  }

  /** In a file below 4 GiB nothing wraps. */
  lemma NothingWraps(image: Image)
    requires 0 < image.height && FileSize(image) < WORD
    ensures SavedStride(image.width) == RowSize(image.width)
    ensures SavedImageSize(image.width, image.height) == DataSize(image)
    ensures SavedFileSize(image.width, image.height) == FileSize(image)
  {
    var stride := RowSize(image.width);
    AreaGrows(stride, 0, image.height);
    assert stride < WORD;
    StrideFits(image.width);
    assert SavedStride(image.width) == stride;
    Unwrapped(DataSize(image));
    Unwrapped(FileSize(image));
  }

  lemma Unwrapped(x: nat)
    requires x < WORD
    ensures x % WORD == x
  {
  }

  lemma StrideFits(width: u32)
    ensures width * 3 + 3 < WORD <==> RowSize(width) < WORD
    ensures RowSize(width) < WORD ==> SavedStride(width) == RowSize(width)
    ensures RowSize(width) <= width * 3 + 3
  {
  }

  /** Where the writer puts byte `c` of pixel `x` of row `y`. */
  function WrittenAt(width: u32, y: nat, x: nat, c: nat): nat {
    HEADER_SIZE + Area(SavedStride(width), y) % WORD + (3 * x + c) % WORD
  }

  predicate ByteInside(width: u32, height: u32, y: nat, x: nat, c: nat) {
    WrittenAt(width, y, x, c) < SavedFileSize(width, height)
  }

  /** The first `n` pixels of row `y` are written inside the buffer. */
  ghost predicate RowInside(width: u32, height: u32, y: nat, n: nat) {
    forall x: nat, c: nat | x < n && c < 3 :: ByteInside(width, height, y, x, c)
  }

  /** Every byte of every pixel is written inside the buffer. */
  ghost predicate WritesStayInside(width: u32, height: u32) {
    forall y: nat | y < height :: RowInside(width, height, y, width)
  }

  /** In a file below 4 GiB the places are the ones in the file. */
  lemma PlacesFit(image: Image, y: nat, x: nat, c: nat)
    requires y < image.height && x < image.width && c < 3 && FileSize(image) < WORD
    ensures WrittenAt(image.width, y, x, c) == HEADER_SIZE + Area(RowSize(image.width), y) + 3 * x + c < FileSize(image)
    ensures ByteInside(image.width, image.height, y, x, c)
  {
    NothingWraps(image);
    AreaGrows(RowSize(image.width), y, image.height);
    Unwrapped(Area(RowSize(image.width), y));
    Unwrapped(3 * x + c);
  }

  /** The writer stays inside its buffer if and only if the size of the file is below 2^32. */
  lemma WritesInsideIff(image: Image)
    requires 0 < image.width && 0 < image.height
    ensures WritesStayInside(image.width, image.height) <==> FileSize(image) < WORD
  {
    if FileSize(image) < WORD {
      forall y: nat | y < image.height ensures RowInside(image.width, image.height, y, image.width) {
        forall x: nat, c: nat | x < image.width && c < 3 ensures ByteInside(image.width, image.height, y, x, c) {
          PlacesFit(image, y, x, c);
        }
      }
    } else {
      var y, x, c := OutsideAt(image);
      assert !RowInside(image.width, image.height, y, image.width);
    }
  }

  /** A byte that is written outside. */
  lemma OutsideAt(image: Image) returns (y: nat, x: nat, c: nat)
    requires 0 < image.width && 0 < image.height && FileSize(image) >= WORD
    ensures y < image.height && x < image.width && c < 3 && !ByteInside(image.width, image.height, y, x, c)
  {
    var width, height := image.width, image.height;
    var stride := RowSize(width);
    StrideFits(width);
    if stride >= WORD {
      y, x, c := 0, 1431655764, 1;
      Unwrapped(3 * x + c);
    } else {
      y, x, c := height - 1, width - 1, 2;
      Unwrapped(3 * x + c);
      if Area(stride, height - 1) >= WORD {
        y := RowBeforeWrap(stride, height);
      } else {
        LastByteOutside(stride, Area(stride, height - 1));
      }
      Unwrapped(Area(stride, y));
    }
  }

  /** Without wrapping places, a size that wraps is less than the last place. */
  lemma LastByteOutside(stride: nat, start: nat)
    requires HEADER_SIZE + start + stride >= WORD
    ensures (HEADER_SIZE + (start + stride) % WORD) % WORD <= HEADER_SIZE + start + stride - WORD
  {
    AddModulo(start + stride, HEADER_SIZE, WORD);
    var total := HEADER_SIZE + start + stride;
    DivisionUnique(total - WORD, WORD, total / WORD - 1, total % WORD);
  }

  /** For example an image of 43690 by 32768 pixels: its data are 2^32 bytes, so the buffer has
      room for the headers alone. */
  lemma WritingExample(image: Image)
    requires image.width == 43690 && image.height == 32768
    ensures SavedFileSize(image.width, image.height) == 54 && !WritesStayInside(image.width, image.height)
  {
    WrappingSize(image.width, image.height);
    StrideFits(image.width);
    WritesInsideIff(image);
  }

  // ----- the writer -----

  /** What saving gives: `false`, a file, or a write outside the buffer, where the model stops. */
  datatype SaveResult = Refused | Saved(file: seq<byte>) | WroteOutside

  /** The three bytes of a pixel, up to one that falls outside the buffer. */
  method SavePixel(buffer: array<byte>, width: u32, height: u32, y: nat, x: nat, pixel: Pixel) returns (inside: bool)
    requires buffer.Length == SavedFileSize(width, height)
    modifies buffer
    ensures inside <==> forall c: nat | c < 3 :: ByteInside(width, height, y, x, c)
    ensures var at := WrittenAt(width, y, x, 0);
            inside && WrittenAt(width, y, x, 1) == at + 1 && WrittenAt(width, y, x, 2) == at + 2 ==>
              at + 3 <= buffer.Length && buffer[..] == Overwritten(old(buffer[..]), at, PixelBytes(pixel))
  {
    var p0, p1, p2 := WrittenAt(width, y, x, 0), WrittenAt(width, y, x, 1), WrittenAt(width, y, x, 2);
    assert ByteInside(width, height, y, x, 0) == (p0 < buffer.Length);
    assert ByteInside(width, height, y, x, 1) == (p1 < buffer.Length);
    assert ByteInside(width, height, y, x, 2) == (p2 < buffer.Length);
    if p0 >= buffer.Length {
      return false;
    }
    buffer[p0] := Blue(pixel);
    if p1 >= buffer.Length {
      return false;
    }
    buffer[p1] := Green(pixel);
    if p2 >= buffer.Length {
      return false;
    }
    buffer[p2] := Red(pixel);
    return true;
  }

  /** The loop over the columns of a row. */
  method SaveRow(buffer: array<byte>, image: Image, y: nat, row: seq<Pixel>) returns (inside: bool)
    requires buffer.Length == SavedFileSize(image.width, image.height) && y < image.height && |row| == image.width
    modifies buffer
    ensures inside <==> RowInside(image.width, image.height, y, image.width)
    ensures inside && FileSize(image) < WORD ==>
              RowWritten(old(buffer[..]), buffer[..], RowPlace(image, y), RowBytes(row))
  {
    ghost var was := buffer[..];
    StartRow(image, y, was);
    for x := 0 to |row|
      invariant RowInside(image.width, image.height, y, x)
      invariant FileSize(image) < WORD ==> RowWritten(was, buffer[..], RowPlace(image, y), RowBytes(row[..x]))
    {
      ghost var before := buffer[..];
      inside := SavePixel(buffer, image.width, image.height, y, x, row[x]);
      if !inside {
        return;
      }
      if FileSize(image) < WORD {
        NextPixel(image, y, row, x, was, before, buffer[..]);
      }
    }
    assert row[..|row|] == row;
    return true;
  }

  /** Where row `y` starts in the file. */
  function RowPlace(image: Image, y: nat): nat {
    HEADER_SIZE + Area(RowSize(image.width), y)
  }

  ghost predicate RowWritten(before: seq<byte>, after: seq<byte>, at: nat, bytes: seq<byte>) {
    at + |bytes| <= |before| && after == Overwritten(before, at, bytes)
  }

  lemma StartRow(image: Image, y: nat, was: seq<byte>)
    requires y < image.height && |was| == SavedFileSize(image.width, image.height)
    ensures FileSize(image) < WORD ==> RowWritten(was, was, RowPlace(image, y), [])
  {
    if FileSize(image) < WORD {
      NothingWraps(image);
      AreaGrows(RowSize(image.width), y, image.height);
      OverwriteNothing(was, RowPlace(image, y));
    }
  }

  lemma NextPixel(image: Image, y: nat, row: seq<Pixel>, x: nat, was: seq<byte>, before: seq<byte>, after: seq<byte>)
    requires y < image.height && x < |row| == image.width && FileSize(image) < WORD
    requires |was| == SavedFileSize(image.width, image.height)
    requires RowWritten(was, before, RowPlace(image, y), RowBytes(row[..x]))
    requires var at := WrittenAt(image.width, y, x, 0);
             WrittenAt(image.width, y, x, 1) == at + 1 && WrittenAt(image.width, y, x, 2) == at + 2 ==>
               at + 3 <= |before| && after == Overwritten(before, at, PixelBytes(row[x]))
    ensures RowWritten(was, after, RowPlace(image, y), RowBytes(row[..x + 1]))
  {
    PlacesFit(image, y, x, 0);
    PlacesFit(image, y, x, 1);
    PlacesFit(image, y, x, 2);
    NothingWraps(image);
    OnePixelMore(row, x);
    OverwriteOn(was, RowPlace(image, y), RowBytes(row[..x]), PixelBytes(row[x]));
  }

  /** The loop over the rows. */
  method SaveRows(buffer: array<byte>, image: Image) returns (inside: bool)
    requires image.Valid() && 0 < image.width && buffer.Length == SavedFileSize(image.width, image.height)
    requires FileSize(image) < WORD ==> RowsSaved(buffer[..], image, 0)
    modifies buffer
    ensures inside <==> WritesStayInside(image.width, image.height)
    ensures inside && FileSize(image) < WORD ==> RowsSaved(buffer[..], image, image.height)
  {
    for y := 0 to image.height
      invariant forall k: nat | k < y :: RowInside(image.width, image.height, k, image.width)
      invariant FileSize(image) < WORD ==> RowsSaved(buffer[..], image, y)
    {
      ghost var before := buffer[..];
      inside := SaveRow(buffer, image, y, PixelRow(image, image.height - 1 - y));
      if !inside {
        return;
      }
      if FileSize(image) < WORD {
        AreaGrows(RowSize(image.width), y, image.height);
        OneRowSaved(before, buffer[..], image, y, RowPlace(image, y));
      }
    }
    return true;
  }

  /** `BMPBufferSaver`. */
  method Save(image: Image) returns (r: SaveResult)
    requires image.Valid()
    ensures r == if image.width == 0 || image.height == 0 then Refused
                 else if WritesStayInside(image.width, image.height) then Saved(FileBytes(image))
                 else WroteOutside
  {
    if image.width == 0 || image.height == 0 {
      return Refused;
    }
    WritesInsideIff(image);
    if FileSize(image) < WORD {
      NothingWraps(image);
    }
    var header := WriteHeader(HeaderOf(image));
    var buffer := new byte[SavedFileSize(image.width, image.height)](_ => 0);
    if buffer.Length < HEADER_SIZE {
      return WroteOutside;
    }
    forall k | 0 <= k < HEADER_SIZE {
      buffer[k] := header[k];
    }
    assert buffer[..][..HEADER_SIZE] == header;
    var inside := SaveRows(buffer, image);
    if !inside {
      return WroteOutside;
    }
    AllSaved(buffer[..], image);
    return Saved(buffer[..]);
  }

  lemma AllSaved(buffer: seq<byte>, image: Image)
    requires image.Valid() && 0 < image.width && RowsSaved(buffer, image, image.height)
    ensures buffer == FileBytes(image)
  {
    forall k: nat | k < DataSize(image) ensures buffer[HEADER_SIZE..][k] == DataByte(image, k) {
      assert ByteSaved(buffer, image, image.height, k);
    }
    assert buffer[HEADER_SIZE..] == FileBytes(image)[HEADER_SIZE..];
    assert buffer == buffer[..HEADER_SIZE] + buffer[HEADER_SIZE..];
  }
}
