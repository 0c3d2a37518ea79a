/**
  Which files the BMP reader reads inside its buffer. It computes the end of the data and the
  row starts in 32 bits and does not notice when they wrap.
 */
module BmpBounds {
  import opened Arithmetic
  import opened Bmp

  /** Every byte that the row loop reads for a file with header `h` is among the first `n`. */
  ghost predicate ReadsInside(h: Header, n: nat) {
    forall y: nat, x: nat | y < Magnitude(h.height) && x < Magnitude(h.width) :: PixelInside(h, y, x, n)
  }

  /** The three bytes of pixel `x` of row `y` of the file are among the first `n`. */
  predicate PixelInside(h: Header, y: nat, x: nat, n: nat) {
    RowStart(h, y) + 3 * x + 3 <= n
  }

  /** The greatest wrapped row start, without the offset. */
  function Farthest(stride: nat, height: nat): nat {
    if height == 0 then 0 else Max(Farthest(stride, height - 1), Area(stride, height - 1) % WORD)
  }

  lemma {:induction false} FarthestIsGreatest(stride: nat, height: nat, y: nat)
    requires y < height
    ensures Area(stride, y) % WORD <= Farthest(stride, height)
  {
    if y < height - 1 {
      FarthestIsGreatest(stride, height - 1, y);
    }
  }

  lemma {:induction false} FarthestIsReached(stride: nat, height: nat) returns (y: nat)
    requires height > 0
    ensures y < height && Area(stride, y) % WORD == Farthest(stride, height)
  {
    y := height - 1;
    if height > 1 && Farthest(stride, height - 1) > Area(stride, height - 1) % WORD {
      y := FarthestIsReached(stride, height - 1);
    }
  }

  /** The file is read inside a buffer of `n` bytes if and only if the farthest row ends in it. */
  lemma ReadsInsideIff(h: Header, n: nat)
    requires GoodSize(h)
    ensures ReadsInside(h, n) <==>
              h.offset + Farthest(BitStride(Magnitude(h.width), 24), Magnitude(h.height)) + 3 * Magnitude(h.width) <= n
  {
    var stride, width, height := BitStride(Magnitude(h.width), 24), Magnitude(h.width), Magnitude(h.height);
    if ReadsInside(h, n) {
      var y := FarthestIsReached(stride, height);
      assert PixelInside(h, y, width - 1, n);
    }
    if h.offset + Farthest(stride, height) + 3 * width <= n {
      forall y: nat, x: nat | y < height && x < width ensures PixelInside(h, y, x, n) {
        FarthestIsGreatest(stride, height, y);
      }
    }
  }

  /** Unless row starts wrap, the farthest row is the last one. */
  lemma {:induction false} FarthestIsLast(stride: nat, height: nat)
    requires height > 0 && Area(stride, height - 1) < WORD
    ensures Farthest(stride, height) == Area(stride, height - 1)
  {
    if height > 1 {
      FarthestIsLast(stride, height - 1);
    }
  }

  lemma LastRowDecides(h: Header, n: nat)
    requires GoodSize(h) && Area(BitStride(Magnitude(h.width), 24), Magnitude(h.height) - 1) < WORD
    ensures ReadsInside(h, n) <==> RowStart(h, Magnitude(h.height) - 1) + 3 * Magnitude(h.width) <= n
  {
    ReadsInsideIff(h, n);
    FarthestIsLast(BitStride(Magnitude(h.width), 24), Magnitude(h.height));
  }

  /** Where the data end fits 32 bits, every accepted file is read inside its buffer. */
  lemma FittingIsInside(data: seq<byte>)
    requires Accepted(data) && DataEnd(ReadHeader(data)) < WORD
    ensures ReadsInside(ReadHeader(data), |data|)
  {
    var h := ReadHeader(data);
    var width, height := Magnitude(h.width), Magnitude(h.height);
    StridesAgree(width);
    forall y: nat, x: nat | y < height && x < width ensures PixelInside(h, y, x, |data|) {
      AreaGrows(RowSize(width), y, height);
    }
  }

  /** Where it does not, the last row, or the last before its start wraps, ends within three
      bytes of 2^32 or beyond. */
  lemma WrappingIsFar(h: Header, n: nat)
    requires GoodSize(h) && DataEnd(h) >= WORD && ReadsInside(h, n)
    ensures n >= WORD - 3
  {
    var width, height := Magnitude(h.width), Magnitude(h.height);
    var stride := RowSize(width);
    StridesAgree(width);
    StrideIsTight(width);
    var y := height - 1;
    if Area(stride, height - 1) >= WORD {
      y := RowBeforeWrap(stride, height);
    }
    assert PixelInside(h, y, width - 1, n);
  }

  lemma StrideIsTight(width: nat)
    ensures 3 * width <= RowSize(width) <= 3 * width + 3
  {
  }

  /** For every file of less than 4 GiB (less three bytes): if the reader accepts it, it reads
      inside the buffer if and only if the end of the data, as the header gives it, is below
      2^32. */
  lemma AcceptedReadsInsideIff(data: seq<byte>)
    requires Accepted(data) && |data| < WORD - 3
    ensures ReadsInside(ReadHeader(data), |data|) <==> DataEnd(ReadHeader(data)) < WORD
  {
    if DataEnd(ReadHeader(data)) < WORD {
      FittingIsInside(data);
    } else if ReadsInside(ReadHeader(data), |data|) {
      WrappingIsFar(ReadHeader(data), |data|);
    }
  }

  /** The image that is loaded is one and the same, whatever lies behind the buffer, if and only
      if the reader stays inside it. */
  lemma ImageIsTheFilesIff(data: seq<byte>)
    requires Accepted(data)
    ensures (forall b: Memory, c: Memory :: LoadOf(data, b) == LoadOf(data, c)) <==> ReadsInside(ReadHeader(data), |data|)
  {
    var h := ReadHeader(data);
    if ReadsInside(h, |data|) {
      forall b: Memory, c: Memory ensures LoadOf(data, b) == LoadOf(data, c) {
        InsideIsSame(data, b, c);
      }
    } else {
      var y: nat, x: nat :| y < Magnitude(h.height) && x < Magnitude(h.width) && !PixelInside(h, y, x, |data|);
      OutsideDiffers(data, y, x);
    }
  }

  lemma InsideIsSame(data: seq<byte>, b: Memory, c: Memory)
    requires Accepted(data) && ReadsInside(ReadHeader(data), |data|)
    ensures LoadOf(data, b) == LoadOf(data, c)
  {
    var h := ReadHeader(data);
    var p, q := LoadedImage(InMemory(data, b), h).pixels, LoadedImage(InMemory(data, c), h).pixels;
    forall k | 0 <= k < |p| ensures p[k] == q[k] {
      CellOf(Magnitude(h.width), Magnitude(h.height), k);
      assert PixelInside(h, FlippedRow(h, Row(Magnitude(h.width), k)), Column(Magnitude(h.width), k), |data|);
    }
    assert p == q;
  }

  /** The pixel of the image that comes from pixel `x` of row `y` of the file. */
  lemma PixelOf(memory: Memory, h: Header, y: nat, x: nat) returns (k: nat)
    requires GoodSize(h) && y < Magnitude(h.height) && x < Magnitude(h.width)
    ensures k == Area(Magnitude(h.width), FlippedRow(h, y)) + x
    ensures k < |LoadedImage(memory, h).pixels| && LoadedImage(memory, h).pixels[k] == PixelAt(memory, RowStart(h, y) + 3 * x)
  {
    var width, line := Magnitude(h.width), FlippedRow(h, y);
    AreaGrows(width, line, Magnitude(h.height));
    CellIs(width, line, x);
    k := Area(width, line) + x;
    assert LoadedPixel(memory, h, k) == PixelAt(memory, RowStart(h, y) + 3 * x);
  }

  lemma OutsideDiffers(data: seq<byte>, y: nat, x: nat)
    requires Accepted(data)
    requires var h := ReadHeader(data);
             y < Magnitude(h.height) && x < Magnitude(h.width) && !PixelInside(h, y, x, |data|)
    ensures LoadOf(data, _ => 0) != LoadOf(data, _ => 1)
  {
    var h, at := ReadHeader(data), RowStart(ReadHeader(data), y) + 3 * x;
    var b, c := InMemory(data, _ => 0), InMemory(data, _ => 1);
    var k := PixelOf(b, h, y, x);
    var k' := PixelOf(c, h, y, x);
    assert b(at + 2) < c(at + 2) && b(at + 1) <= c(at + 1) && b(at) <= c(at);
    PixelsDiffer(b, c, at);
    assert LoadedImage(b, h) != LoadedImage(c, h);
  }

  lemma PixelsDiffer(b: Memory, c: Memory, at: nat)
    requires b(at + 2) < c(at + 2) && b(at + 1) <= c(at + 1) && b(at) <= c(at)
    ensures PixelAt(b, at) != PixelAt(c, at)
  {
  }

  /** For example a file that is a header alone, for an image of 43690 by 32768 pixels: its data
      are 2^32 bytes, so their end wraps to 54, the size of the file. The fields not named here
      may be anything that fits them. */
  lemma WrappingExample(header: Header, data: seq<byte>)
    requires Fit(HeaderLayout(), Fields(header)) && data == WriteHeader(header)
    requires header.fileType == 0x4D42 && header.compression == 0 && header.bitCount == 24
    requires header.width == 43690 && header.height == 32768 && header.offset == 54
    ensures |data| == 54 && Accepted(data) && !ReadsInside(ReadHeader(data), |data|)
  {
    HeaderRoundTrip(header, []);
    assert data + [] == data;
    WrappingSize(Magnitude(header.width), Magnitude(header.height));
    AcceptedReadsInsideIff(data);
  }
}
