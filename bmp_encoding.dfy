/**
 * A reference writer for the bitmap layout the decoder reads: the 54 header
 * bytes, an arbitrary gap (a colour table, say) up to the pixel data offset,
 * then the rows in the chosen storage order, each channel-swapped and padded.
 * Its round trip through `Decode` pins down what the decoder computes.
 */
module BmpEncoding {
  import opened Wrappers
  import opened LittleEndian
  import opened BmpLayout

  /** An image the format can store: whole rows, and dimensions that fit an `int32_t`. */
  predicate Storable(b: Bitmap) {
    && (b.channels == 1 || b.channels == 3)
    && 0 <= b.width < Two31 && 0 <= b.height < Two31
    && |b.pixels| == b.width * b.channels * b.height
  }

  /** The header the decoder reads back from `Encode(b, topDown, gap)` with `|gap| == gapSize`. */
  function Layout(b: Bitmap, topDown: bool, gapSize: nat): (h: Header)
    requires Storable(b)
    ensures WellFormed(h) && LineBytes(h) * h.height == |b.pixels|
    ensures PixelStart(h) == HeaderSize + gapSize
  {
    Header(b.channels, HeaderSize + gapSize, b.width, b.height, topDown && b.height > 0)
  }

  /** Four zero bytes: a field the decoder ignores, or a zero compression field. */
  const Unused: seq<byte> := [0, 0, 0, 0]

  /** The file header: marker, file size and reserved words (unused), pixel data offset. */
  function FileHeaderBytes(offset: int): (header: seq<byte>)
    requires 0 <= offset < Two31
    ensures |header| == FileHeaderSize
    ensures header[0] == 'B' as int && header[1] == 'M' as int
    ensures header[10..14] == FromInt32(offset)
  {
    [66, 77] + Unused + Unused + FromInt32(offset)
  }

  /**
   * The info header: its own size, width, height (negated for top-down
   * storage), one plane, bits per pixel, no compression; the rest unused.
   */
  function InfoHeaderBytes(b: Bitmap, topDown: bool): (header: seq<byte>)
    requires Storable(b)
    ensures |header| == InfoHeaderSize
    ensures header[4..8] == FromInt32(b.width)
    ensures header[8..12] == FromInt32(if topDown then -b.height else b.height)
    ensures header[14] == 8 * b.channels
    ensures header[16..20] == Unused
  {
    var depth: byte := if b.channels == 1 then 8 else 24;
    var fields := FromInt32(InfoHeaderSize) + FromInt32(b.width) + FromInt32(if topDown then -b.height else b.height);
    var rest: seq<byte> := [1, 0, depth, 0] + Unused + Unused + Unused + Unused + Unused + Unused;
    fields + rest
  }

  /** The 54 header bytes of `Encode(b, topDown, gap)` with `|gap| == gapSize`. */
  function EncodedHeader(b: Bitmap, topDown: bool, gapSize: nat): (header: seq<byte>)
    requires Storable(b) && HeaderSize + gapSize < Two31
    ensures |header| == HeaderSize
  {
    FileHeaderBytes(HeaderSize + gapSize) + InfoHeaderBytes(b, topDown)
  }

  /**
   * Byte `q` of the pixel data: stored row `q / Stride(h)` holds output row
   * `FileRow(h, q / Stride(h))` with its channels swapped, then zero padding.
   */
  function StoredByte(b: Bitmap, h: Header, q: int): byte
    requires WellFormed(h) && h.channels == b.channels && h.width == b.width && h.height == b.height
    requires |b.pixels| == LineBytes(h) * h.height
    requires 0 <= q < h.height * Stride(h)
  {
    var n := Stride(h);
    RowOfIndex(q, n, h.height);
    var s, j := q / n, q % n;
    if j < LineBytes(h) then
      RowInside(FileRow(h, s), LineBytes(h), h.height);
      WholePixels(h);
      SwapIndexInRow(h.channels, LineBytes(h), j);
      b.pixels[FileRow(h, s) * LineBytes(h) + SwapIndex(h.channels, j)]
    else
      0
  }

  /** The pixel data: every stored row followed by its padding, in storage order. */
  function Rows(b: Bitmap, h: Header): (rows: seq<byte>)
    requires WellFormed(h) && h.channels == b.channels && h.width == b.width && h.height == b.height
    requires |b.pixels| == LineBytes(h) * h.height
    ensures |rows| == h.height * Stride(h)
  {
    MulMonotone(Stride(h), 0, h.height);
    seq(h.height * Stride(h), q requires 0 <= q < h.height * Stride(h) => StoredByte(b, h, q))
  }

  /** The bytes of a bitmap file holding `b`. */
  function Encode(b: Bitmap, topDown: bool, gap: seq<byte>): (data: seq<byte>)
    requires Storable(b) && HeaderSize + |gap| < Two31
    ensures var h := Layout(b, topDown, |gap|); |data| == PixelStart(h) + h.height * Stride(h)
  {
    EncodedHeader(b, topDown, |gap|) + gap + Rows(b, Layout(b, topDown, |gap|))
  }

  /** A header field holding what `FromInt32` stored reads back as that value. */
  lemma FieldAt(fileHeader: seq<byte>, infoHeader: seq<byte>, at: int, v: int)
    requires |fileHeader| == FileHeaderSize && 0 <= at && at + 4 <= FileHeaderSize + |infoHeader|
    requires -Two31 <= v < Two31
    requires at + 4 <= FileHeaderSize ==> fileHeader[at..at + 4] == FromInt32(v)
    requires at >= FileHeaderSize ==> infoHeader[at - FileHeaderSize..at - FileHeaderSize + 4] == FromInt32(v)
    requires at + 4 <= FileHeaderSize || at >= FileHeaderSize
    ensures Field(fileHeader + infoHeader, at) == v
  {
    var header := fileHeader + infoHeader;
    if at + 4 <= FileHeaderSize {
      assert header[at..at + 4] == fileHeader[at..at + 4];
    } else {
      assert header[at..at + 4] == infoHeader[at - FileHeaderSize..at - FileHeaderSize + 4];
    }
    FromInt32RoundTrip(v);
  }

  /** Four zero bytes store the `int32_t` zero. */
  lemma ZeroField()
    ensures FromInt32(0) == Unused
  {
  }

  /** The fields of the written header, as the decoder reads them. */
  lemma EncodedFields(b: Bitmap, topDown: bool, gapSize: nat)
    requires Storable(b) && HeaderSize + gapSize < Two31
    ensures var header := EncodedHeader(b, topDown, gapSize);
      && header[0] == 'B' as int && header[1] == 'M' as int
      && header[FileHeaderSize + 14] == 8 * b.channels
      && Field(header, 10) == HeaderSize + gapSize
      && Field(header, FileHeaderSize + 4) == b.width
      && Field(header, FileHeaderSize + 8) == (if topDown then -b.height else b.height)
      && Field(header, FileHeaderSize + 16) == 0
  {
    var fileHeader, infoHeader := FileHeaderBytes(HeaderSize + gapSize), InfoHeaderBytes(b, topDown);
    FieldAt(fileHeader, infoHeader, 10, HeaderSize + gapSize);
    FieldAt(fileHeader, infoHeader, FileHeaderSize + 4, b.width);
    FieldAt(fileHeader, infoHeader, FileHeaderSize + 8, if topDown then -b.height else b.height);
    ZeroField();
    FieldAt(fileHeader, infoHeader, FileHeaderSize + 16, 0);
  }

  /** A file that starts with the written header, and reaches the pixel data offset, parses as `Layout`. */
  lemma EncodedHeaderParses(data: seq<byte>, b: Bitmap, topDown: bool, gapSize: nat)
    requires Storable(b) && HeaderSize + gapSize < Two31
    requires HeaderSize + gapSize <= |data| && data[..HeaderSize] == EncodedHeader(b, topDown, gapSize)
    ensures ParseHeader(data) == Success(Layout(b, topDown, gapSize))
  {
    EncodedFields(b, topDown, gapSize);
  }

  /** Whether `data` ends with `b`'s rows stored as `h` describes, from the pixel data start on. */
  predicate StoresRows(data: seq<byte>, b: Bitmap, h: Header)
    requires WellFormed(h) && h.channels == b.channels && h.width == b.width && h.height == b.height
    requires |b.pixels| == LineBytes(h) * h.height
  {
    PixelStart(h) <= |data| && data[PixelStart(h)..] == Rows(b, h)
  }

  /** The written file stores the rows of `b` after its header and gap. */
  lemma EncodeStoresRows(b: Bitmap, topDown: bool, gap: seq<byte>)
    requires Storable(b) && HeaderSize + |gap| < Two31
    ensures StoresRows(Encode(b, topDown, gap), b, Layout(b, topDown, |gap|))
  {
    var h := Layout(b, topDown, |gap|);
    assert |EncodedHeader(b, topDown, |gap|) + gap| == PixelStart(h);
  }

  /** Every stored row, with its padding, lies inside the file. */
  lemma StoredRowsFit(data: seq<byte>, b: Bitmap, h: Header)
    requires WellFormed(h) && h.channels == b.channels && h.width == b.width && h.height == b.height
    requires |b.pixels| == LineBytes(h) * h.height
    requires StoresRows(data, b, h)
    ensures forall s :: 0 <= s < h.height ==> RowStart(h, s) + Stride(h) <= |data|
  {
    forall s | 0 <= s < h.height
      ensures RowStart(h, s) + Stride(h) <= |data|
    {
      RowsInOrder(h, s, h.height);
    }
  }

  /** Byte `j` of stored row `s` is the channel-swapped byte of output row `FileRow(h, s)`. */
  lemma StoredByteAt(b: Bitmap, h: Header, s: int, j: int)
    requires WellFormed(h) && h.channels == b.channels && h.width == b.width && h.height == b.height
    requires |b.pixels| == LineBytes(h) * h.height
    requires 0 <= s < h.height && 0 <= j < LineBytes(h)
    ensures 0 <= s * Stride(h) + j < h.height * Stride(h)
    ensures 0 <= FileRow(h, s) * LineBytes(h) + SwapIndex(h.channels, j) < |b.pixels|
    ensures StoredByte(b, h, s * Stride(h) + j)
         == b.pixels[FileRow(h, s) * LineBytes(h) + SwapIndex(h.channels, j)]
  {
    var n, m := LineBytes(h), Stride(h);
    RowInside(s, m, h.height);
    IndexOfRow(s, j, m);
    RowInside(FileRow(h, s), n, h.height);
    WholePixels(h);
    SwapIndexInRow(h.channels, n, j);
  }

  /** Each decoded byte of a file storing the rows of `b` is the byte of `b` at the same place. */
  lemma StoredPixel(data: seq<byte>, b: Bitmap, h: Header, p: int)
    requires WellFormed(h) && h.channels == b.channels && h.width == b.width && h.height == b.height
    requires |b.pixels| == LineBytes(h) * h.height
    requires StoresRows(data, b, h)
    requires forall s :: 0 <= s < h.height ==> RowStart(h, s) + Stride(h) <= |data|
    requires 0 <= p < |b.pixels|
    ensures Pixels(data, h)[p] == b.pixels[p]
  {
    var n := LineBytes(h);
    RowOfIndex(p, n, h.height);
    var r, k := p / n, p % n;
    assert r * n + k == p;
    PixelsAt(data, h, r, k);
    StoredPixelAt(data, b, h, r, k);
  }

  /** The byte at offset `j` of stored row `s` is the writer's byte there. */
  lemma StoredAt(data: seq<byte>, b: Bitmap, h: Header, s: int, j: int)
    requires WellFormed(h) && h.channels == b.channels && h.width == b.width && h.height == b.height
    requires |b.pixels| == LineBytes(h) * h.height
    requires StoresRows(data, b, h)
    requires 0 <= s < h.height && 0 <= j < LineBytes(h)
    ensures 0 <= s * Stride(h) + j < h.height * Stride(h)
    ensures 0 <= RowStart(h, s) + j < |data|
    ensures data[RowStart(h, s) + j] == StoredByte(b, h, s * Stride(h) + j)
  {
    var q := s * Stride(h) + j;
    RowInside(s, Stride(h), h.height);
    assert 0 <= q < h.height * Stride(h);
    assert RowStart(h, s) + j == PixelStart(h) + q;
    assert data[PixelStart(h)..][q] == Rows(b, h)[q];
  }

  /**
   * The file byte that the decoder takes for byte `k` of output row `r` is
   * the byte of `b` at that place.
   */
  lemma StoredPixelAt(data: seq<byte>, b: Bitmap, h: Header, r: int, k: int)
    requires WellFormed(h) && h.channels == b.channels && h.width == b.width && h.height == b.height
    requires |b.pixels| == LineBytes(h) * h.height
    requires StoresRows(data, b, h)
    requires 0 <= r < h.height && 0 <= k < LineBytes(h)
    ensures 0 <= r * LineBytes(h) + k < |b.pixels|
    ensures 0 <= RowStart(h, FileRow(h, r)) + SwapIndex(h.channels, k) < |data|
    ensures data[RowStart(h, FileRow(h, r)) + SwapIndex(h.channels, k)] == b.pixels[r * LineBytes(h) + k]
  {
    var n := LineBytes(h);
    var s, j := FileRow(h, r), SwapIndex(h.channels, k);
    RowInside(r, n, h.height);
    WholePixels(h);
    SwapIndexInRow(h.channels, n, k);
    StoredAt(data, b, h, s, j);
    StoredByteAt(b, h, s, j);
    var r' := FileRow(h, s);
    assert r' == r && SwapIndex(h.channels, j) == k;
  }

  /** A file whose header parses as `h` and which stores the rows of `b` as `h` describes decodes to `b`. */
  lemma DecodeStored(data: seq<byte>, b: Bitmap, h: Header)
    requires WellFormed(h) && h.channels == b.channels && h.width == b.width && h.height == b.height
    requires |b.pixels| == LineBytes(h) * h.height
    requires ParseHeader(data) == Success(h) && StoresRows(data, b, h)
    ensures Decode(data) == Success(b)
  {
    StoredRowsFit(data, b, h);
    CheckRowsEnd(data, h, 0);
    DecodeAfterHeader(data, h);
    forall p | 0 <= p < |b.pixels|
      ensures Pixels(data, h)[p] == b.pixels[p]
    {
      StoredPixel(data, b, h, p);
    }
    assert Pixels(data, h) == b.pixels;
  }

  /**
   * Decoding a written file gives the image back, whichever storage order
   * and whatever gap before the pixel data were chosen.
   */
  lemma EncodeRoundTrip(b: Bitmap, topDown: bool, gap: seq<byte>)
    requires Storable(b) && HeaderSize + |gap| < Two31
    ensures Decode(Encode(b, topDown, gap)) == Success(b)
  {
    var data, h := Encode(b, topDown, gap), Layout(b, topDown, |gap|);
    assert data[..HeaderSize] == EncodedHeader(b, topDown, |gap|);
    EncodedHeaderParses(data, b, topDown, |gap|);
    EncodeStoresRows(b, topDown, gap);
    DecodeStored(data, b, h);
  }
}
