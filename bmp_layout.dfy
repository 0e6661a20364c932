/**
 * The uncompressed Windows bitmap layout as the decoder reads it: a 14-byte
 * file header, a 40-byte info header, then rows of pixels, each padded to a
 * multiple of four bytes, stored bottom-up unless the height is negative, with
 * three-channel pixels stored in blue-green-red order.
 *
 * `Decode` states what the decoder produces for a file's bytes; `BmpReader`
 * proves the imperative decoder against it.
 */
module BmpLayout {
  import opened Wrappers
  import opened LittleEndian

  const FileHeaderSize: int := 14
  const InfoHeaderSize: int := 40
  const HeaderSize: int := FileHeaderSize + InfoHeaderSize

  /** Why decoding stopped; one kind per rejecting branch of the decoder. */
  datatype DecodeError =
    | ShortHeader                         // fewer than 54 bytes
    | BadMarker                           // not starting with 'B', 'M'
    | UnsupportedChannels(channels: int)  // bits per pixel / 8 is neither 1 nor 3
    | UnsupportedCompression              // compression field is not 0
    | OffsetSeekFailed                    // the pixel data offset lies past the end
    | InvalidWidth(width: int)            // negative width
    | ShortRow(row: int)                  // a row of pixels runs past the end
    | PaddingSeekFailed(row: int)         // a row's padding runs past the end

  /** The header fields the decoder uses; `height` is already made non-negative. */
  datatype Header = Header(channels: int, offset: int, width: int, height: int, topDown: bool)

  /** A decoded image: rows top to bottom, channels in red-green-blue order. */
  datatype Bitmap = Bitmap(width: int, height: int, channels: int, pixels: seq<byte>)

  predicate WellFormed(h: Header) {
    && (h.channels == 1 || h.channels == 3)
    && h.offset >= 0 && h.width >= 0 && h.height >= 0
  }

  /** C's integer `/`, which truncates toward zero. */
  function CDiv(a: int, b: int): (q: int)
    requires b > 0
    ensures a >= 0 ==> q == a / b
  {
    if a >= 0 then a / b else -((-a) / b)
  }

  /** The `int32_t` stored little-endian at `at` in the header's `char` array. */
  function Field(header: seq<byte>, at: int): int
    requires 0 <= at && at + 4 <= |header|
  {
    ToInt32(SignedChars(header[at..at + 4]))
  }

  /** The channel count: the low byte of the bits-per-pixel field, as a `char`, divided by 8. */
  function ChannelCount(bpp: byte): int {
    CDiv(SignedChar(bpp), 8)
  }

  /**
   * Only bits-per-pixel bytes 8..15 (one channel) and 24..31 (three channels)
   * are accepted, and reading the byte as an unsigned `char` would accept and
   * count exactly the same.
   */
  lemma ChannelCountAccepted(bpp: byte)
    ensures ChannelCount(bpp) == 1 <==> 8 <= bpp < 16
    ensures ChannelCount(bpp) == 3 <==> 24 <= bpp < 32
    ensures ChannelCount(bpp) == 1 || ChannelCount(bpp) == 3 ==> ChannelCount(bpp) == CDiv(UnsignedChar(bpp), 8)
  {
  }

  function LineBytes(h: Header): int {
    h.width * h.channels
  }

  /** The size of the decoded image buffer: `width * channels * height` bytes. */
  function ImageSize(h: Header): (n: int)
    requires WellFormed(h)
    ensures n >= 0
  {
    MulMonotone(LineBytes(h), 0, h.height);
    LineBytes(h) * h.height
  }

  /** The padding after each row: rows are padded to a multiple of four bytes. */
  function Padding(h: Header): (pad: int)
    requires WellFormed(h)
    ensures 0 <= pad <= 3
    ensures (LineBytes(h) + pad) % 4 == 0
  {
    var line := LineBytes(h);
    assert 8 * h.channels * h.width == 8 * line;
    4 * CDiv(8 * h.channels * h.width + 31, 32) - line
  }

  /** A three-channel row holds `3 * width` bytes. */
  lemma ThreeChannelRow(h: Header)
    requires h.channels == 3 && h.width >= 0
    ensures LineBytes(h) == 3 * h.width && LineBytes(h) % 3 == 0
  {
    var w := h.width;
    assert (3 * w) % 3 == 0;
  }

  /** A row holds whole pixels. */
  lemma WholePixels(h: Header)
    requires WellFormed(h)
    ensures h.channels == 1 || LineBytes(h) % 3 == 0
  {
    if h.channels == 3 {
      ThreeChannelRow(h);
    }
  }

  /** Where the first row starts: the offset field, unless it points into the headers. */
  function PixelStart(h: Header): int {
    if h.offset > HeaderSize then h.offset else HeaderSize
  }

  function Stride(h: Header): (n: int)
    requires WellFormed(h)
    ensures n >= LineBytes(h) >= 0
  {
    LineBytes(h) + Padding(h)
  }

  /** Where row `s` of the file (in storage order) starts. */
  function RowStart(h: Header, s: int): int
    requires WellFormed(h)
  {
    PixelStart(h) + s * Stride(h)
  }

  /**
   * The row of the file that holds output row `r`: the same row for a
   * top-down file, the mirrored row for a bottom-up one. The map is its own
   * inverse, so it also gives the output row of file row `r`.
   */
  function FileRow(h: Header, r: int): (s: int)
    requires 0 <= r < h.height
    ensures 0 <= s < h.height
    ensures (if h.topDown then s else h.height - 1 - s) == r
  {
    if h.topDown then r else h.height - 1 - r
  }

  /** Where byte `k` of an output row is stored in its file row. */
  function SwapIndex(channels: int, k: int): int {
    if channels == 3 then k + 2 - 2 * (k % 3) else k
  }

  /**
   * The swap stays inside a row of whole pixels, moves only the first and
   * third byte of a three-channel pixel, and undoes itself.
   */
  lemma SwapIndexInRow(channels: int, n: int, k: int)
    requires channels == 1 || (channels == 3 && n % 3 == 0)
    requires 0 <= k < n
    ensures 0 <= SwapIndex(channels, k) < n
    ensures SwapIndex(channels, SwapIndex(channels, k)) == k
    ensures channels == 3 ==> k / 3 == SwapIndex(channels, k) / 3
    ensures (channels == 1 || k % 3 == 1) <==> SwapIndex(channels, k) == k
  {
    if channels == 3 {
      var i, m := k / 3, k % 3;
      assert k == 3 * i + m;
      assert SwapIndex(channels, k) == 3 * i + 2 - m;
      assert SwapIndex(channels, SwapIndex(channels, k)) == 3 * i + m;
    }
  }

  /**
   * The channel-order correction: with three channels the first and third
   * byte of every pixel trade places; with one channel the row is unchanged.
   */
  function SwapChannels(channels: int, row: seq<byte>): (out: seq<byte>)
    requires channels == 1 || (channels == 3 && |row| % 3 == 0)
    ensures |out| == |row|
    ensures forall k :: 0 <= k < |row| ==> 0 <= SwapIndex(channels, k) < |row| && out[k] == row[SwapIndex(channels, k)]
  {
    SwapIndexBounds(channels, |row|);
    seq(|row|, k requires 0 <= k < |row| => row[SwapIndex(channels, k)])
  }

  /** A one-channel row is left as it is. */
  lemma SwapChannelsOne(row: seq<byte>)
    ensures SwapChannels(1, row) == row
  {
    assert forall k :: 0 <= k < |row| ==> SwapChannels(1, row)[k] == row[k];
  }

  /** Within pixel `j` of a three-channel row, the swap mirrors the three bytes. */
  lemma PixelSwap(j: int)
    ensures forall k :: 3 * j <= k < 3 * j + 3 ==> SwapIndex(3, k) == 6 * j + 2 - k
  {
    forall k | 3 * j <= k < 3 * j + 3
      ensures SwapIndex(3, k) == 6 * j + 2 - k
    {
      assert k % 3 == k - 3 * j;
    }
  }

  /** `SwapIndexInRow`'s bounds for every byte of a row. */
  lemma SwapIndexBounds(channels: int, n: int)
    requires channels == 1 || (channels == 3 && n % 3 == 0)
    ensures forall k :: 0 <= k < n ==> 0 <= SwapIndex(channels, k) < n
  {
    forall k | 0 <= k < n
      ensures 0 <= SwapIndex(channels, k) < n
    {
      SwapIndexInRow(channels, n, k);
    }
  }

  /** Swapping the channels of a row twice gives the row back. */
  lemma SwapChannelsTwice(channels: int, row: seq<byte>)
    requires channels == 1 || (channels == 3 && |row| % 3 == 0)
    ensures SwapChannels(channels, SwapChannels(channels, row)) == row
  {
    forall k | 0 <= k < |row|
      ensures SwapChannels(channels, SwapChannels(channels, row))[k] == row[k]
    {
      SwapIndexInRow(channels, |row|, k);
    }
  }

  /** `s` with the bytes from `at` on replaced by `row`. */
  function Splice(s: seq<byte>, at: int, row: seq<byte>): (r: seq<byte>)
    requires 0 <= at && at + |row| <= |s|
    ensures |r| == |s|
    ensures forall q :: 0 <= q < |s| ==> r[q] == if at <= q < at + |row| then row[q - at] else s[q]
  {
    s[..at] + row + s[at + |row|..]
  }

  /**
   * Checks the rows from `i` on in storage order, as the decoder reads them:
   * each row's bytes, then its padding. `None` when all of them are there.
   */
  function CheckRows(data: seq<byte>, h: Header, i: int): Option<DecodeError>
    requires WellFormed(h) && 0 <= i <= h.height
    decreases h.height - i
  {
    if i == h.height then None
    else if RowStart(h, i) + LineBytes(h) > |data| then Some(ShortRow(i))
    else if RowStart(h, i) + Stride(h) > |data| then Some(PaddingSeekFailed(i))
    else CheckRows(data, h, i + 1)
  }

  /** Rows that pass the check lie, with their padding, inside the file. */
  lemma {:induction false} RowsInside(data: seq<byte>, h: Header, i: int)
    requires WellFormed(h) && 0 <= i <= h.height
    requires CheckRows(data, h, i) == None
    ensures forall s :: i <= s < h.height ==> RowStart(h, s) + Stride(h) <= |data|
    decreases h.height - i
  {
    if i < h.height {
      RowsInside(data, h, i + 1);
    }
  }

  /** The header fields, with each rejection the decoder makes before reading pixels. */
  function ParseHeader(data: seq<byte>): (r: Result<Header, DecodeError>)
    ensures r.Success? ==> WellFormed(r.value) && PixelStart(r.value) <= |data|
  {
    if |data| < HeaderSize then Failure(ShortHeader)
    else ParseFields(data[..HeaderSize], |data|)
  }

  /** The checks on the header bytes of a file of `size` bytes. */
  function ParseFields(header: seq<byte>, size: int): (r: Result<Header, DecodeError>)
    requires |header| == HeaderSize <= size
    ensures r.Success? ==> WellFormed(r.value) && PixelStart(r.value) <= size
  {
    if SignedChar(header[0]) != 'B' as int || SignedChar(header[1]) != 'M' as int then Failure(BadMarker)
    else
      var channels := ChannelCount(header[FileHeaderSize + 14]);
      if channels != 1 && channels != 3 then Failure(UnsupportedChannels(channels))
      else if Field(header, FileHeaderSize + 16) != 0 then Failure(UnsupportedCompression)
      else
        var offset := AsUint32(Field(header, 10));
        if offset > HeaderSize && offset > size then Failure(OffsetSeekFailed)
        else
          var width := Field(header, FileHeaderSize + 4);
          if width < 0 then Failure(InvalidWidth(width))
          else
            var height := Field(header, FileHeaderSize + 8);
            Success(Header(channels, offset, width, if height < 0 then -height else height, height < 0))
  }

  /** `0 <= p < n * m` gives `n > 0` and `p / n < m`: the row of a byte in an image. */
  lemma RowOfIndex(p: int, n: int, m: int)
    requires 0 <= p < n * m && n >= 0
    ensures n > 0 && 0 <= p / n < m && 0 <= p % n < n && p == (p / n) * n + p % n
  {
    if n > 0 && p / n >= m {
      assert n * (p / n) >= n * m by {
        MulMonotone(n, m, p / n);
      }
    }
  }

  lemma MulMonotone(n: int, a: int, b: int)
    requires n >= 0 && a <= b
    ensures n * a <= n * b
  {
    assert n * b - n * a == n * (b - a);
  }

  /** Byte `k` of output row `r` sits at `r * n + k`, and at no other row's place. */
  lemma IndexOfRow(r: int, k: int, n: int)
    requires 0 <= k < n
    ensures (r * n + k) / n == r && (r * n + k) % n == k
  {
    var p := r * n + k;
    var q := p / n;
    assert p == q * n + p % n;
    if q < r {
      MulMonotone(n, q + 1, r);
    } else if q > r {
      MulMonotone(n, r + 1, q);
    }
  }

  /** Row `r` of an image of `m` rows of `n` bytes fits inside it. */
  lemma RowInside(r: int, n: int, m: int)
    requires 0 <= r < m && n >= 0
    ensures 0 <= r * n && r * n + n <= n * m
  {
    MulMonotone(n, 0, r);
    MulMonotone(n, r + 1, m);
  }

  /** Row `s` lies before row `t` when `s < t`. */
  lemma RowsInOrder(h: Header, s: int, t: int)
    requires WellFormed(h) && 0 <= s < t
    ensures RowStart(h, s) + Stride(h) <= RowStart(h, t)
  {
    MulMonotone(Stride(h), s + 1, t);
  }

  /** A byte whose row is not `r` lies before or after row `r`. */
  lemma OutsideRow(p: int, n: int, r: int)
    requires n > 0 && p >= 0 && p / n != r
    ensures p < r * n || p >= r * n + n
  {
    var q := p / n;
    assert p == q * n + p % n;
    if q < r {
      MulMonotone(n, q + 1, r);
    } else {
      MulMonotone(n, r + 1, q);
    }
  }

  /** Output row `r` as the decoder stores it, from its file row. */
  function ExpectedRow(data: seq<byte>, h: Header, r: int): (row: seq<byte>)
    requires WellFormed(h) && 0 <= r < h.height
    requires RowStart(h, FileRow(h, r)) + LineBytes(h) <= |data|
    ensures |row| == LineBytes(h)
  {
    var start := RowStart(h, FileRow(h, r));
    MulMonotone(Stride(h), 0, FileRow(h, r));
    WholePixels(h);
    SwapChannels(h.channels, data[start..start + LineBytes(h)])
  }

  /**
   * The image buffer after the first `i` file rows have been stored: the rows
   * they fill hold their decoded bytes, the others are still zero.
   */
  function Partial(data: seq<byte>, h: Header, i: int): (img: seq<byte>)
    requires WellFormed(h) && 0 <= i <= h.height
    requires forall s :: 0 <= s < i ==> RowStart(h, s) + Stride(h) <= |data|
    ensures |img| == LineBytes(h) * h.height
  {
    seq(LineBytes(h) * h.height, p requires 0 <= p < LineBytes(h) * h.height => PartialAt(data, h, i, p))
  }

  function PartialAt(data: seq<byte>, h: Header, i: int, p: int): byte
    requires WellFormed(h) && 0 <= i <= h.height
    requires forall s :: 0 <= s < i ==> RowStart(h, s) + Stride(h) <= |data|
    requires 0 <= p < LineBytes(h) * h.height
  {
    RowOfIndex(p, LineBytes(h), h.height);
    var r := p / LineBytes(h);
    if FileRow(h, r) < i then ExpectedRow(data, h, r)[p % LineBytes(h)] else 0
  }

  /** All output rows, top to bottom. */
  function Pixels(data: seq<byte>, h: Header): (img: seq<byte>)
    requires WellFormed(h)
    requires forall s :: 0 <= s < h.height ==> RowStart(h, s) + Stride(h) <= |data|
    ensures |img| == LineBytes(h) * h.height
  {
    seq(LineBytes(h) * h.height, p requires 0 <= p < LineBytes(h) * h.height => PixelAt(data, h, p))
  }

  function PixelAt(data: seq<byte>, h: Header, p: int): byte
    requires WellFormed(h)
    requires forall s :: 0 <= s < h.height ==> RowStart(h, s) + Stride(h) <= |data|
    requires 0 <= p < LineBytes(h) * h.height
  {
    RowOfIndex(p, LineBytes(h), h.height);
    ExpectedRow(data, h, p / LineBytes(h))[p % LineBytes(h)]
  }

  /**
   * What the decoder returns for the bytes of a file: the first failing check,
   * or the image with its width, height and channel count.
   */
  function Decode(data: seq<byte>): Result<Bitmap, DecodeError> {
    match ParseHeader(data)
    case Failure(e) => Failure(e)
    case Success(h) =>
      match CheckRows(data, h, 0)
      case Some(e) => Failure(e)
      case None =>
        RowsInside(data, h, 0);
        Success(Bitmap(h.width, h.height, h.channels, Pixels(data, h)))
  }

  /** One byte of `PartialStep`. */
  lemma PartialStepAt(data: seq<byte>, h: Header, i: int, p: int)
    requires WellFormed(h) && 0 <= i < h.height
    requires forall s :: 0 <= s <= i ==> RowStart(h, s) + Stride(h) <= |data|
    requires 0 <= p < LineBytes(h) * h.height
    ensures var n, r := LineBytes(h), FileRow(h, i);
      PartialAt(data, h, i + 1, p)
      == if r * n <= p < r * n + n then ExpectedRow(data, h, r)[p - r * n] else PartialAt(data, h, i, p)
  {
    var n, r := LineBytes(h), FileRow(h, i);
    RowOfIndex(p, n, h.height);
    if p / n == r {
      StepInRow(data, h, i, p);
    } else {
      OutsideRow(p, n, r);
      StepOutsideRow(data, h, i, p);
    }
  }

  lemma StepInRow(data: seq<byte>, h: Header, i: int, p: int)
    requires WellFormed(h) && 0 <= i < h.height
    requires forall s :: 0 <= s <= i ==> RowStart(h, s) + Stride(h) <= |data|
    requires 0 <= p < LineBytes(h) * h.height
    requires 0 <= p / LineBytes(h) == FileRow(h, i)
    ensures var n, r := LineBytes(h), FileRow(h, i);
      r * n <= p < r * n + n && PartialAt(data, h, i + 1, p) == ExpectedRow(data, h, r)[p - r * n]
  {
    var n, r := LineBytes(h), FileRow(h, i);
    RowOfIndex(p, n, h.height);
    var k := p % n;
    assert p == r * n + k by {
      assert p == (p / n) * n + p % n;
    }
    assert FileRow(h, r) == i;
    assert PartialAt(data, h, i + 1, p) == ExpectedRow(data, h, r)[k];
  }

  lemma StepOutsideRow(data: seq<byte>, h: Header, i: int, p: int)
    requires WellFormed(h) && 0 <= i < h.height
    requires forall s :: 0 <= s <= i ==> RowStart(h, s) + Stride(h) <= |data|
    requires 0 <= p < LineBytes(h) * h.height
    requires LineBytes(h) > 0 && p / LineBytes(h) != FileRow(h, i)
    ensures PartialAt(data, h, i + 1, p) == PartialAt(data, h, i, p)
  {
    RowOfIndex(p, LineBytes(h), h.height);
    assert FileRow(h, p / LineBytes(h)) != i;
  }

  /**
   * Storing file row `i` (after swapping its channels) at output row
   * `FileRow(h, i)` turns the buffer after `i` rows into the buffer after
   * `i + 1` rows.
   */
  lemma PartialStep(data: seq<byte>, h: Header, i: int)
    requires WellFormed(h) && 0 <= i < h.height
    requires forall s :: 0 <= s <= i ==> RowStart(h, s) + Stride(h) <= |data|
    ensures 0 <= FileRow(h, i) * LineBytes(h)
    ensures FileRow(h, i) * LineBytes(h) + LineBytes(h) <= LineBytes(h) * h.height
    ensures Partial(data, h, i + 1)
         == Splice(Partial(data, h, i), FileRow(h, i) * LineBytes(h), ExpectedRow(data, h, FileRow(h, i)))
  {
    var n, r := LineBytes(h), FileRow(h, i);
    RowInside(r, n, h.height);
    var a := Partial(data, h, i + 1);
    var b := Splice(Partial(data, h, i), r * n, ExpectedRow(data, h, r));
    forall p | 0 <= p < n * h.height
      ensures a[p] == b[p]
    {
      PartialStepAt(data, h, i, p);
    }
  }

  /** Storing every row one at a time ends with `Pixels`. */
  lemma PartialComplete(data: seq<byte>, h: Header)
    requires WellFormed(h)
    requires forall s :: 0 <= s < h.height ==> RowStart(h, s) + Stride(h) <= |data|
    ensures Partial(data, h, h.height) == Pixels(data, h)
  {
    forall p | 0 <= p < LineBytes(h) * h.height
      ensures Partial(data, h, h.height)[p] == Pixels(data, h)[p]
    {
      RowOfIndex(p, LineBytes(h), h.height);
    }
  }

  /** A second splice at the same place overwrites the first. */
  lemma SpliceTwice(s: seq<byte>, at: int, x: seq<byte>, y: seq<byte>)
    requires 0 <= at && at + |x| <= |s| && |y| == |x|
    ensures Splice(Splice(s, at, x), at, y) == Splice(s, at, y)
  {
  }

  /** Once the header is accepted, decoding succeeds exactly when every row is in the file. */
  lemma DecodeAfterHeader(data: seq<byte>, h: Header)
    requires ParseHeader(data) == Success(h)
    ensures Decode(data).Failure? <==> CheckRows(data, h, 0).Some?
    ensures CheckRows(data, h, 0).None? ==>
      && (forall s :: 0 <= s < h.height ==> RowStart(h, s) + Stride(h) <= |data|)
      && Decode(data) == Success(Bitmap(h.width, h.height, h.channels, Pixels(data, h)))
  {
    if CheckRows(data, h, 0).None? {
      RowsInside(data, h, 0);
    }
  }

  /** Row `i + 1` starts where row `i` and its padding end. */
  lemma NextRowStart(h: Header, i: int)
    requires WellFormed(h)
    ensures RowStart(h, i + 1) == RowStart(h, i) + Stride(h)
  {
    assert (i + 1) * Stride(h) == i * Stride(h) + Stride(h);
  }

  /**
   * One pass of the row loop, on the file's bytes: where the next row starts,
   * how the row check fares at row `i`, and the decoded bytes of the output
   * row that file row `i` fills.
   */
  lemma RowStep(data: seq<byte>, h: Header, i: int)
    requires WellFormed(h) && 0 <= i < h.height
    ensures RowStart(h, i + 1) == RowStart(h, i) + Stride(h)
    ensures RowStart(h, i) + Stride(h) > |data| ==> CheckRows(data, h, i).Some?
    ensures RowStart(h, i) + Stride(h) <= |data| ==> CheckRows(data, h, i) == CheckRows(data, h, i + 1)
    ensures RowStart(h, i) + LineBytes(h) <= |data| ==>
      var start := RowStart(h, i);
      0 <= start && ExpectedRow(data, h, FileRow(h, i)) == SwapChannels(h.channels, data[start..start + LineBytes(h)])
  {
    NextRowStart(h, i);
    MulMonotone(Stride(h), 0, i);
  }

  /**
   * From a row that starts inside the file, the row check passes exactly
   * when the file reaches the end of the last row's padding.
   */
  lemma {:induction false} CheckRowsEnd(data: seq<byte>, h: Header, i: int)
    requires WellFormed(h) && 0 <= i <= h.height && RowStart(h, i) <= |data|
    ensures CheckRows(data, h, i).None? <==> RowStart(h, h.height) <= |data|
    decreases h.height - i
  {
    if i < h.height {
      NextRowStart(h, i);
      if RowStart(h, i) + Stride(h) > |data| {
        MulMonotone(Stride(h), i + 1, h.height);
      } else {
        CheckRowsEnd(data, h, i + 1);
      }
    }
  }

  /**
   * The row check reports the first row whose bytes or padding run past the
   * end: a short row when its bytes do, a failed padding skip otherwise.
   */
  lemma {:induction false} FirstShortRow(data: seq<byte>, h: Header, i: int, j: int)
    requires WellFormed(h) && 0 <= i <= j < h.height
    requires forall s :: i <= s < j ==> RowStart(h, s) + Stride(h) <= |data|
    requires RowStart(h, j) + Stride(h) > |data|
    ensures CheckRows(data, h, i)
         == if RowStart(h, j) + LineBytes(h) > |data| then Some(ShortRow(j)) else Some(PaddingSeekFailed(j))
    decreases j - i
  {
    if i < j {
      FirstShortRow(data, h, i + 1, j);
    }
  }

  /**
   * Decoding succeeds exactly when the header is accepted and the file holds
   * all `height` rows with their padding after the pixel data start.
   */
  lemma DecodeSucceeds(data: seq<byte>)
    ensures Decode(data).Success?
        <==> && ParseHeader(data).Success?
             && var h := ParseHeader(data).value;
                PixelStart(h) + h.height * Stride(h) <= |data|
  {
    if ParseHeader(data).Success? {
      var h := ParseHeader(data).value;
      DecodeAfterHeader(data, h);
      CheckRowsEnd(data, h, 0);
    }
  }

  /**
   * A decoded image has the header's dimensions, `width * channels * height`
   * bytes, and byte `k` of output row `r` is the byte of file row
   * `FileRow(h, r)` at the channel-swapped place: rows are flipped for a
   * bottom-up file and copied for a top-down one.
   */
  lemma DecodedPixel(data: seq<byte>, h: Header, r: int, k: int)
    requires ParseHeader(data) == Success(h) && Decode(data).Success?
    requires 0 <= r < h.height && 0 <= k < LineBytes(h)
    ensures var b := Decode(data).value;
      && b.width == h.width && b.height == h.height && b.channels == h.channels
      && |b.pixels| == h.width * h.channels * h.height
      && 0 <= r * LineBytes(h) + k < |b.pixels|
      && 0 <= RowStart(h, FileRow(h, r)) + SwapIndex(h.channels, k) < |data|
      && b.pixels[r * LineBytes(h) + k] == data[RowStart(h, FileRow(h, r)) + SwapIndex(h.channels, k)]
  {
    DecodeAfterHeader(data, h);
    PixelsAt(data, h, r, k);
  }

  /** `DecodedPixel` for the pixels of rows that are all inside the file. */
  lemma PixelsAt(data: seq<byte>, h: Header, r: int, k: int)
    requires WellFormed(h)
    requires forall s :: 0 <= s < h.height ==> RowStart(h, s) + Stride(h) <= |data|
    requires 0 <= r < h.height && 0 <= k < LineBytes(h)
    ensures 0 <= r * LineBytes(h) + k < LineBytes(h) * h.height
    ensures 0 <= RowStart(h, FileRow(h, r)) + SwapIndex(h.channels, k) < |data|
    ensures Pixels(data, h)[r * LineBytes(h) + k] == data[RowStart(h, FileRow(h, r)) + SwapIndex(h.channels, k)]
  {
    var n := LineBytes(h);
    var p := r * n + k;
    RowInside(r, n, h.height);
    IndexOfRow(r, k, n);
    WholePixels(h);
    SwapIndexInRow(h.channels, n, k);
    var s := FileRow(h, r);
    var start := RowStart(h, s);
    MulMonotone(Stride(h), 0, s);
    assert 0 <= start && start + Stride(h) <= |data|;
    assert Pixels(data, h)[p] == PixelAt(data, h, p) == ExpectedRow(data, h, r)[k];
    assert ExpectedRow(data, h, r)[k] == data[start..start + n][SwapIndex(h.channels, k)];
  }

  /** A row of three three-channel pixels is nine bytes, padded by three to twelve. */
  lemma PaddingExample()
    ensures var h := Header(3, HeaderSize, 3, 1, false); LineBytes(h) == 9 && Padding(h) == 3 && Stride(h) == 12
  {
  }

  /** The unsigned little-endian value of the four bytes of `data` from `at`. */
  function StoredWord(data: seq<byte>, at: int): (u: int)
    requires 0 <= at && at + 4 <= |data|
    ensures 0 <= u < Two32
  {
    LittleEndianValue(data[at], data[at + 1], data[at + 2], data[at + 3])
  }

  /**
   * The header checks written directly on the file's bytes: at least 54
   * bytes, the marker "BM", a bits-per-pixel byte of 8..15 or 24..31, four
   * zero compression bytes, a pixel data offset that is either inside the
   * headers or at most the file's length, and a width without its sign bit.
   */
  predicate HeaderAccepted(data: seq<byte>) {
    && |data| >= HeaderSize
    && data[0] == 'B' as int && data[1] == 'M' as int
    && (8 <= data[28] < 16 || 24 <= data[28] < 32)
    && data[30..34] == [0, 0, 0, 0]
    && (StoredWord(data, 10) <= HeaderSize || StoredWord(data, 10) <= |data|)
    && data[21] < 128
  }

  /**
   * `ParseHeader` accepts exactly the files `HeaderAccepted` describes,
   * rejects the others with the error of the first check they fail, and
   * reads each field as the stored little-endian word: the height's sign
   * bit selects top-down storage and is dropped from the height.
   */
  lemma HeaderChecks(data: seq<byte>)
    ensures ParseHeader(data).Success? <==> HeaderAccepted(data)
    ensures |data| < HeaderSize ==> ParseHeader(data) == Failure(ShortHeader)
    ensures |data| >= HeaderSize && (data[0] != 'B' as int || data[1] != 'M' as int)
            ==> ParseHeader(data) == Failure(BadMarker)
    ensures && |data| >= HeaderSize && data[0] == 'B' as int && data[1] == 'M' as int
            && !(8 <= data[28] < 16 || 24 <= data[28] < 32)
            ==> ParseHeader(data).Failure? && ParseHeader(data).error.UnsupportedChannels?
    ensures && |data| >= HeaderSize && data[0] == 'B' as int && data[1] == 'M' as int
            && (8 <= data[28] < 16 || 24 <= data[28] < 32) && data[30..34] != [0, 0, 0, 0]
            ==> ParseHeader(data) == Failure(UnsupportedCompression)
    ensures ParseHeader(data).Success? ==>
      var h := ParseHeader(data).value;
      && h.channels == (if data[28] < 16 then 1 else 3)
      && h.offset == StoredWord(data, 10)
      && h.width == StoredWord(data, 18)
      && h.topDown == (data[25] >= 128)
      && h.height == (if data[25] >= 128 then Two32 - StoredWord(data, 22) else StoredWord(data, 22))
  {
    if |data| >= HeaderSize {
      var header := data[..HeaderSize];
      assert header[30..34] == data[30..34];
      FieldZero(header[30..34]);
      FieldBits(header[10..14]);
      assert header[10..14] == data[10..14];
      FieldNegative(header[18..22]);
      FieldBits(header[18..22]);
      assert header[18..22] == data[18..22];
      FieldNegative(header[22..26]);
      FieldBits(header[22..26]);
      assert header[22..26] == data[22..26];
      ChannelCountAccepted(data[28]);
    }
  }
}
