/**
 * The bitmap decoder itself: a byte stream read through a cursor, the image
 * buffer filled row by row, and the width, height and channel count written
 * through optional out-parameters only when decoding succeeds.
 */
module BmpReader {
  import opened Wrappers
  import opened LittleEndian
  import opened BmpLayout

  /**
   * An opened binary input file: its bytes, the read position, and whether
   * the stream is still good. A read or a forward seek that would pass the
   * end fails and leaves the stream failed.
   */
  class InputStream {
    const data: seq<byte>
    var pos: nat
    var good: bool

    ghost predicate Valid()
      reads this
    {
      pos <= |data|
    }

    constructor (contents: seq<byte>)
      ensures Valid() && data == contents && pos == 0 && good
    {
      data := contents;
      pos := 0;
      good := true;
    }

    /**
     * `read(buf + at, n)`: copies the next `n` bytes into `buf` at `at`. When
     * fewer remain, copies what there is and fails.
     */
    method ReadInto(buf: array<byte>, at: int, n: int) returns (ok: bool)
      requires Valid() && 0 <= at && 0 <= n && at + n <= buf.Length
      modifies this, buf
      ensures Valid()
      ensures ok == (old(good) && old(pos) + n <= |data|)
      ensures ok ==> good && pos == old(pos) + n
      ensures ok ==> buf[..] == Splice(old(buf[..]), at, data[old(pos)..old(pos) + n])
      ensures !ok ==> !good
    {
      if !good {
        return false;
      }
      var avail := if pos + n <= |data| then n else |data| - pos;
      forall k | 0 <= k < avail {
        buf[at + k] := data[pos + k];
      }
      ok := avail == n;
      pos := pos + avail;
      good := ok;
    }

    /** `seekg(off, std::ios::cur)` for a non-negative `off`. */
    method Skip(off: int) returns (ok: bool)
      requires Valid() && off >= 0
      modifies this
      ensures Valid()
      ensures ok == (old(good) && old(pos) + off <= |data|)
      ensures ok ==> good && pos == old(pos) + off
      ensures !ok ==> !good
    {
      ok := good && pos + off <= |data|;
      if ok {
        pos := pos + off;
      } else {
        good := false;
      }
    }
  }

  /** The target of an `int*` out-parameter. */
  class IntCell {
    var value: int

    constructor (v: int)
      ensures value == v
    {
      value := v;
    }
  }

  /**
   * The in-place channel swap of one stored row: for each of the `width`
   * pixels starting at `at`, its first and third byte trade places.
   */
  method SwapRedBlue(buf: array<byte>, at: int, width: int)
    requires 0 <= at && 0 <= width && at + 3 * width <= buf.Length
    modifies buf
    ensures buf[..] == Splice(old(buf[..]), at, SwapChannels(3, old(buf[at..at + 3 * width])))
  {
    for j := 0 to width
      invariant forall q :: 0 <= q < buf.Length ==>
        buf[q] == if at <= q < at + 3 * j then old(buf[at + SwapIndex(3, q - at)]) else old(buf[q])
    {
      PixelSwap(j);
      buf[at + 3 * j], buf[at + 3 * j + 2] := buf[at + 3 * j + 2], buf[at + 3 * j];
    }
  }

  /**
   * One pass of the row loop: reads stored row `i` into the buffer at output
   * row `row`, skips its padding, then swaps its channels when there are
   * three. Fails exactly when the row check fails there.
   */
  method ReadRow(file: InputStream, buf: array<byte>, h: Header, i: int, row: int, lineBytes: int, padding: int)
    returns (ok: bool)
    requires WellFormed(h) && 0 <= i < h.height && row == FileRow(h, i)
    requires lineBytes == LineBytes(h) && padding == Padding(h)
    requires buf.Length == lineBytes * h.height
    requires file.Valid() && file.good && file.pos == RowStart(h, i)
    modifies file, buf
    ensures file.Valid()
    ensures ok == (RowStart(h, i) + Stride(h) <= |file.data|)
    ensures !ok ==> CheckRows(file.data, h, i).Some?
    ensures ok ==> CheckRows(file.data, h, i) == CheckRows(file.data, h, i + 1)
    ensures ok ==> file.good && file.pos == RowStart(h, i + 1)
    ensures ok ==> 0 <= row * lineBytes && row * lineBytes + lineBytes <= buf.Length
    ensures ok ==> buf[..] == Splice(old(buf[..]), row * lineBytes,
                                     ExpectedRow(file.data, h, row))
  {
    RowInside(row, lineBytes, h.height);
    RowStep(file.data, h, i);
    var at := row * lineBytes;
    ghost var start := file.pos;
    ok := file.ReadInto(buf, at, lineBytes);
    if !ok {
      return;  // failed to read a row
    }
    ghost var raw := file.data[start..start + lineBytes];
    ghost var read := buf[..];
    ok := file.Skip(padding);
    if !ok {
      return;  // can't seek over the padding
    }
    assert FileRow(h, row) == i;
    WholePixels(h);
    assert ExpectedRow(file.data, h, row) == SwapChannels(h.channels, raw);
    if h.channels == 3 {
      ThreeChannelRow(h);
      assert buf[at..at + 3 * h.width] == raw;
      SwapRedBlue(buf, at, h.width);
      assert buf[..] == Splice(read, at, SwapChannels(3, raw));
      SpliceTwice(old(buf[..]), at, raw, SwapChannels(3, raw));
    } else {
      SwapChannelsOne(raw);
    }
  }

  /**
   * The row loop: reads the `height` stored rows in order into the image
   * buffer, bottom-up files mirrored into top-to-bottom order. Succeeds
   * exactly when every row and its padding are in the file, and then the
   * buffer holds the decoded pixels.
   */
  method ReadRows(file: InputStream, buf: array<byte>, h: Header, lineBytes: int, padding: int)
    returns (ok: bool)
    requires WellFormed(h) && lineBytes == LineBytes(h) && padding == Padding(h)
    requires buf.Length == lineBytes * h.height && forall q :: 0 <= q < buf.Length ==> buf[q] == 0
    requires file.Valid() && file.good && file.pos == PixelStart(h)
    modifies file, buf
    ensures ok == CheckRows(file.data, h, 0).None?
    ensures ok ==> forall s :: 0 <= s < h.height ==> RowStart(h, s) + Stride(h) <= |file.data|
    ensures ok ==> buf[..] == Pixels(file.data, h)
  {
    ghost var contents := file.data;
    assert buf[..] == Partial(contents, h, 0);
    var i := 0;
    while i < h.height
      invariant 0 <= i <= h.height
      invariant file.Valid() && file.data == contents && file.good && file.pos == RowStart(h, i)
      invariant buf.Length == lineBytes * h.height
      invariant forall s :: 0 <= s < i ==> RowStart(h, s) + Stride(h) <= |contents|
      invariant CheckRows(contents, h, 0) == CheckRows(contents, h, i)
      invariant buf[..] == Partial(contents, h, i)
    {
      var row := if h.topDown then i else h.height - 1 - i;
      ok := ReadRow(file, buf, h, i, row, lineBytes, padding);
      if !ok {
        return;
      }
      PartialStep(contents, h, i);
      i := i + 1;
    }
    PartialComplete(contents, h);
    ok := true;
  }

  /**
   * The header part of `ReadBmpImage`: reads the 54 header bytes, then checks
   * them with `CheckHeader`. Fails exactly where `ParseHeader` does, and then
   * leaves the stream at the first row.
   */
  method ReadHeader(file: InputStream) returns (result: Option<Header>)
    requires file.Valid() && file.good && file.pos == 0
    modifies file
    ensures file.Valid()
    ensures result.None? ==> ParseHeader(file.data).Failure?
    ensures result.Some? ==> ParseHeader(file.data) == Success(result.value)
    ensures result.Some? ==> file.good && file.pos == PixelStart(result.value)
  {
    var header := new byte[HeaderSize](_ => 0);
    var ok := file.ReadInto(header, 0, HeaderSize);
    if !ok {
      return None;  // invalid header size
    }
    var bytes := header[..];
    assert bytes == file.data[..HeaderSize];
    result := CheckHeader(file, bytes);
  }

  /**
   * The checks on the header bytes just read: the marker, the channel count
   * and the compression field, then the seek to the pixel data, the width and
   * the height made non-negative. Fails exactly where `ParseFields` does.
   */
  method CheckHeader(file: InputStream, bytes: seq<byte>) returns (result: Option<Header>)
    requires file.Valid() && file.good && file.pos == HeaderSize && |bytes| == HeaderSize
    modifies file
    ensures file.Valid()
    ensures result.None? ==> ParseFields(bytes, |file.data|).Failure?
    ensures result.Some? ==> ParseFields(bytes, |file.data|) == Success(result.value)
    ensures result.Some? ==> file.good && file.pos == PixelStart(result.value)
  {
    if SignedChar(bytes[0]) != 'B' as int || SignedChar(bytes[1]) != 'M' as int {
      return None;  // failed to check bitmap marker
    }
    var channels := ChannelCount(bytes[FileHeaderSize + 14]);
    if channels != 1 && channels != 3 {
      return None;  // no support channel count
    }
    if Field(bytes, FileHeaderSize + 16) != 0 {
      return None;  // unsupported compression
    }
    var offset := AsUint32(Field(bytes, 10));
    if offset > HeaderSize {
      var ok := file.Skip(offset - HeaderSize);
      if !ok {
        return None;  // can't seek to the pixel data
      }
    }
    var width := Field(bytes, FileHeaderSize + 4);
    if width < 0 {
      return None;  // invalid width
    }
    var height := Field(bytes, FileHeaderSize + 8);
    var topDown := height < 0;
    if topDown {
      height := -height;
    }
    result := Some(Header(channels, offset, width, height, topDown));
  }

  /**
   * `ReadBmpImage`: decodes the bytes of a bitmap file. On any failure it
   * returns an empty image and writes none of the out-parameters; on success
   * it returns the decoded rows top to bottom with channels in red-green-blue
   * order, and writes the width, height and channel count to the
   * out-parameters that are given.
   */
  method ReadBmpImage(contents: seq<byte>, outWidth: IntCell?, outHeight: IntCell?, outChannels: IntCell?)
    returns (image: seq<byte>)
    requires outWidth != null && outHeight != null ==> outWidth != outHeight
    requires outWidth != null && outChannels != null ==> outWidth != outChannels
    requires outHeight != null && outChannels != null ==> outHeight != outChannels
    modifies outWidth, outHeight, outChannels
    ensures Decode(contents).Failure? ==>
      && image == []
      && (outWidth != null ==> outWidth.value == old(outWidth.value))
      && (outHeight != null ==> outHeight.value == old(outHeight.value))
      && (outChannels != null ==> outChannels.value == old(outChannels.value))
    ensures Decode(contents).Success? ==>
      && image == Decode(contents).value.pixels
      && (outWidth != null ==> outWidth.value == Decode(contents).value.width)
      && (outHeight != null ==> outHeight.value == Decode(contents).value.height)
      && (outChannels != null ==> outChannels.value == Decode(contents).value.channels)
  {
    var file := new InputStream(contents);
    var header := ReadHeader(file);
    if header.None? {
      return [];
    }
    var h := header.value;
    var width, height, channels := h.width, h.height, h.channels;
    assert file.data == contents;

    var lineBytes := LineBytes(h);
    var padding := Padding(h);
    var buf := new byte[ImageSize(h)](_ => 0);
    var ok := ReadRows(file, buf, h, lineBytes, padding);
    DecodeAfterHeader(contents, h);
    if !ok {
      return [];
    }

    if outWidth != null {
      outWidth.value := width;
    }
    if outHeight != null {
      outHeight.value := height;
    }
    if outChannels != null {
      outChannels.value := channels;
    }
    image := buf[..];
    assert image == Pixels(contents, h);
    assert Decode(contents).value == Bitmap(width, height, channels, image);
  }
}
