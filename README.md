# Coral image classification example: bitmap decoding, labels and ranking

This project models the data-handling core of the Coral Edge TPU image
classification example (`classify.cc`). It covers four parts. The
little-endian field reader `ToInt32` reads 32-bit header fields. The bitmap
decoder `ReadBmpImage` turns an uncompressed 8-bit or 24-bit Windows bitmap
into a top-to-bottom, red-green-blue pixel buffer. `GetLabel` maps a class
index to its label text. `Sort` turns a score vector into the classes at or
above a threshold, ordered by descending score.

The modules:

- `LittleEndian` (`little_endian.dfy`): the header's `char` values, signed
  or unsigned; `ToInt32` with its masks; the `int32_t`/`uint32_t`
  conversions; a byte writer `FromInt32`; and the round trips between them.
- `BmpLayout` (`bmp_layout.dfy`): the functional specification of the
  decoder. `ParseHeader` makes the header checks in the decoder's order.
  `CheckRows` checks the rows. `Decode` gives the result for a file's bytes:
  the first error, or the image. The module also has the row and padding
  arithmetic and the lemmas that characterise `Decode`.
- `BmpReader` (`bmp_reader.dfy`): the imperative decoder. An input stream
  class has a read cursor and a good/fail state. The pixel buffer is an
  array filled row by row, with an in-place channel-swap loop. Width, height
  and channels are written to optional out-cells. Each method is proved
  against `BmpLayout`.
- `BmpEncoding` (`bmp_encoding.dfy`): a reference writer for the same
  layout. It is not part of the example. It exists so that the round trip
  `Decode(Encode(b, topDown, gap)) == Success(b)` can pin down what the
  decoder computes, for both storage orders and any gap before the pixel
  data.
- `Labels` (`labels.dfy`): `GetLabel` and a decimal rendering of integers
  that reads back to the integer (`std::to_string`).
- `Ranking` (`ranking.dfy`): `Sort` on an array of indices. The array is
  filled with `0..n-1`. A two-ended partition then moves the passing indices
  to the front, and a selection sort orders that front by descending score.
  The result is specified by `IsRanking`, up to the order of equal scores.
- `Wrappers` (`wrappers.dfy`): `Option` and `Result`.

The decoder's I/O is modelled as follows. The file is the sequence of its
bytes. `read` copies bytes at the cursor and fails when fewer remain; it
then leaves the stream failed. `seekg` forward fails when it would pass the
end of the file. Every early `return {}` is a `Failure` with its own
`DecodeError`. `ReadBmpImage` returns an empty image and writes no
out-parameter in those cases.

## Model

| member | source | states |
|---|---|---|
| LittleEndian.ToInt32Value | coral/tflite/cpp/examples/classification/classify.cc:87-93 | the masked shifts keep each `char`'s low eight bits only, so the result is the little-endian value of the four bytes read as a two's-complement `int32_t`; a negative `char` does not spread its sign bits |
| LittleEndian.SignednessIrrelevant | coral/tflite/cpp/examples/classification/classify.cc:87-93 | a stored field reads the same whether `char` is signed or unsigned |
| LittleEndian.FromInt32RoundTrip | coral/tflite/cpp/examples/classification/classify.cc:87-93 | every `int32_t` stored as four little-endian bytes reads back as itself, under either signedness of `char` |
| LittleEndian.ToInt32RoundTrip | coral/tflite/cpp/examples/classification/classify.cc:87-93 | storing the value read from any four bytes gives those bytes back, so `ToInt32` is a bijection from four bytes onto `int32_t` |
| LittleEndian.FieldZero | coral/tflite/cpp/examples/classification/classify.cc:133 | a field reads as zero exactly when its four bytes are zero |
| LittleEndian.FieldNegative | coral/tflite/cpp/examples/classification/classify.cc:148-157 | a field reads as negative exactly when the top bit of its last byte is set |
| LittleEndian.FieldBits | coral/tflite/cpp/examples/classification/classify.cc:139 | converting the field to `uint32_t` gives the plain unsigned little-endian value of its bytes |
| BmpLayout.ChannelCountAccepted | coral/tflite/cpp/examples/classification/classify.cc:126-131 | the channel count is 1 exactly for a bits-per-pixel byte of 8..15 and 3 exactly for 24..31, and an unsigned `char` would give the same accepted counts |
| BmpLayout.Padding | coral/tflite/cpp/examples/classification/classify.cc:159-165 | the row padding lies in 0..3 and pads `width * channels` up to a multiple of four |
| BmpLayout.PaddingExample | coral/tflite/cpp/examples/classification/classify.cc:159-165 | three three-channel pixels give a 9-byte row padded by 3 to a 12-byte stride |
| BmpLayout.ImageSize | coral/tflite/cpp/examples/classification/classify.cc:167 | the buffer size `width * channels * height` is non-negative for an accepted header |
| BmpLayout.FileRow | coral/tflite/cpp/examples/classification/classify.cc:171 | file row `i` lands at output row `i` when top-down and at `height - 1 - i` when bottom-up; the map is a bijection on `0..height-1` and is its own inverse |
| BmpLayout.SwapIndexInRow | coral/tflite/cpp/examples/classification/classify.cc:183-187 | the swap stays within its pixel and row, is its own inverse, and moves exactly the first and third byte of each three-channel pixel |
| BmpLayout.SwapChannelsTwice | coral/tflite/cpp/examples/classification/classify.cc:183-187 | swapping a row's channels twice gives the row back |
| BmpLayout.SwapChannelsOne | coral/tflite/cpp/examples/classification/classify.cc:183-187 | a one-channel row is left as it is: the swap runs only for three channels |
| BmpLayout.PixelSwap | coral/tflite/cpp/examples/classification/classify.cc:185-186 | within pixel `j` of a three-channel row the swap mirrors the three bytes: byte `3j` and byte `3j + 2` trade places and the middle byte stays |
| BmpLayout.ParseHeader | coral/tflite/cpp/examples/classification/classify.cc:109-157 | an accepted header has 1 or 3 channels, a non-negative width and height, and a pixel data start inside the file |
| BmpLayout.ParseFields | coral/tflite/cpp/examples/classification/classify.cc:117-157 | the checks on the 54 header bytes accept only 1 or 3 channels, a non-negative width and height, and a pixel data start inside the file |
| BmpLayout.HeaderChecks | coral/tflite/cpp/examples/classification/classify.cc:109-157 | the header is accepted exactly when the byte-level `HeaderAccepted` holds; a short file, a bad marker, a bad channel count and a non-zero compression field each give their own error, in the decoder's order; the fields read as their little-endian words, and the height's sign bit selects top-down storage |
| BmpLayout.RowsInside | coral/tflite/cpp/examples/classification/classify.cc:168-182 | when the row check passes, every row and its padding lie inside the file |
| BmpLayout.CheckRowsEnd | coral/tflite/cpp/examples/classification/classify.cc:168-182 | the row check passes exactly when the file reaches the end of the last row's padding |
| BmpLayout.FirstShortRow | coral/tflite/cpp/examples/classification/classify.cc:173-182 | the row check reports the first row that runs past the end: a short row when its bytes do, a failed padding skip when only its padding does |
| BmpLayout.RowStep | coral/tflite/cpp/examples/classification/classify.cc:168-187 | row `i + 1` starts one stride after row `i`; the row check fails at row `i` when the row and its padding pass the end of the file and otherwise goes on to row `i + 1`; output row `FileRow(i)` decodes to file row `i`'s bytes, channel-swapped |
| BmpLayout.DecodeAfterHeader | coral/tflite/cpp/examples/classification/classify.cc:167-196 | once the header is accepted, decoding fails exactly when the row check fails, and otherwise returns the header's dimensions with `Pixels` |
| BmpLayout.DecodeSucceeds | coral/tflite/cpp/examples/classification/classify.cc:109-188 | decoding succeeds exactly when the header is accepted and `pixel start + height * stride` is at most the file's length |
| BmpLayout.DecodedPixel | coral/tflite/cpp/examples/classification/classify.cc:167-196 | a decoded image has the header's width, height and channels and `width * channels * height` bytes; byte `k` of output row `r` is byte `SwapIndex(k)` of file row `FileRow(r)` |
| BmpLayout.PartialStep | coral/tflite/cpp/examples/classification/classify.cc:168-188 | storing file row `i`, channel-swapped, at output row `FileRow(i)` turns the buffer after `i` rows into the buffer after `i + 1` rows |
| BmpLayout.PartialComplete | coral/tflite/cpp/examples/classification/classify.cc:168-188 | after all rows the buffer is the decoded image |
| BmpEncoding.EncodedHeaderParses | coral/tflite/cpp/examples/classification/classify.cc:109-157 | a written header is accepted and reads back the written channels, offset, width, height and storage order |
| BmpEncoding.DecodeStored | coral/tflite/cpp/examples/classification/classify.cc:167-196 | a file whose header parses and whose pixel data holds an image's rows, in the storage order and with the padding the header gives, decodes to that image |
| BmpEncoding.EncodeRoundTrip | coral/tflite/cpp/examples/classification/classify.cc:95-197 | decoding a written bitmap gives the image back, for top-down and bottom-up storage and any gap before the pixel data |
| BmpReader.InputStream.ReadInto | coral/tflite/cpp/examples/classification/classify.cc:111 | `read` succeeds exactly when the stream is good and enough bytes remain; it then copies them into the buffer at the given place and advances the cursor; otherwise the stream is left failed |
| BmpReader.InputStream.Skip | coral/tflite/cpp/examples/classification/classify.cc:141-142 | `seekg` forward succeeds exactly when the stream is good and the target is inside the file; otherwise the stream is left failed |
| BmpReader.SwapRedBlue | coral/tflite/cpp/examples/classification/classify.cc:183-187 | the in-place loop leaves the row channel-swapped (`SwapChannels`) and the rest of the buffer unchanged |
| BmpReader.ReadRow | coral/tflite/cpp/examples/classification/classify.cc:171-187 | one loop pass fails exactly when the row check fails at that row; on success it advances the cursor to the next row and splices that row's `ExpectedRow` into the buffer at its output row |
| BmpReader.ReadRows | coral/tflite/cpp/examples/classification/classify.cc:167-188 | the row loop succeeds exactly when `CheckRows` passes, and then the buffer is `Pixels` |
| BmpReader.ReadHeader | coral/tflite/cpp/examples/classification/classify.cc:109-157 | the header part fails exactly when `ParseHeader` does; on success it returns `ParseHeader`'s header with the cursor at the pixel data start |
| BmpReader.CheckHeader | coral/tflite/cpp/examples/classification/classify.cc:117-157 | the checks on the header bytes fail exactly when `ParseFields` does; on success they return its header with the cursor at the pixel data start |
| BmpReader.ReadBmpImage | coral/tflite/cpp/examples/classification/classify.cc:95-197 | on any decoding failure it returns an empty image and writes no out-parameter; on success it returns `Decode`'s pixels and writes width, height and channels to each out-parameter that is given |
| Labels.DecimalRoundTrip | coral/tflite/cpp/examples/classification/classify.cc:215 | the decimal rendering of every integer, negative ones included, reads back as that integer |
| Labels.GetLabel | coral/tflite/cpp/examples/classification/classify.cc:211-216 | an index inside the table gives its entry; any other index, negative or too large, gives its decimal rendering, which reads back as the index |
| Ranking.Partition | coral/tflite/cpp/examples/classification/classify.cc:232-234 | the indices whose score is at least the threshold end up before `end` and the others after it; the array is a permutation of its old contents |
| Ranking.PartitionStep | coral/tflite/cpp/examples/classification/classify.cc:232-234 | one step of the partition keeps the passing indices before `i` and the failing ones from `j` on, narrows the unexamined range, and permutes the array |
| Ranking.MaxScoreIndex | coral/tflite/cpp/examples/classification/classify.cc:235-237 | the returned position holds a highest score of the range |
| Ranking.SortDescending | coral/tflite/cpp/examples/classification/classify.cc:235-237 | the front is ordered by non-increasing score and is a permutation of its old contents; the rest of the array is unchanged |
| Ranking.Sort | coral/tflite/cpp/examples/classification/classify.cc:227-244 | the result is a ranking: index and score pairs whose indices are a permutation of the passing indices, with non-increasing scores |
| Ranking.RankingIndices | coral/tflite/cpp/examples/classification/classify.cc:227-244 | a ranking contains an index exactly when its score is at or above the threshold, with no index twice, so its length is the number of passing scores |
| Ranking.RankingEmpty | coral/tflite/cpp/examples/classification/classify.cc:227-244 | a ranking is empty exactly when no score reaches the threshold |
| Ranking.RankingExample | coral/tflite/cpp/examples/classification/classify.cc:227-244 | scores 0.9, 0.2, 0.95, 0.5 with threshold 0.5 rank as (2, 0.95), (0, 0.9), (3, 0.5); a score equal to the threshold is kept |

## Left out

- `main`, `Dequantize` and `ReadLabels` are not part of this model. They cover argument handling, the interpreter and the Edge TPU, timing, printing and line-by-line file reading.
- Opening the image file (lines 102-107) is not modelled: the decoder is given the file's bytes. Logging (`prt_err`, `prt_info`, `string_format`) is not modelled either.
- BmpReader.InputStream.Skip: fails a forward seek past the end of the file. A real `std::filebuf` may accept such a seek, so a file whose last row lacks its padding bytes, or whose pixel offset lies past the end with no rows to read, is rejected here but may be accepted by the program.
- BmpReader.ReadBmpImage: requires the out-parameters, when given, to be distinct cells. Aliased out-pointers (the same `int` for width and height, say) are not modelled.
- BmpReader.ReadBmpImage: the header read, the header checks, the row loop and one pass of the row loop are separate methods (`ReadHeader`, `CheckHeader`, `ReadRows`, `ReadRow`). They run the same steps in the same order on the same stream and buffer.
- Integer widths in the decoder: `width * channels`, `8 * channels * width + 31`, `line_bytes * height` and the negation of the height are computed on unbounded integers. The source's `int` overflow for extreme widths and heights, and `-INT_MIN`, are undefined behaviour and are not modelled. The 32-bit header fields themselves are modelled exactly, as are the `int32_t`/`uint32_t` conversions of the offset.
- Header `char` values are taken as signed, as on x86. `SignednessIrrelevant` and `ChannelCountAccepted` show that an unsigned `char` gives the same fields and the same accepted channel counts.
- Ranking.Sort: scores are mathematical reals, so floating-point rounding, negative zero and NaN are not modelled. The source fixes no order among equal scores (`std::partition` and `std::sort` are not stable). The model uses a two-ended partition and a selection sort, and `IsRanking` leaves that order open.
- `BmpEncoding` is not part of the program. It is a reference writer that serves as the decoder's inverse in `EncodeRoundTrip`.
