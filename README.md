# Capture decoder core, in Dafny

This project models the decoding core of a command-line tool that reads binary files
made of length-framed blocks. Each block holds typed, compressed JSON responses, and
each response holds:

- a type string;
- a compression tag, "lz4" or "zstd";
- a compressed JSON body, which may carry a millisecond timestamp under `data.ts`.

Three pieces of the tool are modelled:

- **`Response(byte[] file, int startIndex, int length)`** (module `Responses`) walks
  a cursor over the file:
  - the type string after its length byte;
  - one skipped byte;
  - the tag after its length byte;
  - then the ZSTD branch (a first attempt 2 bytes after the tag, a retry 3 bytes
    after it) or the LZ4 branch (the 0x59 sentinel for stored bodies, otherwise two
    little-endian `int` lengths and the block decoder);
  - then `TryGetDateTime`.

  The constructor is the method `NewResponse`, proved equal to the function
  `ResponseAt`. Every exception it can throw is a `ResponseError`: an index outside
  the array, an invalid range, an unknown tag, a second `ZstdException`, malformed
  JSON, a negative buffer size or one beyond the largest array, an LZ4 source count outside the body, a timestamp
  that does not convert or does not fit a `DateTime`. The foreign libraries (ZstdNet,
  the K4os LZ4 codec, `Encoding.Default` with `JObject.Parse`, `JToken.Value<long>`)
  are the fields of a `Codecs` value passed in.
- **`Block(int length, RawBlock raw)`** (module `Blocks`): a block's length and its
  responses, converted in order; the first conversion that throws ends the block.
- **The frame loop of `Parser.Parse`** (module `Parsing`): from offset 0, build a
  block at the cursor and step over its length plus 2, while the cursor is inside
  the file. `Frames` is the loop's result as a function, and `IsFraming` describes
  it independently. The class `Parser` holds `_blocks` as the field `blocks`. Its
  method `Parse` runs the loop with its invariants and assigns the field once, after
  the loop.

`Bytes` holds the .NET arithmetic the decoder relies on:

- `int` wrap-around for `startIndex + length`;
- the `(char)b` conversion;
- the `b3 << 24 | b2 << 16 | b1 << 8 | b0` reading, with its encoder and both round
  trips.

`ResponseProperties` proves what the decoder guarantees:

- a header written field by field is read back, and every accepted header is such
  an encoding;
- the format is decided by the tag bytes alone;
- which bytes each compression path hands to its decoder, and what it records as
  `ContentLength`;
- round trips for ZSTD, stored LZ4 and compressed LZ4 responses laid out as a
  writer lays them out;
- when `HasDateTime` holds.

## Model

| member | source | states |
|---|---|---|
| Responses.NewResponse | Response.cs:20-125 | The constructor's result, or the exception it ends with, is exactly `ResponseAt` for the same file, start index and length. |
| Responses.ReadChars | Response.cs:31-36 | The StringBuilder loop succeeds exactly when all `count` bytes from the cursor lie in the file. It then yields exactly those bytes as characters; otherwise the read at index `file.Length` throws. Its result is the read `CharsAt` that the header function uses. |
| Responses.DecompressZstd | Response.cs:56-78 | The ZSTD branch returns exactly `ZstdBody`: first attempt 2 bytes after the tag, retry 3 bytes after it on `ZstdException` only. |
| Responses.DecompressLz4 | Response.cs:79-116 | The LZ4 branch returns exactly `Lz4Body`: the sentinel test, the stored body, or the two length words and the block decoder, with `new byte[n]` refusing a negative size or one beyond the largest array. |
| Responses.FormatOf | Response.cs:49-54 | The tag switch gives LZ4 exactly for "lz4" and ZSTD exactly for "zstd"; any other tag throws with that tag. |
| Responses.ReadHeader | Response.cs:26-54 | An accepted header starts inside the file and its tag ends after the start, within the file. |
| Responses.Slice | Response.cs:60 | A range `file[from..to]` is valid exactly when `0 <= from <= to <= file.Length`, and is then exactly those `to - from` bytes; otherwise it throws with that range. |
| Responses.IntoBuffer | Response.cs:110-111 | The target buffer has exactly the requested size: the decoder's output where it wrote, zeros elsewhere. |
| Bytes.WrapInt32 | Response.cs:24 | `startIndex + length` as a .NET `int`: always in range, equal to the exact sum modulo 2^32, and the exact sum when that fits. |
| Bytes.Latin1 | Response.cs:34 | Appending `(char)b` for each byte gives a string of the same length whose character codes are the bytes. |
| Bytes.Latin1Injective | Response.cs:44-54 | Different byte strings give different character strings, so the tag switch sees the tag bytes themselves. |
| Bytes.Int32LE | Response.cs:98-108 | The four bytes combined by shifts and ORs are a .NET `int`, negative exactly when the last byte has its top bit set. |
| Bytes.Int32LERoundTrip | Response.cs:107-108 | Reading back the four bytes a writer stores for any `int` gives that `int`. |
| Bytes.Int32LEEncodes | Response.cs:107-108 | Any four bytes are the stored form of the `int` read from them, so the reading loses nothing. |
| ResponseProperties.FormatOfTagBytes | Response.cs:43-54 | The format is LZ4 exactly for the bytes 6C 7A 34 and ZSTD exactly for 7A 73 74 64; every other tag is an error. |
| ResponseProperties.ReadHeaderAt | Response.cs:26-54 | A header written at a start index is read back there: its type string, the format of its tag, and the index just after the tag. An unknown tag is refused. |
| ResponseProperties.ReadHeaderRoundTrip | Response.cs:26-54 | The same for a header written between any other bytes. |
| ResponseProperties.HeaderIsEncoded | Response.cs:26-54 | Conversely, every accepted header is a type string after its length byte, one skipped byte, and "lz4" or "zstd" after its length byte. |
| ResponseProperties.ResponseHeaderFields | Response.cs:20-54 | A constructed response names the type by exactly the bytes after the first length byte and keeps the given length. Its format is LZ4 or ZSTD exactly when the tag spells "lz4" or "zstd". |
| ResponseProperties.ResponseFromBody | Response.cs:56-125 | The response exists exactly when its body and the timestamp lookup both succeed. It then carries the header's type and format, the given length, and the body's content and `ContentLength`; a failing body's exception is the response's. |
| ResponseProperties.ZstdRetry | Response.cs:57-78 | A ZSTD response comes from the first attempt with `ContentLength` 0, or only after a `ZstdException` from the retry with `ContentLength` the retry's output size. A second `ZstdException`, or malformed JSON after the first attempt, ends the construction. |
| ResponseProperties.ZstdRoundTrip | Response.cs:57-78 | For a ZSTD response laid out by a writer: an unwrappable stream gives its parse with `ContentLength` 0; otherwise the stream minus its first byte is decoded and its size recorded; two failures throw. |
| ResponseProperties.Lz4StoredBody | Response.cs:79-93 | With the sentinel 0x59, the content is the parse of the bytes from 10 after the tag to the end, and `ContentLength` is their count; an invalid range throws. |
| ResponseProperties.Lz4StoredRoundTrip | Response.cs:79-93 | A stored LZ4 response laid out by a writer is read back with its type, LZ4, the parsed text and the text's size. |
| ResponseProperties.Lz4HeaderBody | Response.cs:94-115 | Without the sentinel: a negative decompressed length throws, so does one beyond the largest array, and so does a compressed length outside the body. Otherwise the decoder gets exactly the compressed-length bytes 11 after the tag and a buffer of the decompressed length, which becomes `ContentLength`. |
| ResponseProperties.Lz4CompressedRoundTrip | Response.cs:94-115 | A compressed LZ4 response laid out by a writer, with a decompressed length a byte array can have, is decoded from exactly the first compressed-length data bytes into a buffer of the decompressed length, and is read back with its type, LZ4, that buffer's parse and that length. |
| ResponseProperties.DateTimeDecision | Response.cs:118-138 | `HasDateTime` holds exactly when `data` is an object whose `ts` converts to a non-zero long. The timestamp is then that converted value, within `DateTime`'s range; otherwise it is `default(DateTime)`, 0001-01-01. |
| ResponseProperties.DateTimeFailure | Response.cs:127-138 | The timestamp lookup throws exactly when `data.ts` exists and does not convert to a long, or converts to a non-zero value outside `DateTime`'s range. |
| Blocks.ConvertAll | Block.cs:11 | Converting the raw responses in order keeps their number and order, each one the conversion of its entry. A failure is the first entry's failure, every earlier entry having converted. |
| Blocks.NewBlock | Block.cs:8-12 | A block is built exactly when every raw response converts. It keeps the given length, its `ResponseCount` is the number of raw responses, and response i is the conversion of entry i. |
| Parsing.Parser.Parse | Parser.cs:67-76 | The loop succeeds exactly when `Frames` does, and then `_blocks` is its result, a framing of the file in the sense of `IsFraming`. A block constructor that throws leaves `_blocks` unchanged with that exception. |
| Parsing.FramesIsFraming | Parser.cs:69-75 | The loop's result is exactly the sequence in which block i is built inside the file at the cursor plus the span of the blocks before it, and whose total span reaches or passes the end. |
| Parsing.StartsIncrease | Parser.cs:70-73 | The offsets at which successive blocks are built strictly increase, by at least 2 per block. |
| Parsing.EmptyFileHasNoBlocks | Parser.cs:69-70 | For every block constructor, an empty file gives no blocks, and that is its framing. |
| Parsing.OvershootAccepted | Parser.cs:70-76 | A last block that claims more bytes than remain is kept: the loop stops past the end without complaint. |

## Left out

- Decompression, text decoding and JSON parsing are not modelled. ZSTD frames, LZ4
  block decoding, `Encoding.Default.GetString` and `JObject.Parse` are functions of
  the `Codecs` parameter, as is `JToken.Value<long>`. The model proves which bytes
  reach them and what is done with their results.
- `Responses.Codecs`: `lz4Decode` stands for what `LZ4Codec.Decode` writes into its
  target. The count it returns is ignored by the source, and so by the model.
  `LZ4Codec.Decode` rejects a source count outside the body; the model calls this
  `SourceOutOfBounds`.
- `DateTime`: the timestamp is kept as UTC milliseconds since the Unix epoch, and
  `default(DateTime)` as the same count for 0001-01-01. The range check of
  `AddMilliseconds` is modelled. `ToLocalTime` (the machine's time zone) and
  `DateTime` formatting are not.
- `new byte[n]` running out of memory for a size it accepts is not modelled.
- Not modelled because they are I/O:
  - the command loop (`Main`, `Help`, `Clear`);
  - the file-existence and argument checks of `Parse`;
  - `File.ReadAllBytes` (the file is a parameter);
  - all console output, including the `ToString` overrides.
- `Block(byte[] file, int index)`, the `Response(RawBlock entry)` constructor,
  `RawBlock` and delimiter discovery are not part of this model. `Parser.Parse`
  takes the block constructor as a function, and `NewBlock` takes the response
  conversion as a function.
- Parsing.Parser.Parse: requires that the block constructor never yields a negative
  length. The length is read from two unsigned bytes, and without this the loop need
  not terminate. The cursor is unbounded: a .NET `int` cursor could only wrap for
  files within 64 KiB of the largest array.
- Responses.NewResponse: requires the file to fit a .NET array and `startIndex` and
  `length` to be `int`s, as the source's types guarantee.
- Where the intended design and the code differ, the model follows the code:
  - a ZSTD body decoded on the first attempt leaves `ContentLength` at 0;
  - the frame loop accepts a last block that overshoots the end of the file;
  - header reads are bounded by the file, not by the response's own end;
  - one byte is skipped between the type string and the tag's length byte.
