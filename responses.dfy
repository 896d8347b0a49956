/** One response of a capture block (Response.cs): a length-prefixed type string,
    a skipped byte, a length-prefixed compression tag, and a ZSTD or LZ4 body whose
    framing is told apart by fixed offsets, a retry and a sentinel byte. The body's
    JSON content may carry a millisecond timestamp under `data.ts`. */
module Responses {
  import opened Wrappers
  import opened Bytes

  /** The byte after the tag that marks an LZ4 response as stored uncompressed. */
  const MagicLz4Byte: Byte := 0x59

  /** The largest .NET byte array: every index into the file fits an `int`, and
      `new byte[n]` throws for any larger `n`. */
  const MaxArrayLength: int := 0x7FFF_FFC7

  datatype CompressionFormat = LZ4 | ZSTD

  /** A parsed JSON token. Primitive tokens keep their literal text: converting them
      is the JSON library's business (see `Codecs.toLong`). */
  datatype Json =
    | JObject(properties: map<string, Json>)
    | JArray(items: seq<Json>)
    | JValue(literal: string)

  /** Outcome of ZstdNet's `Decompressor.Unwrap`: the output, or a `ZstdException`. */
  datatype ZstdOutcome = Unwrapped(output: seq<Byte>) | ZstdException

  /** Outcome of `JObject.Parse(Encoding.Default.GetString(bytes))`. */
  datatype ParseOutcome = Parsed(properties: map<string, Json>) | JsonReaderException

  /** Outcome of `JToken.Value<long>()`. */
  datatype LongOutcome = Long(value: Int64) | InvalidCast

  /** The foreign libraries the decoder calls, as functions.
      `lz4Decode(source, n)` is what K4os `LZ4Codec.Decode` writes, from offset 0, into
      a zeroed target of `n` bytes when given exactly the bytes of `source`. */
  datatype Codecs = Codecs(
    unwrap: seq<Byte> -> ZstdOutcome,
    lz4Decode: (seq<Byte>, nat) -> seq<Byte>,
    parse: seq<Byte> -> ParseOutcome,
    toLong: Json -> LongOutcome)

  /** Every exception the constructor can end with. */
  datatype ResponseError =
    | IndexOutOfRange(index: int)              // `file[index]` outside the array
    | RangeOutOfBounds(from: int, to: int)     // `file[from..to]` not a valid range
    | UnknownCompressionFormat(tag: string)    // tag is neither "lz4" nor "zstd"
    | ZstdFailure                              // `ZstdException` on the retry
    | ContentParseError                        // body is not a JSON object
    | NegativeBufferLength(size: int)          // `new byte[size]` with size < 0
    | BufferTooLarge(size: int)                // `new byte[size]` beyond the largest array
    | SourceOutOfBounds(count: int)            // LZ4 source count outside the body
    | TimestampCastError                       // `data.ts` is not convertible to long
    | TimestampOutOfRange(ms: int)             // the epoch plus `ms` is not a DateTime

  /** The fields of a constructed response; `timestampMs` stands for `DateTime`, in
      milliseconds from the Unix epoch, and is `MinEpochMs`, the value of
      `default(DateTime)`, when `hasDateTime` is false. */
  datatype Response = Response(
    typeName: string,
    content: map<string, Json>,
    compressionFormat: CompressionFormat,
    length: int,
    contentLength: int,
    hasDateTime: bool,
    timestampMs: int)

  /** What the header gives: the type string, the format, and the index just after
      the compression tag. */
  datatype Header = Header(typeName: string, format: CompressionFormat, tagEnd: int)

  /** The decompressed content and the `ContentLength` the decoder records for it. */
  datatype Body = Body(content: map<string, Json>, contentLength: int)

  /** The `switch` on the tag string: only "lz4" and "zstd" are accepted. */
  function FormatOf(tag: string): (r: Result<CompressionFormat, ResponseError>)
    ensures r == Ok(LZ4) <==> tag == "lz4"
    ensures r == Ok(ZSTD) <==> tag == "zstd"
    ensures r.Err? ==> r.error == UnknownCompressionFormat(tag)
  {
    match tag
    case "lz4" => Ok(LZ4)
    case "zstd" => Ok(ZSTD)
    case _ => Err(UnknownCompressionFormat(tag))
  }

  /** `count` bytes read one by one from index `from`, as characters; the first
      read past the end of the file fails, and it is at index |file|. */
  function CharsAt(file: seq<Byte>, from: int, count: nat): Result<string, ResponseError>
    requires 0 <= from <= |file|
  {
    if from + count <= |file| then Ok(Latin1(file[from .. from + count]))
    else Err(IndexOutOfRange(|file|))
  }

  /** The header as the constructor reads it: a length byte and the type string, one
      byte that is skipped, a length byte and the compression tag. None of these reads
      is bounded by the response's own end, only by the file. */
  function ReadHeader(file: seq<Byte>, start: int): (r: Result<Header, ResponseError>)
    ensures r.Ok? ==> 0 <= start < r.value.tagEnd <= |file|
  {
    if !(0 <= start < |file|) then Err(IndexOutOfRange(start))
    else
      var typeName :- CharsAt(file, start + 1, file[start]);
      var formatAt := start + 1 + file[start] + 1;
      if formatAt >= |file| then Err(IndexOutOfRange(formatAt))
      else
        var tag :- CharsAt(file, formatAt + 1, file[formatAt]);
        var format :- FormatOf(tag);
        Ok(Header(typeName, format, formatAt + 1 + file[formatAt]))
  }

  /** The C# range `file[from..to]`. */
  function Slice(file: seq<Byte>, from: int, to: int): (r: Result<seq<Byte>, ResponseError>)
    ensures r.Ok? <==> 0 <= from <= to <= |file|
    ensures r.Ok? ==> |r.value| == to - from && r.value == file[from..to]
    ensures r.Err? ==> r.error == RangeOutOfBounds(from, to)
  {
    if 0 <= from <= to <= |file| then Ok(file[from..to]) else Err(RangeOutOfBounds(from, to))
  }

  /** Decoding bytes as text and parsing them as a JSON object. */
  function ParseContent(bytes: seq<Byte>, codecs: Codecs): Result<map<string, Json>, ResponseError>
  {
    match codecs.parse(bytes)
    case Parsed(properties) => Ok(properties)
    case JsonReaderException => Err(ContentParseError)
  }

  /** ZSTD: the stream starts 2 bytes after the tag; only a `ZstdException` there makes
      the decoder try once more from 3 bytes after the tag. `ContentLength` is set on
      the retry only. */
  function ZstdBody(file: seq<Byte>, tagEnd: int, end: int, codecs: Codecs): Result<Body, ResponseError>
  {
    var compressed :- Slice(file, tagEnd + 2, end);
    match codecs.unwrap(compressed)
    case Unwrapped(output) =>
      var content :- ParseContent(output, codecs);
      Ok(Body(content, 0))
    case ZstdException =>
      var retried :- Slice(file, tagEnd + 3, end);
      match codecs.unwrap(retried)
      case ZstdException => Err(ZstdFailure)
      case Unwrapped(output) =>
        var content :- ParseContent(output, codecs);
        Ok(Body(content, |output|))
  }

  /** The target buffer `new byte[size]` after the decoder wrote `written` into it:
      the written bytes that fit, then the zeros it was allocated with. */
  function IntoBuffer(written: seq<Byte>, size: nat): (buffer: seq<Byte>)
    ensures |buffer| == size
    ensures forall i :: 0 <= i < size ==> buffer[i] == if i < |written| then written[i] else 0
  {
    seq(size, i requires 0 <= i < size => if i < |written| then written[i] else 0)
  }

  /** LZ4: one byte after the tag is skipped and the next is looked at. The sentinel
      0x59 means the rest, 9 bytes further on, is stored as is. Otherwise one more
      byte is skipped, two little-endian `int`s give the decompressed and compressed
      lengths, and the compressed data follows them. */
  function Lz4Body(file: seq<Byte>, tagEnd: int, end: int, codecs: Codecs): Result<Body, ResponseError>
    requires 0 <= tagEnd
  {
    var magicAt := tagEnd + 1;
    if magicAt >= |file| then Err(IndexOutOfRange(magicAt))
    else if file[magicAt] == MagicLz4Byte then
      var stored :- Slice(file, magicAt + 9, end);
      var content :- ParseContent(stored, codecs);
      Ok(Body(content, |stored|))
    else
      var lengthsAt := magicAt + 2;
      if lengthsAt + 8 > |file| then Err(IndexOutOfRange(if lengthsAt <= |file| then |file| else lengthsAt))
      else
        var decompressedLength := Int32LE(file[lengthsAt], file[lengthsAt + 1], file[lengthsAt + 2], file[lengthsAt + 3]);
        var compressedLength := Int32LE(file[lengthsAt + 4], file[lengthsAt + 5], file[lengthsAt + 6], file[lengthsAt + 7]);
        var compressed :- Slice(file, lengthsAt + 8, end);
        if decompressedLength < 0 then Err(NegativeBufferLength(decompressedLength))
        else if decompressedLength > MaxArrayLength then Err(BufferTooLarge(decompressedLength))
        else if !(0 <= compressedLength <= |compressed|) then Err(SourceOutOfBounds(compressedLength))
        else
          var decompressed := IntoBuffer(codecs.lz4Decode(compressed[..compressedLength], decompressedLength), decompressedLength);
          var content :- ParseContent(decompressed, codecs);
          Ok(Body(content, |decompressed|))
  }

  /** The milliseconds from 1970-01-01T00:00:00 UTC to the first and to the last
      millisecond a `DateTime` can hold (0001-01-01 and 9999-12-31T23:59:59.999):
      `AddMilliseconds` on the epoch throws for every value outside them. */
  const MinEpochMs: int := -62_135_596_800_000
  const MaxEpochMs: int := 253_402_300_799_999

  /** `TryGetDateTime`: the timestamp when the content has an object `data` whose `ts`
      converts to a non-zero long that lands inside `DateTime`'s range; nothing when
      `data` is missing or not an object, `ts` is missing, or `ts` is 0; the failure of
      the conversion or of `AddMilliseconds` otherwise. */
  function TryGetDateTime(content: map<string, Json>, codecs: Codecs): Result<Option<Int64>, ResponseError>
  {
    if "data" in content && content["data"].JObject? && "ts" in content["data"].properties then
      match codecs.toLong(content["data"].properties["ts"])
      case InvalidCast => Err(TimestampCastError)
      case Long(ts) =>
        if ts == 0 then Ok(None)
        else if !(MinEpochMs <= ts <= MaxEpochMs) then Err(TimestampOutOfRange(ts))
        else Ok(Some(ts))
    else
      Ok(None)
  }

  /** The response the constructor builds from `length` bytes at `startIndex`, or the
      exception it throws. */
  function ResponseAt(file: seq<Byte>, startIndex: int, length: int, codecs: Codecs): Result<Response, ResponseError>
  {
    var header :- ReadHeader(file, startIndex);
    var end := WrapInt32(startIndex + length);
    var body :- if header.format == ZSTD then ZstdBody(file, header.tagEnd, end, codecs)
                else Lz4Body(file, header.tagEnd, end, codecs);
    var stamp :- TryGetDateTime(body.content, codecs);
    Ok(Response(header.typeName, body.content, header.format, length, body.contentLength,
                stamp.Some?, if stamp.Some? then stamp.value else MinEpochMs))
  }

  /** One StringBuilder loop: appends `(char)file[i]` for `count` indices from `from`. */
  method ReadChars(file: seq<Byte>, from: int, count: Byte) returns (r: Result<string, ResponseError>)
    requires 0 <= from <= |file|
    ensures r.Ok? <==> from + count <= |file|
    ensures r.Ok? ==> r.value == Latin1(file[from .. from + count])
    ensures r.Err? ==> r.error == IndexOutOfRange(|file|)
    ensures r == CharsAt(file, from, count)
  {
    var builder: string := [];
    var currentIndex := from;
    for i := 0 to count
      invariant currentIndex == from + i <= |file|
      invariant builder == Latin1(file[from .. currentIndex])
    {
      if currentIndex >= |file| {
        return Err(IndexOutOfRange(currentIndex));
      }
      Latin1Snoc(file[from .. currentIndex], file[currentIndex]);
      assert file[from .. currentIndex + 1] == file[from .. currentIndex] + [file[currentIndex]];
      builder := builder + [file[currentIndex] as char];
      currentIndex := currentIndex + 1;
    }
    return Ok(builder);
  }

  /** The ZSTD branch of the constructor, entered with the cursor just after the tag:
      a first attempt 2 bytes on and, on a `ZstdException`, a second 3 bytes on. */
  method DecompressZstd(file: seq<Byte>, tagEnd: int, endIndex: int, codecs: Codecs)
    returns (r: Result<Body, ResponseError>)
    requires 0 <= tagEnd
    ensures r == ZstdBody(file, tagEnd, endIndex, codecs)
  {
    var currentIndex := tagEnd + 2;
    if !(currentIndex <= endIndex <= |file|) {
      return Err(RangeOutOfBounds(currentIndex, endIndex));
    }
    var compressed := file[currentIndex..endIndex];
    match codecs.unwrap(compressed) {
      case Unwrapped(output) =>
        var parsed := ParseContent(output, codecs);
        if parsed.Err? {
          return Err(parsed.error);
        }
        return Ok(Body(parsed.value, 0));
      case ZstdException =>
        currentIndex := currentIndex + 1;
        if !(currentIndex <= endIndex <= |file|) {
          return Err(RangeOutOfBounds(currentIndex, endIndex));
        }
        compressed := file[currentIndex..endIndex];
        match codecs.unwrap(compressed) {
          case ZstdException =>
            return Err(ZstdFailure);
          case Unwrapped(decompressed) =>
            var parsed := ParseContent(decompressed, codecs);
            if parsed.Err? {
              return Err(parsed.error);
            }
            return Ok(Body(parsed.value, |decompressed|));
        }
    }
  }

  /** The LZ4 branch of the constructor, entered with the cursor just after the tag:
      the sentinel check, then either the stored body or the two length words and
      the block decoder. */
  method DecompressLz4(file: seq<Byte>, tagEnd: int, endIndex: int, codecs: Codecs)
    returns (r: Result<Body, ResponseError>)
    requires 0 <= tagEnd
    ensures r == Lz4Body(file, tagEnd, endIndex, codecs)
  {
    var currentIndex := tagEnd + 1;
    if currentIndex >= |file| {
      return Err(IndexOutOfRange(currentIndex));
    }
    var magicByte := file[currentIndex];
    if magicByte == MagicLz4Byte {
      currentIndex := currentIndex + 9;
      if !(currentIndex <= endIndex <= |file|) {
        return Err(RangeOutOfBounds(currentIndex, endIndex));
      }
      var compressed := file[currentIndex..endIndex];
      var parsed := ParseContent(compressed, codecs);
      if parsed.Err? {
        return Err(parsed.error);
      }
      return Ok(Body(parsed.value, |compressed|));
    }
    currentIndex := currentIndex + 2;
    if currentIndex >= |file| {
      return Err(IndexOutOfRange(currentIndex));
    }
    if currentIndex + 7 >= |file| {
      return Err(IndexOutOfRange(|file|));
    }
    var d0, d1, d2, d3 := file[currentIndex], file[currentIndex + 1], file[currentIndex + 2], file[currentIndex + 3];
    var c0, c1, c2, c3 := file[currentIndex + 4], file[currentIndex + 5], file[currentIndex + 6], file[currentIndex + 7];
    currentIndex := currentIndex + 8;
    var decompressedLength := Int32LE(d0, d1, d2, d3);
    var compressedLength := Int32LE(c0, c1, c2, c3);
    if !(currentIndex <= endIndex <= |file|) {
      return Err(RangeOutOfBounds(currentIndex, endIndex));
    }
    var compressed := file[currentIndex..endIndex];
    if decompressedLength < 0 {
      return Err(NegativeBufferLength(decompressedLength));
    }
    if decompressedLength > MaxArrayLength {
      return Err(BufferTooLarge(decompressedLength));
    }
    if !(0 <= compressedLength <= |compressed|) {
      return Err(SourceOutOfBounds(compressedLength));
    }
    var written := codecs.lz4Decode(compressed[..compressedLength], decompressedLength);
    var decompressed := IntoBuffer(written, decompressedLength);
    var parsed := ParseContent(decompressed, codecs);
    if parsed.Err? {
      return Err(parsed.error);
    }
    return Ok(Body(parsed.value, |decompressed|));
  }

  /** The constructor `Response(byte[] file, int startIndex, int length)`, walking its
      cursor over the file. */
  method NewResponse(file: seq<Byte>, startIndex: int, length: int, codecs: Codecs)
    returns (r: Result<Response, ResponseError>)
    requires IsInt32(startIndex) && IsInt32(length) && |file| <= MaxArrayLength
    ensures r == ResponseAt(file, startIndex, length, codecs)
  {
    var currentIndex := startIndex;
    var endIndex := WrapInt32(startIndex + length);

    if !(0 <= currentIndex < |file|) {
      return Err(IndexOutOfRange(currentIndex));
    }
    var typeLength := file[currentIndex];
    currentIndex := currentIndex + 1;
    var path := ReadChars(file, currentIndex, typeLength);
    if path.Err? {
      return Err(path.error);
    }
    var typeName := path.value;
    currentIndex := currentIndex + typeLength;
    currentIndex := currentIndex + 1;

    if currentIndex >= |file| {
      return Err(IndexOutOfRange(currentIndex));
    }
    var formatLength := file[currentIndex];
    currentIndex := currentIndex + 1;
    var format := ReadChars(file, currentIndex, formatLength);
    if format.Err? {
      return Err(format.error);
    }
    currentIndex := currentIndex + formatLength;
    var compressionFormat;
    if format.value == "lz4" {
      compressionFormat := LZ4;
    } else if format.value == "zstd" {
      compressionFormat := ZSTD;
    } else {
      return Err(UnknownCompressionFormat(format.value));
    }
    assert ReadHeader(file, startIndex) == Ok(Header(typeName, compressionFormat, currentIndex));

    var body;
    if compressionFormat == ZSTD {
      body := DecompressZstd(file, currentIndex, endIndex, codecs);
    } else {
      body := DecompressLz4(file, currentIndex, endIndex, codecs);
    }
    if body.Err? {
      return Err(body.error);
    }
    var content, contentLength := body.value.content, body.value.contentLength;

    var dateTime := TryGetDateTime(content, codecs);
    if dateTime.Err? {
      return Err(dateTime.error);
    }
    var hasDateTime := dateTime.value.Some?;
    r := Ok(Response(typeName, content, compressionFormat, length, contentLength,
                     hasDateTime, if hasDateTime then dateTime.value.value else MinEpochMs));
  }
}
