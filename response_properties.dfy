/** What the response decoder guarantees: where each header field sits, that a
    header written field by field is read back, and how each compression path picks
    its body bytes and its `ContentLength`. */
module ResponseProperties {
  import opened Wrappers
  import opened Bytes
  import opened Responses

  /** The bytes of "lz4" and "zstd". */
  const Lz4Tag: seq<Byte> := [0x6C, 0x7A, 0x34]
  const ZstdTag: seq<Byte> := [0x7A, 0x73, 0x74, 0x64]

  /** A response header as a writer lays it out: the type string and the tag, each
      after its length byte, with one filler byte between them. */
  function EncodeHeader(typeBytes: seq<Byte>, filler: Byte, tagBytes: seq<Byte>): (bs: seq<Byte>)
    requires |typeBytes| < 0x100 && |tagBytes| < 0x100
    ensures |bs| == |typeBytes| + |tagBytes| + 3
  {
    [|typeBytes|] + typeBytes + [filler] + [|tagBytes|] + tagBytes
  }

  /** The index of the compression-length byte: one past the type string, because the
      byte right after the type string is skipped. */
  function FormatLengthAt(file: seq<Byte>, start: int): int
    requires 0 <= start < |file|
  {
    start + file[start] + 2
  }

  lemma Lz4TagSpellsLz4()
    ensures Latin1(Lz4Tag) == "lz4"
  {
    assert Latin1(Lz4Tag) == ['l', 'z', '4'];
  }

  lemma ZstdTagSpellsZstd()
    ensures Latin1(ZstdTag) == "zstd"
  {
    assert Latin1(ZstdTag) == ['z', 's', 't', 'd'];
  }

  /** The format switch, seen on the tag's bytes: LZ4 for exactly the bytes of "lz4",
      ZSTD for exactly the bytes of "zstd", and an error for every other tag. */
  lemma FormatOfTagBytes(tagBytes: seq<Byte>)
    ensures FormatOf(Latin1(tagBytes)) == Ok(LZ4) <==> tagBytes == Lz4Tag
    ensures FormatOf(Latin1(tagBytes)) == Ok(ZSTD) <==> tagBytes == ZstdTag
    ensures FormatOf(Latin1(tagBytes)).Err? <==> tagBytes != Lz4Tag && tagBytes != ZstdTag
  {
    Lz4TagSpellsLz4();
    ZstdTagSpellsZstd();
    if Latin1(tagBytes) == "lz4" {
      Latin1Injective(tagBytes, Lz4Tag);
    }
    if Latin1(tagBytes) == "zstd" {
      Latin1Injective(tagBytes, ZstdTag);
    }
  }

  /** A header written by `EncodeHeader` at `start` in a file is read back from there:
      the type string, the format named by the tag and the index just after the tag;
      a tag other than "lz4" or "zstd" is refused. */
  lemma ReadHeaderAt(file: seq<Byte>, start: int, typeBytes: seq<Byte>, filler: Byte, tagBytes: seq<Byte>)
    requires |typeBytes| < 0x100 && |tagBytes| < 0x100
    requires 0 <= start && start + |typeBytes| + |tagBytes| + 3 <= |file|
    requires file[start .. start + |typeBytes| + |tagBytes| + 3] == EncodeHeader(typeBytes, filler, tagBytes)
    ensures var tagEnd := start + |typeBytes| + |tagBytes| + 3;
            && (FormatOf(Latin1(tagBytes)).Ok? ==>
                  ReadHeader(file, start) == Ok(Header(Latin1(typeBytes), FormatOf(Latin1(tagBytes)).value, tagEnd)))
            && (FormatOf(Latin1(tagBytes)).Err? ==>
                  ReadHeader(file, start) == Err(UnknownCompressionFormat(Latin1(tagBytes))))
  {
    HeaderFieldsAt(file, start, typeBytes, filler, tagBytes);
  }

  /** The fields of a header written at `start`, each at the place the reader looks. */
  lemma HeaderFieldsAt(file: seq<Byte>, start: int, typeBytes: seq<Byte>, filler: Byte, tagBytes: seq<Byte>)
    requires |typeBytes| < 0x100 && |tagBytes| < 0x100
    requires 0 <= start && start + |typeBytes| + |tagBytes| + 3 <= |file|
    requires file[start .. start + |typeBytes| + |tagBytes| + 3] == EncodeHeader(typeBytes, filler, tagBytes)
    ensures var n, m := |typeBytes|, |tagBytes|;
            && file[start] == n && file[start + 1 .. start + 1 + n] == typeBytes
            && file[start + n + 2] == m && file[start + n + 3 .. start + n + 3 + m] == tagBytes
  {
    var header := EncodeHeader(typeBytes, filler, tagBytes);
    var n, m := |typeBytes|, |tagBytes|;
    var slice := file[start .. start + n + m + 3];
    assert file[start] == slice[0] == header[0] == n;
    assert file[start + 1 .. start + 1 + n] == typeBytes by {
      forall i | 0 <= i < n
        ensures file[start + 1 .. start + 1 + n][i] == typeBytes[i]
      {
        assert file[start + 1 + i] == slice[1 + i] == header[1 + i];
      }
    }
    assert file[start + n + 2] == slice[n + 2] == header[n + 2] == m;
    assert file[start + n + 3 .. start + n + 3 + m] == tagBytes by {
      forall i | 0 <= i < m
        ensures file[start + n + 3 .. start + n + 3 + m][i] == tagBytes[i]
      {
        assert file[start + n + 3 + i] == slice[n + 3 + i] == header[n + 3 + i];
      }
    }
  }

  /** The same, for a header written anywhere between other bytes. */
  lemma ReadHeaderRoundTrip(prefix: seq<Byte>, typeBytes: seq<Byte>, filler: Byte,
                            tagBytes: seq<Byte>, rest: seq<Byte>)
    requires |typeBytes| < 0x100 && |tagBytes| < 0x100
    ensures var file := prefix + EncodeHeader(typeBytes, filler, tagBytes) + rest;
            var tagEnd := |prefix| + |typeBytes| + |tagBytes| + 3;
            && (FormatOf(Latin1(tagBytes)).Ok? ==>
                  ReadHeader(file, |prefix|) == Ok(Header(Latin1(typeBytes), FormatOf(Latin1(tagBytes)).value, tagEnd)))
            && (FormatOf(Latin1(tagBytes)).Err? ==>
                  ReadHeader(file, |prefix|) == Err(UnknownCompressionFormat(Latin1(tagBytes))))
  {
    var header := EncodeHeader(typeBytes, filler, tagBytes);
    MiddlePart(prefix, header, rest);
    ReadHeaderAt(prefix + header + rest, |prefix|, typeBytes, filler, tagBytes);
  }

  /** Conversely, every header the decoder accepts is such an encoding: the bytes
      from `start` to the end of the tag are the type string after its length byte,
      the skipped byte, and a tag that spells "lz4" or "zstd" after its length byte. */
  lemma HeaderIsEncoded(file: seq<Byte>, start: int)
    requires ReadHeader(file, start).Ok?
    ensures var h := ReadHeader(file, start).value;
            && 0 <= start < |file|
            && FormatLengthAt(file, start) < |file|
            && var n, f := file[start], FormatLengthAt(file, start);
               && h.tagEnd == f + 1 + file[f] <= |file|
               && h.typeName == Latin1(file[start + 1 .. start + 1 + n])
               && FormatOf(Latin1(file[f + 1 .. h.tagEnd])) == Ok(h.format)
               && file[start .. h.tagEnd] ==
                    EncodeHeader(file[start + 1 .. start + 1 + n], file[start + 1 + n], file[f + 1 .. h.tagEnd])
  {
    var h := ReadHeader(file, start).value;
    assert h.tagEnd == FormatLengthAt(file, start) + 1 + file[FormatLengthAt(file, start)];
    HeaderBytes(file, start);
  }

  /** The bytes from `start` through a tag that fits in the file, split into the
      fields the header reader takes them as. */
  lemma HeaderBytes(file: seq<Byte>, start: int)
    requires 0 <= start < |file| && FormatLengthAt(file, start) < |file|
    requires var f := FormatLengthAt(file, start); f + 1 + file[f] <= |file|
    ensures var n, f := file[start], FormatLengthAt(file, start);
            var e := f + 1 + file[f];
            file[start .. e] == EncodeHeader(file[start + 1 .. start + 1 + n], file[start + 1 + n], file[f + 1 .. e])
  {
    var n: int, f := file[start], FormatLengthAt(file, start);
    var e := f + 1 + file[f];
    var typeBytes, tagBytes := file[start + 1 .. start + 1 + n], file[f + 1 .. e];
    var encoded := EncodeHeader(typeBytes, file[start + 1 + n], tagBytes);
    forall i | 0 <= i < e - start
      ensures file[start .. e][i] == encoded[i]
    {
      if i == 0 {
      } else if i < 1 + n {
        assert encoded[i] == typeBytes[i - 1];
      } else if i < f - start {
        assert encoded[i] == file[start + 1 + n];
      } else if i == f - start {
        assert encoded[i] == file[f];
      } else {
        assert encoded[i] == tagBytes[i - (f - start) - 1];
      }
    }
  }

  /** The response's content and `ContentLength` are those of the body decoded for
      its format, and a body that fails makes the whole construction fail. */
  lemma ResponseFromBody(file: seq<Byte>, startIndex: int, length: int, codecs: Codecs)
    requires ReadHeader(file, startIndex).Ok?
    ensures var h := ReadHeader(file, startIndex).value;
            var end := WrapInt32(startIndex + length);
            var body := if h.format == ZSTD then ZstdBody(file, h.tagEnd, end, codecs)
                        else Lz4Body(file, h.tagEnd, end, codecs);
            var r := ResponseAt(file, startIndex, length, codecs);
            && (body.Err? ==> r == Err(body.error))
            && (r.Ok? <==> body.Ok? && TryGetDateTime(body.value.content, codecs).Ok?)
            && (r.Ok? ==> && r.value.typeName == h.typeName && r.value.compressionFormat == h.format
                          && r.value.length == length
                          && r.value.content == body.value.content
                          && r.value.contentLength == body.value.contentLength)
  {
  }

  /** A constructed response names its type by exactly the bytes after the length
      byte at `startIndex`, has a format only when the tag is "lz4" or "zstd", and
      keeps the given length. */
  lemma ResponseHeaderFields(file: seq<Byte>, startIndex: int, length: int, codecs: Codecs)
    requires ResponseAt(file, startIndex, length, codecs).Ok?
    ensures var r := ResponseAt(file, startIndex, length, codecs).value;
            && 0 <= startIndex < |file|
            && FormatLengthAt(file, startIndex) < |file|
            && var n, f := file[startIndex], FormatLengthAt(file, startIndex);
               && f + 1 + file[f] <= |file|
               && r.typeName == Latin1(file[startIndex + 1 .. startIndex + 1 + n])
               && (r.compressionFormat == LZ4 <==> Latin1(file[f + 1 .. f + 1 + file[f]]) == "lz4")
               && (r.compressionFormat == ZSTD <==> Latin1(file[f + 1 .. f + 1 + file[f]]) == "zstd")
               && r.length == length
  {
    HeaderIsEncoded(file, startIndex);
  }

  /** ZSTD: a response is built either from the stream 2 bytes after the tag, with
      `ContentLength` left at 0, or, only when that stream raised a `ZstdException`,
      from the stream 3 bytes after the tag, with `ContentLength` its decompressed
      size. A second `ZstdException`, or a JSON error after the first attempt, ends
      the construction. */
  lemma ZstdRetry(file: seq<Byte>, startIndex: int, length: int, codecs: Codecs)
    requires ReadHeader(file, startIndex).Ok? && ReadHeader(file, startIndex).value.format == ZSTD
    ensures var t := ReadHeader(file, startIndex).value.tagEnd;
            var end := WrapInt32(startIndex + length);
            var r := ResponseAt(file, startIndex, length, codecs);
            && (r.Ok? ==>
                  && 0 <= t + 2 <= end <= |file|
                  && var first := codecs.unwrap(file[t + 2 .. end]);
                     || (first.Unwrapped? && codecs.parse(first.output) == Parsed(r.value.content)
                         && r.value.contentLength == 0)
                     || (first.ZstdException? && t + 3 <= end
                         && var second := codecs.unwrap(file[t + 3 .. end]);
                            second.Unwrapped? && codecs.parse(second.output) == Parsed(r.value.content)
                            && r.value.contentLength == |second.output|))
            && ((0 <= t + 3 <= end <= |file| && codecs.unwrap(file[t + 2 .. end]).ZstdException?
                 && codecs.unwrap(file[t + 3 .. end]).ZstdException?) ==> r == Err(ZstdFailure))
            && ((0 <= t + 2 <= end <= |file| && codecs.unwrap(file[t + 2 .. end]).Unwrapped?
                 && codecs.parse(codecs.unwrap(file[t + 2 .. end]).output).JsonReaderException?)
                ==> r == Err(ContentParseError))
  {
    ResponseFromBody(file, startIndex, length, codecs);
  }

  /** LZ4 with the sentinel 0x59 one byte after the tag: the body is the bytes from 10
      after the tag to the response's end, parsed as they are, and `ContentLength` is
      their number. */
  lemma Lz4StoredBody(file: seq<Byte>, startIndex: int, length: int, codecs: Codecs)
    requires ReadHeader(file, startIndex).Ok? && ReadHeader(file, startIndex).value.format == LZ4
    requires var t := ReadHeader(file, startIndex).value.tagEnd; t + 1 < |file| && file[t + 1] == MagicLz4Byte
    ensures var t := ReadHeader(file, startIndex).value.tagEnd;
            var end := WrapInt32(startIndex + length);
            var r := ResponseAt(file, startIndex, length, codecs);
            && (r.Ok? ==>
                  && t + 10 <= end <= |file|
                  && codecs.parse(file[t + 10 .. end]) == Parsed(r.value.content)
                  && r.value.contentLength == end - (t + 10))
            && (!(t + 10 <= end <= |file|) ==> r == Err(RangeOutOfBounds(t + 10, end)))
  {
    ResponseFromBody(file, startIndex, length, codecs);
  }

  /** LZ4 without the sentinel: the little-endian `int`s 3 and 7 bytes after the tag
      are the decompressed and the compressed length; the decoder gets exactly the
      compressed-length bytes from 11 after the tag, fills a buffer of exactly the
      decompressed length, and that length is the `ContentLength`. A negative buffer
      size, one beyond the largest array, or a compressed length outside the body
      ends the construction. */
  lemma Lz4HeaderBody(file: seq<Byte>, startIndex: int, length: int, codecs: Codecs)
    requires ReadHeader(file, startIndex).Ok? && ReadHeader(file, startIndex).value.format == LZ4
    requires var t := ReadHeader(file, startIndex).value.tagEnd; t + 1 < |file| && file[t + 1] != MagicLz4Byte
    requires var t := ReadHeader(file, startIndex).value.tagEnd; t + 11 <= WrapInt32(startIndex + length) <= |file|
    ensures var t := ReadHeader(file, startIndex).value.tagEnd;
            var end := WrapInt32(startIndex + length);
            var dl := Int32LE(file[t + 3], file[t + 4], file[t + 5], file[t + 6]);
            var cl := Int32LE(file[t + 7], file[t + 8], file[t + 9], file[t + 10]);
            var r := ResponseAt(file, startIndex, length, codecs);
            && (dl < 0 ==> r == Err(NegativeBufferLength(dl)))
            && (dl > MaxArrayLength ==> r == Err(BufferTooLarge(dl)))
            && (0 <= dl <= MaxArrayLength && !(0 <= cl <= end - (t + 11)) ==> r == Err(SourceOutOfBounds(cl)))
            && (r.Ok? ==>
                  && 0 <= dl <= MaxArrayLength && 0 <= cl <= end - (t + 11)
                  && codecs.parse(IntoBuffer(codecs.lz4Decode(file[t + 11 .. t + 11 + cl], dl), dl))
                       == Parsed(r.value.content)
                  && r.value.contentLength == dl)
  {
    ResponseFromBody(file, startIndex, length, codecs);
    Lz4LengthsBody(file, ReadHeader(file, startIndex).value.tagEnd, WrapInt32(startIndex + length), codecs);
  }

  /** The body of `Lz4HeaderBody`, before it becomes a response. */
  lemma Lz4LengthsBody(file: seq<Byte>, t: int, end: int, codecs: Codecs)
    requires 0 <= t && t + 1 < |file| && file[t + 1] != MagicLz4Byte
    requires t + 11 <= end <= |file|
    ensures var dl := Int32LE(file[t + 3], file[t + 4], file[t + 5], file[t + 6]);
            var cl := Int32LE(file[t + 7], file[t + 8], file[t + 9], file[t + 10]);
            var body := Lz4Body(file, t, end, codecs);
            && (dl < 0 ==> body == Err(NegativeBufferLength(dl)))
            && (dl > MaxArrayLength ==> body == Err(BufferTooLarge(dl)))
            && (0 <= dl <= MaxArrayLength && !(0 <= cl <= end - (t + 11)) ==> body == Err(SourceOutOfBounds(cl)))
            && (body.Ok? ==>
                  && 0 <= dl <= MaxArrayLength && 0 <= cl <= end - (t + 11)
                  && codecs.parse(IntoBuffer(codecs.lz4Decode(file[t + 11 .. t + 11 + cl], dl), dl))
                       == Parsed(body.value.content)
                  && body.value.contentLength == dl)
  {
    var cl := Int32LE(file[t + 7], file[t + 8], file[t + 9], file[t + 10]);
    if 0 <= cl <= end - (t + 11) {
      assert file[t + 11 .. end][..cl] == file[t + 11 .. t + 11 + cl];
    }
  }

  /** `HasDateTime` holds exactly when the content has an object `data` whose `ts`
      converts to a non-zero long, and then the timestamp is that value, inside
      `DateTime`'s range; otherwise it is `default(DateTime)`. */
  lemma DateTimeDecision(file: seq<Byte>, startIndex: int, length: int, codecs: Codecs)
    requires ResponseAt(file, startIndex, length, codecs).Ok?
    ensures var r := ResponseAt(file, startIndex, length, codecs).value;
            var c := r.content;
            && (r.hasDateTime <==>
                  && "data" in c && c["data"].JObject? && "ts" in c["data"].properties
                  && codecs.toLong(c["data"].properties["ts"]).Long?
                  && codecs.toLong(c["data"].properties["ts"]).value != 0)
            && (r.hasDateTime ==>
                  && codecs.toLong(c["data"].properties["ts"]) == Long(r.timestampMs)
                  && MinEpochMs <= r.timestampMs <= MaxEpochMs)
            && (!r.hasDateTime ==> r.timestampMs == MinEpochMs)
  {
  }

  /** Looking for the timestamp throws exactly when `data.ts` exists but does not
      convert to a long, or converts to a non-zero value that `AddMilliseconds`
      cannot add to the epoch. */
  lemma DateTimeFailure(content: map<string, Json>, codecs: Codecs)
    ensures var t := TryGetDateTime(content, codecs);
            t.Err? <==>
              && "data" in content && content["data"].JObject? && "ts" in content["data"].properties
              && var v := codecs.toLong(content["data"].properties["ts"]);
                 || v == InvalidCast
                 || (v.Long? && v.value != 0 && !(MinEpochMs <= v.value <= MaxEpochMs))
    ensures var t := TryGetDateTime(content, codecs);
            t.Err? ==> t.error == TimestampCastError || t.error == TimestampOutOfRange(t.error.ms)
  {
  }

  /** A ZSTD response as a writer lays it out at `start`: the header with tag "zstd",
      two filler bytes and a stream up to the response's end. When the stream
      unwraps, the response holds its parse and a `ContentLength` of 0. When it
      raises a `ZstdException`, the stream without its first byte is tried: its
      output's parse and size are the content and `ContentLength`, and a second
      `ZstdException` ends the construction. */
  lemma ZstdRoundTrip(file: seq<Byte>, start: int, typeBytes: seq<Byte>, filler: Byte, lead: Byte, gap: Byte,
                      stream: seq<Byte>, codecs: Codecs)
    requires |typeBytes| < 0x100
    requires 0 <= start && IsInt32(start + |typeBytes| + 9 + |stream|)
    requires start + |typeBytes| + 9 + |stream| <= |file|
    requires file[start .. start + |typeBytes| + 9 + |stream|]
             == EncodeHeader(typeBytes, filler, ZstdTag) + ([lead, gap] + stream)
    ensures var length := |typeBytes| + 9 + |stream|;
            var r := ResponseAt(file, start, length, codecs);
            && (codecs.unwrap(stream).Unwrapped? ==>
                  var output := codecs.unwrap(stream).output;
                  && (r.Ok? <==> codecs.parse(output).Parsed? && TryGetDateTime(codecs.parse(output).properties, codecs).Ok?)
                  && (r.Ok? ==>
                        && r.value.typeName == Latin1(typeBytes) && r.value.compressionFormat == ZSTD
                        && codecs.parse(output) == Parsed(r.value.content)
                        && r.value.contentLength == 0 && r.value.length == length))
            && (codecs.unwrap(stream).ZstdException? && stream != [] && codecs.unwrap(stream[1..]).Unwrapped? ==>
                  var output := codecs.unwrap(stream[1..]).output;
                  && (r.Ok? <==> codecs.parse(output).Parsed? && TryGetDateTime(codecs.parse(output).properties, codecs).Ok?)
                  && (r.Ok? ==>
                        && r.value.typeName == Latin1(typeBytes) && r.value.compressionFormat == ZSTD
                        && codecs.parse(output) == Parsed(r.value.content)
                        && r.value.contentLength == |output| && r.value.length == length))
            && (codecs.unwrap(stream).ZstdException? && stream != [] && codecs.unwrap(stream[1..]).ZstdException? ==>
                  r == Err(ZstdFailure))
  {
    var header := EncodeHeader(typeBytes, filler, ZstdTag);
    var tail := [lead, gap] + stream;
    var t := start + |header|;
    var length := |typeBytes| + 9 + |stream|;
    HeaderThenBody(file, start, header, tail);
    ZstdTagSpellsZstd();
    ReadHeaderAt(file, start, typeBytes, filler, ZstdTag);
    assert ReadHeader(file, start) == Ok(Header(Latin1(typeBytes), ZSTD, t));
    assert WrapInt32(start + length) == t + 2 + |stream|;
    StreamAt(file, t, lead, gap, stream);
    match codecs.unwrap(stream)
    case Unwrapped(output) =>
      ResponseOfBody(file, start, length, codecs, Latin1(typeBytes), ZSTD, t, output, 0);
    case ZstdException =>
      if stream != [] {
        match codecs.unwrap(stream[1..])
        case Unwrapped(output) =>
          ResponseOfBody(file, start, length, codecs, Latin1(typeBytes), ZSTD, t, output, |output|);
        case ZstdException =>
          ResponseFromBody(file, start, length, codecs);
      }
  }

  /** Where the ZSTD decoder's two attempts find a stream laid out 2 bytes after `t`. */
  lemma StreamAt(file: seq<Byte>, t: int, lead: Byte, gap: Byte, stream: seq<Byte>)
    requires 0 <= t && t + 2 + |stream| <= |file|
    requires file[t .. t + 2 + |stream|] == [lead, gap] + stream
    ensures file[t + 2 .. t + 2 + |stream|] == stream
    ensures stream != [] ==> file[t + 3 .. t + 2 + |stream|] == stream[1..]
  {
    var tail := [lead, gap] + stream;
    assert tail[2 ..] == stream;
    SliceInside(file, t, tail, 2, |tail|);
    if stream != [] {
      assert tail[3 ..] == stream[1..];
      SliceInside(file, t, tail, 3, |tail|);
    }
  }

  /** An LZ4 response stored uncompressed, as a writer lays it out at `start`: the
      header with tag "lz4", one filler byte, the sentinel, eight filler bytes and the
      JSON text up to the response's end. It is read back with its type, the LZ4
      format, the parsed text as content and the text's size as `ContentLength`. */
  lemma Lz4StoredRoundTrip(file: seq<Byte>, start: int, typeBytes: seq<Byte>, filler: Byte, lead: Byte,
                           pad: seq<Byte>, text: seq<Byte>, codecs: Codecs)
    requires |typeBytes| < 0x100 && |pad| == 8
    requires 0 <= start && IsInt32(start + |typeBytes| + 16 + |text|)
    requires start + |typeBytes| + 16 + |text| <= |file|
    requires file[start .. start + |typeBytes| + 16 + |text|]
             == EncodeHeader(typeBytes, filler, Lz4Tag) + ([lead, MagicLz4Byte] + pad + text)
    ensures var length := |typeBytes| + 16 + |text|;
            var r := ResponseAt(file, start, length, codecs);
            && (r.Ok? <==> codecs.parse(text).Parsed? && TryGetDateTime(codecs.parse(text).properties, codecs).Ok?)
            && (r.Ok? ==>
                  && r.value.typeName == Latin1(typeBytes) && r.value.compressionFormat == LZ4
                  && codecs.parse(text) == Parsed(r.value.content)
                  && r.value.contentLength == |text| && r.value.length == length)
  {
    var header := EncodeHeader(typeBytes, filler, Lz4Tag);
    var tail := [lead, MagicLz4Byte] + pad + text;
    var t := start + |header|;
    HeaderThenBody(file, start, header, tail);
    Lz4TagSpellsLz4();
    ReadHeaderAt(file, start, typeBytes, filler, Lz4Tag);
    assert ReadHeader(file, start) == Ok(Header(Latin1(typeBytes), LZ4, t));
    assert WrapInt32(start + |typeBytes| + 16 + |text|) == t + 10 + |text|;
    StoredBodyAt(file, t, lead, pad, text, codecs);
    ResponseOfBody(file, start, |typeBytes| + 16 + |text|, codecs, Latin1(typeBytes), LZ4, t, text, |text|);
  }

  /** The body the LZ4 decoder takes from a stored body laid out from `t`: the parse of
      the text after the sentinel and eight more bytes, with the text's size as
      `ContentLength`. */
  lemma StoredBodyAt(file: seq<Byte>, t: int, lead: Byte, pad: seq<Byte>, text: seq<Byte>, codecs: Codecs)
    requires |pad| == 8 && 0 <= t && t + 10 + |text| <= |file|
    requires file[t .. t + 10 + |text|] == [lead, MagicLz4Byte] + pad + text
    ensures var body := Lz4Body(file, t, t + 10 + |text|, codecs);
            && (body.Ok? <==> codecs.parse(text).Parsed?)
            && (body.Ok? ==> body.value == Body(codecs.parse(text).properties, |text|))
  {
    var tail := [lead, MagicLz4Byte] + pad + text;
    assert tail[10 ..] == text;
    SliceInside(file, t, tail, 10, |tail|);
    assert file[t + 1] == tail[1];
  }

  /** An LZ4 response compressed as a writer lays it out at `start`: the header with
      tag "lz4", one filler byte, a byte other than the sentinel, one more filler
      byte, the decompressed and compressed lengths as little-endian `int`s and the
      compressed data up to the response's end, with a decompressed length that a
      byte array can have. The decoder is given exactly the first compressed-length
      bytes of the data and a buffer of the decompressed length, which is also the
      `ContentLength`. */
  lemma Lz4CompressedRoundTrip(file: seq<Byte>, start: int, typeBytes: seq<Byte>, filler: Byte, lead: Byte,
                               marker: Byte, gap: Byte, decompressedLength: int, compressedLength: int,
                               data: seq<Byte>, codecs: Codecs)
    requires |typeBytes| < 0x100 && marker != MagicLz4Byte
    requires 0 <= decompressedLength <= MaxArrayLength
    requires 0 <= compressedLength <= |data|
    requires 0 <= start && IsInt32(start + |typeBytes| + 17 + |data|)
    requires start + |typeBytes| + 17 + |data| <= |file|
    requires file[start .. start + |typeBytes| + 17 + |data|]
             == EncodeHeader(typeBytes, filler, Lz4Tag)
                + ([lead, marker, gap] + EncodeInt32LE(decompressedLength) + EncodeInt32LE(compressedLength) + data)
    ensures var length := |typeBytes| + 17 + |data|;
            var buffer := IntoBuffer(codecs.lz4Decode(data[..compressedLength], decompressedLength), decompressedLength);
            var r := ResponseAt(file, start, length, codecs);
            && (r.Ok? <==> codecs.parse(buffer).Parsed? && TryGetDateTime(codecs.parse(buffer).properties, codecs).Ok?)
            && (r.Ok? ==>
                  && r.value.typeName == Latin1(typeBytes) && r.value.compressionFormat == LZ4
                  && codecs.parse(buffer) == Parsed(r.value.content)
                  && r.value.contentLength == decompressedLength && r.value.length == length)
  {
    var header := EncodeHeader(typeBytes, filler, Lz4Tag);
    var tail := [lead, marker, gap] + EncodeInt32LE(decompressedLength) + EncodeInt32LE(compressedLength) + data;
    var t := start + |header|;
    HeaderThenBody(file, start, header, tail);
    Lz4TagSpellsLz4();
    ReadHeaderAt(file, start, typeBytes, filler, Lz4Tag);
    assert ReadHeader(file, start) == Ok(Header(Latin1(typeBytes), LZ4, t));
    assert WrapInt32(start + |typeBytes| + 17 + |data|) == t + 11 + |data|;
    CompressedBodyAt(file, t, lead, marker, gap, decompressedLength, compressedLength, data, codecs);
    var buffer := IntoBuffer(codecs.lz4Decode(data[..compressedLength], decompressedLength), decompressedLength);
    ResponseOfBody(file, start, |typeBytes| + 17 + |data|, codecs, Latin1(typeBytes), LZ4, t, buffer, decompressedLength);
  }

  /** Bytes at `start` that are a header followed by a body hold each at its place. */
  lemma HeaderThenBody(file: seq<Byte>, start: int, header: seq<Byte>, body: seq<Byte>)
    requires 0 <= start && start + |header| + |body| <= |file|
    requires file[start .. start + |header| + |body|] == header + body
    ensures file[start .. start + |header|] == header
    ensures file[start + |header| .. start + |header| + |body|] == body
  {
    var whole := header + body;
    assert whole[0 .. |header|] == header && whole[|header| .. |whole|] == body;
    SliceInside(file, start, whole, 0, |header|);
    SliceInside(file, start, whole, |header|, |whole|);
  }

  /** A header of format `format` followed by a body that is the parse of `decoded`
      makes the response of that parse, with `contentLength` as its `ContentLength`. */
  lemma ResponseOfBody(file: seq<Byte>, start: int, length: int, codecs: Codecs, typeName: string,
                       format: CompressionFormat, t: int, decoded: seq<Byte>, contentLength: int)
    requires ReadHeader(file, start) == Ok(Header(typeName, format, t))
    requires var end := WrapInt32(start + length);
             var body := if format == ZSTD then ZstdBody(file, t, end, codecs) else Lz4Body(file, t, end, codecs);
             && (body.Ok? <==> codecs.parse(decoded).Parsed?)
             && (body.Ok? ==> body.value == Body(codecs.parse(decoded).properties, contentLength))
    ensures var r := ResponseAt(file, start, length, codecs);
            && (r.Ok? <==> codecs.parse(decoded).Parsed? && TryGetDateTime(codecs.parse(decoded).properties, codecs).Ok?)
            && (r.Ok? ==>
                  && r.value.typeName == typeName && r.value.compressionFormat == format
                  && codecs.parse(decoded) == Parsed(r.value.content)
                  && r.value.contentLength == contentLength && r.value.length == length)
  {
    ResponseFromBody(file, start, length, codecs);
  }

  /** The body the LZ4 decoder takes from a compressed body laid out from `t`: the
      parse of a buffer of the decompressed length, filled from the first
      compressed-length bytes of the data, with that length as `ContentLength`. */
  lemma CompressedBodyAt(file: seq<Byte>, t: int, lead: Byte, marker: Byte, gap: Byte,
                          decompressedLength: int, compressedLength: int, data: seq<Byte>, codecs: Codecs)
    requires marker != MagicLz4Byte
    requires 0 <= decompressedLength <= MaxArrayLength
    requires IsInt32(compressedLength) && 0 <= compressedLength <= |data|
    requires 0 <= t && t + 11 + |data| <= |file|
    requires file[t .. t + 11 + |data|]
             == [lead, marker, gap] + EncodeInt32LE(decompressedLength) + EncodeInt32LE(compressedLength) + data
    ensures var buffer := IntoBuffer(codecs.lz4Decode(data[..compressedLength], decompressedLength), decompressedLength);
            var body := Lz4Body(file, t, t + 11 + |data|, codecs);
            && (body.Ok? <==> codecs.parse(buffer).Parsed?)
            && (body.Ok? ==> body.value == Body(codecs.parse(buffer).properties, decompressedLength))
  {
    Lz4CompressedLayout(file, t, lead, marker, gap, decompressedLength, compressedLength, data);
  }

  /** Where the LZ4 decoder finds the fields of a compressed body laid out from `t`:
      the marker one byte after `t`, the two lengths read back from their encodings,
      and the compressed-length bytes of the data from 11 after `t`. */
  lemma Lz4CompressedLayout(file: seq<Byte>, t: int, lead: Byte, marker: Byte, gap: Byte,
                            decompressedLength: int, compressedLength: int, data: seq<Byte>)
    requires IsInt32(decompressedLength) && IsInt32(compressedLength) && 0 <= compressedLength <= |data|
    requires 0 <= t && t + 11 + |data| <= |file|
    requires file[t .. t + 11 + |data|]
             == [lead, marker, gap] + EncodeInt32LE(decompressedLength) + EncodeInt32LE(compressedLength) + data
    ensures file[t + 1] == marker
    ensures Int32LE(file[t + 3], file[t + 4], file[t + 5], file[t + 6]) == decompressedLength
    ensures Int32LE(file[t + 7], file[t + 8], file[t + 9], file[t + 10]) == compressedLength
    ensures file[t + 11 .. t + 11 + |data|][..compressedLength] == data[..compressedLength]
  {
    var dl, cl := EncodeInt32LE(decompressedLength), EncodeInt32LE(compressedLength);
    var tail := [lead, marker, gap] + dl + cl + data;
    assert tail[3 .. 7] == dl && tail[7 .. 11] == cl && tail[11 ..] == data;
    SliceInside(file, t, tail, 3, 7);
    SliceInside(file, t, tail, 7, 11);
    SliceInside(file, t, tail, 11, |tail|);
    assert file[t + 1] == tail[1];
    Int32LERoundTrip(decompressedLength);
    Int32LERoundTrip(compressedLength);
    assert file[t + 3] == dl[0] && file[t + 4] == dl[1] && file[t + 5] == dl[2] && file[t + 6] == dl[3];
    assert file[t + 7] == cl[0] && file[t + 8] == cl[1] && file[t + 9] == cl[2] && file[t + 10] == cl[3];
  }
}
