/** The aws-chunked encoder, and when decoding undoes it. */
module ChunkedEncoder {
  import opened Basics
  import opened Bytes
  import opened ChunkedFormat
  import opened ChunkedWhole
  import opened ChunkedStream
  import opened ChunkedAgreement

  /** `"0".repeat(n)`. */
  function Zeros(n: nat): (s: seq<Byte>)
    ensures |s| == n && forall i :: 0 <= i < n ==> s[i] == 48
  {
    if n == 0 then [] else [48] + Zeros(n - 1)
  }

  const SIGNATURE_LABEL: seq<Byte> := [99, 104, 117, 110, 107, 45, 115, 105, 103, 110, 97, 116, 117, 114, 101, 61]

  /** `chunk-signature=` and the placeholder signature. */
  function Signature(): seq<Byte> { SIGNATURE_LABEL + Zeros(64) }

  function ChunkHeader(n: nat): seq<Byte> { ToHex(n) + [SEMICOLON] + Signature() }

  function TrailerLine(t: Trailer): seq<Byte> { t.key + [COLON] + t.value }

  function TrailerLinesOf(ts: seq<Trailer>): (lines: seq<seq<Byte>>)
    ensures |lines| == |ts| && forall i :: 0 <= i < |ts| ==> lines[i] == TrailerLine(ts[i])
  {
    seq(|ts|, i requires 0 <= i < |ts| => TrailerLine(ts[i]))
  }

  function EncodedChunks(data: seq<Byte>, chunkSize: nat): seq<Chunk>
    requires chunkSize > 0
  {
    if data == [] then []
    else
      var k := Min(|data|, chunkSize);
      [Chunk(ChunkHeader(k), data[..k])] + EncodedChunks(data[k..], chunkSize)
  }

  function EncodedFrame(data: seq<Byte>, chunkSize: nat, trailers: seq<Trailer>): Frame
    requires chunkSize > 0
  {
    Frame(EncodedChunks(data, chunkSize), ChunkHeader(0), TrailerLinesOf(trailers))
  }

  lemma EmptyPrints()
    ensures RenderChunks([]) == [] && RenderLines([]) == []
  {
  }

  lemma EncodedNothing(chunkSize: nat)
    requires chunkSize > 0
    ensures EncodedChunks([], chunkSize) == []
  {
  }

  lemma EncodedChunksAt(done: seq<Chunk>, data: seq<Byte>, offset: nat, chunkSize: nat)
    requires offset < |data| && chunkSize > 0
    ensures var k := Min(|data| - offset, chunkSize);
      var c := Chunk(ChunkHeader(k), data[offset..offset + k]);
      done + EncodedChunks(data[offset..], chunkSize) == (done + [c]) + EncodedChunks(data[offset + k..], chunkSize)
  {
    hide ChunkHeader;
    var k := Min(|data| - offset, chunkSize);
    assert data[offset..][..k] == data[offset..offset + k] && data[offset..][k..] == data[offset + k..];
  }

  /** `encode_aws_chunked_with_trailers`. */
  method Encode(data: seq<Byte>, chunkSize: nat, trailers: seq<Trailer>) returns (result: seq<Byte>)
    requires chunkSize > 0
    ensures result == Render(EncodedFrame(data, chunkSize, trailers))
  {
    hide ChunkHeader, TrailerLine, RenderChunks, RenderLines, EncodedChunks;
    ghost var f := EncodedFrame(data, chunkSize, trailers);
    ghost var done: seq<Chunk> := [];
    result := [];
    var offset: nat := 0;
    EmptyPrints();
    assert data[0..] == data && [] + f.chunks == f.chunks;
    while offset < |data|
      invariant offset <= |data|
      invariant result == RenderChunks(done)
      invariant f.chunks == done + EncodedChunks(data[offset..], chunkSize)
    {
      var remaining := |data| - offset;
      var k := Min(remaining, chunkSize);
      var chunk := data[offset..offset + k];
      ghost var c := Chunk(ChunkHeader(k), chunk);
      RenderSnoc(done, c);
      EncodedChunksAt(done, data, offset, chunkSize);
      done := done + [c];
      result := result + ((ChunkHeader(k) + CRLF) + (chunk + CRLF));
      offset := offset + k;
    }
    assert data[offset..] == [] && done + [] == done;
    EncodedNothing(chunkSize);
    var tail: seq<Byte> := [];
    assert f.lines[..0] == [];
    for i := 0 to |trailers|
      invariant tail == RenderLines(f.lines[..i])
    {
      RenderLinesSnoc(f.lines[..i], f.lines[i]);
      assert f.lines[..i + 1] == f.lines[..i] + [f.lines[i]];
      tail := tail + (TrailerLine(trailers[i]) + CRLF);
    }
    assert f.lines[..|trailers|] == f.lines;
    result := result + (ChunkHeader(0) + CRLF + (tail + CRLF));
  }

  lemma {:induction false} RenderLinesSnoc(lines: seq<seq<Byte>>, line: seq<Byte>)
    ensures RenderLines(lines + [line]) == RenderLines(lines) + (line + CRLF)
  {
    if lines == [] {
      assert lines + [line] == [line];
    } else {
      assert (lines + [line])[1..] == lines[1..] + [line];
      RenderLinesSnoc(lines[1..], line);
    }
  }

  // ---- Headers ----

  ghost predicate PlainText(s: seq<Byte>) { forall i :: 0 <= i < |s| ==> 32 <= s[i] < 0x80 }

  /** A hexadecimal size, a semicolon and any plain text is a header of that size. */
  lemma HeaderOfSize(n: nat, extension: seq<Byte>)
    requires n <= USIZE_MAX && PlainText(extension)
    ensures var h := ToHex(n) + [SEMICOLON] + extension; HeaderSize(h) == Ok(n) && NoCrlf(h)
  {
    hide Trim, HexValue, ToHex;
    var hex := ToHex(n);
    var h := hex + [SEMICOLON] + extension;
    assert forall i :: 0 <= i < |hex| ==> IsHex(hex[i]);
    assert PlainText(h);
    AsciiIsUtf8(h);
    IndexOfFirst(hex, SEMICOLON, extension);
    assert h[..|hex|] == hex;
    HexIsTrimmed(hex);
  }

  lemma SignatureIsPlain()
    ensures PlainText(Signature())
  {
  }

  lemma Pow16Step(k: nat)
    ensures Pow16(k + 4) == 65536 * Pow16(k)
  {
    assert Pow16(k + 4) == 16 * Pow16(k + 3) && Pow16(k + 3) == 16 * Pow16(k + 2);
    assert Pow16(k + 2) == 16 * Pow16(k + 1) && Pow16(k + 1) == 16 * Pow16(k);
  }

  lemma HeaderLength(n: nat)
    requires n <= USIZE_MAX
    ensures |ChunkHeader(n)| <= LINE_CAP
  {
    hide ToHex, Zeros;
    Pow16Step(0);
    Pow16Step(4);
    Pow16Step(8);
    Pow16Step(12);
    ToHexLength(n, 16, Pow16(16));
  }

  // ---- Chunks ----

  lemma {:induction false} EncodedChunksOk(data: seq<Byte>, chunkSize: nat)
    requires chunkSize > 0 && |data| <= USIZE_MAX
    ensures var cs := EncodedChunks(data, chunkSize);
      && ChunkData(cs) == data
      && forall i :: 0 <= i < |cs| ==> ChunkOk(cs[i]) && |cs[i].header| <= LINE_CAP && |cs[i].data| <= chunkSize
    decreases |data|
  {
    hide HeaderSize, NoCrlf, ToHex;
    if data != [] {
      var k := Min(|data|, chunkSize);
      SignatureIsPlain();
      HeaderOfSize(k, Signature());
      HeaderLength(k);
      EncodedChunksOk(data[k..], chunkSize);
      var cs := EncodedChunks(data, chunkSize);
      assert cs[1..] == EncodedChunks(data[k..], chunkSize);
      assert forall i :: 0 < i < |cs| ==> cs[i] == cs[1..][i - 1];
    }
  }

  /** The chunks cut the data into parts of the size asked for, the last one possibly shorter, and
      each header carries the size of its own part. */
  lemma {:induction false} ChunksAreFull(data: seq<Byte>, chunkSize: nat)
    requires chunkSize > 0
    ensures var cs := EncodedChunks(data, chunkSize);
      && (forall i :: 0 <= i < |cs| ==> 0 < |cs[i].data| <= chunkSize && cs[i].header == ChunkHeader(|cs[i].data|))
      && (forall i :: 0 <= i < |cs| - 1 ==> |cs[i].data| == chunkSize)
      && (data == [] <==> cs == [])
    decreases |data|
  {
    hide ChunkHeader;
    if data != [] {
      var k := Min(|data|, chunkSize);
      ChunksAreFull(data[k..], chunkSize);
      var cs := EncodedChunks(data, chunkSize);
      assert forall i :: 0 < i < |cs| ==> cs[i] == EncodedChunks(data[k..], chunkSize)[i - 1];
    }
  }

  /** The placeholder is the label and sixty-four zeros. */
  lemma SignatureText()
    ensures |Signature()| == 16 + 64
    ensures forall i :: 0 <= i < 16 ==> Signature()[i] == "chunk-signature="[i] as int
    ensures forall i :: 16 <= i < 80 ==> Signature()[i] == '0' as int
  {
  }

  // ---- Trailers ----

  /** What a trailer must be for its line to be read back as one line, cut at the right colon. */
  ghost predicate Readable(t: Trailer) { COLON !in t.key && NoCrlf(t.key) && NoCrlf(t.value) }

  predicate IsText(t: Trailer) { ValidUtf8(t.key) && ValidUtf8(t.value) }

  function Trimmed(ts: seq<Trailer>): (r: seq<Trailer>)
    ensures |r| == |ts| && forall i :: 0 <= i < |ts| ==> r[i] == Trailer(Trim(ts[i].key), Trim(ts[i].value))
  {
    seq(|ts|, i requires 0 <= i < |ts| => Trailer(Trim(ts[i].key), Trim(ts[i].value)))
  }

  lemma SpaceIsNotColon(s: seq<Byte>)
    ensures forall i :: 0 <= i < SpaceAtStart(s) ==> s[i] != COLON
    ensures forall i :: |s| - SpaceAtEnd(s) <= i < |s| ==> s[i] != COLON
  {
  }

  lemma {:induction false} TrimStartColon(s: seq<Byte>)
    ensures COLON in s <==> COLON in TrimStart(s)
    decreases |s|
  {
    hide SpaceAtStart;
    var n := SpaceAtStart(s);
    SpaceIsNotColon(s);
    if n > 0 {
      TrimStartColon(s[n..]);
      assert s == s[..n] + s[n..];
    }
  }

  lemma {:induction false} TrimEndColon(s: seq<Byte>)
    ensures COLON in s <==> COLON in TrimEnd(s)
    decreases |s|
  {
    hide SpaceAtEnd;
    var k := |s| - SpaceAtEnd(s);
    SpaceIsNotColon(s);
    if k < |s| {
      TrimEndColon(s[..k]);
      assert s == s[..k] + s[k..];
    }
  }

  lemma LineReadsBack(t: Trailer)
    requires IsText(t) && COLON !in t.key
    ensures LineTrailer(TrailerLine(t)) == Ok(Trailer(Trim(t.key), Trim(t.value)))
  {
    hide Trim, IndexOf;
    assert ValidUtf8([COLON]) by {
      AsciiIsUtf8([COLON]);
    }
    ValidUtf8Concat(t.key, [COLON]);
    ValidUtf8Concat(t.key + [COLON], t.value);
    IndexOfFirst(t.key, COLON, t.value);
    var line := TrailerLine(t);
    assert line[..|t.key|] == t.key && line[|t.key| + 1..] == t.value;
  }

  lemma ColonInKeyIsLost(t: Trailer)
    requires COLON in t.key
    ensures LineTrailer(TrailerLine(t)) != Ok(Trailer(Trim(t.key), Trim(t.value)))
  {
    var line := TrailerLine(t);
    var i := IndexOf(line, COLON).value;
    TrimStartColon(t.key);
    TrimEndColon(TrimStart(t.key));
    TrimStartColon(line[..i]);
    TrimEndColon(TrimStart(line[..i]));
  }

  lemma LineHasNoCrlf(t: Trailer)
    ensures NoCrlf(TrailerLine(t)) <==> NoCrlf(t.key) && NoCrlf(t.value)
  {
    var line, k := TrailerLine(t), |t.key| + 1;
    assert line == t.key + [COLON] + t.value;
    forall i ensures CrlfAt(t.key, i) ==> CrlfAt(line, i) {
    }
    forall i ensures CrlfAt(t.value, i) ==> CrlfAt(line, k + i) {
    }
    forall i ensures CrlfAt(line, i) ==> CrlfAt(t.key, i) || CrlfAt(t.value, i - k) {
      if CrlfAt(line, i) && i > |t.key| {
        assert line[i] == t.value[i - k] && line[i + 1] == t.value[i + 1 - k];
      }
    }
  }

  // ---- Counting line ends ----

  function CrlfCount(s: seq<Byte>): nat {
    if |s| < 2 then 0 else (if CrlfAt(s, 0) then 1 else 0) + CrlfCount(s[1..])
  }

  lemma {:induction false} CrlfCountLine(a: seq<Byte>, b: seq<Byte>)
    ensures CrlfCount(a + CRLF + b) == CrlfCount(a) + 1 + CrlfCount(b)
    decreases |a|
  {
    var s := a + CRLF + b;
    if a == [] {
      assert s[1..] == [LF] + b && s[1..][1..] == b;
    } else {
      assert s[1..] == a[1..] + CRLF + b;
      CrlfCountLine(a[1..], b);
    }
  }

  lemma {:induction false} CrlfCountZero(s: seq<Byte>)
    ensures CrlfCount(s) == 0 <==> NoCrlf(s)
    decreases |s|
  {
    if |s| >= 2 {
      CrlfCountZero(s[1..]);
      forall i ensures i > 0 ==> (CrlfAt(s, i) <==> CrlfAt(s[1..], i - 1)) {
      }
      forall i ensures CrlfAt(s[1..], i) ==> CrlfAt(s, i + 1) {
      }
    }
  }

  lemma {:induction false} CrlfCountLines(lines: seq<seq<Byte>>)
    ensures CrlfCount(RenderLines(lines)) >= |lines|
    ensures CrlfCount(RenderLines(lines)) == |lines| <==> forall i :: 0 <= i < |lines| ==> NoCrlf(lines[i])
    decreases |lines|
  {
    hide NoCrlf;
    if lines != [] {
      CrlfCountLine(lines[0], RenderLines(lines[1..]));
      CrlfCountZero(lines[0]);
      CrlfCountLines(lines[1..]);
      assert forall i :: 0 < i < |lines| ==> lines[i] == lines[1..][i - 1];
    }
  }

  lemma {:induction false} LinesAreDetermined(a: seq<seq<Byte>>, b: seq<seq<Byte>>)
    requires RenderLines(a) == RenderLines(b) && |a| == |b|
    requires forall i :: 0 <= i < |a| ==> NoCrlf(a[i])
    requires forall i :: 0 <= i < |b| ==> NoCrlf(b[i])
    ensures a == b
    decreases |a|
  {
    hide SplitLine, NoCrlf;
    if a != [] {
      SplitLineComplete(a[0], RenderLines(a[1..]));
      SplitLineComplete(b[0], RenderLines(b[1..]));
      LinesAreDetermined(a[1..], b[1..]);
      assert a == [a[0]] + a[1..] && b == [b[0]] + b[1..];
    }
  }

  lemma {:induction false} LineTrailersAt(lines: seq<seq<Byte>>)
    requires LinesOk(lines)
    ensures |LineTrailers(lines)| == |lines|
    ensures forall i :: 0 <= i < |lines| ==> LineTrailers(lines)[i] == LineTrailer(lines[i]).value
  {
    hide LineTrailer;
    if lines != [] {
      LineTrailersAt(lines[1..]);
      assert forall i :: 0 < i < |lines| ==> lines[i] == lines[1..][i - 1];
    }
  }

  // ---- The round trip ----

  ghost predicate AllReadable(ts: seq<Trailer>) { forall i :: 0 <= i < |ts| ==> Readable(ts[i]) }

  predicate AllText(ts: seq<Trailer>) { forall i :: 0 <= i < |ts| ==> IsText(ts[i]) }

  lemma ReadableLines(ts: seq<Trailer>)
    requires AllText(ts) && AllReadable(ts)
    ensures var lines := TrailerLinesOf(ts);
      LinesOk(lines) && (forall i :: 0 <= i < |lines| ==> NoCrlf(lines[i])) && LineTrailers(lines) == Trimmed(ts)
  {
    hide LineTrailer, Trim, TrailerLine, NoCrlf;
    var lines := TrailerLinesOf(ts);
    forall i | 0 <= i < |ts|
      ensures NoCrlf(lines[i]) && LineTrailer(lines[i]) == Ok(Trimmed(ts)[i])
    {
      assert Readable(ts[i]);
      LineReadsBack(ts[i]);
      LineHasNoCrlf(ts[i]);
    }
    LineTrailersAt(lines);
  }

  lemma OnlyReadableLines(ts: seq<Trailer>, lines: seq<seq<Byte>>)
    requires LinesOk(lines) && forall i :: 0 <= i < |lines| ==> NoCrlf(lines[i])
    requires RenderLines(lines) == RenderLines(TrailerLinesOf(ts)) && LineTrailers(lines) == Trimmed(ts)
    ensures AllReadable(ts)
  {
    hide LineTrailer, Trim, TrailerLine, NoCrlf, RenderLines;
    LineTrailersAt(lines);
    var own := TrailerLinesOf(ts);
    CrlfCountLines(lines);
    CrlfCountLines(own);
    LinesAreDetermined(lines, own);
    forall i | 0 <= i < |ts| ensures Readable(ts[i]) {
      LineHasNoCrlf(ts[i]);
      assert LineTrailer(own[i]) == Ok(Trimmed(ts)[i]);
      if COLON in ts[i].key {
        ColonInKeyIsLost(ts[i]);
      }
    }
  }

  /** Decoding an encoded body gives back the data, and the trailers trimmed, exactly when every
      trailer is readable and the trailer lines fit the cap; whatever the data contains. */
  lemma DecodeUndoesEncode(data: seq<Byte>, chunkSize: nat, trailers: seq<Trailer>)
    requires chunkSize > 0 && |data| <= USIZE_MAX && AllText(trailers)
    ensures Decode(Render(EncodedFrame(data, chunkSize, trailers))) == Ok(Decoded(data, Trimmed(trailers))) <==>
      AllReadable(trailers) && |RenderLines(TrailerLinesOf(trailers))| <= 8192
  {
    hide HeaderSize, LineTrailer, TrailerLines, Parse, RenderLines, NoCrlf;
    hide AllReadable, AllText, Trimmed, LineTrailers, EncodedChunks, ToHex;
    var f := EncodedFrame(data, chunkSize, trailers);
    var body, tail := Render(f), RenderLines(f.lines) + CRLF;
    EncodedChunksOk(data, chunkSize);
    SignatureIsPlain();
    HeaderOfSize(0, Signature());
    ParseChunksThen(f, tail, |body|);
    if AllReadable(trailers) && |RenderLines(f.lines)| <= MAX_TRAILER_SECTION_BYTES {
      ReadableLines(trailers);
      TrailerLinesComplete(f.lines, [], 0);
      assert tail + [] == tail;
    }
    if Decode(body) == Ok(Decoded(data, Trimmed(trailers))) {
      TrailerLinesSound(tail, 0);
      var lines := TrailerLines(tail, 0).value.lines;
      assert (RenderLines(lines) + CRLF + [])[..|tail| - 2] == RenderLines(lines);
      assert tail[..|tail| - 2] == RenderLines(f.lines);
      OnlyReadableLines(trailers, lines);
      LinesWithinCap(lines);
    }
  }

  lemma LinesWithinCap(lines: seq<seq<Byte>>)
    requires lines != [] ==> |RenderLines(lines)| <= MAX_TRAILER_SECTION_BYTES
    ensures |RenderLines(lines)| <= MAX_TRAILER_SECTION_BYTES
  {
  }

  /** The same for the incremental decoder under every slicing, with its own cap. */
  lemma StreamingUndoesEncode(data: seq<Byte>, chunkSize: nat, trailers: seq<Trailer>, slices: seq<seq<Byte>>)
    requires chunkSize > 0 && |data| <= USIZE_MAX && AllText(trailers)
    requires Flatten(slices) == Render(EncodedFrame(data, chunkSize, trailers))
    ensures StreamDecode(slices) == Ok(Decoded(data, Trimmed(trailers))) <==>
      AllReadable(trailers) && |RenderLines(TrailerLinesOf(trailers))| <= 8191
  {
    hide HeaderSize, LineTrailer, Parse, RenderLines, NoCrlf, AllReadable, AllText, Trimmed, LineTrailers;
    hide Render, Flatten, StreamDecode, Decode, WellFormed, EncodedChunks, ToHex;
    var f, d := EncodedFrame(data, chunkSize, trailers), Decoded(data, Trimmed(trailers));
    DecodeUndoesEncode(data, chunkSize, trailers);
    DecodersAgree(slices, d);
    if AllReadable(trailers) && |RenderLines(f.lines)| <= MAX_TRAILER_SECTION_BYTES {
      EncodedIsWellFormed(data, chunkSize, trailers);
      ParseComplete(f, |Render(f)|);
      EncodedChunksOk(data, chunkSize);
      HeaderLength(0);
    }
  }

  lemma EncodedIsWellFormed(data: seq<Byte>, chunkSize: nat, trailers: seq<Trailer>)
    requires chunkSize > 0 && |data| <= USIZE_MAX && AllText(trailers)
    requires AllReadable(trailers) && |RenderLines(TrailerLinesOf(trailers))| <= MAX_TRAILER_SECTION_BYTES
    ensures WellFormed(EncodedFrame(data, chunkSize, trailers))
  {
    hide HeaderSize, LineTrailer, RenderLines, NoCrlf, AllReadable, AllText, EncodedChunks, ToHex;
    EncodedChunksOk(data, chunkSize);
    SignatureIsPlain();
    HeaderOfSize(0, Signature());
    ReadableLines(trailers);
  }

  /** The two decoders do differ: an extension can make a header line too long for the
      incremental decoder under every slicing, while the whole-buffer decoder accepts it. */
  lemma LongHeaderSplitsTheDecoders(slices: seq<seq<Byte>>)
    requires Flatten(slices) == Render(Frame([], ToHex(0) + [SEMICOLON] + Zeros(MAX_TRAILER_SECTION_BYTES), []))
    ensures Decode(Flatten(slices)) == Ok(Decoded([], []))
    ensures StreamDecode(slices).Err?
  {
    hide HeaderSize, Parse, Render, Flatten, StreamDecode, NoCrlf, ToHex;
    var f := Frame([], ToHex(0) + [SEMICOLON] + Zeros(MAX_TRAILER_SECTION_BYTES), []);
    HeaderOfSize(0, Zeros(MAX_TRAILER_SECTION_BYTES));
    ParseComplete(f, |Render(f)|);
    if StreamDecode(slices).Ok? {
      DecodersAgree(slices, StreamDecode(slices).value);
    }
  }
}
