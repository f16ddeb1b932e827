/** When the incremental decoder and the whole-buffer decoder agree. */
module ChunkedAgreement {
  import opened Bytes
  import opened ChunkedFormat
  import opened ChunkedWhole
  import opened ChunkedStream

  /** The largest line, and the largest set of trailer lines, that fit the carry-over
      buffer: the buffer may hold 8192 bytes before the byte that completes it. */
  const LINE_CAP: nat := MAX_TRAILER_SECTION_BYTES - 1

  ghost predicate HeaderFits(h: seq<Byte>, size: nat) {
    NoCrlf(h) && HeaderSize(h) == Ok(size) && |h| <= LINE_CAP
  }

  ghost predicate ChunksFit(cs: seq<Chunk>) {
    forall i :: 0 <= i < |cs| ==> cs[i].data != [] && HeaderFits(cs[i].header, |cs[i].data|)
  }

  /** Every header line and the trailer lines together are within the streaming caps. */
  predicate WithinStreamingCaps(f: Frame) {
    && (forall i :: 0 <= i < |f.chunks| ==> |f.chunks[i].header| <= LINE_CAP)
    && |f.last| <= LINE_CAP
    && |RenderLines(f.lines)| <= LINE_CAP
  }

  /** No prefix of `buf` is a complete trailer section. */
  ghost predicate Unterminated(buf: seq<Byte>) {
    forall k :: 0 <= k <= |buf| ==> !EndsSection(buf[..k])
  }

  // ---- Soundness: a reading of the input so far explains every reachable state ----

  datatype Progress = Progress(chunks: seq<Chunk>, header: seq<Byte>, part: seq<Byte>, lines: seq<seq<Byte>>)

  ghost predicate Explains(p: Progress, s: Stream, input: seq<Byte>) {
    var before := RenderChunks(p.chunks);
    && ChunksFit(p.chunks)
    && (s.lineBuf != [] ==> s.state.Header? || s.state.Trailers?)
    && |s.lineBuf| <= MAX_TRAILER_SECTION_BYTES
    && s.out == ChunkData(p.chunks) + p.part
    && match s.state
       case Header => p.part == [] && NoCrlf(s.lineBuf) && input == before + s.lineBuf
       case Data(n) => HeaderFits(p.header, |p.part| + n) && input == before + (p.header + CRLF + p.part)
       case DataCrlf(seenCr) =>
         && p.part != [] && HeaderFits(p.header, |p.part|)
         && input == before + (p.header + CRLF + p.part + if seenCr then [CR] else [])
       case Trailers =>
         && p.part == [] && HeaderFits(p.header, 0) && Unterminated(s.lineBuf)
         && input == before + (p.header + CRLF + s.lineBuf)
       case Done =>
         var f := Frame(p.chunks, p.header, p.lines);
         && p.part == [] && WellFormed(f) && WithinStreamingCaps(f)
         && input == Render(f) && s.trailers == LineTrailers(p.lines)
  }

  lemma HeaderStep(p: Progress, s: Stream, input: seq<Byte>, b: Byte) returns (q: Progress)
    requires s.state.Header? && Explains(p, s, input) && Step(s, b).Ok?
    ensures Explains(q, Step(s, b).value, input + [b])
  {
    hide HeaderSize, RenderChunks, ChunkData, EndsSection;
    var buf := s.lineBuf + [b];
    var before := RenderChunks(p.chunks);
    assert input + [b] == before + buf;
    if EndsLine(buf) {
      var line := buf[..|buf| - 2];
      assert buf == line + CRLF;
      forall i ensures !CrlfAt(line, i) {
        assert !CrlfAt(s.lineBuf, i);
      }
      q := p.(header := line);
      assert before + buf == before + (line + CRLF + []);
      NothingIsUnterminated();
    } else {
      forall i ensures !CrlfAt(buf, i) {
        assert !CrlfAt(s.lineBuf, i);
      }
      q := p;
    }
  }

  lemma NothingIsUnterminated()
    ensures Unterminated([])
  {
  }

  lemma DataStep(p: Progress, s: Stream, input: seq<Byte>, b: Byte) returns (q: Progress)
    requires s.state.Data? && Explains(p, s, input)
    ensures Explains(q, Step(s, b).value, input + [b])
  {
    hide HeaderSize, RenderChunks, ChunkData, EndsSection;
    q := p.(part := p.part + [b]);
    assert s.out + [b] == ChunkData(p.chunks) + q.part;
    assert input + [b] == RenderChunks(p.chunks) + (p.header + CRLF + q.part + []);
    assert p.header + CRLF + q.part + [] == p.header + CRLF + q.part;
  }

  lemma DataCrlfStep(p: Progress, s: Stream, input: seq<Byte>, b: Byte) returns (q: Progress)
    requires s.state.DataCrlf? && Explains(p, s, input) && Step(s, b).Ok?
    ensures Explains(q, Step(s, b).value, input + [b])
  {
    hide HeaderSize, EndsSection, RenderChunks, ChunkData, EndsLine;
    var before := RenderChunks(p.chunks);
    if s.state.seenCr {
      var c := Chunk(p.header, p.part);
      RenderSnoc(p.chunks, c);
      q := p.(chunks := p.chunks + [c], part := []);
      assert input + [b] == before + RenderChunk(c) by {
        assert [CR] + [b] == CRLF;
        assert input + [b] == before + (p.header + CRLF + p.part + ([CR] + [b]));
        assert p.header + CRLF + p.part + CRLF == RenderChunk(c);
      }
      assert before + RenderChunk(c) + [] == before + RenderChunk(c);
      assert ChunkData(q.chunks) + [] == ChunkData(q.chunks);
    } else {
      q := p;
      assert input + [b] == before + (p.header + CRLF + p.part + [CR]);
    }
  }

  lemma {:induction false} RenderLinesEnd(lines: seq<seq<Byte>>)
    requires lines != []
    ensures CrlfAt(RenderLines(lines), |RenderLines(lines)| - 2)
  {
    if |lines| > 1 {
      RenderLinesEnd(lines[1..]);
    }
  }

  lemma SectionOfLines(lines: seq<seq<Byte>>)
    ensures EndsSection(RenderLines(lines) + CRLF)
  {
    if lines == [] {
      assert RenderLines(lines) + CRLF == CRLF;
    } else {
      RenderLinesEnd(lines);
    }
  }

  /** A section that has just been completed holds nothing after its terminal CRLF. */
  lemma SectionIsConsumed(lineBuf: seq<Byte>, b: Byte)
    requires Unterminated(lineBuf) && TrailerLines(lineBuf + [b], 0).Ok?
    ensures var lines := TrailerLines(lineBuf + [b], 0).value.lines; lineBuf + [b] == RenderLines(lines) + CRLF
  {
    hide LineTrailer, TrailerLines, RenderLines, EndsSection;
    var buf := lineBuf + [b];
    TrailerLinesSound(buf, 0);
    var section := TrailerLines(buf, 0).value;
    var read := RenderLines(section.lines) + CRLF;
    SectionOfLines(section.lines);
    assert buf == read + section.rest;
    ShorterPrefix(lineBuf, b, read, section.rest);
  }

  lemma ShorterPrefix(a: seq<Byte>, b: Byte, p: seq<Byte>, rest: seq<Byte>)
    requires a + [b] == p + rest
    ensures rest == [] || (|p| <= |a| && a[..|p|] == p)
  {
    assert rest != [] ==> a == (a + [b])[..|a|] == p + rest[..|rest| - 1];
  }

  lemma TrailersStep(p: Progress, s: Stream, input: seq<Byte>, b: Byte) returns (q: Progress)
    requires s.state.Trailers? && Explains(p, s, input) && Step(s, b).Ok?
    ensures Explains(q, Step(s, b).value, input + [b])
  {
    hide HeaderSize, RenderChunks, ChunkData, EndsSection, LineTrailer, TrailerLines, LineTrailers, RenderLines;
    var buf := s.lineBuf + [b];
    var before := RenderChunks(p.chunks);
    assert input + [b] == before + (p.header + CRLF + buf);
    if EndsSection(buf) {
      SectionIsConsumed(s.lineBuf, b);
      TrailerLinesSound(buf, 0);
      q := p.(lines := TrailerLines(buf, 0).value.lines);
    } else {
      forall k | 0 <= k <= |buf| ensures !EndsSection(buf[..k]) {
        assert buf[..k] == if k <= |s.lineBuf| then s.lineBuf[..k] else buf;
      }
      q := p;
    }
  }

  lemma StepExplained(p: Progress, s: Stream, input: seq<Byte>, b: Byte) returns (q: Progress)
    requires !s.state.Done? && Explains(p, s, input) && Step(s, b).Ok?
    ensures Explains(q, Step(s, b).value, input + [b])
  {
    hide Explains, Step;
    match s.state
    case Header => q := HeaderStep(p, s, input, b);
    case Data(_) => q := DataStep(p, s, input, b);
    case DataCrlf(_) => q := DataCrlfStep(p, s, input, b);
    case Trailers => q := TrailersStep(p, s, input, b);
  }

  lemma {:induction false} RunExplained(p: Progress, s: Stream, done: seq<Byte>, input: seq<Byte>) returns (q: Progress)
    requires Explains(p, s, done) && Run(s, input).Ok?
    ensures Explains(q, Run(s, input).value, done + input)
    decreases |input|
  {
    hide Explains, Step;
    if input == [] {
      q := p;
      assert done + input == done;
    } else {
      q := StepExplained(p, s, done, input[0]);
      q := RunExplained(q, Step(s, input[0]).value, done + [input[0]], input[1..]);
      assert done + [input[0]] + input[1..] == done + input;
    }
  }

  lemma StreamSound(body: seq<Byte>) returns (f: Frame)
    requires Run(START, body).Ok? && Run(START, body).value.state.Done?
    ensures WellFormed(f) && WithinStreamingCaps(f) && Render(f) == body
    ensures Meaning(f) == Decoded(Run(START, body).value.out, Run(START, body).value.trailers)
  {
    hide Run, WithinStreamingCaps, Render, WellFormed, LineTrailer, LineTrailers;
    var p := Progress([], [], [], []);
    assert Explains(p, START, []);
    p := RunExplained(p, START, [], body);
    assert [] + body == body && ChunkData(p.chunks) + [] == ChunkData(p.chunks);
    f := Frame(p.chunks, p.header, p.lines);
  }

  // ---- Completeness: every well-formed tree within the caps is read to its end ----

  function Fed(s: Stream, n: nat): Stream { s.(totalRaw := s.totalRaw + n) }

  lemma {:induction false} RunPartialLine(s: Stream, more: seq<Byte>)
    requires s.state.Header? && NoCrlf(s.lineBuf + more) && |s.lineBuf + more| <= MAX_TRAILER_SECTION_BYTES
    ensures Run(s, more) == Ok(Fed(s, |more|).(lineBuf := s.lineBuf + more))
    decreases |more|
  {
    hide EndHeader, EndTrailers, EndsSection;
    if more == [] {
      assert s.lineBuf + more == s.lineBuf;
    } else {
      var buf := s.lineBuf + [more[0]];
      assert buf + more[1..] == s.lineBuf + more;
      assert CrlfAt(buf, |buf| - 2) ==> CrlfAt(s.lineBuf + more, |buf| - 2);
      RunPartialLine(Fed(s, 1).(lineBuf := buf), more[1..]);
    }
  }

  lemma NoCrlfYet(line: seq<Byte>)
    requires NoCrlf(line)
    ensures NoCrlf(line + [CR])
  {
    forall i ensures !CrlfAt(line + [CR], i) {
      assert !CrlfAt(line, i);
    }
  }

  lemma LineEndsHere(t: Stream, line: seq<Byte>)
    requires t.state.Header? && t.lineBuf == line + [CR]
    ensures Step(t, LF) == EndHeader(Fed(t, 1).(lineBuf := line))
  {
    hide EndHeader;
    var buf := t.lineBuf + [LF];
    assert EndsLine(buf) && buf[..|line|] == line;
  }

  lemma RunHeaderLine(s: Stream, line: seq<Byte>)
    requires s.state.Header? && s.lineBuf == [] && NoCrlf(line) && |line| <= LINE_CAP
    ensures Run(s, line + CRLF) == EndHeader(Fed(s, |line| + 2).(lineBuf := line))
  {
    hide EndHeader, EndTrailers, EndsSection, EndsLine, Run, Step, NoCrlf, CrlfAt;
    var text := line + [CR];
    NoCrlfYet(line);
    assert [] + text == text;
    RunPartialLine(s, text);
    var t := Fed(s, |text|).(lineBuf := text);
    RunOne(t, LF);
    RunIsHomomorphic(s, text, [LF]);
    assert text + [LF] == line + CRLF;
    LineEndsHere(t, line);
  }

  /** The state after a header line announcing `n` data bytes. */
  function Opened(s: Stream, header: seq<Byte>, n: Positive): (t: Stream)
    requires s.state.Header? && s.lineBuf == []
    ensures t.state == Data(n)
  {
    Fed(s, |header| + 2).(state := Data(n))
  }

  /** The state after the last data bytes of a chunk and their CRLF. */
  function Closed(s: Stream, data: seq<Byte>): Stream {
    Fed(s, |data| + 2).(state := Header, decodedLen := s.decodedLen + |data|, out := s.out + data)
  }

  function AfterChunk(s: Stream, c: Chunk): Stream
    requires s.state.Header? && s.lineBuf == [] && c.data != []
  {
    Closed(Opened(s, c.header, |c.data|), c.data)
  }

  lemma RunDataHeader(s: Stream, header: seq<Byte>, n: Positive)
    requires s.state.Header? && s.lineBuf == [] && HeaderFits(header, n)
    ensures Run(s, header + CRLF) == Ok(Opened(s, header, n))
  {
    hide Run, HeaderSize;
    RunHeaderLine(s, header);
  }

  lemma RunDataEnd(s: Stream)
    requires s.state == DataCrlf(false)
    ensures Run(s, CRLF) == Ok(Fed(s, 2).(state := Header))
  {
    hide EndHeader, EndTrailers, EndsLine, EndsSection;
    var u := Fed(s, 1).(state := DataCrlf(true));
    assert Step(s, CR) == Ok(u) && Step(u, LF) == Ok(Fed(s, 2).(state := Header));
    assert CRLF[1..] == [LF] && [LF][1..] == [];
  }

  lemma RunChunkBody(s: Stream, data: seq<Byte>)
    requires s.state.Data? && s.state.remaining == |data|
    ensures Run(s, data + CRLF) == Ok(Closed(s, data))
  {
    hide Run, Step;
    var input := data + CRLF;
    RunData(s, input, |data|);
    assert input[..|data|] == data && input[|data|..] == CRLF;
    RunDataEnd(AfterData(s, data));
  }

  lemma RunChunk(s: Stream, c: Chunk)
    requires s.state.Header? && s.lineBuf == []
    requires c.data != [] && HeaderFits(c.header, |c.data|)
    ensures Run(s, RenderChunk(c)) == Ok(AfterChunk(s, c))
  {
    hide Run, HeaderFits, Opened, Closed;
    RunDataHeader(s, c.header, |c.data|);
    RunIsHomomorphic(s, c.header + CRLF, c.data + CRLF);
    RunChunkBody(Opened(s, c.header, |c.data|), c.data);
  }

  lemma {:induction false} RunChunks(s: Stream, cs: seq<Chunk>)
    requires s.state.Header? && s.lineBuf == [] && ChunksFit(cs)
    ensures Run(s, RenderChunks(cs)) ==
      Ok(Fed(s, |RenderChunks(cs)|).(decodedLen := s.decodedLen + |ChunkData(cs)|, out := s.out + ChunkData(cs)))
    decreases |cs|
  {
    hide Run, HeaderSize;
    if cs == [] {
      RunEmpty(s);
      assert s.out + [] == s.out;
    } else {
      RunChunk(s, cs[0]);
      RunChunks(AfterChunk(s, cs[0]), cs[1..]);
      RunIsHomomorphic(s, RenderChunk(cs[0]), RenderChunks(cs[1..]));
      assert s.out + cs[0].data + ChunkData(cs[1..]) == s.out + ChunkData(cs);
    }
  }

  lemma {:induction false} RunPartialSection(s: Stream, more: seq<Byte>)
    requires s.state.Trailers? && Unterminated(s.lineBuf + more) && |s.lineBuf + more| <= MAX_TRAILER_SECTION_BYTES
    ensures Run(s, more) == Ok(Fed(s, |more|).(lineBuf := s.lineBuf + more))
    decreases |more|
  {
    hide EndHeader, EndTrailers, EndsLine, EndsSection;
    if more == [] {
      assert s.lineBuf + more == s.lineBuf;
    } else {
      var buf := s.lineBuf + [more[0]];
      assert buf + more[1..] == s.lineBuf + more;
      assert (s.lineBuf + more)[..|buf|] == buf;
      RunPartialSection(Fed(s, 1).(lineBuf := buf), more[1..]);
    }
  }

  /** In a printed section, two CRLFs in a row are its end. */
  lemma {:induction false} NoEarlyBlankLine(lines: seq<seq<Byte>>, i: nat)
    requires forall j :: 0 <= j < |lines| ==> lines[j] != [] && NoCrlf(lines[j])
    requires CrlfAt(RenderLines(lines) + CRLF, i)
    ensures i == 0 ==> RenderLines(lines) == []
    ensures CrlfAt(RenderLines(lines) + CRLF, i + 2) ==> i + 4 == |RenderLines(lines)| + 2
    decreases |lines|
  {
    var section := RenderLines(lines) + CRLF;
    if lines != [] {
      var line, rest := lines[0], RenderLines(lines[1..]) + CRLF;
      assert section == line + CRLF + rest;
      assert !CrlfAt(line, i);
      if i >= |line| + 2 {
        var k := i - |line| - 2;
        assert CrlfAt(rest, k) && (CrlfAt(section, i + 2) ==> CrlfAt(rest, k + 2));
        NoEarlyBlankLine(lines[1..], k);
      } else if CrlfAt(section, i + 2) {
        assert i == |line| && CrlfAt(rest, 0);
        NoEarlyBlankLine(lines[1..], 0);
      }
    }
  }

  lemma SectionIsUnterminatedBefore(lines: seq<seq<Byte>>)
    requires forall j :: 0 <= j < |lines| ==> lines[j] != [] && NoCrlf(lines[j])
    ensures Unterminated(RenderLines(lines) + [CR])
  {
    hide RenderLines, NoCrlf;
    var section := RenderLines(lines) + CRLF;
    var buf := RenderLines(lines) + [CR];
    forall k | 0 <= k <= |buf| ensures !EndsSection(buf[..k]) {
      var cut := section[..k];
      assert buf[..k] == cut;
      if EndsSection(cut) {
        if cut == CRLF {
          assert CrlfAt(cut, 0);
          NoEarlyBlankLine(lines, 0);
        } else {
          assert CrlfAt(cut, k - 4) && CrlfAt(cut, k - 2);
          NoEarlyBlankLine(lines, k - 4);
        }
      }
    }
  }

  lemma LinesAreNotEmpty(lines: seq<seq<Byte>>)
    requires LinesOk(lines)
    ensures forall j :: 0 <= j < |lines| ==> lines[j] != []
  {
    hide LineTrailer;
    forall j | 0 <= j < |lines| ensures lines[j] != [] {
      TrailerLineHasColon(lines[j]);
    }
  }

  lemma RunTrailerSection(s: Stream, lines: seq<seq<Byte>>)
    requires s.state.Trailers? && s.lineBuf == []
    requires LinesOk(lines) && forall j :: 0 <= j < |lines| ==> NoCrlf(lines[j])
    requires |RenderLines(lines)| <= LINE_CAP
    ensures Run(s, RenderLines(lines) + CRLF) ==
      Ok(Fed(s, |RenderLines(lines)| + 2).(state := Done, trailers := LineTrailers(lines)))
  {
    hide Run, LineTrailer, LineTrailers, TrailerLines, RenderLines, EndsSection, EndsLine;
    LinesAreNotEmpty(lines);
    SectionIsUnterminatedBefore(lines);
    var buf := RenderLines(lines) + [CR];
    assert [] + buf == buf;
    RunPartialSection(s, buf);
    var t := Fed(s, |buf|).(lineBuf := buf);
    RunOne(t, LF);
    RunIsHomomorphic(s, buf, [LF]);
    assert buf + [LF] == RenderLines(lines) + CRLF == RenderLines(lines) + CRLF + [];
    SectionOfLines(lines);
    TrailerLinesComplete(lines, [], 0);
  }

  lemma StreamComplete(f: Frame)
    requires WellFormed(f) && WithinStreamingCaps(f)
    ensures var r := Run(START, Render(f));
      r.Ok? && r.value.state.Done? && Decoded(r.value.out, r.value.trailers) == Meaning(f)
  {
    hide Run, HeaderSize, LineTrailer, LineTrailers, RenderLines;
    var a, b, c := RenderChunks(f.chunks), f.last + CRLF, RenderLines(f.lines) + CRLF;
    RunChunks(START, f.chunks);
    var s := Run(START, a).value;
    RunHeaderLine(s, f.last);
    var t := Run(s, b).value;
    RunTrailerSection(t, f.lines);
    RunIsHomomorphic(s, b, c);
    RunIsHomomorphic(START, a, b + c);
    assert [] + ChunkData(f.chunks) == ChunkData(f.chunks);
  }

  // ---- The theorem ----

  /** For every body and every slicing of it, the incremental decoder yields `d` exactly when the
      whole-buffer decoder does and the body is within the streaming caps. */
  lemma DecodersAgree(slices: seq<seq<Byte>>, d: Decoded)
    ensures StreamDecode(slices) == Ok(d) <==>
      && Decode(Flatten(slices)) == Ok(d)
      && WithinStreamingCaps(Parse(Flatten(slices), |Flatten(slices)|).value)
  {
    hide Run, RunSlices, WithinStreamingCaps, Render, WellFormed, Parse;
    var body := Flatten(slices);
    SlicingDoesNotMatter(START, slices);
    if StreamDecode(slices) == Ok(d) {
      var f := StreamSound(body);
      ParseComplete(f, |body|);
    }
    if Decode(body) == Ok(d) && WithinStreamingCaps(Parse(body, |body|).value) {
      ParseSound(body, |body|);
      StreamComplete(Parse(body, |body|).value);
    }
  }

  /** The incremental decoder never accepts what the whole-buffer decoder rejects. */
  lemma StreamingRefinesWholeBuffer(slices: seq<seq<Byte>>)
    ensures StreamDecode(slices).Ok? ==> Decode(Flatten(slices)) == StreamDecode(slices)
  {
    hide StreamDecode, Decode;
    if StreamDecode(slices).Ok? {
      DecodersAgree(slices, StreamDecode(slices).value);
    }
  }
}
