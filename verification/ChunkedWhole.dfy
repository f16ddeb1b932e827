/** The whole-buffer decoder, and its soundness and completeness for the format. */
module ChunkedWhole {
  import opened Bytes
  import opened ChunkedFormat

  datatype Section = Section(lines: seq<seq<Byte>>, rest: seq<Byte>)

  /** Reads a trailer section from `s`, of which `used` bytes are already behind. */
  function TrailerLines(s: seq<Byte>, used: nat): (r: Result<Section>)
    ensures r.Ok? ==> |r.value.rest| <= |s|
    decreases |s|
  {
    var cut := SplitLine(s);
    if cut.None? then Err(UnexpectedEof)
    else
      var (line, rest) := cut.value;
      if line == [] then Ok(Section([], rest))
      else if used + |line| + 2 > MAX_TRAILER_SECTION_BYTES then
        Err(TrailerTooLarge(used + |line| + 2, MAX_TRAILER_SECTION_BYTES))
      else
        var _ :- LineTrailer(line);
        var more :- TrailerLines(rest, used + |line| + 2);
        Ok(Section([line] + more.lines, more.rest))
  }

  /** The parse tree of `s`, the last part of a body of `total` bytes. */
  function Parse(s: seq<Byte>, total: nat): Result<Frame>
    requires |s| <= total
    decreases |s|
  {
    var cut := SplitLine(s);
    if cut.None? then Err(UnexpectedEof)
    else
      var (header, rest) := cut.value;
      var size :- HeaderSize(header);
      if size == 0 then
        var section :- TrailerLines(rest, 0);
        if section.rest != [] then Err(LengthMismatch(total - |section.rest|, total))
        else Ok(Frame([], header, section.lines))
      else if size + 2 > |rest| then Err(UnexpectedEof)
      else if !CrlfAt(rest, size) then Err(InvalidChunkHeader)
      else
        var more :- Parse(rest[size + 2..], total);
        Ok(more.(chunks := [Chunk(header, rest[..size])] + more.chunks))
  }

  // ---- Soundness: an accepted body is the printed form of a well-formed tree ----

  lemma {:induction false} TrailerLinesSound(s: seq<Byte>, used: nat)
    requires TrailerLines(s, used).Ok?
    ensures var r := TrailerLines(s, used).value;
      && s == RenderLines(r.lines) + CRLF + r.rest
      && LinesOk(r.lines)
      && (forall i :: 0 <= i < |r.lines| ==> NoCrlf(r.lines[i]))
      && (r.lines != [] ==> used + |RenderLines(r.lines)| <= MAX_TRAILER_SECTION_BYTES)
    decreases |s|
  {
    hide LineTrailer, HeaderSize, SplitLine;
    SplitLineSound(s);
    var (line, rest) := SplitLine(s).value;
    if line != [] {
      TrailerLinesSound(rest, used + |line| + 2);
      var r := TrailerLines(s, used).value;
      assert r.lines[1..] == TrailerLines(rest, used + |line| + 2).value.lines;
    }
  }

  lemma {:induction false} ParseSound(s: seq<Byte>, total: nat)
    requires |s| <= total && Parse(s, total).Ok?
    ensures WellFormed(Parse(s, total).value)
    ensures Render(Parse(s, total).value) == s
    decreases |s|
  {
    hide LineTrailer, HeaderSize, SplitLine;
    SplitLineSound(s);
    var f := Parse(s, total).value;
    var (header, rest) := SplitLine(s).value;
    var size := HeaderSize(header).value;
    if size == 0 {
      TrailerLinesSound(rest, 0);
      assert rest == RenderLines(f.lines) + CRLF;
    } else {
      ParseSound(rest[size + 2..], total);
      var more := Parse(rest[size + 2..], total).value;
      assert f.chunks[1..] == more.chunks;
      assert rest == rest[..size] + CRLF + rest[size + 2..];
      RenderCons(f);
    }
  }

  lemma RenderCons(f: Frame)
    requires f.chunks != []
    ensures var c := f.chunks[0];
      Render(f) == c.header + CRLF + (c.data + CRLF + Render(f.(chunks := f.chunks[1..])))
  {
  }

  // ---- Completeness: the printed form of a well-formed tree is accepted, as that tree ----

  lemma {:induction false} TrailerLinesComplete(lines: seq<seq<Byte>>, rest: seq<Byte>, used: nat)
    requires LinesOk(lines) && forall i :: 0 <= i < |lines| ==> NoCrlf(lines[i])
    requires used + |RenderLines(lines)| <= MAX_TRAILER_SECTION_BYTES
    ensures TrailerLines(RenderLines(lines) + CRLF + rest, used) == Ok(Section(lines, rest))
    decreases |lines|
  {
    hide LineTrailer, HeaderSize, SplitLine;
    var s := RenderLines(lines) + CRLF + rest;
    if lines == [] {
      SplitLineComplete([], rest);
      assert s == [] + CRLF + rest;
    } else {
      var line, tail := lines[0], RenderLines(lines[1..]) + CRLF + rest;
      assert s == line + CRLF + tail;
      SplitLineComplete(line, tail);
      TrailerLineHasColon(line);
      TrailerLinesComplete(lines[1..], rest, used + |line| + 2);
      assert lines == [line] + lines[1..];
    }
  }

  /** Reading printed chunks and a zero-size header leaves the trailer section to be read. */
  lemma {:induction false} ParseChunksThen(f: Frame, tail: seq<Byte>, total: nat)
    requires forall i :: 0 <= i < |f.chunks| ==> ChunkOk(f.chunks[i])
    requires NoCrlf(f.last) && HeaderSize(f.last) == Ok(0)
    requires |RenderChunks(f.chunks) + (f.last + CRLF + tail)| <= total
    ensures Parse(RenderChunks(f.chunks) + (f.last + CRLF + tail), total) ==
      var section :- TrailerLines(tail, 0);
      if section.rest != [] then Err(LengthMismatch(total - |section.rest|, total))
      else Ok(f.(lines := section.lines))
    decreases |f.chunks|
  {
    hide LineTrailer, HeaderSize, SplitLine, TrailerLines;
    var s := RenderChunks(f.chunks) + (f.last + CRLF + tail);
    if f.chunks == [] {
      assert s == f.last + CRLF + tail;
      SplitLineComplete(f.last, tail);
    } else {
      var c, g := f.chunks[0], f.(chunks := f.chunks[1..]);
      var more := RenderChunks(g.chunks) + (f.last + CRLF + tail);
      var rest := c.data + CRLF + more;
      assert s == c.header + CRLF + rest;
      SplitLineComplete(c.header, rest);
      assert CrlfAt(rest, |c.data|) && rest[..|c.data|] == c.data && rest[|c.data| + 2..] == more;
      ParseChunksThen(g, tail, total);
      assert f.chunks == [c] + g.chunks;
    }
  }

  lemma ParseComplete(f: Frame, total: nat)
    requires WellFormed(f) && |Render(f)| <= total
    ensures Parse(Render(f), total) == Ok(f)
  {
    hide LineTrailer, HeaderSize, TrailerLines, Parse, RenderChunks, RenderLines;
    var tail := RenderLines(f.lines) + CRLF;
    ParseChunksThen(f, tail, total);
    TrailerLinesComplete(f.lines, [], 0);
    assert tail + [] == tail;
  }

  function Decode(body: seq<Byte>): Result<Decoded> {
    var f :- Parse(body, |body|);
    ParseSound(body, |body|);
    Ok(Meaning(f))
  }

  /** The decoder accepts exactly the printed well-formed trees, and reports what they mean. */
  lemma DecodeAcceptsExactlyTheFormat(body: seq<Byte>, d: Decoded)
    ensures Decode(body) == Ok(d) <==> exists f :: WellFormed(f) && Render(f) == body && Meaning(f) == d
  {
    hide LineTrailer, HeaderSize, Parse, Render;
    if Parse(body, |body|).Ok? {
      ParseSound(body, |body|);
    }
    forall f | WellFormed(f) && Render(f) == body
      ensures Parse(body, |body|) == Ok(f)
    {
      ParseComplete(f, |body|);
    }
  }

  /** No body has two readings. */
  lemma FormatIsUnambiguous(f: Frame, g: Frame)
    requires WellFormed(f) && WellFormed(g) && Render(f) == Render(g)
    ensures f == g
  {
    ParseComplete(f, |Render(f)|);
    ParseComplete(g, |Render(f)|);
  }

  // ---- The loops of the source ----

  ghost function PrependLines(lines: seq<seq<Byte>>, r: Result<Section>): Result<Section> {
    if r.Ok? then Ok(Section(lines + r.value.lines, r.value.rest)) else r
  }

  lemma {:induction false} LineTrailersSnoc(lines: seq<seq<Byte>>, line: seq<Byte>)
    requires LinesOk(lines) && LineTrailer(line).Ok?
    ensures LinesOk(lines + [line])
    ensures LineTrailers(lines + [line]) == LineTrailers(lines) + [LineTrailer(line).value]
  {
    hide LineTrailer;
    if lines == [] {
      assert lines + [line] == [line];
    } else {
      assert (lines + [line])[1..] == lines[1..] + [line];
      LineTrailersSnoc(lines[1..], line);
    }
  }

  /** One turn of the trailer loop, in terms of positions in the buffer. */
  lemma TrailerLinesAt(body: seq<Byte>, pos: nat, used: nat)
    requires pos <= |body|
    ensures TrailerLines(body[pos..], used) ==
      var e := FindCrlf(body, pos);
      if e.None? then Err(UnexpectedEof)
      else if e.value == pos then Ok(Section([], body[pos + 2..]))
      else
        var u := used + e.value - pos + 2;
        if u > MAX_TRAILER_SECTION_BYTES then Err(TrailerTooLarge(u, MAX_TRAILER_SECTION_BYTES))
        else
          var _ :- LineTrailer(body[pos..e.value]);
          PrependLines([body[pos..e.value]], TrailerLines(body[e.value + 2..], u))
  {
    hide LineTrailer, SplitLine;
    SplitLineAt(body, pos);
  }

  lemma PrependLinesTwice(a: seq<seq<Byte>>, b: seq<seq<Byte>>, r: Result<Section>)
    ensures PrependLines(a, PrependLines(b, r)) == PrependLines(a + b, r)
    ensures PrependLines([], r) == r
  {
    assert r.Ok? ==> a + (b + r.value.lines) == (a + b) + r.value.lines && [] + r.value.lines == r.value.lines;
  }

  /** `parse_trailers`: reads `key:value` lines from `start` up to the empty line. */
  method ParseTrailers(body: seq<Byte>, start: nat) returns (r: Result<seq<Trailer>>, pos: nat)
    requires start <= |body|
    ensures var spec := TrailerLines(body[start..], 0);
      match r
      case Ok(trailers) =>
        && spec.Ok? && LinesOk(spec.value.lines) && trailers == LineTrailers(spec.value.lines)
        && pos <= |body| && spec.value.rest == body[pos..]
      case Err(e) => spec == Err(e)
  {
    hide LineTrailer, TrailerLines, FindCrlf;
    var trailers: seq<Trailer> := [];
    ghost var lines: seq<seq<Byte>> := [];
    ghost var spec := TrailerLines(body[start..], 0);
    pos := start;
    PrependLinesTwice([], [], spec);
    while true
      invariant start <= pos <= |body|
      invariant LinesOk(lines) && trailers == LineTrailers(lines)
      invariant spec == PrependLines(lines, TrailerLines(body[pos..], pos - start))
      decreases |body| - pos
    {
      TrailerLinesAt(body, pos, pos - start);
      if pos + 2 <= |body| && body[pos] == CR && body[pos + 1] == LF {
        assert CrlfAt(body, pos);
        pos := pos + 2;
        assert lines + [] == lines;
        return Ok(trailers), pos;
      }
      if pos >= |body| {
        return Err(UnexpectedEof), pos;
      }
      var lineEnd := FindCrlf(body, pos);
      if lineEnd.None? {
        return Err(UnexpectedEof), pos;
      }
      var consumed := lineEnd.value + 2 - start;
      if consumed > MAX_TRAILER_SECTION_BYTES {
        return Err(TrailerTooLarge(consumed, MAX_TRAILER_SECTION_BYTES)), pos;
      }
      var line := body[pos..lineEnd.value];
      var trailer := LineTrailer(line);
      if trailer.Err? {
        return Err(trailer.error), pos;
      }
      LineTrailersSnoc(lines, line);
      trailers := trailers + [trailer.value];
      pos := lineEnd.value + 2;
      PrependLinesTwice(lines, [line], TrailerLines(body[pos..], pos - start));
      lines := lines + [line];
    }
  }

  ghost function PrependChunks(cs: seq<Chunk>, r: Result<Frame>): Result<Frame> {
    if r.Ok? then Ok(r.value.(chunks := cs + r.value.chunks)) else r
  }

  /** One turn of the chunk loop, in terms of positions in the buffer. */
  lemma ParseAt(body: seq<Byte>, pos: nat)
    requires pos <= |body|
    ensures Parse(body[pos..], |body|) ==
      var e := FindCrlf(body, pos);
      if e.None? then Err(UnexpectedEof)
      else
        var header := body[pos..e.value];
        var size :- HeaderSize(header);
        var p := e.value + 2;
        if size == 0 then
          var section :- TrailerLines(body[p..], 0);
          if section.rest != [] then Err(LengthMismatch(|body| - |section.rest|, |body|))
          else Ok(Frame([], header, section.lines))
        else if p + size + 2 > |body| then Err(UnexpectedEof)
        else if !CrlfAt(body, p + size) then Err(InvalidChunkHeader)
        else PrependChunks([Chunk(header, body[p..p + size])], Parse(body[p + size + 2..], |body|))
  {
    hide LineTrailer, HeaderSize, SplitLine, TrailerLines;
    SplitLineAt(body, pos);
    var e := FindCrlf(body, pos);
    if e.Some? && HeaderSize(body[pos..e.value]).Ok? {
      var p, size := e.value + 2, HeaderSize(body[pos..e.value]).value;
      if p + size + 2 <= |body| {
        assert CrlfAt(body[p..], size) <==> CrlfAt(body, p + size);
        assert body[p..][..size] == body[p..p + size] && body[p..][size + 2..] == body[p + size + 2..];
      }
    }
  }

  lemma PrependChunksTwice(a: seq<Chunk>, b: seq<Chunk>, r: Result<Frame>)
    ensures PrependChunks(a, PrependChunks(b, r)) == PrependChunks(a + b, r)
    ensures PrependChunks([], r) == r
  {
    assert r.Ok? ==> a + (b + r.value.chunks) == (a + b) + r.value.chunks && [] + r.value.chunks == r.value.chunks;
  }

  /** `decode_aws_chunked`. A slice is never longer than `usize::MAX`. */
  method DecodeAwsChunked(body: seq<Byte>) returns (r: Result<Decoded>)
    requires |body| <= USIZE_MAX
    ensures r == Decode(body)
  {
    hide LineTrailer, HeaderSize, Parse, TrailerLines, LineTrailers, FindCrlf;
    var result: seq<Byte> := [];
    var pos: nat := 0;
    ghost var chunks: seq<Chunk> := [];
    ghost var spec := Parse(body, |body|);
    PrependChunksTwice([], [], spec);
    assert body[0..] == body;
    while true
      invariant pos <= |body|
      invariant result == ChunkData(chunks)
      invariant spec == PrependChunks(chunks, Parse(body[pos..], |body|))
      decreases |body| - pos
    {
      ParseAt(body, pos);
      var headerEnd := FindCrlf(body, pos);
      if headerEnd.None? {
        return Err(UnexpectedEof);
      }
      var header := body[pos..headerEnd.value];
      var size := HeaderSize(header);
      if size.Err? {
        return Err(size.error);
      }
      pos := headerEnd.value + 2;
      if size.value == 0 {
        var trailers, end := ParseTrailers(body, pos);
        if trailers.Err? {
          return Err(trailers.error);
        }
        if end != |body| {
          return Err(LengthMismatch(end, |body|));
        }
        assert chunks + [] == chunks;
        return Ok(Decoded(result, trailers.value));
      }
      // `checked_add` refuses a size that would wrap around.
      if pos + size.value > USIZE_MAX || pos + size.value > |body| {
        return Err(UnexpectedEof);
      }
      var chunkEnd := pos + size.value;
      var data := body[pos..chunkEnd];
      result := result + data;
      if chunkEnd + 2 > |body| {
        return Err(UnexpectedEof);
      }
      if body[chunkEnd] != CR || body[chunkEnd + 1] != LF {
        return Err(InvalidChunkHeader);
      }
      RenderSnoc(chunks, Chunk(header, data));
      pos := chunkEnd + 2;
      PrependChunksTwice(chunks, [Chunk(header, data)], Parse(body[pos..], |body|));
      chunks := chunks + [Chunk(header, data)];
    }
  }
}
