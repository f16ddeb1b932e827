/** How both decoders fail on bodies that are cut short or carry on too long. */
module ChunkedFailures {
  import opened Bytes
  import opened ChunkedFormat
  import opened ChunkedWhole
  import opened ChunkedStream
  import opened ChunkedAgreement

  // ---- Bytes after the end ----

  /** Bytes after a complete body are reported with both lengths. */
  lemma ExtraBytesAreRefused(f: Frame, extra: seq<Byte>)
    requires WellFormed(f) && extra != []
    ensures var body := Render(f);
      Decode(body + extra) == Err(LengthMismatch(|body|, |body| + |extra|))
  {
    hide LineTrailer, HeaderSize, TrailerLines, Parse, RenderChunks, RenderLines, LineTrailers;
    var tail := RenderLines(f.lines) + CRLF;
    var body := Render(f);
    assert body + extra == RenderChunks(f.chunks) + (f.last + CRLF + (tail + extra));
    ParseChunksThen(f, tail + extra, |body| + |extra|);
    TrailerLinesComplete(f.lines, extra, 0);
  }

  /** The incremental decoder refuses them too, under every slicing, and knows where the body ended. */
  lemma StreamRefusesExtraBytes(f: Frame, extra: seq<Byte>, slices: seq<seq<Byte>>)
    requires WellFormed(f) && WithinStreamingCaps(f) && extra != []
    requires Flatten(slices) == Render(f) + extra
    ensures var r := StreamDecode(slices);
      r.Err? && r.error.LengthMismatch? && r.error.expected == |Render(f)|
  {
    hide Run, RunSlices, Flatten, Render, WellFormed, WithinStreamingCaps;
    var body := Render(f);
    StreamComplete(f);
    StartIsBounded();
    CarryOverIsBounded(START, body);
    RunIsHomomorphic(START, body, extra);
    RunDone(Run(START, body).value, extra);
    SlicingDoesNotMatter(START, slices);
  }

  lemma StartIsBounded()
    ensures Bounded(START)
  {
  }

  // ---- A body cut short ----

  lemma NoLineYet(line: seq<Byte>, rest: seq<Byte>, n: nat)
    requires NoCrlf(line) && n < |line| + 2
    ensures SplitLine((line + CRLF + rest)[..n]).None?
  {
    var s := line + CRLF + rest;
    forall i ensures !CrlfAt(s[..n], i) {
      assert !CrlfAt(line, i);
    }
  }

  lemma {:induction false} CutSection(lines: seq<seq<Byte>>, used: nat, n: nat)
    requires LinesOk(lines) && forall i :: 0 <= i < |lines| ==> NoCrlf(lines[i])
    requires used + |RenderLines(lines)| <= MAX_TRAILER_SECTION_BYTES && n < |RenderLines(lines)| + 2
    ensures TrailerLines((RenderLines(lines) + CRLF)[..n], used) == Err(UnexpectedEof)
    decreases |lines|
  {
    hide LineTrailer, SplitLine, NoCrlf;
    var s := (RenderLines(lines) + CRLF)[..n];
    if lines == [] {
      EmptyLine();
      NoLineYet([], [], n);
      assert s == ([] + CRLF + [])[..n];
    } else {
      var line, tail := lines[0], RenderLines(lines[1..]) + CRLF;
      assert RenderLines(lines) + CRLF == line + CRLF + tail;
      if n < |line| + 2 {
        NoLineYet(line, tail, n);
      } else {
        var m := n - |line| - 2;
        assert s == line + CRLF + tail[..m];
        SplitLineComplete(line, tail[..m]);
        TrailerLineHasColon(line);
        CutSection(lines[1..], used + |line| + 2, m);
      }
    }
  }

  lemma EmptyLine()
    ensures NoCrlf([])
  {
  }

  lemma {:induction false} CutBody(f: Frame, n: nat, total: nat)
    requires WellFormed(f) && n < |Render(f)| && n <= total
    ensures Parse(Render(f)[..n], total) == Err(UnexpectedEof)
    decreases |f.chunks|
  {
    hide LineTrailer, HeaderSize, SplitLine, TrailerLines, NoCrlf, RenderLines;
    var s := Render(f)[..n];
    if f.chunks == [] {
      var tail := RenderLines(f.lines) + CRLF;
      assert Render(f) == f.last + CRLF + tail;
      if n < |f.last| + 2 {
        NoLineYet(f.last, tail, n);
      } else {
        var m := n - |f.last| - 2;
        assert s == f.last + CRLF + tail[..m];
        SplitLineComplete(f.last, tail[..m]);
        CutSection(f.lines, 0, m);
      }
    } else {
      var c, g := f.chunks[0], f.(chunks := f.chunks[1..]);
      RenderCons(f);
      var rest := c.data + CRLF + Render(g);
      assert ChunkOk(c);
      if n < |c.header| + 2 {
        NoLineYet(c.header, rest, n);
      } else {
        var m := n - |c.header| - 2;
        assert s == c.header + CRLF + rest[..m];
        SplitLineComplete(c.header, rest[..m]);
        if m >= |c.data| + 2 {
          var k := m - |c.data| - 2;
          assert rest[..m] == c.data + CRLF + Render(g)[..k];
          assert CrlfAt(rest[..m], |c.data|) && rest[..m][|c.data| + 2..] == Render(g)[..k];
          CutBody(g, k, total);
        }
      }
    }
  }

  /** Every proper prefix of a well-formed body ends too early, and both decoders say so. */
  lemma TruncationIsUnexpectedEof(f: Frame, n: nat)
    requires WellFormed(f) && n < |Render(f)|
    ensures Decode(Render(f)[..n]) == Err(UnexpectedEof)
  {
    hide Parse, Render, WellFormed, LineTrailers;
    CutBody(f, n, n);
  }

  lemma StreamTruncationIsUnexpectedEof(f: Frame, n: nat, slices: seq<seq<Byte>>)
    requires WellFormed(f) && WithinStreamingCaps(f) && n < |Render(f)|
    requires Flatten(slices) == Render(f)[..n]
    ensures StreamDecode(slices) == Err(UnexpectedEof)
  {
    hide Run, RunSlices, Flatten, Render, WellFormed, WithinStreamingCaps;
    var a, b := Render(f)[..n], Render(f)[n..];
    assert a + b == Render(f);
    StreamComplete(f);
    RunIsHomomorphic(START, a, b);
    if Run(START, a).Ok? && Run(START, a).value.state.Done? {
      RunDone(Run(START, a).value, b);
    }
    SlicingDoesNotMatter(START, slices);
  }

  // ---- Other faults ----

  /** A fault behind well-formed chunks is reported as it is. */
  lemma {:induction false} FaultComesThrough(cs: seq<Chunk>, s: seq<Byte>, total: nat)
    requires forall i :: 0 <= i < |cs| ==> ChunkOk(cs[i])
    requires |RenderChunks(cs) + s| <= total && Parse(s, total).Err?
    ensures Parse(RenderChunks(cs) + s, total) == Parse(s, total)
    decreases |cs|
  {
    hide LineTrailer, HeaderSize, SplitLine, TrailerLines;
    var whole := RenderChunks(cs) + s;
    if cs == [] {
      assert whole == s;
    } else {
      var c, more := cs[0], RenderChunks(cs[1..]) + s;
      var rest := c.data + CRLF + more;
      assert whole == c.header + CRLF + rest;
      SplitLineComplete(c.header, rest);
      assert CrlfAt(rest, |c.data|) && rest[|c.data| + 2..] == more;
      FaultComesThrough(cs[1..], s, total);
    }
  }

  /** Data that is not followed by a line end makes an invalid header. */
  lemma UnterminatedDataIsRefused(cs: seq<Chunk>, c: Chunk, a: Byte, b: Byte, rest: seq<Byte>)
    requires (forall i :: 0 <= i < |cs| ==> ChunkOk(cs[i])) && ChunkOk(c) && [a, b] != CRLF
    ensures Decode(RenderChunks(cs) + (c.header + CRLF + (c.data + [a, b] + rest))) == Err(InvalidChunkHeader)
  {
    hide LineTrailer, HeaderSize, SplitLine, TrailerLines, RenderChunks, LineTrailers;
    var tail := c.data + [a, b] + rest;
    var s := c.header + CRLF + tail;
    SplitLineComplete(c.header, tail);
    assert tail[|c.data|] == a && tail[|c.data| + 1] == b;
    FaultComesThrough(cs, s, |RenderChunks(cs) + s|);
  }

  /** A header that is no size, behind well-formed chunks, is reported with its own error. */
  lemma BadHeaderIsRefused(cs: seq<Chunk>, header: seq<Byte>, rest: seq<Byte>)
    requires (forall i :: 0 <= i < |cs| ==> ChunkOk(cs[i])) && NoCrlf(header) && HeaderSize(header).Err?
    ensures Decode(RenderChunks(cs) + (header + CRLF + rest)) == Err(HeaderSize(header).error)
  {
    hide LineTrailer, HeaderSize, SplitLine, TrailerLines, RenderChunks, LineTrailers;
    var s := header + CRLF + rest;
    SplitLineComplete(header, rest);
    FaultComesThrough(cs, s, |RenderChunks(cs) + s|);
  }

  lemma {:induction false} OversizedSection(lines: seq<seq<Byte>>, rest: seq<Byte>, used: nat) returns (n: nat)
    requires LinesOk(lines) && forall i :: 0 <= i < |lines| ==> NoCrlf(lines[i])
    requires used <= 8192 < used + |RenderLines(lines)|
    ensures 8192 < n <= used + |RenderLines(lines)|
    ensures TrailerLines(RenderLines(lines) + CRLF + rest, used) == Err(TrailerTooLarge(n, 8192))
    decreases |lines|
  {
    hide LineTrailer, SplitLine;
    var line, tail := lines[0], RenderLines(lines[1..]) + CRLF + rest;
    assert RenderLines(lines) + CRLF + rest == line + CRLF + tail;
    SplitLineComplete(line, tail);
    TrailerLineHasColon(line);
    n := used + |line| + 2;
    if n <= 8192 {
      n := OversizedSection(lines[1..], rest, n);
    }
  }

  /** Trailers of more than 8192 bytes are refused as soon as a line goes beyond that. */
  lemma OversizedTrailersAreRefused(f: Frame, rest: seq<Byte>) returns (n: nat)
    requires (forall i :: 0 <= i < |f.chunks| ==> ChunkOk(f.chunks[i])) && NoCrlf(f.last) && HeaderSize(f.last) == Ok(0)
    requires LinesOk(f.lines) && (forall i :: 0 <= i < |f.lines| ==> NoCrlf(f.lines[i]))
    requires |RenderLines(f.lines)| > 8192
    ensures 8192 < n <= |RenderLines(f.lines)|
    ensures Decode(Render(f) + rest) == Err(TrailerTooLarge(n, 8192))
  {
    hide LineTrailer, HeaderSize, TrailerLines, Parse, RenderChunks, RenderLines, LineTrailers;
    var tail := RenderLines(f.lines) + CRLF + rest;
    n := OversizedSection(f.lines, rest, 0);
    assert Render(f) + rest == RenderChunks(f.chunks) + (f.last + CRLF + tail);
    ParseChunksThen(f, tail, |Render(f) + rest|);
  }
}
