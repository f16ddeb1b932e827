/** The aws-chunked wire format: what a body is, apart from how it is decoded.

    A `Frame` is a parse tree. `Render` prints it and `WellFormed` says which trees
    the format admits; both decoders are proved against these two definitions. */
module ChunkedFormat {
  import opened Basics
  import opened Bytes

  const MAX_TRAILER_SECTION_BYTES: nat := 8192

  datatype ChunkedError =
    | InvalidChunkHeader
    | InvalidChunkSize
    | UnexpectedEof
    | LengthMismatch(expected: nat, actual: nat)
    | TrailerTooLarge(size: nat, max: nat)

  datatype Result<+T> = Ok(value: T) | Err(error: ChunkedError) {
    predicate IsFailure() { Err? }
    function PropagateFailure<U>(): Result<U>
      requires Err?
    {
      Err(error)
    }
    function Extract(): T
      requires Ok?
    {
      value
    }
  }

  datatype Trailer = Trailer(key: seq<Byte>, value: seq<Byte>)
  datatype Decoded = Decoded(data: seq<Byte>, trailers: seq<Trailer>)

  datatype Chunk = Chunk(header: seq<Byte>, data: seq<Byte>)
  datatype Frame = Frame(chunks: seq<Chunk>, last: seq<Byte>, lines: seq<seq<Byte>>)

  // ---- Reading one line ----

  /** The size in a chunk header: hexadecimal text before the first semicolon. */
  function ParseChunkSize(header: seq<Byte>): Result<nat> {
    var cut := IndexOf(header, SEMICOLON);
    var sizeText := Trim(if cut.Some? then header[..cut.value] else header);
    if sizeText == [] then Err(InvalidChunkSize)
    else
      var n := ParseHex(sizeText);
      if n.Some? then Ok(n.value) else Err(InvalidChunkSize)
  }

  function HeaderSize(header: seq<Byte>): Result<nat> {
    if !ValidUtf8(header) then Err(InvalidChunkHeader) else ParseChunkSize(header)
  }

  function LineTrailer(line: seq<Byte>): Result<Trailer> {
    if !ValidUtf8(line) then Err(InvalidChunkHeader)
    else
      var colon := IndexOf(line, COLON);
      if colon.None? then Err(InvalidChunkHeader)
      else Ok(Trailer(Trim(line[..colon.value]), Trim(line[colon.value + 1..])))
  }

  // ---- Printing ----

  function RenderChunk(c: Chunk): seq<Byte> { (c.header + CRLF) + (c.data + CRLF) }

  function RenderChunks(cs: seq<Chunk>): seq<Byte> {
    if cs == [] then [] else RenderChunk(cs[0]) + RenderChunks(cs[1..])
  }

  function RenderLines(lines: seq<seq<Byte>>): seq<Byte> {
    if lines == [] then [] else lines[0] + CRLF + RenderLines(lines[1..])
  }

  function Render(f: Frame): seq<Byte> {
    RenderChunks(f.chunks) + (f.last + CRLF + (RenderLines(f.lines) + CRLF))
  }

  // ---- Meaning ----

  function ChunkData(cs: seq<Chunk>): seq<Byte> {
    if cs == [] then [] else cs[0].data + ChunkData(cs[1..])
  }

  function Meaning(f: Frame): Decoded
    requires LinesOk(f.lines)
  {
    Decoded(ChunkData(f.chunks), LineTrailers(f.lines))
  }

  function LineTrailers(lines: seq<seq<Byte>>): (ts: seq<Trailer>)
    requires LinesOk(lines)
  {
    if lines == [] then [] else [LineTrailer(lines[0]).value] + LineTrailers(lines[1..])
  }

  // ---- Which trees the format admits ----

  ghost predicate ChunkOk(c: Chunk) {
    NoCrlf(c.header) && c.data != [] && HeaderSize(c.header) == Ok(|c.data|)
  }

  predicate LinesOk(lines: seq<seq<Byte>>) {
    forall i :: 0 <= i < |lines| ==> LineTrailer(lines[i]).Ok?
  }

  ghost predicate WellFormed(f: Frame) {
    && (forall i :: 0 <= i < |f.chunks| ==> ChunkOk(f.chunks[i]))
    && NoCrlf(f.last) && HeaderSize(f.last) == Ok(0)
    && LinesOk(f.lines) && (forall i :: 0 <= i < |f.lines| ==> NoCrlf(f.lines[i]))
    && |RenderLines(f.lines)| <= MAX_TRAILER_SECTION_BYTES
  }

  // ---- Appending at the end ----

  lemma {:induction false} RenderSnoc(cs: seq<Chunk>, c: Chunk)
    ensures RenderChunks(cs + [c]) == RenderChunks(cs) + RenderChunk(c)
    ensures ChunkData(cs + [c]) == ChunkData(cs) + c.data
  {
    if cs == [] {
      assert cs + [c] == [c];
    } else {
      assert (cs + [c])[1..] == cs[1..] + [c];
      RenderSnoc(cs[1..], c);
    }
  }

  // ---- Cutting off one line ----

  /** The first line of `s`, without its CRLF, and what follows it. */
  function SplitLine(s: seq<Byte>): (r: Option<(seq<Byte>, seq<Byte>)>)
    ensures r.Some? ==> |r.value.1| + |r.value.0| + 2 == |s|
  {
    var e := FindCrlf(s, 0);
    if e.None? then None else Some((s[..e.value], s[e.value + 2..]))
  }

  lemma SplitLineSound(s: seq<Byte>)
    requires SplitLine(s).Some?
    ensures var (line, rest) := SplitLine(s).value; s == line + CRLF + rest && NoCrlf(line)
  {
    var e := FindCrlf(s, 0).value;
    forall i ensures !CrlfAt(s[..e], i) {
      assert CrlfAt(s[..e], i) ==> CrlfAt(s, i);
    }
  }

  lemma SplitLineComplete(line: seq<Byte>, rest: seq<Byte>)
    requires NoCrlf(line)
    ensures SplitLine(line + CRLF + rest) == Some((line, rest))
  {
    var s := line + CRLF + rest;
    assert CrlfAt(s, |line|);
    forall j | j < |line| ensures !CrlfAt(s, j) {
      assert !CrlfAt(line, j);
    }
    var e := FindCrlf(s, 0).value;
    assert e == |line|;
    assert s[..e] == line && s[e + 2..] == rest;
  }

  /** Cutting a line off `body[pos..]` is finding the next CRLF from `pos`. */
  lemma SplitLineAt(body: seq<Byte>, pos: nat)
    requires pos <= |body|
    ensures var e := FindCrlf(body, pos);
      match SplitLine(body[pos..])
      case None => e.None?
      case Some((line, rest)) => e.Some? && line == body[pos..e.value] && rest == body[e.value + 2..]
  {
    var s := body[pos..];
    forall i ensures CrlfAt(s, i) <==> (0 <= i && CrlfAt(body, pos + i)) {}
    var e, k := FindCrlf(body, pos), FindCrlf(s, 0);
    if e.Some? {
      assert CrlfAt(s, e.value - pos);
    }
    if k.Some? {
      assert CrlfAt(body, pos + k.value);
      assert s[k.value + 2..] == body[pos + k.value + 2..];
    }
  }

  lemma TrailerLineHasColon(line: seq<Byte>)
    requires LineTrailer(line).Ok?
    ensures line != []
  {
  }
}
